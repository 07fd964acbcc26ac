/**
 The self-describing block header: a descriptor byte, the element count in zero to
 four bytes, and two parameter bytes for the block types that have parameters.
 */
module Header {
  import opened Wrappers
  import opened Words
  import opened Floats
  import opened Params

  const MAX_TYPE_BYTE: nat := 14
  const MAX_HEADER_LEN: nat := 7
  const CHUNK_SIZE_1024: nat := 1024

  // block types, for f64 and f32
  function TypeByte(k: FloatKind): nat { if k.F64? then 1 else 2 }
  function RawByte(k: FloatKind): nat { if k.F64? then 3 else 4 }
  function DeltaByte(k: FloatKind): nat { if k.F64? then 5 else 6 }
  function DecByte(k: FloatKind): nat { if k.F64? then 7 else 8 }
  function DecDeltaByte(k: FloatKind): nat { if k.F64? then 9 else 10 }
  function DictByte(k: FloatKind): nat { if k.F64? then 11 else 12 }
  function RdByte(k: FloatKind): nat { if k.F64? then 13 else 14 }

  function StandardType(k: FloatKind, p: AlpParams): nat {
    if p.useDiv then DecByte(k) else TypeByte(k)
  }

  function DeltaType(k: FloatKind, p: AlpParams): nat {
    if p.useDiv then DecDeltaByte(k) else DeltaByte(k)
  }

  predicate HasNoParams(t: nat) {
    t == 3 || t == 4 || t == 11 || t == 12 || t == 13 || t == 14
  }

  predicate IsDec(t: nat) {
    7 <= t <= 10
  }

  datatype ParsedHeader = ParsedHeader(
    typeByte: nat, count: nat, lenTag: nat, params: Option<AlpParams>, cursor: nat, hasRepeat: bool)

  // 0: one byte, 1: two bytes, 2: four bytes, 3: the preset 1024
  function LenTag(count: nat): nat {
    if count == CHUNK_SIZE_1024 then 3
    else if count <= 0xFF then 0
    else if count <= 0xFFFF then 1
    else 2
  }

  function CountBytes(count: nat): nat {
    if count == CHUNK_SIZE_1024 then 0
    else if count <= 0xFF then 1
    else if count <= 0xFFFF then 2
    else 4
  }

  // One, two or four bytes, as few as hold the count; none for the usual 1024.
  lemma CountBytesIff(count: nat, n: nat)
    requires count < COUNT_LIMIT && (n == 1 || n == 2 || n == 4)
    ensures CountBytes(count) <= n <==> count == CHUNK_SIZE_1024 || count < Pow2(8 * n)
    ensures CountBytes(count) == 0 <==> count == CHUNK_SIZE_1024
  {
    Pow2Of16();
    Pow2Of32();
  }

  function TagBytes(tag: nat): nat {
    if tag == 3 then 0 else if tag == 0 then 1 else if tag == 1 then 2 else 4
  }

  function HeaderLen(count: nat): nat { 1 + CountBytes(count) + 2 }
  function RawHeaderLen(count: nat): nat { 1 + CountBytes(count) }

  // type in bits 0-3, length tag in bits 4-5, repeat flag in bit 6
  function Descriptor(t: nat, repeat: bool, count: nat): byte {
    t % 16 + LenTag(count) * 16 + (if repeat then 64 else 0)
  }

  function WriteHeader(t: nat, repeat: bool, count: nat, params: Option<nat>): seq<byte> {
    [Descriptor(t, repeat, count)] + LeBytes(count, CountBytes(count))
      + (if params.Some? then LeBytes(params.value, 2) else [])
  }

  function ReadCount(src: seq<byte>): Result<nat> {
    if src == [] then Err(UnexpectedEof(1, 0))
    else
      var t := src[0] % 16;
      if t == 0 || t > MAX_TYPE_BYTE then Err(InvalidHeader)
      else
        var tag := src[0] / 16 % 4;
        if tag == 3 then Ok(CHUNK_SIZE_1024)
        else ReadCountField(src, TagBytes(tag))
  }

  function ReadCountField(src: seq<byte>, n: nat): Result<nat> {
    if |src| < 1 + n then Err(UnexpectedEof(1 + n, |src|)) else Ok(LeVal(src[1..1 + n]))
  }

  function ReadHeader(src: seq<byte>): Result<ParsedHeader> {
    var count :- ReadCount(src);
    var t := src[0] % 16;
    var repeat := src[0] / 64 % 2 == 1;
    var tag := src[0] / 16 % 4;
    var cursor := 1 + TagBytes(tag);
    if HasNoParams(t) || count == 0 then
      Ok(ParsedHeader(t, count, tag, None, cursor, repeat))
    else if |src| < cursor + 2 then
      Err(UnexpectedEof(cursor + 2, |src|))
    else
      var raw := LeVal(src[cursor..cursor + 2]);
      Ok(ParsedHeader(t, count, tag, Some(UnpackParams(raw, IsDec(t))), cursor + 2, repeat))
  }

  // Every header written is read back, whatever follows it.
  lemma HeaderRoundTrip(t: nat, repeat: bool, count: nat, params: Option<nat>, rest: seq<byte>)
    requires 1 <= t <= MAX_TYPE_BYTE && count < COUNT_LIMIT
    requires params.Some? <==> !HasNoParams(t) && count > 0
    requires params.Some? ==> params.value < 0x1_0000
    ensures var hdr := WriteHeader(t, repeat, count, params);
      && |hdr| == (if params.Some? then HeaderLen(count) else RawHeaderLen(count))
      && ReadHeader(hdr + rest) == Ok(ParsedHeader(t, count, LenTag(count),
           if params.Some? then Some(UnpackParams(params.value, IsDec(t))) else None, |hdr|, repeat))
  {
    var hdr := WriteHeader(t, repeat, count, params);
    var d, c := Descriptor(t, repeat, count), LeBytes(count, CountBytes(count));
    var p: seq<byte> := if params.Some? then LeBytes(params.value, 2) else [];
    DescriptorFields(t, repeat, count);
    assert hdr == [d] + c + p;
    HeaderFields(d, c, p, rest, hdr + rest);
    CountField(hdr + rest, count);
    if params.Some? {
      Pow2Of16();
      LeRoundTrip(params.value, 2);
    }
    HeaderParsed(hdr + rest, t, repeat, count, params);
  }

  lemma HeaderParsed(src: seq<byte>, t: nat, repeat: bool, count: nat, params: Option<nat>)
    requires ReadCount(src) == Ok(count) && src != []
    requires src[0] % 16 == t && src[0] / 16 % 4 == LenTag(count) && (src[0] / 64 % 2 == 1 <==> repeat)
    requires params.Some? <==> !HasNoParams(t) && count > 0
    requires var n := 1 + CountBytes(count);
      params.Some? ==> |src| >= n + 2 && LeVal(src[n..n + 2]) == params.value
    ensures ReadHeader(src) == Ok(ParsedHeader(t, count, LenTag(count),
      if params.Some? then Some(UnpackParams(params.value, IsDec(t))) else None,
      if params.Some? then HeaderLen(count) else RawHeaderLen(count), repeat))
  {
    assert TagBytes(LenTag(count)) == CountBytes(count);
  }

  lemma HeaderFields(d: byte, c: seq<byte>, p: seq<byte>, rest: seq<byte>, src: seq<byte>)
    requires src == [d] + c + p + rest
    ensures src[0] == d
    ensures src[1..1 + |c|] == c
    ensures src[1 + |c|..1 + |c| + |p|] == p
  {
  }

  lemma DescriptorFields(t: nat, repeat: bool, count: nat)
    requires t < 16
    ensures var d := Descriptor(t, repeat, count);
      d % 16 == t && d / 16 % 4 == LenTag(count) && (d / 64 % 2 == 1 <==> repeat)
  {
    var r := if repeat then 1 else 0;
    var d := t + LenTag(count) * 16 + r * 64;
    assert d / 16 == LenTag(count) + r * 4;
    assert d / 64 == r;
  }

  lemma CountField(src: seq<byte>, count: nat)
    requires count < COUNT_LIMIT && |src| >= 1 + CountBytes(count)
    requires 1 <= src[0] % 16 <= MAX_TYPE_BYTE && src[0] / 16 % 4 == LenTag(count)
    requires src[1..1 + CountBytes(count)] == LeBytes(count, CountBytes(count))
    ensures ReadCount(src) == Ok(count)
  {
    if CountBytes(count) > 0 {
      CountFits(count);
      LeRoundTrip(count, CountBytes(count));
    }
  }

  lemma CountFits(count: nat)
    requires count < COUNT_LIMIT
    ensures CountBytes(count) > 0 ==> count < Pow2(8 * CountBytes(count))
  {
    Pow2Of16();
    Pow2Of32();
  }

  // The O(1) count is the count of the full parse.
  lemma ReadCountAgrees(src: seq<byte>)
    ensures ReadHeader(src).Ok? ==> ReadCount(src) == Ok(ReadHeader(src).value.count)
    ensures ReadCount(src).Err? ==> ReadHeader(src) == Err(ReadCount(src).error)
  {
  }
}
