/**
 What decompression makes of a byte string: one function per block type, with the
 errors the decoder reports for strings that are no block.
 */
module Decoding {
  import opened Wrappers
  import opened Words
  import opened Floats
  import opened Params
  import opened Header
  import opened Blocks

  const MAX_DICT_ENTRIES: nat := 64
  const MAX_RD_DICT_SIZE: nat := 8
  const WORD_BITS: nat := 64

  // ---------- dictionary blocks ----------

  // dict[off & 63], the table padded with its first entry
  function DictEntry(dict: seq<nat>, off: nat): nat
    requires dict != []
  {
    if off % MAX_DICT_ENTRIES < |dict| then dict[off % MAX_DICT_ENTRIES] else dict[0]
  }

  function DictValues(dict: seq<nat>, offs: seq<nat>): (vs: seq<nat>)
    requires dict != []
    ensures |vs| == |offs|
  {
    seq(|offs|, i requires 0 <= i < |offs| => DictEntry(dict, offs[i]))
  }

  function DecodeDict(k: FloatKind, payload: seq<byte>, count: nat): Result<seq<nat>> {
    if |payload| < 2 then Err(UnexpectedEof(2, |payload|))
    else
      var dictLen, w := payload[0], payload[1];
      var start := 2 + dictLen * k.Size();
      if dictLen == 0 || dictLen > MAX_DICT_ENTRIES || w > 6 then Err(InvalidHeader)
      else if |payload| < start then Err(UnexpectedEof(start, |payload|))
      else
        var dict := RawValues(k, payload[2..start], dictLen);
        var packed := PackedSize(count, w);
        if w == 0 then Ok(seq(count, _ => dict[0]))
        else if |payload| < start + packed then Err(UnexpectedEof(start + packed, |payload|))
        else Ok(DictValues(dict, Unpack(payload[start..start + packed], count, w)))
  }

  // ---------- real-doubles blocks: high bits from a table, low bits packed ----------

  datatype RdException = RdException(pos: nat, left: nat)

  function U16s(bytes: seq<byte>): (r: seq<nat>)
    ensures |r| == |bytes| / 2
  {
    if |bytes| < 2 then [] else [LeVal(bytes[..2])] + U16s(bytes[2..])
  }

  // high bits and low bits put together and cut to the float's width
  function RdJoin(k: FloatKind, left: nat, right: nat, rightWidth: nat): nat {
    Low(BitOr(ShlWord(left, rightWidth, WORD_BITS), right), k.Bits())
  }

  // the 8-entry table, zero where the block gives none
  function RdEntry(dict: seq<nat>, off: nat): nat {
    if off % MAX_RD_DICT_SIZE < |dict| then dict[off % MAX_RD_DICT_SIZE] else 0
  }

  function RdValues(k: FloatKind, dict: seq<nat>, lefts: seq<nat>, rights: seq<nat>, rw: nat): (vs: seq<nat>)
    requires |lefts| == |rights|
    ensures |vs| == |rights|
  {
    seq(|rights|, i requires 0 <= i < |rights| => RdJoin(k, RdEntry(dict, lefts[i]), rights[i], rw))
  }

  function ReadRdExceptions(bytes: seq<byte>): seq<RdException> {
    if |bytes| < 4 then []
    else [RdException(LeVal(bytes[..2]), LeVal(bytes[2..4]))] + ReadRdExceptions(bytes[4..])
  }

  // An exception replaces the high bits and keeps the low bits already decoded.
  function PatchRd(k: FloatKind, vals: seq<nat>, es: seq<RdException>, rw: nat): Result<seq<nat>>
    decreases |es|
  {
    if es == [] then Ok(vals)
    else if es[0].pos >= |vals| then Err(CorruptedData(es[0].pos, |vals|))
    else PatchRd(k, vals[es[0].pos := RdJoin(k, es[0].left, Low(vals[es[0].pos], rw), rw)], es[1..], rw)
  }

  function Zeros(count: nat): (r: seq<nat>)
    ensures |r| == count
  {
    seq(count, _ => 0)
  }

  function LeftBytes(count: nat, leftWidth: nat): nat {
    if leftWidth > 0 then PackedSize(count, leftWidth) else 0
  }

  function DecodeRd(k: FloatKind, payload: seq<byte>, count: nat): Result<seq<nat>> {
    if |payload| < 5 then Err(UnexpectedEof(5, |payload|))
    else
      var rw, lw, size := payload[0], payload[1], payload[2];
      if size > MAX_RD_DICT_SIZE || rw == 0 || rw >= k.Bits() || lw > 3 then Err(InvalidHeader)
      else DecodeRdBody(k, payload, count, rw, lw, size, LeVal(payload[3..5]))
  }

  function DecodeRdBody(k: FloatKind, payload: seq<byte>, count: nat, rw: nat, lw: nat, size: nat, excCount: nat): Result<seq<nat>> {
    var leftAt, rightAt, excAt := 5 + size * 2, RdRightAt(count, lw, size), RdExcAt(count, rw, lw, size);
    if |payload| < leftAt then Err(UnexpectedEof(leftAt, |payload|))
    else if |payload| < excAt + excCount * 4 then Err(UnexpectedEof(excAt + excCount * 4, |payload|))
    else
      RdAssemble(k, count, rw, lw, payload[5..leftAt], payload[leftAt..rightAt], payload[rightAt..excAt],
                 payload[excAt..excAt + excCount * 4])
  }

  // where the low parts and the exceptions of a block start
  function RdRightAt(count: nat, lw: nat, size: nat): nat { 5 + size * 2 + LeftBytes(count, lw) }
  function RdExcAt(count: nat, rw: nat, lw: nat, size: nat): nat { RdRightAt(count, lw, size) + PackedSize(count, rw) }

  // Table, indices, low parts and exceptions of a block put together.
  function RdAssemble(k: FloatKind, count: nat, rw: nat, lw: nat,
                      dict: seq<byte>, left: seq<byte>, right: seq<byte>, exceptions: seq<byte>): Result<seq<nat>>
  {
    var lefts := if lw == 0 then Zeros(count) else Unpack(left, count, lw);
    PatchRd(k, RdValues(k, U16s(dict), lefts, Unpack(right, count, rw), rw), ReadRdExceptions(exceptions), rw)
  }

  // ---------- any block ----------

  predicate IsStandard(k: FloatKind, t: nat) { t == TypeByte(k) || t == DecByte(k) }
  predicate IsDelta(k: FloatKind, t: nat) { t == DeltaByte(k) || t == DecDeltaByte(k) }

  // The payload behind the header, repeats not yet expanded.
  function DecodeDirect(ar: Arith, src: seq<byte>, cursor: nat, t: nat, count: nat, params: Option<AlpParams>): Result<seq<nat>>
    requires cursor <= |src|
  {
    var k := ar.kind;
    if t == RawByte(k) then DecodeRaw(k, src, cursor, count)
    else if t == DictByte(k) then DecodeDict(k, src[cursor..], count)
    else if t == RdByte(k) then DecodeRd(k, src[cursor..], count)
    else if !IsStandard(k, t) && !IsDelta(k, t) then Err(InvalidHeader)
    else if params.None? then Err(InvalidHeader)
    else if !params.value.Validate(k) then
      Err(UnsupportedParams(params.value.exp, params.value.fac, params.value.bitWidth))
    else if IsDelta(k, t) then DecodeDelta(ar, src[cursor..], count, params.value)
    else DecodeStandard(ar, src[cursor..], count, params.value)
  }

  // ---------- repeats ----------

  // bit i of a bitmap, low bit of the first byte first
  predicate RepeatBit(bitmap: seq<byte>, i: nat)
    requires i < 8 * |bitmap|
  {
    Shr(bitmap[i / 8], i % 8) % 2 == 1
  }

  // bits set among the first n
  function Ones(bitmap: seq<byte>, n: nat): (r: nat)
    requires n <= 8 * |bitmap|
    ensures r <= n
  {
    if n == 0 then 0 else Ones(bitmap, n - 1) + (if RepeatBit(bitmap, n - 1) then 1 else 0)
  }

  // The non-repeat that element i shows: element 0 shows the first, a set bit shows
  // the same as the element before it, a clear bit the next one.
  function SourceIndex(bitmap: seq<byte>, i: nat): nat
    requires i < 8 * |bitmap|
  {
    if i == 0 then 0
    else SourceIndex(bitmap, i - 1) + (if RepeatBit(bitmap, i) then 0 else 1)
  }

  // Beyond the non-repeats there is nothing to show; 0 stands for it.
  function Shown(nonRepeats: seq<nat>, j: nat): nat {
    if j < |nonRepeats| then nonRepeats[j] else 0
  }

  function Expand(bitmap: seq<byte>, nonRepeats: seq<nat>, count: nat): (vs: seq<nat>)
    requires count <= 8 * |bitmap|
    ensures |vs| == count
  {
    seq(count, i requires 0 <= i < count => Shown(nonRepeats, SourceIndex(bitmap, i)))
  }

  function BitmapLen(count: nat): nat { (count + 7) / 8 }

  // A repeat block: bitmap, then the payload of the elements that are no repeats.
  function DecodeRepeat(ar: Arith, src: seq<byte>, cursor: nat, t: nat, count: nat, params: Option<AlpParams>): Result<seq<nat>>
    requires cursor <= |src|
  {
    var n := BitmapLen(count);
    if |src| < cursor + n then Err(UnexpectedEof(cursor + n, |src|))
    else DecodeBehind(ar, src, cursor + n, t, count, params, src[cursor..cursor + n])
  }

  function DecodeBehind(ar: Arith, src: seq<byte>, cursor: nat, t: nat, count: nat, params: Option<AlpParams>,
                        bitmap: seq<byte>): Result<seq<nat>>
    requires cursor <= |src| && count <= 8 * |bitmap|
  {
    var nonRepeats := NonRepeatCount(bitmap, count);
    if nonRepeats == 0 then Err(InvalidHeader)
    else ExpandResult(bitmap, DecodeDirect(ar, src, cursor, t, nonRepeats, params), count)
  }

  function NonRepeatCount(bitmap: seq<byte>, count: nat): nat
    requires count <= 8 * |bitmap|
  {
    count - Ones(bitmap, count)
  }

  function ExpandResult(bitmap: seq<byte>, r: Result<seq<nat>>, count: nat): Result<seq<nat>>
    requires count <= 8 * |bitmap|
  {
    if r.Err? then r else Ok(Expand(bitmap, r.value, count))
  }

  // Decodes one block into at most cap elements.
  function DecodeBlock(ar: Arith, src: seq<byte>, cap: nat): Result<seq<nat>> {
    var h :- ReadHeader(src);
    if h.count == 0 then Ok([])
    else if cap < h.count then Err(BufferTooSmall(h.count, cap))
    else if h.hasRepeat then DecodeRepeat(ar, src, h.cursor, h.typeByte, h.count, h.params)
    else DecodeDirect(ar, src, h.cursor, h.typeByte, h.count, h.params)
  }

  function Decompress(ar: Arith, src: seq<byte>): Result<seq<nat>> {
    var count :- ReadCount(src);
    if count == 0 then Ok([]) else DecodeBlock(ar, src, count)
  }
}
