/**
 Blocks that are cut short. A cut is an error, with one exception: a block cut right in
 front of its exception table reads as one without exceptions.
 */
module Truncation {
  import opened Wrappers
  import opened Words
  import opened Floats
  import opened Params
  import opened Packers
  import opened Header
  import opened Exceptions
  import opened Blocks
  import opened Deltas
  import opened Decoding
  import opened Prune
  import opened Lossless
  import opened Dictionary
  import opened RealDoubles

  predicate IsEof<T>(r: Result<T>) { r.Err? && r.error.UnexpectedEof? }

  // ---------- headers ----------

  // No header cut short is read.
  lemma HeaderCut(t: nat, repeat: bool, count: nat, params: Option<nat>, n: nat)
    requires 1 <= t <= MAX_TYPE_BYTE && 0 < count < COUNT_LIMIT
    requires params.Some? <==> !HasNoParams(t)
    requires params.Some? ==> params.value < 0x1_0000
    requires n < |WriteHeader(t, repeat, count, params)|
    ensures IsEof(ReadHeader(WriteHeader(t, repeat, count, params)[..n]))
  {
    var hdr := WriteHeader(t, repeat, count, params);
    var src := hdr[..n];
    if n > 0 {
      DescriptorFields(t, repeat, count);
      assert src[0] == hdr[0] == Descriptor(t, repeat, count);
      assert TagBytes(LenTag(count)) == CountBytes(count);
      if n > CountBytes(count) {
        var c, p := LeBytes(count, CountBytes(count)), if params.Some? then LeBytes(params.value, 2) else [];
        HeaderFields(hdr[0], c, p, [], hdr);
        assert src[1..1 + |c|] == hdr[1..1 + |c|];
        CountField(src, count);
      }
    }
  }

  // A header is read as before when something behind it is missing.
  lemma HeaderKept(t: nat, count: nat, params: Option<nat>, body: seq<byte>, n: nat)
    requires 1 <= t <= MAX_TYPE_BYTE && 0 < count < COUNT_LIMIT
    requires params.Some? <==> !HasNoParams(t)
    requires params.Some? ==> params.value < 0x1_0000
    requires var hdr := WriteHeader(t, false, count, params); |hdr| <= n <= |hdr| + |body|
    ensures var hdr := WriteHeader(t, false, count, params);
      var src := (hdr + body)[..n];
      && src == hdr + body[..n - |hdr|] && src[|hdr|..] == body[..n - |hdr|]
      && ReadHeader(src) == Ok(ParsedHeader(t, count, LenTag(count),
           if params.Some? then Some(UnpackParams(params.value, IsDec(t))) else None, |hdr|, false))
  {
    var hdr := WriteHeader(t, false, count, params);
    var rest := body[..n - |hdr|];
    assert (hdr + body)[..n] == hdr + rest;
    HeaderRoundTrip(t, false, count, params, rest);
  }

  // ---------- exception tables ----------

  // Without any byte there are no exceptions; a table cut inside is an error.
  lemma TableCut(k: FloatKind, vals: seq<nat>, es: seq<Exception>, j: nat)
    requires |es| < Pow2(8 * PosLen(IsLarge(|vals|))) && j < |ExceptionTable(k, |vals|, es)|
    ensures var r := PatchExceptions(k, ExceptionTable(k, |vals|, es)[..j], vals);
      if j == 0 then r == Ok(vals) else IsEof(r)
  {
    var large := IsLarge(|vals|);
    var p, table := PosLen(large), ExceptionTable(k, |vals|, es);
    EntriesSize(k, large, es);
    if j >= p {
      LeRoundTrip(|es|, p);
      assert table[..j][..p] == LeBytes(|es|, p);
    }
  }

  // ---------- blocks of offsets ----------

  // What such a block decodes to when its exceptions are not applied.
  function Unpatched(ar: Arith, p: AlpParams, ints: seq<int>): seq<nat>
    requires p.fac <= p.exp
  {
    DecodeInts(ar, p.Best(), ints)
  }

  lemma PartsCut(a: seq<byte>, b: seq<byte>, c: seq<byte>, m: nat)
    requires m <= |a + b + c|
    ensures var src := (a + b + c)[..m];
      && (m >= |a| ==> src[..|a|] == a)
      && (m >= |a| + |b| ==> src[|a|..|a| + |b|] == b && src[|a| + |b|..] == c[..m - |a| - |b|])
  {
  }

  lemma OffsetsBack(ar: Arith, p: AlpParams, ints: seq<int>, base: int)
    requires p.fac <= p.exp && AllInts(ar.kind, ints) && ar.kind.IsInt(base)
    requires AllBelow(Offsets(ar.kind, ints, base), p.bitWidth)
    ensures var packed := Packed(Offsets(ar.kind, ints, base), p.bitWidth);
      && |packed| == PackedSize(|ints|, p.bitWidth)
      && OffsetInts(ar.kind, Unpack(packed, |ints|, p.bitWidth), ReadBase(ar.kind, BaseBytes(ar.kind, base))) == ints
  {
    BaseRoundTrip(ar.kind, base);
    UnpackPacked(Offsets(ar.kind, ints, base), p.bitWidth);
    OffsetIntsRoundTrip(ar.kind, ints, base);
  }

  lemma PayloadCut(ar: Arith, p: AlpParams, slice: seq<nat>, ints: seq<int>, base: int, es: seq<Exception>, m: nat)
    requires Represents(ar, p.Best(), slice, ints, es) && AllBits(ar.kind, slice) && 0 < |slice| < COUNT_LIMIT
    requires ar.kind.IsInt(base) && AllBelow(Offsets(ar.kind, ints, base), p.bitWidth)
    requires m < |StandardPayload(ar.kind, p.bitWidth, ints, base, es)|
    ensures var src := StandardPayload(ar.kind, p.bitWidth, ints, base, es);
      var r := DecodeStandard(ar, src[..m], |slice|, p);
      if m + |ExceptionTable(ar.kind, |ints|, es)| == |src| then r == Ok(Unpatched(ar, p, ints)) else IsEof(r)
  {
    var k, w := ar.kind, p.bitWidth;
    var head, packed, table := BaseBytes(k, base), Packed(Offsets(k, ints, base), w), ExceptionTable(k, |ints|, es);
    PartsCut(head, packed, table, m);
    OffsetsBack(ar, p, ints, base);
    if m >= |head| + |packed| {
      SmallTableFits(k, es, slice);
      TableCut(k, Unpatched(ar, p, ints), es, m - |head| - |packed|);
    }
  }

  // Behind a header that was read the payload decides.
  lemma StandardDecodes(ar: Arith, p: AlpParams, src: seq<byte>, count: nat, cursor: nat, cap: nat)
    requires p.Validate(ar.kind) && 0 < count <= cap && cursor <= |src|
    requires ReadHeader(src) == Ok(ParsedHeader(StandardType(ar.kind, p), count, LenTag(count), Some(p), cursor, false))
    ensures DecodeBlock(ar, src, cap) == DecodeStandard(ar, src[cursor..], count, p)
  {
  }

  lemma DeltaDecodes(ar: Arith, p: AlpParams, src: seq<byte>, count: nat, cursor: nat, cap: nat)
    requires p.Validate(ar.kind) && 0 < count <= cap && cursor <= |src|
    requires ReadHeader(src) == Ok(ParsedHeader(DeltaType(ar.kind, p), count, LenTag(count), Some(p), cursor, false))
    ensures DecodeBlock(ar, src, cap) == DecodeDelta(ar, src[cursor..], count, p)
  {
  }

  lemma NoHeader(ar: Arith, hdr: seq<byte>, body: seq<byte>, n: nat, cap: nat)
    requires n < |hdr| && IsEof(ReadHeader(hdr[..n]))
    ensures IsEof(DecodeBlock(ar, (hdr + body)[..n], cap))
  {
    assert (hdr + body)[..n] == hdr[..n];
  }

  // A block of offsets cut anywhere is an error, unless it has exceptions and is cut right
  // in front of them: then it decodes without them.
  lemma StandardCut(ar: Arith, p: AlpParams, slice: seq<nat>, ints: seq<int>, base: int, es: seq<Exception>, n: nat,
                    cap: nat)
    requires p.Validate(ar.kind) && AllBits(ar.kind, slice) && 0 < |slice| < COUNT_LIMIT && cap >= |slice|
    requires ar.kind.IsInt(base) && Pruned(ar, p.Best(), slice, ints, base, p.bitWidth, es)
    requires n < |StandardFrame(ar.kind, p, ints, base, es)|
    ensures var frame := StandardFrame(ar.kind, p, ints, base, es);
      var r := DecodeBlock(ar, frame[..n], cap);
      if n + |ExceptionTable(ar.kind, |ints|, es)| == |frame| then r == Ok(Unpatched(ar, p, ints)) else IsEof(r)
  {
    var k := ar.kind;
    var t, packed := StandardType(k, p), Some(PackParams(p));
    var hdr, payload := WriteHeader(t, false, |slice|, packed), StandardPayload(k, p.bitWidth, ints, base, es);
    ParamsParse(k, p);
    if n < |hdr| {
      HeaderCut(t, false, |slice|, packed, n);
      NoHeader(ar, hdr, payload, n, cap);
      TableInside(k, p.bitWidth, ints, base, es);
    } else {
      HeaderKept(t, |slice|, packed, payload, n);
      StandardDecodes(ar, p, (hdr + payload)[..n], |slice|, |hdr|, cap);
      PayloadCut(ar, p, slice, ints, base, es, n - |hdr|);
    }
  }

  lemma TableInside(k: FloatKind, w: nat, ints: seq<int>, base: int, es: seq<Exception>)
    ensures |ExceptionTable(k, |ints|, es)| <= |StandardPayload(k, w, ints, base, es)|
  {
  }

  // ---------- blocks of differences ----------

  lemma DeltasBack(ar: Arith, p: AlpParams, ints: seq<int>, minDelta: int)
    requires p.fac <= p.exp && ints != [] && AllInts(ar.kind, ints) && ar.kind.IsInt(minDelta)
    requires AllBelow(DeltaOffsets(ar.kind, ints, minDelta), p.bitWidth)
    ensures var k, packed := ar.kind, Packed(DeltaOffsets(ar.kind, ints, minDelta), p.bitWidth);
      && |packed| == PackedSize(|ints| - 1, p.bitWidth)
      && [ints[0]] + PrefixInts(k, ints[0], minDelta, Unpack(packed, |ints| - 1, p.bitWidth)) == ints
  {
    UnpackPacked(DeltaOffsets(ar.kind, ints, minDelta), p.bitWidth);
    PrefixRoundTrip(ar.kind, ints, minDelta);
  }

  lemma DeltaPayloadCut(ar: Arith, p: AlpParams, slice: seq<nat>, ints: seq<int>, minDelta: int, es: seq<Exception>, m: nat)
    requires Represents(ar, p.Best(), slice, ints, es) && AllBits(ar.kind, slice) && 0 < |slice| < COUNT_LIMIT
    requires ar.kind.IsInt(minDelta) && AllBelow(DeltaOffsets(ar.kind, ints, minDelta), p.bitWidth)
    requires m < |DeltaPayload(ar.kind, p.bitWidth, ints, minDelta, es)|
    ensures var src := DeltaPayload(ar.kind, p.bitWidth, ints, minDelta, es);
      var r := DecodeDelta(ar, src[..m], |slice|, p);
      if m + |ExceptionTable(ar.kind, |ints|, es)| == |src| then r == Ok(Unpatched(ar, p, ints)) else IsEof(r)
  {
    var k, w := ar.kind, p.bitWidth;
    var head := BaseBytes(k, ints[0]) + BaseBytes(k, minDelta);
    var packed, table := Packed(DeltaOffsets(k, ints, minDelta), w), ExceptionTable(k, |ints|, es);
    PartsCut(head, packed, table, m);
    DeltasBack(ar, p, ints, minDelta);
    BaseRoundTrip(k, ints[0]);
    BaseRoundTrip(k, minDelta);
    if m >= |head| {
      var src := (head + packed + table)[..m];
      assert src[..k.Size()] == head[..k.Size()] == BaseBytes(k, ints[0]);
      assert src[k.Size()..2 * k.Size()] == head[k.Size()..] == BaseBytes(k, minDelta);
    }
    if m >= |head| + |packed| {
      SmallTableFits(k, es, slice);
      TableCut(k, Unpatched(ar, p, ints), es, m - |head| - |packed|);
    }
  }

  // The same for a block of differences.
  lemma DeltaCut(ar: Arith, p: AlpParams, slice: seq<nat>, ints: seq<int>, minDelta: int, es: seq<Exception>, n: nat,
                 cap: nat)
    requires p.Validate(ar.kind) && AllBits(ar.kind, slice) && 0 < |slice| < COUNT_LIMIT && cap >= |slice|
    requires Represents(ar, p.Best(), slice, ints, es)
    requires ar.kind.IsInt(minDelta) && AllBelow(DeltaOffsets(ar.kind, ints, minDelta), p.bitWidth)
    requires n < |DeltaFrame(ar.kind, p, ints, minDelta, es)|
    ensures var frame := DeltaFrame(ar.kind, p, ints, minDelta, es);
      var r := DecodeBlock(ar, frame[..n], cap);
      if n + |ExceptionTable(ar.kind, |ints|, es)| == |frame| then r == Ok(Unpatched(ar, p, ints)) else IsEof(r)
  {
    var k := ar.kind;
    var t, packed := DeltaType(k, p), Some(PackParams(p));
    var hdr, payload := WriteHeader(t, false, |slice|, packed), DeltaPayload(k, p.bitWidth, ints, minDelta, es);
    ParamsParse(k, p);
    if n < |hdr| {
      HeaderCut(t, false, |slice|, packed, n);
      NoHeader(ar, hdr, payload, n, cap);
      assert |ExceptionTable(k, |ints|, es)| <= |payload|;
    } else {
      HeaderKept(t, |slice|, packed, payload, n);
      DeltaDecodes(ar, p, (hdr + payload)[..n], |slice|, |hdr|, cap);
      DeltaPayloadCut(ar, p, slice, ints, minDelta, es, n - |hdr|);
    }
  }

  // ---------- raw blocks ----------

  // A raw block cut anywhere is an error.
  lemma RawCut(ar: Arith, slice: seq<nat>, n: nat, cap: nat)
    requires AllBits(ar.kind, slice) && 0 < |slice| < COUNT_LIMIT && cap >= |slice|
    requires n < |RawFrame(ar.kind, slice)|
    ensures IsEof(DecodeBlock(ar, RawFrame(ar.kind, slice)[..n], cap))
  {
    var k := ar.kind;
    var hdr, body := WriteHeader(RawByte(k), false, |slice|, None), RawBytes(k, slice);
    if n < |hdr| {
      HeaderCut(RawByte(k), false, |slice|, None, n);
      assert (hdr + body)[..n] == hdr[..n];
    } else {
      HeaderKept(RawByte(k), |slice|, None, body, n);
    }
  }

  // ---------- dictionary and real-doubles blocks ----------

  lemma DictPayloadCut(k: FloatKind, slice: seq<nat>, dict: seq<nat>, indices: seq<nat>, m: nat)
    requires 1 <= |dict| <= MAX_DICT_ENTRIES && IndexWidth(|dict|) <= 6
    requires |dict| > 1 ==> |indices| == |slice|
    requires m < |DictPayload(k, dict, IndexWidth(|dict|), indices)|
    ensures IsEof(DecodeDict(k, DictPayload(k, dict, IndexWidth(|dict|), indices)[..m], |slice|))
  {
    var w := IndexWidth(|dict|);
    var payload := DictPayload(k, dict, w, indices);
    if m >= 2 {
      assert payload[..m][0] == |dict| && payload[..m][1] == w;
    }
  }

  // A dictionary block cut anywhere is an error.
  lemma DictCut(ar: Arith, slice: seq<nat>, dict: seq<nat>, indices: seq<nat>, n: nat, cap: nat)
    requires 0 < |slice| < COUNT_LIMIT && cap >= |slice|
    requires 1 <= |dict| <= MAX_DICT_ENTRIES && IndexWidth(|dict|) <= 6
    requires |dict| > 1 ==> |indices| == |slice|
    requires n < |DictFrame(ar.kind, |slice|, dict, IndexWidth(|dict|), indices)|
    ensures IsEof(DecodeBlock(ar, DictFrame(ar.kind, |slice|, dict, IndexWidth(|dict|), indices)[..n], cap))
  {
    var k := ar.kind;
    var hdr, payload := WriteHeader(DictByte(k), false, |slice|, None), DictPayload(k, dict, IndexWidth(|dict|), indices);
    if n < |hdr| {
      HeaderCut(DictByte(k), false, |slice|, None, n);
      NoHeader(ar, hdr, payload, n, cap);
    } else {
      HeaderKept(DictByte(k), |slice|, None, payload, n);
      DictPayloadCut(k, slice, dict, indices, n - |hdr|);
    }
  }

  lemma RdPayloadCut(k: FloatKind, s: RdScheme, slice: seq<nat>, stale: seq<nat>, m: nat)
    requires s.Valid(k) && |stale| == |slice| && |RdExceptions(s, slice, |slice|)| < 0x1_0000
    requires m < |RdPayload(s, slice, stale)|
    ensures IsEof(DecodeRd(k, RdPayload(s, slice, stale)[..m], |slice|))
  {
    var src, excs := RdPayload(s, slice, stale)[..m], |RdExceptions(s, slice, |slice|)|;
    RdPayloadSize(k, s, slice, stale);
    if m >= 5 {
      RdHeadKept(k, s, slice, stale, src, excs);
      BodyCut(k, src, |slice|, s, excs);
    }
  }

  lemma RdHeadKept(k: FloatKind, s: RdScheme, slice: seq<nat>, stale: seq<nat>, src: seq<byte>, excs: nat)
    requires s.Valid(k) && |stale| == |slice| && excs == |RdExceptions(s, slice, |slice|)| < 0x1_0000
    requires |src| >= 5 && src <= RdPayload(s, slice, stale)
    ensures LeftWidth(|s.dict|) <= 3
    ensures src[0] == s.rightWidth && src[1] == LeftWidth(|s.dict|) && src[2] == |s.dict| && LeVal(src[3..5]) == excs
  {
    HeadFirst(s, slice, stale);
    assert src[..5] == RdPayload(s, slice, stale)[..5];
    HeadFields(s, excs, RdHead(s, excs), src);
    LeftWidthFits(|s.dict|);
  }

  lemma BodyCut(k: FloatKind, src: seq<byte>, count: nat, s: RdScheme, excs: nat)
    requires s.Valid(k) && |src| >= 5 && LeftWidth(|s.dict|) <= 3
    requires src[0] == s.rightWidth && src[1] == LeftWidth(|s.dict|) && src[2] == |s.dict| && LeVal(src[3..5]) == excs
    requires |src| < RdExcAt(count, s.rightWidth, LeftWidth(|s.dict|), |s.dict|) + excs * 4
    ensures IsEof(DecodeRd(k, src, count))
  {
  }

  lemma RdPayloadSize(k: FloatKind, s: RdScheme, slice: seq<nat>, stale: seq<nat>)
    requires s.Valid(k) && |stale| == |slice|
    ensures |RdPayload(s, slice, stale)|
      == RdExcAt(|slice|, s.rightWidth, LeftWidth(|s.dict|), |s.dict|) + |RdExceptions(s, slice, |slice|)| * 4
  {
    RdFrameSize(k, s, slice, stale);
  }

  // A real-doubles block cut anywhere is an error when its exceptions can be counted.
  lemma RdCut(ar: Arith, s: RdScheme, slice: seq<nat>, stale: seq<nat>, n: nat, cap: nat)
    requires s.Valid(ar.kind) && |stale| == |slice| && 0 < |slice| < COUNT_LIMIT && cap >= |slice|
    requires |RdExceptions(s, slice, |slice|)| < 0x1_0000 && n < |RdFrame(ar.kind, s, slice, stale)|
    ensures IsEof(DecodeBlock(ar, RdFrame(ar.kind, s, slice, stale)[..n], cap))
  {
    var k := ar.kind;
    var hdr, payload := WriteHeader(RdByte(k), false, |slice|, None), RdPayload(s, slice, stale);
    if n < |hdr| {
      HeaderCut(RdByte(k), false, |slice|, None, n);
      NoHeader(ar, hdr, payload, n, cap);
    } else {
      HeaderKept(RdByte(k), |slice|, None, payload, n);
      RdPayloadCut(k, s, slice, stale, n - |hdr|);
    }
  }
}
