/** When a frame is a lossless encoding of a slice, and that standard, delta and raw frames are. */
module Lossless {
  import opened Wrappers
  import opened Words
  import opened Floats
  import opened Params
  import opened Packers
  import opened Header
  import opened Exceptions
  import opened Blocks
  import opened Decoding
  import opened Prune

  // The frame parses, counts the slice's elements, and decompresses to it bit for bit.
  ghost predicate DecodesTo(ar: Arith, frame: seq<byte>, slice: seq<nat>) {
    && ReadHeader(frame).Ok?
    && ReadHeader(frame).value.count == |slice|
    && Decompress(ar, frame) == Ok(slice)
  }

  // The same, said so that the decoder's definition stays out of proofs that only pass
  // frames on.
  ghost predicate Restores(ar: Arith, frame: seq<byte>, slice: seq<nat>) {
    forall src: seq<byte> :: src == frame ==> DecodesTo(ar, src, slice)
  }

  // The same for a frame whose elements are stored one by one.
  ghost predicate RestoresPlain(ar: Arith, frame: seq<byte>, slice: seq<nat>) {
    Restores(ar, frame, slice) && ReadHeader(frame).Ok? && !ReadHeader(frame).value.hasRepeat
  }

  // What a decoder gives for such a frame and a destination of cap elements: the slice if
  // and only if it fits.
  ghost predicate FitsIff(ar: Arith, frame: seq<byte>, slice: seq<nat>, cap: nat) {
    && (DecodeBlock(ar, frame, cap) == Ok(slice) <==> cap >= |slice|)
    && (cap < |slice| ==> DecodeBlock(ar, frame, cap) == Err(BufferTooSmall(|slice|, cap)))
  }

  lemma CapacityIff(ar: Arith, frame: seq<byte>, slice: seq<nat>, cap: nat)
    requires Restores(ar, frame, slice)
    ensures FitsIff(ar, frame, slice, cap)
    ensures ReadHeader(frame).Ok? && ReadHeader(frame).value.count == |slice|
  {
    assert DecodesTo(ar, frame, slice);
    ReadCountAgrees(frame);
  }

  // The frame's header says whether parameters follow and is as long as it has to be.
  ghost predicate Written(frame: seq<byte>, hasParams: bool, count: nat) {
    && ReadHeader(frame).Ok?
    && (ReadHeader(frame).value.params.Some? <==> hasParams)
    && ReadHeader(frame).value.cursor == (if hasParams then HeaderLen(count) else RawHeaderLen(count)) <= |frame|
  }

  // 7 header bytes and the raw floats
  function MaxCompressedSize(k: FloatKind, count: nat): nat {
    MAX_HEADER_LEN + count * k.Size()
  }

  // A header with parameters and a payload that decodes make a lossless frame.
  lemma FrameRestores(ar: Arith, t: nat, count: nat, params: Option<nat>, payload: seq<byte>, slice: seq<nat>)
    requires 1 <= t <= MAX_TYPE_BYTE && count == |slice| && 0 < count < COUNT_LIMIT
    requires params.Some? <==> !HasNoParams(t)
    requires params.Some? ==> params.value < 0x1_0000
    requires var hdr := WriteHeader(t, false, count, params);
      DecodeDirect(ar, hdr + payload, |hdr|, t, count,
        if params.Some? then Some(UnpackParams(params.value, IsDec(t))) else None) == Ok(slice)
    ensures RestoresPlain(ar, WriteHeader(t, false, count, params) + payload, slice)
    ensures Written(WriteHeader(t, false, count, params) + payload, params.Some?, count)
  {
    HeaderRoundTrip(t, false, count, params, payload);
    ReadCountAgrees(WriteHeader(t, false, count, params) + payload);
  }

  lemma EmptyFrameRestores(ar: Arith)
    ensures RestoresPlain(ar, WriteHeader(TypeByte(ar.kind), false, 0, None), [])
    ensures Written(WriteHeader(TypeByte(ar.kind), false, 0, None), false, 0)
    ensures |WriteHeader(TypeByte(ar.kind), false, 0, None)| == RawHeaderLen(0)
  {
    var hdr := WriteHeader(TypeByte(ar.kind), false, 0, None);
    HeaderRoundTrip(TypeByte(ar.kind), false, 0, None, []);
    assert hdr + [] == hdr;
    ReadCountAgrees(hdr);
  }

  lemma RawFrameRestores(ar: Arith, slice: seq<nat>)
    requires AllBits(ar.kind, slice) && 0 < |slice| < COUNT_LIMIT
    ensures RestoresPlain(ar, RawFrame(ar.kind, slice), slice)
    ensures Written(RawFrame(ar.kind, slice), false, |slice|)
    ensures |RawFrame(ar.kind, slice)| == RawHeaderLen(|slice|) + |slice| * ar.kind.Size()
  {
    var k := ar.kind;
    var hdr, body := WriteHeader(RawByte(k), false, |slice|, None), RawBytes(k, slice);
    RawRoundTrip(k, slice);
    assert (hdr + body)[|hdr|..|hdr| + |body|] == body;
    FrameRestores(ar, RawByte(k), |slice|, None, body, slice);
  }

  lemma ParamsParse(k: FloatKind, p: AlpParams)
    requires p.Validate(k)
    ensures PackParams(p) < 0x1_0000
    ensures UnpackParams(PackParams(p), IsDec(StandardType(k, p))) == p
    ensures UnpackParams(PackParams(p), IsDec(DeltaType(k, p))) == p
  {
    ParamsRoundTrip(k, p);
  }

  lemma StandardFrameRestores(ar: Arith, p: AlpParams, slice: seq<nat>, ints: seq<int>, base: int, es: seq<Exception>)
    requires p.Validate(ar.kind) && AllBits(ar.kind, slice) && 0 < |slice| < COUNT_LIMIT
    requires ar.kind.IsInt(base) && Pruned(ar, p.Best(), slice, ints, base, p.bitWidth, es)
    ensures RestoresPlain(ar, StandardFrame(ar.kind, p, ints, base, es), slice)
    ensures Written(StandardFrame(ar.kind, p, ints, base, es), true, |slice|)
    ensures |StandardFrame(ar.kind, p, ints, base, es)|
         == HeaderLen(|slice|) + ar.kind.Size() + BlockCost(ar.kind, |slice|, p.bitWidth, |es|)
  {
    var k := ar.kind;
    var t, packed := StandardType(k, p), Some(PackParams(p));
    var hdr := WriteHeader(t, false, |slice|, packed);
    var payload := StandardPayload(k, p.bitWidth, ints, base, es);
    ParamsParse(k, p);
    StandardRoundTrip(ar, p, slice, ints, base, es);
    assert (hdr + payload)[|hdr|..] == payload;
    FrameRestores(ar, t, |slice|, packed, payload, slice);
    TableSize(k, |slice|, es);
  }

  lemma DeltaDirect(ar: Arith, p: AlpParams, src: seq<byte>, cursor: nat, slice: seq<nat>)
    requires p.Validate(ar.kind) && cursor <= |src| && DecodeDelta(ar, src[cursor..], |slice|, p) == Ok(slice)
    ensures DecodeDirect(ar, src, cursor, DeltaType(ar.kind, p), |slice|, Some(p)) == Ok(slice)
  {
  }

  lemma DeltaFrameRestores(ar: Arith, p: AlpParams, slice: seq<nat>, ints: seq<int>, minDelta: int, es: seq<Exception>)
    requires p.Validate(ar.kind) && AllBits(ar.kind, slice) && 0 < |slice| < COUNT_LIMIT
    requires Represents(ar, p.Best(), slice, ints, es)
    requires ar.kind.IsInt(minDelta) && AllBelow(DeltaOffsets(ar.kind, ints, minDelta), p.bitWidth)
    ensures RestoresPlain(ar, DeltaFrame(ar.kind, p, ints, minDelta, es), slice)
    ensures Written(DeltaFrame(ar.kind, p, ints, minDelta, es), true, |slice|)
    ensures |DeltaFrame(ar.kind, p, ints, minDelta, es)| == HeaderLen(|slice|) + 2 * ar.kind.Size()
      + PackedSize(|slice| - 1, p.bitWidth) + ExceptionsByteSize(ar.kind, |es|, IsLarge(|slice|))
  {
    var k := ar.kind;
    var t, packed := DeltaType(k, p), Some(PackParams(p));
    var hdr := WriteHeader(t, false, |slice|, packed);
    var payload := DeltaPayload(k, p.bitWidth, ints, minDelta, es);
    ParamsParse(k, p);
    DeltaRoundTripBlock(ar, p, slice, ints, minDelta, es);
    assert (hdr + payload)[|hdr|..] == payload;
    DeltaDirect(ar, p, hdr + payload, |hdr|, slice);
    FrameRestores(ar, t, |slice|, packed, payload, slice);
    TableSize(k, |slice|, es);
  }
}
