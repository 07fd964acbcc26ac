/**
 The byte layout of frame-of-reference, delta and raw blocks, what the decoder makes
 of their payloads, and the round trips.
 */
module Blocks {
  import opened Wrappers
  import opened Words
  import opened Buffers
  import opened Floats
  import opened Params
  import opened Packers
  import opened Header
  import opened Exceptions

  // ---------- base fields and raw values ----------

  // base.to_le_bytes()
  function BaseBytes(k: FloatKind, i: int): (s: seq<byte>)
    ensures |s| == k.Size()
  {
    LeBytes(i % k.Modulus(), k.Size())
  }

  function ReadBase(k: FloatKind, bytes: seq<byte>): (i: int)
    ensures k.IsInt(i)
  {
    k.Wrap(LeVal(bytes))
  }

  lemma BaseRoundTrip(k: FloatKind, i: int)
    requires k.IsInt(i)
    ensures ReadBase(k, BaseBytes(k, i)) == i
  {
    ModulusIsPow2(k);
    LeRoundTrip(i % k.Modulus(), k.Size());
    WrapCongruent(k, i, -(i / k.Modulus()));
    WrapIsIdentity(k, i);
    assert i % k.Modulus() == i + (-(i / k.Modulus())) * k.Modulus();
  }

  function RawBytes(k: FloatKind, vs: seq<nat>): (s: seq<byte>)
    ensures |s| == |vs| * k.Size()
  {
    if vs == [] then [] else LeBytes(vs[0], k.Size()) + RawBytes(k, vs[1..])
  }

  function RawValues(k: FloatKind, bytes: seq<byte>, count: nat): (vs: seq<nat>)
    requires |bytes| >= count * k.Size()
    ensures |vs| == count
  {
    if count == 0 then []
    else [LeVal(bytes[..k.Size()])] + RawValues(k, bytes[k.Size()..], count - 1)
  }

  lemma {:induction false} RawRoundTrip(k: FloatKind, vs: seq<nat>)
    requires AllBits(k, vs)
    ensures RawValues(k, RawBytes(k, vs), |vs|) == vs
  {
    if vs != [] {
      var bytes := RawBytes(k, vs);
      ModulusIsPow2(k);
      LeRoundTrip(vs[0], k.Size());
      assert bytes[..k.Size()] == LeBytes(vs[0], k.Size());
      assert bytes[k.Size()..] == RawBytes(k, vs[1..]);
      RawRoundTrip(k, vs[1..]);
    }
  }

  // ---------- block layouts ----------

  function StandardPayload(k: FloatKind, w: nat, ints: seq<int>, base: int, es: seq<Exception>): seq<byte> {
    BaseBytes(k, base) + Packed(Offsets(k, ints, base), w) + ExceptionTable(k, |ints|, es)
  }

  function DeltaPayload(k: FloatKind, w: nat, ints: seq<int>, minDelta: int, es: seq<Exception>): seq<byte>
    requires ints != []
  {
    BaseBytes(k, ints[0]) + BaseBytes(k, minDelta) + Packed(DeltaOffsets(k, ints, minDelta), w)
      + ExceptionTable(k, |ints|, es)
  }

  function StandardFrame(k: FloatKind, p: AlpParams, ints: seq<int>, base: int, es: seq<Exception>): seq<byte> {
    WriteHeader(StandardType(k, p), false, |ints|, Some(PackParams(p)))
      + StandardPayload(k, p.bitWidth, ints, base, es)
  }

  function DeltaFrame(k: FloatKind, p: AlpParams, ints: seq<int>, minDelta: int, es: seq<Exception>): seq<byte>
    requires ints != []
  {
    WriteHeader(DeltaType(k, p), false, |ints|, Some(PackParams(p)))
      + DeltaPayload(k, p.bitWidth, ints, minDelta, es)
  }

  function RawFrame(k: FloatKind, slice: seq<nat>): seq<byte> {
    WriteHeader(RawByte(k), false, |slice|, None) + RawBytes(k, slice)
  }

  // ---------- writers ----------

  method EncodeStandard(k: FloatKind, p: AlpParams, ints: seq<int>, base: int, es: seq<Exception>, dst: ByteVec)
    requires dst.Valid() && p.bitWidth <= 64 && AllBelow(Offsets(k, ints, base), p.bitWidth)
    modifies dst, dst.buf
    ensures dst.Valid() && (dst.buf == old(dst.buf) || fresh(dst.buf))
    ensures dst.Bytes() == old(dst.Bytes()) + StandardFrame(k, p, ints, base, es)
  {
    ghost var before := dst.Bytes();
    dst.ExtendFromSlice(WriteHeader(StandardType(k, p), false, |ints|, Some(PackParams(p))));
    dst.ExtendFromSlice(BaseBytes(k, base));
    BitpackEncoded(k, ints, base, p.bitWidth, dst);
    WriteExceptions(k, |ints|, es, dst);
    Regroup4(before, WriteHeader(StandardType(k, p), false, |ints|, Some(PackParams(p))), BaseBytes(k, base),
             Packed(Offsets(k, ints, base), p.bitWidth), ExceptionTable(k, |ints|, es));
  }

  method EncodeDelta(k: FloatKind, p: AlpParams, ints: seq<int>, minDelta: int, es: seq<Exception>, dst: ByteVec)
    requires dst.Valid() && p.bitWidth <= 64 && AllBelow(DeltaOffsets(k, ints, minDelta), p.bitWidth)
    modifies dst, dst.buf
    ensures dst.Valid() && (dst.buf == old(dst.buf) || fresh(dst.buf))
    ensures dst.Bytes() == old(dst.Bytes())
      + (if ints == [] then [] else DeltaFrame(k, p, ints, minDelta, es))
  {
    ghost var before := dst.Bytes();
    if ints == [] {
      assert before + [] == before;
      return;
    }
    dst.ExtendFromSlice(WriteHeader(DeltaType(k, p), false, |ints|, Some(PackParams(p))));
    dst.ExtendFromSlice(BaseBytes(k, ints[0]));
    dst.ExtendFromSlice(BaseBytes(k, minDelta));
    BitpackFusedDelta(k, ints, minDelta, p.bitWidth, dst);
    WriteExceptions(k, |ints|, es, dst);
    Regroup5(before, WriteHeader(DeltaType(k, p), false, |ints|, Some(PackParams(p))), BaseBytes(k, ints[0]),
             BaseBytes(k, minDelta), Packed(DeltaOffsets(k, ints, minDelta), p.bitWidth), ExceptionTable(k, |ints|, es));
  }

  lemma Regroup4(s: seq<byte>, a: seq<byte>, b: seq<byte>, c: seq<byte>, d: seq<byte>)
    ensures s + a + b + c + d == s + (a + (b + c + d))
  {
  }

  lemma Regroup5(s: seq<byte>, a: seq<byte>, b: seq<byte>, c: seq<byte>, d: seq<byte>, e: seq<byte>)
    ensures s + a + b + c + d + e == s + (a + (b + c + d + e))
  {
  }

  method WriteRawFallback(k: FloatKind, slice: seq<nat>, dst: ByteVec)
    requires dst.Valid()
    modifies dst, dst.buf
    ensures dst.Valid() && (dst.buf == old(dst.buf) || fresh(dst.buf))
    ensures dst.Bytes() == old(dst.Bytes()) + RawFrame(k, slice)
  {
    ghost var before := dst.Bytes();
    dst.ExtendFromSlice(WriteHeader(RawByte(k), false, |slice|, None));
    dst.ExtendFromSlice(RawBytes(k, slice));
    assert dst.Bytes() == before + RawFrame(k, slice);
  }

  // ---------- decoding payloads ----------

  function DecodeInts(ar: Arith, p: BestParams, ints: seq<int>): (vs: seq<nat>)
    requires p.fac <= p.exp
    ensures |vs| == |ints|
  {
    seq(|ints|, i requires 0 <= i < |ints| => Decode(ar, p, ints[i]))
  }

  function OffsetInts(k: FloatKind, offs: seq<nat>, base: int): (r: seq<int>)
    ensures |r| == |offs|
  {
    seq(|offs|, i requires 0 <= i < |offs| => k.U64ToIntAdd(offs[i], base))
  }

  // running sums from cur, each step adding offset + minDelta
  function PrefixInts(k: FloatKind, cur: int, minDelta: int, offs: seq<nat>): (r: seq<int>)
    ensures |r| == |offs|
    decreases |offs|
  {
    if offs == [] then []
    else
      var next := k.IntAdd(cur, k.U64ToIntAdd(offs[0], minDelta));
      [next] + PrefixInts(k, next, minDelta, offs[1..])
  }

  function DecodeStandard(ar: Arith, src: seq<byte>, count: nat, p: AlpParams): Result<seq<nat>>
    requires p.fac <= p.exp
  {
    var n := ar.kind.Size();
    if count == 0 then Ok([])
    else if |src| < n then Err(UnexpectedEof(n, |src|))
    else
      var base := ReadBase(ar.kind, src[..n]);
      var packed := PackedSize(count, p.bitWidth);
      if |src| - n < packed then Err(UnexpectedEof(packed, |src| - n))
      else
        var offs := Unpack(src[n..n + packed], count, p.bitWidth);
        PatchExceptions(ar.kind, src[n + packed..], DecodeInts(ar, p.Best(), OffsetInts(ar.kind, offs, base)))
  }

  function DecodeDelta(ar: Arith, src: seq<byte>, count: nat, p: AlpParams): Result<seq<nat>>
    requires p.fac <= p.exp
  {
    var n := ar.kind.Size();
    if count == 0 then Ok([])
    else if |src| < 2 * n then Err(UnexpectedEof(2 * n, |src|))
    else
      var first, minDelta := ReadBase(ar.kind, src[..n]), ReadBase(ar.kind, src[n..2 * n]);
      var packed := PackedSize(count - 1, p.bitWidth);
      if |src| - 2 * n < packed then Err(UnexpectedEof(packed, |src| - 2 * n))
      else
        var offs := Unpack(src[2 * n..2 * n + packed], count - 1, p.bitWidth);
        PatchExceptions(ar.kind, src[2 * n + packed..],
          DecodeInts(ar, p.Best(), [first] + PrefixInts(ar.kind, first, minDelta, offs)))
  }

  function DecodeRaw(k: FloatKind, src: seq<byte>, cursor: nat, count: nat): Result<seq<nat>>
    requires cursor <= |src|
  {
    var needed := count * k.Size();
    if |src| < cursor + needed then Err(UnexpectedEof(cursor + needed, |src|))
    else Ok(RawValues(k, src[cursor..cursor + needed], count))
  }

  // ---------- round trips ----------

  // The integers and exceptions of a block stand for the slice: every element is
  // an exception with its own bits, or decodes to itself.
  ghost predicate Represents(ar: Arith, p: BestParams, slice: seq<nat>, ints: seq<int>, es: seq<Exception>) {
    && p.fac <= p.exp
    && |ints| == |slice|
    && AllInts(ar.kind, ints)
    && Sorted(es) && Records(es, slice)
    && forall i :: 0 <= i < |slice| ==> Decode(ar, p, ints[i]) == slice[i] || Excepted(es, i)
  }

  lemma OffsetIntsRoundTrip(k: FloatKind, ints: seq<int>, base: int)
    requires AllInts(k, ints)
    ensures OffsetInts(k, Offsets(k, ints, base), base) == ints
  {
    forall i | 0 <= i < |ints| ensures OffsetInts(k, Offsets(k, ints, base), base)[i] == ints[i] {
      OffsetRoundTrip(k, ints[i], base);
    }
  }

  // Prefix sums of the packed offsets restore every integer, even where the
  // differences wrapped around.
  lemma {:induction false} PrefixRoundTrip(k: FloatKind, ints: seq<int>, minDelta: int)
    requires AllInts(k, ints) && ints != []
    ensures [ints[0]] + PrefixInts(k, ints[0], minDelta, DeltaOffsets(k, ints, minDelta)) == ints
    decreases |ints|
  {
    if |ints| > 1 {
      var offs := DeltaOffsets(k, ints, minDelta);
      OffsetRoundTrip(k, k.IntSub(ints[1], ints[0]), minDelta);
      DeltaRoundTrip(k, ints[0], ints[1]);
      DeltaTail(k, ints, minDelta);
      PrefixRoundTrip(k, ints[1..], minDelta);
    }
  }

  lemma DeltaTail(k: FloatKind, ints: seq<int>, minDelta: int)
    requires |ints| > 1
    ensures DeltaOffsets(k, ints, minDelta)[1..] == DeltaOffsets(k, ints[1..], minDelta)
  {
  }

  lemma PatchedBack(ar: Arith, p: BestParams, slice: seq<nat>, ints: seq<int>, es: seq<Exception>)
    requires Represents(ar, p, slice, ints, es) && AllBits(ar.kind, slice) && |slice| < COUNT_LIMIT
    ensures PatchExceptions(ar.kind, ExceptionTable(ar.kind, |ints|, es), DecodeInts(ar, p, ints)) == Ok(slice)
  {
    SmallTableFits(ar.kind, es, slice);
    TableRoundTrip(ar.kind, DecodeInts(ar, p, ints), es);
    PatchRestores(DecodeInts(ar, p, ints), es, slice);
  }

  lemma StandardRoundTrip(ar: Arith, p: AlpParams, slice: seq<nat>, ints: seq<int>, base: int, es: seq<Exception>)
    requires Represents(ar, p.Best(), slice, ints, es) && AllBits(ar.kind, slice) && |slice| < COUNT_LIMIT
    requires ar.kind.IsInt(base) && AllBelow(Offsets(ar.kind, ints, base), p.bitWidth)
    ensures DecodeStandard(ar, StandardPayload(ar.kind, p.bitWidth, ints, base, es), |slice|, p) == Ok(slice)
  {
    if slice != [] {
      var k, w := ar.kind, p.bitWidth;
      var n, packed := k.Size(), Packed(Offsets(k, ints, base), w);
      var src := StandardPayload(k, w, ints, base, es);
      PayloadParts(BaseBytes(k, base), packed, ExceptionTable(k, |ints|, es), src);
      BaseRoundTrip(k, base);
      UnpackPacked(Offsets(k, ints, base), w);
      OffsetIntsRoundTrip(k, ints, base);
      PatchedBack(ar, p.Best(), slice, ints, es);
    }
  }

  lemma DeltaRoundTripBlock(ar: Arith, p: AlpParams, slice: seq<nat>, ints: seq<int>, minDelta: int, es: seq<Exception>)
    requires Represents(ar, p.Best(), slice, ints, es) && AllBits(ar.kind, slice) && 0 < |slice| < COUNT_LIMIT
    requires ar.kind.IsInt(minDelta) && AllBelow(DeltaOffsets(ar.kind, ints, minDelta), p.bitWidth)
    ensures DecodeDelta(ar, DeltaPayload(ar.kind, p.bitWidth, ints, minDelta, es), |slice|, p) == Ok(slice)
  {
    var k, w := ar.kind, p.bitWidth;
    var offs := DeltaOffsets(k, ints, minDelta);
    var src := DeltaPayload(k, w, ints, minDelta, es);
    var head := BaseBytes(k, ints[0]) + BaseBytes(k, minDelta);
    PayloadParts(head, Packed(offs, w), ExceptionTable(k, |ints|, es), src);
    assert src[..k.Size()] == head[..k.Size()] == BaseBytes(k, ints[0]);
    assert src[k.Size()..2 * k.Size()] == head[k.Size()..] == BaseBytes(k, minDelta);
    BaseRoundTrip(k, ints[0]);
    BaseRoundTrip(k, minDelta);
    UnpackPacked(offs, w);
    PrefixRoundTrip(k, ints, minDelta);
    PatchedBack(ar, p.Best(), slice, ints, es);
  }

  lemma PayloadParts(a: seq<byte>, b: seq<byte>, c: seq<byte>, src: seq<byte>)
    requires src == a + b + c
    ensures src[..|a|] == a && src[|a|..|a| + |b|] == b && src[|a| + |b|..] == c
  {
  }
}
