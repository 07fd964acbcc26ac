/**
 The compression engine: constant slices, parameter choice, the encoding kernel,
 outlier pruning before and after the delta decision, exception backfill, the choice
 between offsets and differences, and the raw fallback.
 */
module Engine {
  import opened Wrappers
  import opened Words
  import opened Buffers
  import opened Floats
  import opened Params
  import opened Packers
  import opened Header
  import opened Exceptions
  import opened Blocks
  import opened Deltas
  import opened Kernel
  import opened Prune
  import opened Sampler
  import opened Lossless
  import opened Plan

  // Decisions carried from block to block.
  class EngineCache {
    var targetBw: CachedTargetBw
    var useDelta: Option<bool>

    constructor ()
      ensures targetBw == Uninit && useDelta == None
    {
      targetBw, useDelta := Uninit, None;
    }

    method Reset()
      modifies this
      ensures targetBw == Uninit && useDelta == None
    {
      targetBw, useDelta := Uninit, None;
    }

    ghost function State(params: Option<BestParams>): Memo
      reads this
    {
      Memo(params, targetBw, useDelta)
    }
  }

  // ---------- stages ----------

  method PickParams(ar: Arith, slice: seq<nat>, cached: Option<BestParams>) returns (p: BestParams)
    requires cached.Some? ==> ValidBest(ar.kind, cached.value)
    ensures ValidBest(ar.kind, p) && Picked(ar, slice, cached, p)
  {
    if cached.Some? && ValidateCachedParams(ar, cached.value, slice) {
      p := cached.value;
    } else {
      p := FindBestParams(ar, slice);
    }
  }

  // Encodes; when there were cached parameters and those picked leave too many exceptions,
  // samples afresh.
  method EncodeWithSalvage(ar: Arith, slice: seq<nat>, p0: BestParams, cached: Option<BestParams>, enc: array<int>)
      returns (p: BestParams, lo: int, hi: int, es: seq<Exception>, ghost used: BestParams)
    requires ar.Valid() && KernelFaithful(ar) && enc.Length == |slice|
    requires cached.Some? ==> ValidBest(ar.kind, cached.value)
    requires ValidBest(ar.kind, p0) && Picked(ar, slice, cached, p0)
    modifies enc
    ensures UsedAfter(ar, slice, cached, p0, used)
    ensures |es| > MAX_EXCEPTIONS <==> TooMany(ar, used, slice)
    ensures |es| <= MAX_EXCEPTIONS ==> p == used && Encoding(ar, p, slice, enc[..], es, lo, hi)
  {
    p, used := p0, p0;
    lo, hi, es := EncodeSlice(ar, p, slice, enc);
    if |es| > MAX_EXCEPTIONS && cached.Some? {
      var again := FindBestParams(ar, slice);
      used := again;
      if again != p {
        var lo', hi';
        lo', hi', es := EncodeSlice(ar, again, slice, enc);
        if |es| <= MAX_EXCEPTIONS {
          p, lo, hi := again, lo', hi';
        }
      }
    }
  }

  // Every integer that is no exception fits the width.
  ghost predicate FitsOutside(k: FloatKind, ints: seq<int>, base: int, w: nat, es: seq<Exception>) {
    forall i :: 0 <= i < |ints| ==> k.IntDiffToU64(ints[i], base) < Pow2(w) || Excepted(es, i)
  }

  // Extremes of encodings are integers of the type and bound all that are no exception.
  lemma EncodingBounds(ar: Arith, p: BestParams, slice: seq<nat>, ints: seq<int>, es: seq<Exception>, lo: int, hi: int)
    requires ar.Valid() && Encoding(ar, p, slice, ints, es, lo, hi)
    ensures ar.kind.IsInt(lo) && ar.kind.IsInt(hi)
    ensures forall i :: 0 <= i < |ints| ==> lo <= ints[i] <= hi || Excepted(es, i)
  {
    RejectedExact(ar, p, slice, |slice|);
  }

  lemma WidthFits(ar: Arith, p: BestParams, slice: seq<nat>, ints: seq<int>, es: seq<Exception>, lo: int, hi: int)
    requires ar.Valid() && Encoding(ar, p, slice, ints, es, lo, hi)
    ensures var (base, w) := BaseAndWidth(ar.kind, lo, hi);
      ar.kind.IsInt(base) && w <= ar.kind.Bits() && FitsOutside(ar.kind, ints, base, w, es)
  {
    var k := ar.kind;
    var (base, w) := BaseAndWidth(k, lo, hi);
    EncodingBounds(ar, p, slice, ints, es, lo, hi);
    if lo <= hi {
      BitsNeededExact(k.CalcRange(lo, hi));
      BitsNeededInModulus(k, k.CalcRange(lo, hi));
      forall i | 0 <= i < |ints| ensures k.IntDiffToU64(ints[i], base) < Pow2(w) || Excepted(es, i) {
        if !Excepted(es, i) {
          OffsetInRange(k, lo, hi, ints[i]);
        }
      }
    }
  }

  // No smaller width holds the offsets of the floats that are accepted.
  lemma WidthLeast(ar: Arith, p: BestParams, slice: seq<nat>, lo: int, hi: int, w: nat)
    requires ar.Valid() && ValidBest(ar.kind, p) && Extremes(ar, p, slice, |slice|, lo, hi)
    requires exists i :: 0 <= i < |slice| && Accepts(ar, p, slice[i])
    ensures BaseAndWidth(ar.kind, lo, hi).0 == lo
    ensures BaseAndWidth(ar.kind, lo, hi).1 <= w <==>
      forall i :: 0 <= i < |slice| && Accepts(ar, p, slice[i]) ==>
        ar.kind.IntDiffToU64(Encode(ar, p, slice[i]), lo) < Pow2(w)
  {
    var i :| 0 <= i < |slice| && Accepts(ar, p, slice[i]) && Encode(ar, p, slice[i]) == hi;
    BitsNeededIff(ar.kind.CalcRange(lo, hi), w);
    forall j | 0 <= j < |slice| && Accepts(ar, p, slice[j])
      ensures ar.kind.IntDiffToU64(Encode(ar, p, slice[j]), lo) <= ar.kind.IntDiffToU64(hi, lo)
    {
      OffsetInRange(ar.kind, lo, hi, Encode(ar, p, slice[j]));
    }
  }

  lemma PrunedFits(k: FloatKind, ints: seq<int>, base: int, w: nat, es: seq<Exception>)
    requires AllBelow(Offsets(k, ints, base), w)
    ensures FitsOutside(k, ints, base, w, es)
  {
    forall i | 0 <= i < |ints| ensures k.IntDiffToU64(ints[i], base) < Pow2(w) {
      assert Offsets(k, ints, base)[i] < Pow2(w);
    }
  }

  // Wide blocks: isolated outliers are pruned before anything else is decided.
  method PrePrune(ar: Arith, ghost p: BestParams, slice: seq<nat>, enc: array<int>, base: int, w0: nat,
                  es0: seq<Exception>, cache: EngineCache) returns (w: nat, es: seq<Exception>)
    requires Represents(ar, p, slice, enc[..], es0) && ar.kind.IsInt(base) && w0 <= ar.kind.Bits()
    requires FitsOutside(ar.kind, enc[..], base, w0, es0)
    modifies enc, cache`targetBw
    ensures Represents(ar, p, slice, enc[..], es) && w <= w0
    ensures FitsOutside(ar.kind, enc[..], base, w, es)
    ensures PruneStep(ar.kind, slice, Block(old(enc[..]), base, w0, es0), old(cache.targetBw),
                      Block(enc[..], base, w, es), cache.targetBw)
  {
    w, es := w0, es0;
    match cache.targetBw {
      case Narrowed(target) =>
        if target < w {
          es := ApplyTargetBw(ar, p, slice, enc, base, target, es);
          w := target;
          PrunedFits(ar.kind, enc[..], base, w, es);
        }
      case Disabled =>
      case Uninit =>
        var pruned;
        pruned, es := TryPruneOutliers(ar, p, slice, enc, base, w, es);
        if pruned < w {
          cache.targetBw := Narrowed(pruned);
          w := pruned;
          PrunedFits(ar.kind, enc[..], base, w, es);
        } else {
          cache.targetBw := Disabled;
        }
    }
  }

  // Exception slots take the value before them, so that no difference jumps.
  method Backfill(ar: Arith, ghost p: BestParams, slice: seq<nat>, enc: array<int>, base: int, ghost w: nat, es: seq<Exception>)
    requires Represents(ar, p, slice, enc[..], es) && ar.kind.IsInt(base)
    requires FitsOutside(ar.kind, enc[..], base, w, es)
    modifies enc
    ensures Pruned(ar, p, slice, enc[..], base, w, es)
    ensures Backfilled(old(enc[..]), enc[..], base, es)
  {
    var k := ar.kind;
    ghost var before := enc[..];
    var i := 0;
    while i < |es|
      invariant 0 <= i <= |es|
      invariant forall j :: 0 <= j < |slice| ==> k.IsInt(enc[j])
      invariant BackfilledUpTo(before, enc[..], base, es, i)
      invariant forall j :: 0 <= j < |slice| ==>
        k.IntDiffToU64(enc[j], base) < Pow2(w) || (exists n :: i <= n < |es| && es[n].pos == j)
    {
      var pos := es[i].pos;
      assert forall n :: i < n < |es| ==> es[n].pos > pos;
      ghost var was := enc[..];
      enc[pos] := if pos > 0 then enc[pos - 1] else base;
      BackfillNext(before, was, enc[..], base, es, i);
      assert Excepted(es, pos);
      i := i + 1;
    }
    AllFilled(before, enc[..], base, es);
    forall j | 0 <= j < |slice| ensures Decode(ar, p, enc[j]) == slice[j] || Excepted(es, j) {
      assert SlotFilled(before, enc[..], base, es, j);
    }
    assert AllBelow(Offsets(k, enc[..], base), w);
  }

  // the first i exception slots are filled
  ghost predicate BackfilledUpTo(before: seq<int>, after: seq<int>, base: int, es: seq<Exception>, i: nat)
    requires i <= |es|
  {
    Backfilled(before, after, base, es[..i])
  }

  lemma BackfillNext(before: seq<int>, was: seq<int>, now: seq<int>, base: int, es: seq<Exception>, i: nat)
    requires i < |es| && Sorted(es) && es[i].pos < |was| && BackfilledUpTo(before, was, base, es, i)
    requires now == was[es[i].pos := if es[i].pos > 0 then was[es[i].pos - 1] else base]
    ensures BackfilledUpTo(before, now, base, es, i + 1)
  {
    var pos, next := es[i].pos, es[..i + 1];
    assert next == es[..i] + [es[i]];
    forall j | 0 <= j < |now| ensures SlotFilled(before, now, base, next, j) {
      assert SlotFilled(before, was, base, es[..i], j);
      ExceptedSnoc(es[..i], es[i], j);
      if j > pos {
        NotExcepted(es[..i], j);
      }
    }
  }

  lemma AllFilled(before: seq<int>, after: seq<int>, base: int, es: seq<Exception>)
    requires BackfilledUpTo(before, after, base, es, |es|)
    ensures Backfilled(before, after, base, es)
  {
    assert es[..|es|] == es;
  }

  // The difference width worth comparing, if any.
  method DeltaDecision(k: FloatKind, ints: seq<int>, w: nat, forceDelta: bool, useDelta: Option<bool>)
      returns (r: Option<(int, nat)>)
    ensures r.Some? ==> |ints| > 1 && r.value == (LeastDelta(k, ints[0], ints[1..]), DeltaWidth(k, ints[0], ints[1..]))
    ensures r.Some? <==> |ints| > 1 && DeltaOffered(k, ints, w, forceDelta, useDelta)
  {
    if |ints| <= 1 {
      return None;
    }
    if forceDelta || useDelta == Some(true) {
      var lo, dw := DeltaRange(k, ints[0], ints[1..]);
      return Some((lo, dw));
    }
    if useDelta.Some? || w < DELTA_EVAL_MIN_BW {
      return None;
    }
    assert |ints[1..]| > 0;
    r := EvalDeltaBenefit(k, ints[0], ints[1..], w);
  }

  // Narrow blocks that stay with offsets get their chance to prune here.
  method LowPrune(ar: Arith, ghost p: BestParams, slice: seq<nat>, enc: array<int>, base: int, w0: nat,
                  es0: seq<Exception>, cache: EngineCache) returns (w: nat, es: seq<Exception>)
    requires Pruned(ar, p, slice, enc[..], base, w0, es0) && ar.kind.IsInt(base) && w0 <= ar.kind.Bits()
    modifies enc, cache`targetBw
    ensures Pruned(ar, p, slice, enc[..], base, w, es) && w <= w0
    ensures PruneStep(ar.kind, slice, Block(old(enc[..]), base, w0, es0), old(cache.targetBw),
                      Block(enc[..], base, w, es), cache.targetBw)
  {
    w, es := w0, es0;
    match cache.targetBw {
      case Narrowed(target) =>
        if target < w {
          es := ApplyTargetBw(ar, p, slice, enc, base, target, es);
          w := target;
        }
      case Disabled =>
      case Uninit =>
        var pruned;
        pruned, es := TryPruneOutliers(ar, p, slice, enc, base, w, es);
        if pruned < w {
          cache.targetBw := Narrowed(pruned);
          w := pruned;
        } else {
          cache.targetBw := Disabled;
        }
    }
  }

  // ---------- the engine ----------

  // A block of the engine: raw, or with parameters and smaller than raw; a single float
  // may take two bytes more.
  ghost predicate EngineBlock(ar: Arith, frame: seq<byte>, slice: seq<nat>) {
    && RestoresPlain(ar, frame, slice)
    && (|| IsRawBlock(ar.kind, frame, |slice|)
        || (Written(frame, true, |slice|) && |frame| < RawSize(ar.kind, |slice|) + (if |slice| == 1 then 3 else 0)))
  }

  ghost predicate IsRawBlock(k: FloatKind, frame: seq<byte>, count: nat) {
    Written(frame, false, count) && |frame| == RawSize(k, count)
  }

  // Bytes were appended, and they are a block that restores the slice.
  ghost predicate Appended(ar: Arith, before: seq<byte>, after: seq<byte>, slice: seq<nat>) {
    before <= after && EngineBlock(ar, after[|before|..], slice)
  }

  ghost predicate AppendedRaw(k: FloatKind, before: seq<byte>, after: seq<byte>, count: nat) {
    before <= after && IsRawBlock(k, after[|before|..], count)
  }

  // They are no more than promised.
  lemma BlockWithinMax(ar: Arith, frame: seq<byte>, slice: seq<nat>)
    requires EngineBlock(ar, frame, slice)
    ensures |frame| <= MaxCompressedSize(ar.kind, |slice|)
  {
  }

  lemma AppendedFrame(ar: Arith, before: seq<byte>, frame: seq<byte>, slice: seq<nat>)
    requires EngineBlock(ar, frame, slice)
    ensures Appended(ar, before, before + frame, slice)
    ensures (before + frame)[|before|..] == frame
  {
    assert (before + frame)[|before|..] == frame;
  }

  method CompressRaw(ar: Arith, slice: seq<nat>, dst: ByteVec)
    requires dst.Valid() && AllBits(ar.kind, slice) && 0 < |slice| < COUNT_LIMIT
    modifies dst, dst.buf
    ensures dst.Valid() && (dst.buf == old(dst.buf) || fresh(dst.buf))
    ensures Appended(ar, old(dst.Bytes()), dst.Bytes(), slice)
    ensures dst.Bytes() == old(dst.Bytes()) + RawFrame(ar.kind, slice)
  {
    RawFrameRestores(ar, slice);
    AppendedFrame(ar, dst.Bytes(), RawFrame(ar.kind, slice), slice);
    WriteRawFallback(ar.kind, slice, dst);
  }

  // Every element the same and one exponent restores it: a base field says it all.
  method TryIdentical(ar: Arith, slice: seq<nat>, dst: ByteVec) returns (r: Option<BestParams>)
    requires dst.Valid() && ar.Valid() && AllBits(ar.kind, slice) && 0 < |slice| < COUNT_LIMIT
    modifies dst, dst.buf
    ensures dst.Valid() && (dst.buf == old(dst.buf) || fresh(dst.buf))
    ensures r.None? ==> dst.Bytes() == old(dst.Bytes()) && !HasCommon(ar, slice)
    ensures r.Some? ==>
      && ValidBest(ar.kind, r.value) && Appended(ar, old(dst.Bytes()), dst.Bytes(), slice)
      && CommonAt(ar, slice, r.value.exp) && r.value == BestParams(r.value.exp, 0, false)
      && dst.Bytes() == old(dst.Bytes()) + CommonFrame(ar, slice, r.value.exp)
  {
    r := None;
    var found := FindCommonBase(ar, slice);
    if found.Some? {
      var (exp, base) := found.value;
      IdenticalRestores(ar, exp, base, slice);
      AppendedFrame(ar, dst.Bytes(), IdenticalFrame(ar.kind, exp, base, |slice|), slice);
      WriteIdentical(ar.kind, exp, base, |slice|, dst);
      r := Some(BestParams(exp, 0, false));
    }
  }

  // The least exponent and a base that stand for all elements.
  method FindCommonBase(ar: Arith, slice: seq<nat>) returns (r: Option<(nat, int)>)
    requires ar.Valid() && slice != []
    ensures r.Some? ==>
      && CommonAt(ar, slice, r.value.0) && r.value.1 == TryEncodeFast(ar, r.value.0, 0, slice[0]).value
      && ar.kind.IsInt(r.value.1) && Decode(ar, BestParams(r.value.0, 0, false), r.value.1) == slice[0]
    ensures r.None? <==> !HasCommon(ar, slice)
  {
    if |slice| > 1 && slice[1] != slice[0] {
      return None;
    }
    r := FindIdenticalBase(ar, slice[0]);
    if r.Some? && !AllSame(slice, slice[0]) {
      return None;
    }
    if r.Some? {
      assert CommonAt(ar, slice, r.value.0);
    }
  }

  method WriteIdentical(k: FloatKind, exp: nat, base: int, count: nat, dst: ByteVec)
    requires dst.Valid()
    modifies dst, dst.buf
    ensures dst.Valid() && (dst.buf == old(dst.buf) || fresh(dst.buf))
    ensures dst.Bytes() == old(dst.Bytes()) + IdenticalFrame(k, exp, base, count)
  {
    ghost var before := dst.Bytes();
    var hdr := WriteHeader(TypeByte(k), false, count, Some(PackParams(AlpParams(exp, 0, 0, false))));
    dst.ExtendFromSlice(hdr);
    dst.ExtendFromSlice(BaseBytes(k, base));
    assert before + hdr + BaseBytes(k, base) == before + (hdr + BaseBytes(k, base));
  }

  lemma IdenticalRestores(ar: Arith, exp: nat, base: int, slice: seq<nat>)
    requires ar.Valid() && AllBits(ar.kind, slice) && 0 < |slice| < COUNT_LIMIT
    requires exp <= ar.kind.MaxExponent() && ar.kind.IsInt(base)
    requires Decode(ar, BestParams(exp, 0, false), base) == slice[0] && AllSame(slice, slice[0])
    ensures RestoresPlain(ar, IdenticalFrame(ar.kind, exp, base, |slice|), slice)
    ensures EngineBlock(ar, IdenticalFrame(ar.kind, exp, base, |slice|), slice)
  {
    var k, p := ar.kind, AlpParams(exp, 0, 0, false);
    var ints := seq(|slice|, _ => base);
    ConstantPayload(k, base, ints);
    ConstantOffsets(k, base, |slice|);
    assert Represents(ar, p.Best(), slice, ints, []);
    StandardFrameRestores(ar, p, slice, ints, base, []);
    NothingPacked(Offsets(k, ints, base), 0, []);
    OneElementFits(k, |slice|);
  }

  lemma ConstantOffsets(k: FloatKind, base: int, n: nat)
    ensures AllBelow(Offsets(k, seq(n, _ => base), base), 0)
  {
    var offs := Offsets(k, seq(n, _ => base), base);
    forall i | 0 <= i < n ensures offs[i] < Pow2(0) {
      assert (base - base) % k.Modulus() == 0;
    }
  }

  lemma OneElementFits(k: FloatKind, n: nat)
    requires n > 0
    ensures HeaderLen(n) + k.Size() < RawSize(k, n) + (if n == 1 then 3 else 0)
  {
    if k.F64? {
      assert n * k.Size() == 8 * n;
    } else {
      assert n * k.Size() == 4 * n;
    }
  }

  lemma ConstantPayload(k: FloatKind, base: int, ints: seq<int>)
    ensures StandardPayload(k, 0, ints, base, []) == BaseBytes(k, base)
  {
    NothingPacked(Offsets(k, ints, base), 0, BaseBytes(k, base));
  }

  // Base and width, outliers of wide blocks pruned, exception slots filled.
  method NarrowInts(ar: Arith, p: BestParams, slice: seq<nat>, enc: array<int>, lo: int, hi: int, es0: seq<Exception>,
                    cache: EngineCache) returns (base: int, w: nat, es: seq<Exception>, pruned: bool)
    requires ar.Valid() && ValidBest(ar.kind, p) && Encoding(ar, p, slice, enc[..], es0, lo, hi)
    modifies enc, cache`targetBw
    ensures ar.kind.IsInt(base) && w <= ar.kind.Bits() && Pruned(ar, p, slice, enc[..], base, w, es)
    ensures Smoothed(ar.kind, slice, KernelBlock(ar, p, slice, lo, hi), old(cache.targetBw),
                     Block(enc[..], base, w, es), cache.targetBw)
    ensures pruned == PrunesFirst(KernelBlock(ar, p, slice, lo, hi))
  {
    KernelBlockIs(ar, p, slice, enc[..], es0, lo, hi);
    WidthFits(ar, p, slice, enc[..], es0, lo, hi);
    var (b, width) := BaseAndWidth(ar.kind, lo, hi);
    base, w, es, pruned := b, width, es0, false;
    ghost var target := cache.targetBw;
    if w >= HIGH_BW_PRUNE_THRESHOLD && |es| < MAX_EXCEPTIONS {
      pruned := true;
      w, es := PrePrune(ar, p, slice, enc, base, w, es, cache);
    }
    ghost var m := Block(enc[..], base, w, es);
    Backfill(ar, p, slice, enc, base, w, es);
    assert SlotsFilled(m, Block(enc[..], base, w, es));
    assert pruned ==> PruneStep(ar.kind, slice, KernelBlock(ar, p, slice, lo, hi), target, m, cache.targetBw);
  }

  lemma KernelBlockIs(ar: Arith, p: BestParams, slice: seq<nat>, ints: seq<int>, es: seq<Exception>, lo: int, hi: int)
    requires ar.Valid() && Encoding(ar, p, slice, ints, es, lo, hi)
    ensures KernelBlock(ar, p, slice, lo, hi)
      == Block(ints, BaseAndWidth(ar.kind, lo, hi).0, BaseAndWidth(ar.kind, lo, hi).1, es)
  {
    assert ints == KernelInts(ar, p, slice);
  }

  // Offsets or differences: the kind with the smaller block, differences when forced.
  method ChooseKind(k: FloatKind, ints: seq<int>, w: nat, excs: nat, forceDelta: bool, cache: EngineCache)
      returns (useDelta: bool, minDelta: int, dw: nat, total: nat)
    requires ints != []
    modifies cache`useDelta
    ensures useDelta ==> |ints| > 1 && minDelta == LeastDelta(k, ints[0], ints[1..]) && dw == DeltaWidth(k, ints[0], ints[1..])
    ensures total == (if useDelta then DeltaTotal(k, |ints|, dw, excs) else ForTotal(k, |ints|, w, excs))
    ensures useDelta == PrefersDelta(k, ints, w, excs, forceDelta, old(cache.useDelta))
    ensures cache.useDelta ==
      (if !forceDelta && old(cache.useDelta).None? then Some(useDelta) else old(cache.useDelta))
  {
    var decision := DeltaDecision(k, ints, w, forceDelta, cache.useDelta);
    total := ForTotal(k, |ints|, w, excs);
    useDelta, minDelta, dw := false, 0, 0;
    if decision.Some? {
      var deltaTotal := DeltaTotal(k, |ints|, decision.value.1, excs);
      if deltaTotal < total || forceDelta {
        useDelta, minDelta, dw, total := true, decision.value.0, decision.value.1, deltaTotal;
      }
    }
    if !forceDelta && cache.useDelta.None? {
      cache.useDelta := Some(useDelta);
    }
  }

  // The stages after the kernel succeeded, up to the written block.
  method CompressInts(ar: Arith, slice: seq<nat>, p: BestParams, enc: array<int>, lo: int, hi: int, es0: seq<Exception>,
                      forceDelta: bool, ghost kept: Option<BestParams>, cache: EngineCache, dst: ByteVec)
      returns (r: Option<BestParams>)
    requires dst.Valid() && ar.Valid() && AllBits(ar.kind, slice) && 0 < |slice| < COUNT_LIMIT
    requires ValidBest(ar.kind, p) && !TooMany(ar, p, slice)
    requires Encoding(ar, p, slice, enc[..], es0, lo, hi)
    modifies enc, cache, dst, dst.buf
    ensures dst.Valid() && (dst.buf == old(dst.buf) || fresh(dst.buf))
    ensures Appended(ar, old(dst.Bytes()), dst.Bytes(), slice)
    ensures r.Some? ==> r.value == p
    ensures Sealed(ar, slice, forceDelta, old(cache.State(kept)), p, dst.Bytes()[|old(dst.Bytes())|..], cache.State(r))
  {
    ghost var m := cache.State(kept);
    ghost var b0 := KernelBlock(ar, p, slice, lo, hi);
    var base, w, es, useDelta, minDelta, dw, total := DecideInts(ar, slice, p, enc, lo, hi, es0, forceDelta, cache);
    ghost var b, m1 := Block(enc[..], base, w, es), cache.State(None);
    r := WriteBlock(ar, p, slice, enc[..], base, w, es, useDelta, minDelta, dw, total, dst);
    OutcomeIs(ar, slice, forceDelta, m, p, lo, hi, b, useDelta, dst.Bytes()[|old(dst.Bytes())|..], cache.State(r));
  }

  // What encoding with given parameters leads to, said so that its parts stay out of
  // proofs that only pass it on.
  ghost predicate Sealed(ar: Arith, slice: seq<nat>, forceDelta: bool, m: Memo, p: BestParams, frame: seq<byte>, m': Memo) {
    forall f: seq<byte> :: f == frame ==> EncodedWith(ar, slice, forceDelta, m, p, f, m')
  }

  lemma OutcomeIs(ar: Arith, slice: seq<nat>, forceDelta: bool, m: Memo, p: BestParams, lo: int, hi: int, b: Block,
                  asDelta: bool, frame: seq<byte>, m': Memo)
    requires p.fac <= p.exp && !TooMany(ar, p, slice) && Extremes(ar, p, slice, |slice|, lo, hi)
    ensures Decided(ar.kind, slice, KernelBlock(ar, p, slice, lo, hi), forceDelta, m.targetBw, m.useDelta, b, asDelta,
                    m'.targetBw, m'.useDelta) && Framed(ar.kind, p, slice, b, asDelta, frame, m'.params)
      ==> Sealed(ar, slice, forceDelta, m, p, frame, m')
  {
    if Decided(ar.kind, slice, KernelBlock(ar, p, slice, lo, hi), forceDelta, m.targetBw, m.useDelta, b, asDelta,
               m'.targetBw, m'.useDelta) && Framed(ar.kind, p, slice, b, asDelta, frame, m'.params) {
      assert Outcome(ar, slice, forceDelta, m, p, lo, hi, b, asDelta, frame, m');
    }
  }

  // Base, width, exceptions, and the kind of block with its size.
  method DecideInts(ar: Arith, slice: seq<nat>, p: BestParams, enc: array<int>, lo: int, hi: int, es0: seq<Exception>,
                    forceDelta: bool, cache: EngineCache)
      returns (base: int, w: nat, es: seq<Exception>, useDelta: bool, minDelta: int, dw: nat, total: nat)
    requires ar.Valid() && ValidBest(ar.kind, p) && Encoding(ar, p, slice, enc[..], es0, lo, hi) && slice != []
    modifies enc, cache
    ensures ar.kind.IsInt(base) && w <= ar.kind.Bits() && Pruned(ar, p, slice, enc[..], base, w, es)
    ensures useDelta ==>
      && |slice| > 1 && minDelta == LeastDelta(ar.kind, enc[0], enc[1..])
      && dw == DeltaWidth(ar.kind, enc[0], enc[1..])
    ensures total == (if useDelta then DeltaTotal(ar.kind, |slice|, dw, |es|) else ForTotal(ar.kind, |slice|, w, |es|))
    ensures Decided(ar.kind, slice, KernelBlock(ar, p, slice, lo, hi), forceDelta, old(cache.targetBw),
                    old(cache.useDelta), Block(enc[..], base, w, es), useDelta, cache.targetBw, cache.useDelta)
  {
    ghost var b0, t0, u0 := KernelBlock(ar, p, slice, lo, hi), cache.targetBw, cache.useDelta;
    var pruned;
    base, w, es, pruned := NarrowInts(ar, p, slice, enc, lo, hi, es0, cache);
    ghost var s, t := Block(enc[..], base, w, es), cache.targetBw;
    useDelta, minDelta, dw, total := ChooseKind(ar.kind, enc[..], w, |es|, forceDelta, cache);
    if !pruned && !useDelta && LOW_BW_PRUNE_MIN < w < HIGH_BW_PRUNE_THRESHOLD {
      w, es := LowPrune(ar, p, slice, enc, base, w, es, cache);
      total := ForTotal(ar.kind, |slice|, w, |es|);
    }
    DecidedIs(ar.kind, slice, b0, forceDelta, t0, u0, s, t, Block(enc[..], base, w, es), useDelta, cache.targetBw,
              cache.useDelta);
  }

  lemma DecidedIs(k: FloatKind, slice: seq<nat>, b0: Block, forceDelta: bool, targetBw: CachedTargetBw,
                  useDelta: Option<bool>, s: Block, t: CachedTargetBw, b: Block, asDelta: bool,
                  targetBw': CachedTargetBw, useDelta': Option<bool>)
    requires asDelta == PrefersDelta(k, s.ints, s.w, |s.es|, forceDelta, useDelta)
    requires useDelta' == (if !forceDelta && useDelta.None? then Some(asDelta) else useDelta)
    requires !PrunesLast(b0, s, asDelta) ==> b == s && targetBw' == t
    ensures Smoothed(k, slice, b0, targetBw, s, t) && (PrunesLast(b0, s, asDelta) ==> PruneStep(k, slice, s, t, b, targetBw'))
      ==> Decided(k, slice, b0, forceDelta, targetBw, useDelta, b, asDelta, targetBw', useDelta')
  {
    if Smoothed(k, slice, b0, targetBw, s, t) && (PrunesLast(b0, s, asDelta) ==> PruneStep(k, slice, s, t, b, targetBw')) {
      assert DecidedBy(k, slice, b0, forceDelta, targetBw, useDelta, s, t, b, asDelta, targetBw', useDelta');
    }
  }

  // When every float is an exception the table alone is larger than the raw block.
  lemma OnlyExceptions(ar: Arith, p: BestParams, slice: seq<nat>, n: nat, es: seq<Exception>, w: nat, dw: nat)
    requires ar.Valid() && ValidBest(ar.kind, p) && n == |slice| > 0 && es == Rejected(ar, p, slice, n)
    requires forall i :: 0 <= i < n ==> !Accepts(ar, p, slice[i])
    ensures ForTotal(ar.kind, n, w, |es|) >= RawSize(ar.kind, n)
    ensures DeltaTotal(ar.kind, n, dw, |es|) >= RawSize(ar.kind, n)
  {
    AllRejected(ar, p, slice, n);
    if ar.kind.F64? {
      assert n * EntrySize(ar.kind, IsLarge(n)) >= 8 * n == n * ar.kind.Size();
    } else {
      assert n * EntrySize(ar.kind, IsLarge(n)) >= 4 * n == n * ar.kind.Size();
    }
  }

  // The block chosen, or a raw one when it would not be smaller.
  method WriteBlock(ar: Arith, p: BestParams, slice: seq<nat>, ints: seq<int>, base: int, w: nat, es: seq<Exception>,
                    useDelta: bool, minDelta: int, dw: nat, total: nat, dst: ByteVec) returns (r: Option<BestParams>)
    requires dst.Valid() && AllBits(ar.kind, slice) && 0 < |slice| < COUNT_LIMIT
    requires ValidBest(ar.kind, p) && w <= ar.kind.Bits() && ar.kind.IsInt(base)
    requires Pruned(ar, p, slice, ints, base, w, es)
    requires useDelta ==>
      |ints| > 1 && minDelta == LeastDelta(ar.kind, ints[0], ints[1..]) && dw == DeltaWidth(ar.kind, ints[0], ints[1..])
    requires total == (if useDelta then DeltaTotal(ar.kind, |slice|, dw, |es|) else ForTotal(ar.kind, |slice|, w, |es|))
    modifies dst, dst.buf
    ensures dst.Valid() && (dst.buf == old(dst.buf) || fresh(dst.buf))
    ensures Appended(ar, old(dst.Bytes()), dst.Bytes(), slice)
    ensures r == (if total >= RawSize(ar.kind, |slice|) then None else Some(p))
    ensures |dst.Bytes()| == |old(dst.Bytes())| + Min(total, RawSize(ar.kind, |slice|))
    ensures Framed(ar.kind, p, slice, Block(ints, base, w, es), useDelta, dst.Bytes()[|old(dst.Bytes())|..], r)
  {
    RawFrameRestores(ar, slice);
    ghost var before := dst.Bytes();
    if total >= |slice| * ar.kind.Size() + RawHeaderLen(|slice|) {
      CompressRaw(ar, slice, dst);
      return None;
    }
    if useDelta {
      WriteDeltaBlock(ar, p, dw, slice, ints, minDelta, es, dst);
    } else {
      WriteStandardBlock(ar, p, w, slice, ints, base, es, dst);
    }
    r := Some(p);
    assert dst.Bytes() == before + BlockFrame(ar.kind, p, Block(ints, base, w, es), useDelta);
  }

  method WriteStandardBlock(ar: Arith, p: BestParams, w: nat, ghost slice: seq<nat>, ints: seq<int>, base: int,
                            es: seq<Exception>, dst: ByteVec)
    requires dst.Valid() && AllBits(ar.kind, slice) && 0 < |slice| < COUNT_LIMIT
    requires ValidBest(ar.kind, p) && w <= ar.kind.Bits() && ar.kind.IsInt(base)
    requires Pruned(ar, p, slice, ints, base, w, es)
    requires ForTotal(ar.kind, |slice|, w, |es|) < |slice| * ar.kind.Size() + RawHeaderLen(|slice|)
    modifies dst, dst.buf
    ensures dst.Valid() && (dst.buf == old(dst.buf) || fresh(dst.buf))
    ensures Appended(ar, old(dst.Bytes()), dst.Bytes(), slice)
    ensures |dst.Bytes()| == |old(dst.Bytes())| + ForTotal(ar.kind, |slice|, w, |es|)
    ensures dst.Bytes() == old(dst.Bytes()) + StandardFrame(ar.kind, AlpParams(p.exp, p.fac, w, p.useDiv), ints, base, es)
  {
    var params := AlpParams(p.exp, p.fac, w, p.useDiv);
    StandardFrameRestores(ar, params, slice, ints, base, es);
    AppendedFrame(ar, dst.Bytes(), StandardFrame(ar.kind, params, ints, base, es), slice);
    EncodeStandard(ar.kind, params, ints, base, es, dst);
  }

  method WriteDeltaBlock(ar: Arith, p: BestParams, dw: nat, ghost slice: seq<nat>, ints: seq<int>, minDelta: int,
                         es: seq<Exception>, dst: ByteVec)
    requires dst.Valid() && AllBits(ar.kind, slice) && 1 < |slice| < COUNT_LIMIT
    requires ValidBest(ar.kind, p) && Represents(ar, p, slice, ints, es)
    requires minDelta == LeastDelta(ar.kind, ints[0], ints[1..]) && dw == DeltaWidth(ar.kind, ints[0], ints[1..])
    requires DeltaTotal(ar.kind, |slice|, dw, |es|) < |slice| * ar.kind.Size() + RawHeaderLen(|slice|)
    modifies dst, dst.buf
    ensures dst.Valid() && (dst.buf == old(dst.buf) || fresh(dst.buf))
    ensures Appended(ar, old(dst.Bytes()), dst.Bytes(), slice)
    ensures |dst.Bytes()| == |old(dst.Bytes())| + DeltaTotal(ar.kind, |slice|, dw, |es|)
    ensures dst.Bytes() == old(dst.Bytes()) + DeltaFrame(ar.kind, AlpParams(p.exp, p.fac, dw, p.useDiv), ints, minDelta, es)
  {
    var params := AlpParams(p.exp, p.fac, dw, p.useDiv);
    DeltaOffsetsFit(ar.kind, ints);
    DeltaFrameRestores(ar, params, slice, ints, minDelta, es);
    AppendedFrame(ar, dst.Bytes(), DeltaFrame(ar.kind, params, ints, minDelta, es), slice);
    EncodeDelta(ar.kind, params, ints, minDelta, es, dst);
  }

  // Appends one block that restores the slice bit for bit, whatever path was taken, and
  // the very block and memory that the plan says.
  method CompressIntoEngine(ar: Arith, slice: seq<nat>, forceDelta: bool, cached: Option<BestParams>,
                            cache: EngineCache, dst: ByteVec) returns (r: Option<BestParams>)
    requires dst.Valid() && ar.Valid() && KernelFaithful(ar)
    requires AllBits(ar.kind, slice) && |slice| < COUNT_LIMIT
    requires cached.Some? ==> ValidBest(ar.kind, cached.value)
    modifies cache, dst, dst.buf
    ensures dst.Valid() && (dst.buf == old(dst.buf) || fresh(dst.buf))
    ensures Appended(ar, old(dst.Bytes()), dst.Bytes(), slice)
    ensures r.Some? ==> ValidBest(ar.kind, r.value)
    ensures EngineRun(ar, slice, forceDelta, old(cache.State(cached)), dst.Bytes()[|old(dst.Bytes())|..], cache.State(r))
    ensures Unencodable(ar, slice) ==> AppendedRaw(ar.kind, old(dst.Bytes()), dst.Bytes(), |slice|)
  {
    ghost var m, before := cache.State(cached), dst.Bytes();
    if slice == [] {
      EmptyFrameRestores(ar);
      AppendedFrame(ar, dst.Bytes(), WriteHeader(TypeByte(ar.kind), false, 0, None), []);
      dst.ExtendFromSlice(WriteHeader(TypeByte(ar.kind), false, 0, None));
      r := None;
    } else {
      r := TryIdentical(ar, slice, dst);
      if r.None? {
        r := CompressEncoded(ar, slice, forceDelta, cached, cache, dst);
      } else {
        CommonRun(ar, slice, forceDelta, m, r.value.exp, dst.Bytes()[|before|..], cache.State(r));
      }
    }
    if slice != [] && Unencodable(ar, slice) {
      RunIsRaw(ar, slice, forceDelta, m, dst.Bytes()[|before|..], cache.State(r));
    }
  }

  lemma CommonRun(ar: Arith, slice: seq<nat>, forceDelta: bool, m: Memo, e: nat, frame: seq<byte>, m': Memo)
    requires m.Valid(ar.kind) && CommonAt(ar, slice, e) && frame == CommonFrame(ar, slice, e)
    requires m' == m.(params := Some(BestParams(e, 0, false)))
    ensures EngineRun(ar, slice, forceDelta, m, frame, m')
  {
    forall f: nat | CommonAt(ar, slice, f) ensures f == e {
      OneCommon(ar, slice, e, f);
    }
    assert RunOf(ar, slice, forceDelta, m, frame, m');
  }

  lemma OneCommon(ar: Arith, slice: seq<nat>, e: nat, f: nat)
    requires CommonAt(ar, slice, e) && CommonAt(ar, slice, f)
    ensures e == f
  {
  }

  // No base stands for all floats: they are encoded one by one.
  method CompressEncoded(ar: Arith, slice: seq<nat>, forceDelta: bool, cached: Option<BestParams>,
                         cache: EngineCache, dst: ByteVec) returns (r: Option<BestParams>)
    requires dst.Valid() && ar.Valid() && KernelFaithful(ar)
    requires AllBits(ar.kind, slice) && 0 < |slice| < COUNT_LIMIT && !HasCommon(ar, slice)
    requires cached.Some? ==> ValidBest(ar.kind, cached.value)
    modifies cache, dst, dst.buf
    ensures dst.Valid() && (dst.buf == old(dst.buf) || fresh(dst.buf))
    ensures Appended(ar, old(dst.Bytes()), dst.Bytes(), slice)
    ensures r.Some? ==> ValidBest(ar.kind, r.value)
    ensures EngineRun(ar, slice, forceDelta, old(cache.State(cached)), dst.Bytes()[|old(dst.Bytes())|..], cache.State(r))
  {
    ghost var m, before := cache.State(cached), dst.Bytes();
    var enc := new int[|slice|];
    var p, lo, hi, es, used := EncodeFloats(ar, slice, cached, enc);
    if |es| > MAX_EXCEPTIONS {
      CompressRaw(ar, slice, dst);
      r := None;
      RawRun(ar, slice, forceDelta, m, used, dst.Bytes()[|before|..], cache.State(r));
    } else {
      r := CompressInts(ar, slice, p, enc, lo, hi, es, forceDelta, cached, cache, dst);
      SealedRun(ar, slice, forceDelta, m, p, dst.Bytes()[|before|..], cache.State(r));
    }
  }

  lemma RawRun(ar: Arith, slice: seq<nat>, forceDelta: bool, m: Memo, p: BestParams, frame: seq<byte>, m': Memo)
    requires m.Valid(ar.kind) && slice != [] && !HasCommon(ar, slice) && Used(ar, slice, m.params, p)
    requires p.fac <= p.exp && TooMany(ar, p, slice) && frame == RawFrame(ar.kind, slice) && m' == m.(params := None)
    ensures EngineRun(ar, slice, forceDelta, m, frame, m')
  {
    assert EncodedWith(ar, slice, forceDelta, m, p, frame, m');
    assert RunOf(ar, slice, forceDelta, m, frame, m');
  }

  lemma SealedRun(ar: Arith, slice: seq<nat>, forceDelta: bool, m: Memo, p: BestParams, frame: seq<byte>, m': Memo)
    requires m.Valid(ar.kind) && slice != [] && !HasCommon(ar, slice) && Used(ar, slice, m.params, p)
    ensures Sealed(ar, slice, forceDelta, m, p, frame, m') ==> EngineRun(ar, slice, forceDelta, m, frame, m')
  {
    if Sealed(ar, slice, forceDelta, m, p, frame, m') {
      assert EncodedWith(ar, slice, forceDelta, m, p, frame, m');
      assert RunOf(ar, slice, forceDelta, m, frame, m');
    }
  }

  method EncodeFloats(ar: Arith, slice: seq<nat>, cached: Option<BestParams>, enc: array<int>)
      returns (p: BestParams, lo: int, hi: int, es: seq<Exception>, ghost used: BestParams)
    requires ar.Valid() && KernelFaithful(ar) && enc.Length == |slice|
    requires cached.Some? ==> ValidBest(ar.kind, cached.value)
    modifies enc
    ensures Used(ar, slice, cached, used) && ValidBest(ar.kind, used)
    ensures |es| > MAX_EXCEPTIONS <==> TooMany(ar, used, slice)
    ensures |es| <= MAX_EXCEPTIONS ==> p == used && Encoding(ar, p, slice, enc[..], es, lo, hi)
  {
    var p0 := PickParams(ar, slice, cached);
    p, lo, hi, es, used := EncodeWithSalvage(ar, slice, p0, cached, enc);
  }

  // ---------- what follows from the plan ----------

  // Floats that no parameters encode are stored raw.
  lemma RunIsRaw(ar: Arith, slice: seq<nat>, forceDelta: bool, m: Memo, frame: seq<byte>, m': Memo)
    requires ar.Valid() && AllBits(ar.kind, slice) && 0 < |slice| < COUNT_LIMIT && Unencodable(ar, slice)
    ensures EngineRun(ar, slice, forceDelta, m, frame, m') ==>
      frame == RawFrame(ar.kind, slice) && IsRawBlock(ar.kind, frame, |slice|)
  {
    if EngineRun(ar, slice, forceDelta, m, frame, m') {
      RawFrameRestores(ar, slice);
      assert RunOf(ar, slice, forceDelta, m, frame, m');
      NoCommonBase(ar, slice);
      RawWith(ar, slice, forceDelta, m, frame, m');
    }
  }

  lemma NoCommonBase(ar: Arith, slice: seq<nat>)
    requires Unencodable(ar, slice)
    ensures !HasCommon(ar, slice)
  {
    forall e: nat ensures !CommonAt(ar, slice, e) {
      var p := BestParams(e, 0, false);
      assert ValidBest(ar.kind, p) && slice != [] ==> !Accepts(ar, p, slice[0]);
      if CommonAt(ar, slice, e) {
        EncodesAt(ar, e, slice[0]);
      }
    }
  }

  lemma RawWith(ar: Arith, slice: seq<nat>, forceDelta: bool, m: Memo, frame: seq<byte>, m': Memo)
    requires ar.Valid() && slice != [] && Unencodable(ar, slice)
    requires m.Valid(ar.kind) && EncodedRun(ar, slice, forceDelta, m, frame, m')
    ensures frame == RawFrame(ar.kind, slice)
  {
    var p :| Used(ar, slice, m.params, p) && EncodedWith(ar, slice, forceDelta, m, p, frame, m');
    if !TooMany(ar, p, slice) {
      var lo, hi, b, asDelta :| Outcome(ar, slice, forceDelta, m, p, lo, hi, b, asDelta, frame, m');
      NothingAccepted(ar, slice, forceDelta, m, p, lo, hi, b, asDelta, frame, m');
    }
  }

  lemma EncodesAt(ar: Arith, e: nat, v: nat)
    requires TryEncodeFast(ar, e, 0, v).Some?
    ensures Accepts(ar, BestParams(e, 0, false), v)
  {
    assert Pow10(0) == 1;
  }

  lemma NothingAccepted(ar: Arith, slice: seq<nat>, forceDelta: bool, m: Memo, p: BestParams, lo: int, hi: int, b: Block,
                        asDelta: bool, frame: seq<byte>, m': Memo)
    requires ar.Valid() && ValidBest(ar.kind, p) && slice != [] && !TooMany(ar, p, slice)
    requires forall i :: 0 <= i < |slice| ==> !Accepts(ar, p, slice[i])
    requires Outcome(ar, slice, forceDelta, m, p, lo, hi, b, asDelta, frame, m')
    ensures frame == RawFrame(ar.kind, slice)
  {
    var b0 := KernelBlock(ar, p, slice, lo, hi);
    var s, t :| DecidedBy(ar.kind, slice, b0, forceDelta, m.targetBw, m.useDelta, s, t, b, asDelta, m'.targetBw, m'.useDelta);
    assert b == s && b.es == b0.es;
    OnlyExceptions(ar, p, slice, |slice|, b.es, b.w, DeltaWidth(ar.kind, b.ints[0], b.ints[1..]));
  }

  // the exceptions that pruning from one width to another makes
  function OutlierCount(k: FloatKind, slice: seq<nat>, ints: seq<int>, base: int, w0: nat, w: nat): nat
    requires |ints| == |slice|
  {
    if w < w0 then |Outliers(k, slice, ints, base, w, |slice|)| else 0
  }

  // ---------- what is known of a block before it is written ----------

  function Encodings(ar: Arith, p: BestParams, slice: seq<nat>): (ints: seq<int>)
    requires p.fac <= p.exp
    ensures |ints| == |slice|
  {
    seq(|slice|, i requires 0 <= i < |slice| => Encode(ar, p, slice[i]))
  }

  // No exceptions, offsets of 5 to 15 bits, nothing known about pruning, and differences
  // are not offered.
  ghost predicate StaysNarrow(k: FloatKind, ints: seq<int>, lo: int, hi: int, es: seq<Exception>, forceDelta: bool,
                              targetBw: CachedTargetBw, useDelta: Option<bool>) {
    && es == [] && |ints| > 1 && lo <= hi && targetBw.Uninit?
    && LOW_BW_PRUNE_MIN < OffsetWidth(k, lo, hi) < HIGH_BW_PRUNE_THRESHOLD
    && !DeltaOffered(k, ints, OffsetWidth(k, lo, hi), forceDelta, useDelta)
  }

  // Such a block is pruned as the search answers, and raw when it is not smaller then;
  // said so that the search stays out of proofs that only pass it on.
  ghost predicate NarrowSize(k: FloatKind, slice: seq<nat>, ints: seq<int>, base: int, w0: nat, size: int)
    requires |ints| == |slice|
  {
    forall n: int :: n == size ==> AnswerSized(k, slice, ints, base, w0, n)
  }

  ghost predicate AnswerSized(k: FloatKind, slice: seq<nat>, ints: seq<int>, base: int, w0: nat, size: int)
    requires |ints| == |slice|
  {
    exists w: nat :: NarrowAnswer(k, slice, ints, base, w0, w, size)
  }

  ghost predicate NarrowAnswer(k: FloatKind, slice: seq<nat>, ints: seq<int>, base: int, w0: nat, w: nat, size: int)
    requires |ints| == |slice|
  {
    && PruneAnswer(k, ints, base, w0, 0, w)
    && size == Min(ForTotal(k, |slice|, w, OutlierCount(k, slice, ints, base, w0, w)), RawSize(k, |slice|))
  }

  // The kept parameters encode every float, neighbours differ at the start, and the
  // encodings stay narrow.
  ghost predicate NarrowSlice(ar: Arith, p: BestParams, slice: seq<nat>, lo: int, hi: int, forceDelta: bool,
                              targetBw: CachedTargetBw, useDelta: Option<bool>) {
    && ValidBest(ar.kind, p) && |slice| > 1 && slice[1] != slice[0] && AllAccepted(ar, p, slice)
    && Extremes(ar, p, slice, |slice|, lo, hi)
    && StaysNarrow(ar.kind, Encodings(ar, p, slice), lo, hi, [], forceDelta, targetBw, useDelta)
  }

  // One integer, found at the first exponent, stands for all floats.
  predicate OneBase(ar: Arith, slice: seq<nat>) {
    slice != [] && AllSame(slice, slice[0]) && TryEncodeFast(ar, 0, 0, slice[0]).Some?
  }

  // The bytes a block takes and the parameters it leaves, where that is known: raw when
  // no float can be encoded, one base, or a narrow block with parameters kept.
  ghost predicate Told(ar: Arith, slice: seq<nat>, forceDelta: bool, cached: Option<BestParams>,
                       targetBw: CachedTargetBw, useDelta: Option<bool>, size: int, r: Option<BestParams>) {
    && (slice != [] && Unencodable(ar, slice) ==> size == RawSize(ar.kind, |slice|))
    && (OneBase(ar, slice) ==> r == Some(BestParams(0, 0, false)))
    && NarrowForeseen(ar, slice, forceDelta, cached, targetBw, useDelta, size)
  }

  // The same, said so that its parts stay out of proofs that only pass it on.
  ghost predicate Foreseen(ar: Arith, slice: seq<nat>, forceDelta: bool, cached: Option<BestParams>,
                           targetBw: CachedTargetBw, useDelta: Option<bool>, size: int, r: Option<BestParams>) {
    forall n: int :: n == size ==> Told(ar, slice, forceDelta, cached, targetBw, useDelta, n, r)
  }

  // The size of the block of a slice that stays narrow with the kept parameters.
  ghost predicate NarrowForeseen(ar: Arith, slice: seq<nat>, forceDelta: bool, cached: Option<BestParams>,
                                 targetBw: CachedTargetBw, useDelta: Option<bool>, size: int) {
    forall n: int :: n == size ==> NarrowTold(ar, slice, forceDelta, cached, targetBw, useDelta, n)
  }

  ghost predicate NarrowTold(ar: Arith, slice: seq<nat>, forceDelta: bool, cached: Option<BestParams>,
                             targetBw: CachedTargetBw, useDelta: Option<bool>, size: int) {
    cached.Some? ==>
      forall lo, hi :: NarrowSlice(ar, cached.value, slice, lo, hi, forceDelta, targetBw, useDelta) ==>
        NarrowSize(ar.kind, slice, Encodings(ar, cached.value, slice), lo, OffsetWidth(ar.kind, lo, hi), size)
  }

  lemma FrameSizes(k: FloatKind, p: AlpParams, ints: seq<int>, base: int, es: seq<Exception>)
    ensures |StandardFrame(k, p, ints, base, es)| == ForTotal(k, |ints|, p.bitWidth, |es|)
  {
    TableSize(k, |ints|, es);
  }

  lemma ExtremesUnique(ar: Arith, p: BestParams, slice: seq<nat>, lo: int, hi: int, lo': int, hi': int)
    requires p.fac <= p.exp && slice != [] && AllAccepted(ar, p, slice)
    requires Extremes(ar, p, slice, |slice|, lo, hi) && Extremes(ar, p, slice, |slice|, lo', hi')
    ensures lo == lo' && hi == hi' && lo <= hi
  {
    assert Accepts(ar, p, slice[0]);
  }

  // With kept parameters that encode every float nothing else is used.
  lemma KeptUsed(ar: Arith, slice: seq<nat>, kept: BestParams, p: BestParams)
    requires ar.Valid() && KernelFaithful(ar) && ValidBest(ar.kind, kept) && AllAccepted(ar, kept, slice)
    requires Used(ar, slice, Some(kept), p)
    ensures p == kept && Rejected(ar, p, slice, |slice|) == [] && KernelInts(ar, p, slice) == Encodings(ar, p, slice)
  {
    assert ValidateCachedParams(ar, kept, slice);
    NoneRejected(ar, kept, slice, |slice|);
    var p0 :| UsedAfter(ar, slice, Some(kept), p0, p);
  }

  lemma NothingToFill(before: seq<int>, after: seq<int>, base: int)
    requires Backfilled(before, after, base, [])
    ensures after == before
  {
    forall j | 0 <= j < |after| ensures after[j] == before[j] {
      assert SlotFilled(before, after, base, [], j);
    }
  }

  // Narrow offsets without exceptions go to the last chance to prune as they are.
  lemma NarrowDecided(k: FloatKind, slice: seq<nat>, b0: Block, lo: int, hi: int, forceDelta: bool, targetBw: CachedTargetBw,
                      useDelta: Option<bool>, b: Block, asDelta: bool, targetBw': CachedTargetBw, useDelta': Option<bool>)
    requires StaysNarrow(k, b0.ints, lo, hi, b0.es, forceDelta, targetBw, useDelta) && |b0.ints| == |slice|
    requires b0.base == lo && b0.w == OffsetWidth(k, lo, hi)
    requires Decided(k, slice, b0, forceDelta, targetBw, useDelta, b, asDelta, targetBw', useDelta')
    ensures !asDelta && PruneStep(k, slice, b0, Uninit, b, targetBw')
  {
    var s, t :| DecidedBy(k, slice, b0, forceDelta, targetBw, useDelta, s, t, b, asDelta, targetBw', useDelta');
    NothingToFill(b0.ints, s.ints, b0.base);
    assert s == b0;
  }

  lemma NarrowOutcome(ar: Arith, p: BestParams, slice: seq<nat>, lo: int, hi: int, forceDelta: bool, m: Memo, b: Block,
                      asDelta: bool, frame: seq<byte>, m': Memo)
    requires ar.Valid() && AllBits(ar.kind, slice) && |slice| < COUNT_LIMIT && ValidBest(ar.kind, p)
    requires StaysNarrow(ar.kind, Encodings(ar, p, slice), lo, hi, [], forceDelta, m.targetBw, m.useDelta)
    requires Rejected(ar, p, slice, |slice|) == [] && KernelInts(ar, p, slice) == Encodings(ar, p, slice)
    requires Outcome(ar, slice, forceDelta, m, p, lo, hi, b, asDelta, frame, m')
    ensures NarrowSize(ar.kind, slice, Encodings(ar, p, slice), lo, OffsetWidth(ar.kind, lo, hi), |frame|)
  {
    var k, ints, w0 := ar.kind, Encodings(ar, p, slice), OffsetWidth(ar.kind, lo, hi);
    var b0 := KernelBlock(ar, p, slice, lo, hi);
    NarrowDecided(k, slice, b0, lo, hi, forceDelta, m.targetBw, m.useDelta, b, asDelta, m'.targetBw, m'.useDelta);
    OutliersStay(k, slice, ints, lo, b.w);
    assert |b.es| == OutlierCount(k, slice, ints, lo, w0, b.w);
    RawFrameRestores(ar, slice);
    FrameSizes(k, AlpParams(p.exp, p.fac, b.w, p.useDiv), b.ints, b.base, b.es);
    NarrowSizeIs(k, slice, ints, lo, w0, b.w, TotalSize(k, b, asDelta), |frame|);
  }

  lemma NarrowSizeIs(k: FloatKind, slice: seq<nat>, ints: seq<int>, base: int, w0: nat, w: nat, total: nat,
                     size: int)
    requires |ints| == |slice| && PruneAnswer(k, ints, base, w0, 0, w)
    requires total == ForTotal(k, |slice|, w, OutlierCount(k, slice, ints, base, w0, w))
    requires size == Min(total, RawSize(k, |slice|))
    ensures NarrowSize(k, slice, ints, base, w0, size)
  {
    assert NarrowAnswer(k, slice, ints, base, w0, w, size);
    assert AnswerSized(k, slice, ints, base, w0, size);
  }

  lemma NarrowRun(ar: Arith, slice: seq<nat>, forceDelta: bool, m: Memo, frame: seq<byte>, m': Memo, lo: int, hi: int)
    requires ar.Valid() && KernelFaithful(ar) && AllBits(ar.kind, slice) && |slice| < COUNT_LIMIT && m.params.Some?
    requires NarrowSlice(ar, m.params.value, slice, lo, hi, forceDelta, m.targetBw, m.useDelta)
    requires m.Valid(ar.kind) && EncodedRun(ar, slice, forceDelta, m, frame, m')
    ensures NarrowSize(ar.kind, slice, Encodings(ar, m.params.value, slice), lo, OffsetWidth(ar.kind, lo, hi), |frame|)
  {
    var p :| Used(ar, slice, m.params, p) && EncodedWith(ar, slice, forceDelta, m, p, frame, m');
    KeptUsed(ar, slice, m.params.value, p);
    var lo', hi', b, asDelta :| Outcome(ar, slice, forceDelta, m, p, lo', hi', b, asDelta, frame, m');
    ExtremesUnique(ar, p, slice, lo, hi, lo', hi');
    NarrowOutcome(ar, p, slice, lo, hi, forceDelta, m, b, asDelta, frame, m');
  }

  // What the plan says of such blocks, and of raw ones and those of one base.
  lemma RunForeseen(ar: Arith, slice: seq<nat>, forceDelta: bool, m: Memo, frame: seq<byte>, m': Memo)
    requires ar.Valid() && KernelFaithful(ar) && AllBits(ar.kind, slice) && |slice| < COUNT_LIMIT
    ensures EngineRun(ar, slice, forceDelta, m, frame, m') ==>
      Foreseen(ar, slice, forceDelta, m.params, m.targetBw, m.useDelta, |frame|, m'.params)
    ensures EngineRun(ar, slice, forceDelta, m, frame, m') && OneBase(ar, slice) ==>
      m' == m.(params := Some(BestParams(0, 0, false)))
  {
    if EngineRun(ar, slice, forceDelta, m, frame, m') {
      assert RunOf(ar, slice, forceDelta, m, frame, m');
      if slice != [] && Unencodable(ar, slice) {
        RunIsRaw(ar, slice, forceDelta, m, frame, m');
      }
      if OneBase(ar, slice) {
        assert CommonAt(ar, slice, 0);
      }
      NarrowRuns(ar, slice, forceDelta, m, frame, m');
      assert Told(ar, slice, forceDelta, m.params, m.targetBw, m.useDelta, |frame|, m'.params);
    }
  }

  lemma NarrowRuns(ar: Arith, slice: seq<nat>, forceDelta: bool, m: Memo, frame: seq<byte>, m': Memo)
    requires ar.Valid() && KernelFaithful(ar) && AllBits(ar.kind, slice) && |slice| < COUNT_LIMIT
    requires RunOf(ar, slice, forceDelta, m, frame, m')
    ensures NarrowForeseen(ar, slice, forceDelta, m.params, m.targetBw, m.useDelta, |frame|)
  {
    if m.params.Some? {
      forall lo, hi | NarrowSlice(ar, m.params.value, slice, lo, hi, forceDelta, m.targetBw, m.useDelta)
        ensures NarrowSize(ar.kind, slice, Encodings(ar, m.params.value, slice), lo, OffsetWidth(ar.kind, lo, hi), |frame|)
      {
        NarrowRun(ar, slice, forceDelta, m, frame, m', lo, hi);
      }
    }
    assert NarrowTold(ar, slice, forceDelta, m.params, m.targetBw, m.useDelta, |frame|);
  }

  // A block that keeps parameters and is not of one base was encoded with them: those kept
  // before as long as they served, and those of a sample otherwise.
  lemma KeepsUsed(ar: Arith, slice: seq<nat>, forceDelta: bool, m: Memo, frame: seq<byte>, m': Memo)
    requires m.Valid(ar.kind) && EngineRun(ar, slice, forceDelta, m, frame, m') && m'.params.Some?
    requires !HasCommon(ar, slice)
    ensures Used(ar, slice, m.params, m'.params.value)
    ensures m.params.None? ==> Sampled(ar, slice, m'.params.value)
  {
    assert RunOf(ar, slice, forceDelta, m, frame, m');
    var p :| Used(ar, slice, m.params, p) && EncodedWith(ar, slice, forceDelta, m, p, frame, m');
    var p0 :| UsedAfter(ar, slice, m.params, p0, p);
  }

  // The size of any block is the smaller of its plan's and the raw one's, and the raw block
  // is written only when it is no larger or too many floats are rejected.
  lemma SizeOfRun(ar: Arith, slice: seq<nat>, forceDelta: bool, m: Memo, frame: seq<byte>, m': Memo)
    requires ar.Valid() && AllBits(ar.kind, slice) && 0 < |slice| < COUNT_LIMIT
    requires m.Valid(ar.kind) && EngineRun(ar, slice, forceDelta, m, frame, m') && !HasCommon(ar, slice)
    ensures exists p :: Used(ar, slice, m.params, p) && SizedWith(ar, slice, forceDelta, m, p, |frame|, m'.params)
  {
    assert RunOf(ar, slice, forceDelta, m, frame, m');
    var p :| Used(ar, slice, m.params, p) && EncodedWith(ar, slice, forceDelta, m, p, frame, m');
    SizeOfEncoded(ar, slice, forceDelta, m, p, frame, m');
  }

  lemma SizeOfEncoded(ar: Arith, slice: seq<nat>, forceDelta: bool, m: Memo, p: BestParams, frame: seq<byte>, m': Memo)
    requires ar.Valid() && AllBits(ar.kind, slice) && 0 < |slice| < COUNT_LIMIT
    requires EncodedWith(ar, slice, forceDelta, m, p, frame, m')
    ensures SizedWith(ar, slice, forceDelta, m, p, |frame|, m'.params)
  {
    RawFrameRestores(ar, slice);
    if !TooMany(ar, p, slice) {
      var lo, hi, b, asDelta :| Outcome(ar, slice, forceDelta, m, p, lo, hi, b, asDelta, frame, m');
      BlockSize(ar.kind, p, b, asDelta);
      assert PlanOf(ar, slice, forceDelta, m, p, lo, hi, b, asDelta);
      assert SizedBlock(ar, slice, forceDelta, m, p, lo, hi, b, asDelta, |frame|, m'.params);
    }
  }

  ghost predicate SizedWith(ar: Arith, slice: seq<nat>, forceDelta: bool, m: Memo, p: BestParams, size: int,
                            r: Option<BestParams>) {
    && p.fac <= p.exp
    && if TooMany(ar, p, slice) then size == RawSize(ar.kind, |slice|) && r == None
       else exists lo, hi, b, asDelta :: SizedBlock(ar, slice, forceDelta, m, p, lo, hi, b, asDelta, size, r)
  }

  ghost predicate SizedBlock(ar: Arith, slice: seq<nat>, forceDelta: bool, m: Memo, p: BestParams, lo: int, hi: int,
                             b: Block, asDelta: bool, size: int, r: Option<BestParams>)
    requires p.fac <= p.exp
  {
    && PlanOf(ar, slice, forceDelta, m, p, lo, hi, b, asDelta) && b.ints != []
    && size == Min(TotalSize(ar.kind, b, asDelta), RawSize(ar.kind, |slice|))
    && r == (if TotalSize(ar.kind, b, asDelta) >= RawSize(ar.kind, |slice|) then None else Some(p))
  }

  // the integers, width and exceptions that the floats lead to with these parameters
  ghost predicate PlanOf(ar: Arith, slice: seq<nat>, forceDelta: bool, m: Memo, p: BestParams, lo: int, hi: int, b: Block,
                         asDelta: bool)
    requires p.fac <= p.exp
  {
    && Extremes(ar, p, slice, |slice|, lo, hi)
    && exists targetBw, useDelta ::
         Decided(ar.kind, slice, KernelBlock(ar, p, slice, lo, hi), forceDelta, m.targetBw, m.useDelta, b, asDelta,
                 targetBw, useDelta)
  }

  lemma BlockSize(k: FloatKind, p: BestParams, b: Block, asDelta: bool)
    requires b.ints != []
    ensures |BlockFrame(k, p, b, asDelta)| == TotalSize(k, b, asDelta)
  {
    if asDelta {
      var lo, w := LeastDelta(k, b.ints[0], b.ints[1..]), DeltaWidth(k, b.ints[0], b.ints[1..]);
      DeltaSize(k, AlpParams(p.exp, p.fac, w, p.useDiv), b.ints, lo, b.es);
    } else {
      FrameSizes(k, AlpParams(p.exp, p.fac, b.w, p.useDiv), b.ints, b.base, b.es);
    }
  }

  lemma DeltaSize(k: FloatKind, p: AlpParams, ints: seq<int>, lo: int, es: seq<Exception>)
    requires ints != []
    ensures |DeltaFrame(k, p, ints, lo, es)| == DeltaTotal(k, |ints|, p.bitWidth, |es|)
  {
    TableSize(k, |ints|, es);
  }
}
