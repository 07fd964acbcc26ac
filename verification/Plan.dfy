/**
 What the engine writes and what it keeps, said without its steps: which parameters a
 block is encoded with, what pruning and filling leave of its integers, and the block
 that is smallest then.
 */
module Plan {
  import opened Wrappers
  import opened Words
  import opened Floats
  import opened Params
  import opened Packers
  import opened Header
  import opened Exceptions
  import opened Blocks
  import opened Deltas
  import opened Kernel
  import opened Prune
  import opened Sampler

  const HIGH_BW_PRUNE_THRESHOLD: nat := 16
  const DELTA_EVAL_MIN_BW: nat := 4
  const LOW_BW_PRUNE_MIN: nat := 4
  const CACHE_VALIDATE_SAMPLE_N: nat := 4

  // What an earlier block left about pruning.
  datatype CachedTargetBw = Uninit | Narrowed(width: nat) | Disabled

  // What is carried from block to block: the parameters of the last one, what is known of
  // pruning, and whether differences were smaller.
  datatype Memo = Memo(params: Option<BestParams>, targetBw: CachedTargetBw, useDelta: Option<bool>) {
    ghost predicate Valid(k: FloatKind) { params.Some? ==> ValidBest(k, params.value) }
  }

  // ---------- parameters ----------

  // The first samples still decode with cached parameters.
  predicate ValidateCachedParams(ar: Arith, p: BestParams, sample: seq<nat>)
    requires p.fac <= p.exp
  {
    forall i :: 0 <= i < |sample| && i < CACHE_VALIDATE_SAMPLE_N ==>
      Decode(ar, p, Encode(ar, p, sample[i])) == sample[i]
  }

  predicate AllSame(slice: seq<nat>, v: nat) {
    forall i :: 0 <= i < |slice| ==> slice[i] == v
  }

  ghost predicate AllAccepted(ar: Arith, p: BestParams, slice: seq<nat>)
    requires p.fac <= p.exp
  {
    forall i :: 0 <= i < |slice| ==> Accepts(ar, p, slice[i])
  }

  // What sampling finds: the answer of the search over the first floats that can be
  // encoded at all, or the default when there are none.
  ghost predicate Sampled(ar: Arith, slice: seq<nat>, p: BestParams) {
    var vs := ActiveSamples(ar, slice, SAMPLES_COUNT);
    if vs == [] then p == DEFAULT_PARAMS
    else exists d, b :: Answer(ar, vs, d, b) && b.params == p
  }

  // Kept parameters as long as they serve, and those of a sample otherwise.
  ghost predicate Picked(ar: Arith, slice: seq<nat>, kept: Option<BestParams>, p: BestParams)
    requires kept.Some? ==> ValidBest(ar.kind, kept.value)
  {
    if kept.Some? && ValidateCachedParams(ar, kept.value, slice) then p == kept.value else Sampled(ar, slice, p)
  }

  // More floats are rejected than a block takes exceptions.
  predicate TooMany(ar: Arith, p: BestParams, slice: seq<nat>)
    requires p.fac <= p.exp
  {
    |Rejected(ar, p, slice, |slice|)| > MAX_EXCEPTIONS
  }

  // The parameters a block is encoded with: those picked, or those of a sample when some
  // were kept and those picked reject too many floats.
  ghost predicate Used(ar: Arith, slice: seq<nat>, kept: Option<BestParams>, p: BestParams)
    requires kept.Some? ==> ValidBest(ar.kind, kept.value)
  {
    exists p0 :: UsedAfter(ar, slice, kept, p0, p)
  }

  ghost predicate UsedAfter(ar: Arith, slice: seq<nat>, kept: Option<BestParams>, p0: BestParams, p: BestParams)
    requires kept.Some? ==> ValidBest(ar.kind, kept.value)
  {
    && ValidBest(ar.kind, p0) && Picked(ar, slice, kept, p0) && ValidBest(ar.kind, p)
    && (if kept.Some? && TooMany(ar, p0, slice) then Sampled(ar, slice, p) else p == p0)
  }

  // No valid parameters restore any of the floats.
  ghost predicate Unencodable(ar: Arith, slice: seq<nat>) {
    forall p: BestParams, i :: ValidBest(ar.kind, p) && 0 <= i < |slice| ==> !Accepts(ar, p, slice[i])
  }

  // ---------- integers ----------

  // The base and the width of the offsets from it.
  function BaseAndWidth(k: FloatKind, lo: int, hi: int): (int, nat) {
    if lo <= hi then (lo, OffsetWidth(k, lo, hi)) else (0, 0)
  }

  function OffsetWidth(k: FloatKind, lo: int, hi: int): nat { BitsNeeded(k.CalcRange(lo, hi)) }

  // A block's integers with their base and width, and its exceptions.
  datatype Block = Block(ints: seq<int>, base: int, w: nat, es: seq<Exception>)

  // what the kernel leaves: encodings, and 0 for what is rejected
  function KernelInts(ar: Arith, p: BestParams, slice: seq<nat>): (ints: seq<int>)
    requires p.fac <= p.exp
    ensures |ints| == |slice|
  {
    seq(|slice|, i requires 0 <= i < |slice| => if Accepts(ar, p, slice[i]) then Encode(ar, p, slice[i]) else 0)
  }

  function KernelBlock(ar: Arith, p: BestParams, slice: seq<nat>, lo: int, hi: int): Block
    requires p.fac <= p.exp
  {
    var (base, w) := BaseAndWidth(ar.kind, lo, hi);
    Block(KernelInts(ar, p, slice), base, w, Rejected(ar, p, slice, |slice|))
  }

  // Pruned to a target width as decided by an earlier block: outliers become exceptions.
  function PrunedTo(k: FloatKind, slice: seq<nat>, b: Block, w: nat): Block
    requires |b.ints| == |slice|
  {
    Block(Marked(k, b.ints, b.base, w), b.base, w, PrunedList(b.es, Outliers(k, slice, b.ints, b.base, w, |slice|)))
  }

  // Pruned to the width that a search answered.
  ghost function PrunedBySearch(k: FloatKind, slice: seq<nat>, b: Block, w: nat): Block
    requires |b.ints| == |slice|
  {
    var es := SortDedup(b.es + Outliers(k, slice, b.ints, b.base, w, |slice|));
    Block(BaseFilled(b.ints, b.base, es), b.base, w, es)
  }

  // One chance to prune: as decided earlier, never, or as the search answers, which
  // decides for the blocks to come.
  ghost predicate PruneStep(k: FloatKind, slice: seq<nat>, b: Block, targetBw: CachedTargetBw, b': Block,
                            targetBw': CachedTargetBw) {
    && |b.ints| == |slice|
    && match targetBw
       case Narrowed(w) => targetBw' == targetBw && b' == (if w < b.w then PrunedTo(k, slice, b, w) else b)
       case Disabled => targetBw' == targetBw && b' == b
       case Uninit =>
         && PruneAnswer(k, b.ints, b.base, b.w, |b.es|, b'.w)
         && b' == (if b'.w < b.w then PrunedBySearch(k, slice, b, b'.w) else b)
         && targetBw' == (if b'.w < b.w then Narrowed(b'.w) else Disabled)
  }

  // Every exception slot holds what is in the slot before it, the first one the base.
  ghost predicate Backfilled(before: seq<int>, after: seq<int>, base: int, es: seq<Exception>) {
    |after| == |before| && forall j :: 0 <= j < |after| ==> SlotFilled(before, after, base, es, j)
  }

  predicate SlotFilled(before: seq<int>, after: seq<int>, base: int, es: seq<Exception>, j: nat)
    requires j < |after| == |before|
  {
    after[j] == (if !Excepted(es, j) then before[j] else if j > 0 then after[j - 1] else base)
  }

  predicate PrunesFirst(b: Block) {
    b.w >= HIGH_BW_PRUNE_THRESHOLD && |b.es| < MAX_EXCEPTIONS
  }

  // Wide blocks are pruned first; then the exception slots are filled.
  ghost predicate Smoothed(k: FloatKind, slice: seq<nat>, b: Block, targetBw: CachedTargetBw, b': Block,
                           targetBw': CachedTargetBw) {
    if PrunesFirst(b) then
      exists m :: PruneStep(k, slice, b, targetBw, m, targetBw') && SlotsFilled(m, b')
    else SlotsFilled(b, b') && targetBw' == targetBw
  }

  ghost predicate SlotsFilled(b: Block, b': Block) {
    Backfilled(b.ints, b'.ints, b.base, b.es) && b' == b.(ints := b'.ints)
  }

  // ---------- offsets or differences ----------

  // Forced, decided by an earlier block, or narrower than the offsets of a block that is
  // not narrow already.
  predicate DeltaOffered(k: FloatKind, ints: seq<int>, w: nat, forceDelta: bool, useDelta: Option<bool>)
    requires |ints| > 1
  {
    || forceDelta
    || useDelta == Some(true)
    || (useDelta.None? && w >= DELTA_EVAL_MIN_BW && DeltaWidth(k, ints[0], ints[1..]) < w)
  }

  // bytes of a block behind its header fields
  function ForTotal(k: FloatKind, count: nat, w: nat, excs: nat): nat {
    HeaderLen(count) + k.Size() + BlockCost(k, count, w, excs)
  }

  function DeltaTotal(k: FloatKind, count: nat, dw: nat, excs: nat): nat
    requires count > 0
  {
    HeaderLen(count) + 2 * k.Size() + PackedSize(count - 1, dw) + ExceptionsByteSize(k, excs, IsLarge(count))
  }

  // Differences are stored when they are offered and forced or smaller.
  predicate PrefersDelta(k: FloatKind, ints: seq<int>, w: nat, excs: nat, forceDelta: bool, useDelta: Option<bool>) {
    && |ints| > 1 && DeltaOffered(k, ints, w, forceDelta, useDelta)
    && (forceDelta || DeltaTotal(k, |ints|, DeltaWidth(k, ints[0], ints[1..]), excs) < ForTotal(k, |ints|, w, excs))
  }

  predicate PrunesLast(b0: Block, b: Block, asDelta: bool) {
    !PrunesFirst(b0) && !asDelta && LOW_BW_PRUNE_MIN < b.w < HIGH_BW_PRUNE_THRESHOLD
  }

  // From what the kernel left to what is written: smoothed, the kind chosen, and narrow
  // offsets pruned.
  ghost predicate Decided(k: FloatKind, slice: seq<nat>, b0: Block, forceDelta: bool, targetBw: CachedTargetBw,
                          useDelta: Option<bool>, b: Block, asDelta: bool, targetBw': CachedTargetBw,
                          useDelta': Option<bool>) {
    exists s, t :: DecidedBy(k, slice, b0, forceDelta, targetBw, useDelta, s, t, b, asDelta, targetBw', useDelta')
  }

  ghost predicate DecidedBy(k: FloatKind, slice: seq<nat>, b0: Block, forceDelta: bool, targetBw: CachedTargetBw,
                            useDelta: Option<bool>, s: Block, t: CachedTargetBw, b: Block, asDelta: bool,
                            targetBw': CachedTargetBw, useDelta': Option<bool>) {
    && Smoothed(k, slice, b0, targetBw, s, t)
    && asDelta == PrefersDelta(k, s.ints, s.w, |s.es|, forceDelta, useDelta)
    && useDelta' == (if !forceDelta && useDelta.None? then Some(asDelta) else useDelta)
    && (if PrunesLast(b0, s, asDelta) then PruneStep(k, slice, s, t, b, targetBw')
        else b == s && targetBw' == t)
  }

  // ---------- the block written ----------

  // A raw block's bytes.
  function RawSize(k: FloatKind, count: nat): nat {
    RawHeaderLen(count) + count * k.Size()
  }

  function TotalSize(k: FloatKind, b: Block, asDelta: bool): nat
    requires b.ints != []
  {
    if asDelta then DeltaTotal(k, |b.ints|, DeltaWidth(k, b.ints[0], b.ints[1..]), |b.es|)
    else ForTotal(k, |b.ints|, b.w, |b.es|)
  }

  function BlockFrame(k: FloatKind, p: BestParams, b: Block, asDelta: bool): seq<byte>
    requires b.ints != []
  {
    if asDelta then
      var lo, w := LeastDelta(k, b.ints[0], b.ints[1..]), DeltaWidth(k, b.ints[0], b.ints[1..]);
      DeltaFrame(k, AlpParams(p.exp, p.fac, w, p.useDiv), b.ints, lo, b.es)
    else StandardFrame(k, AlpParams(p.exp, p.fac, b.w, p.useDiv), b.ints, b.base, b.es)
  }

  // The block, or the raw one when it is not smaller; only the block keeps its parameters.
  ghost predicate Framed(k: FloatKind, p: BestParams, slice: seq<nat>, b: Block, asDelta: bool, frame: seq<byte>,
                         r: Option<BestParams>) {
    && b.ints != []
    && if TotalSize(k, b, asDelta) >= RawSize(k, |slice|) then frame == RawFrame(k, slice) && r == None
       else frame == BlockFrame(k, p, b, asDelta) && r == Some(p)
  }

  function IdenticalFrame(k: FloatKind, exp: nat, base: int, count: nat): seq<byte> {
    WriteHeader(TypeByte(k), false, count, Some(PackParams(AlpParams(exp, 0, 0, false)))) + BaseBytes(k, base)
  }

  function CommonFrame(ar: Arith, slice: seq<nat>, e: nat): seq<byte>
    requires slice != [] && TryEncodeFast(ar, e, 0, slice[0]).Some?
  {
    IdenticalFrame(ar.kind, e, TryEncodeFast(ar, e, 0, slice[0]).value, |slice|)
  }

  // The least exponent with which one integer stands for every float.
  ghost predicate CommonAt(ar: Arith, slice: seq<nat>, e: nat) {
    && slice != [] && AllSame(slice, slice[0]) && e <= ar.kind.MaxExponent()
    && TryEncodeFast(ar, e, 0, slice[0]).Some?
    && forall f: nat :: f < e ==> TryEncodeFast(ar, f, 0, slice[0]).None?
  }

  ghost predicate HasCommon(ar: Arith, slice: seq<nat>) {
    exists e: nat :: CommonAt(ar, slice, e)
  }

  // Floats encoded one by one.
  ghost predicate EncodedRun(ar: Arith, slice: seq<nat>, forceDelta: bool, m: Memo, frame: seq<byte>, m': Memo)
    requires m.Valid(ar.kind)
  {
    exists p :: Used(ar, slice, m.params, p) && EncodedWith(ar, slice, forceDelta, m, p, frame, m')
  }

  ghost predicate EncodedWith(ar: Arith, slice: seq<nat>, forceDelta: bool, m: Memo, p: BestParams, frame: seq<byte>,
                              m': Memo) {
    && p.fac <= p.exp
    && if TooMany(ar, p, slice) then frame == RawFrame(ar.kind, slice) && m' == m.(params := None)
       else exists lo, hi, b, asDelta :: Outcome(ar, slice, forceDelta, m, p, lo, hi, b, asDelta, frame, m')
  }

  ghost predicate Outcome(ar: Arith, slice: seq<nat>, forceDelta: bool, m: Memo, p: BestParams, lo: int, hi: int,
                          b: Block, asDelta: bool, frame: seq<byte>, m': Memo)
    requires p.fac <= p.exp
  {
    && Extremes(ar, p, slice, |slice|, lo, hi)
    && Decided(ar.kind, slice, KernelBlock(ar, p, slice, lo, hi), forceDelta, m.targetBw, m.useDelta, b, asDelta,
               m'.targetBw, m'.useDelta)
    && Framed(ar.kind, p, slice, b, asDelta, frame, m'.params)
  }

  // What one call of the engine appends and keeps.
  ghost predicate RunOf(ar: Arith, slice: seq<nat>, forceDelta: bool, m: Memo, frame: seq<byte>, m': Memo) {
    && m.Valid(ar.kind)
    && if slice == [] then frame == WriteHeader(TypeByte(ar.kind), false, 0, None) && m' == m.(params := None)
       else if HasCommon(ar, slice) then
         forall e: nat :: CommonAt(ar, slice, e) ==>
           && frame == CommonFrame(ar, slice, e)
           && m' == m.(params := Some(BestParams(e, 0, false)))
       else EncodedRun(ar, slice, forceDelta, m, frame, m')
  }

  // The same, said so that its parts stay out of proofs that only pass it on.
  ghost predicate EngineRun(ar: Arith, slice: seq<nat>, forceDelta: bool, m: Memo, frame: seq<byte>, m': Memo) {
    forall f: seq<byte> :: f == frame ==> RunOf(ar, slice, forceDelta, m, f, m')
  }

}
