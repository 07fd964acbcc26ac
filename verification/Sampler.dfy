/**
 The pruned search for the cheapest parameters on a sample: pure decimal exponents
 first, each as a multiplication and as a division, then factors.
 */
module Sampler {
  import opened Wrappers
  import opened Words
  import opened Floats
  import opened Params
  import opened Deltas

  const SAMPLES_COUNT: nat := 32
  const EARLY_EXIT_BIT_WIDTH: nat := 8
  const PRE_CHECK_LEN_MUL: nat := 6
  const PRE_CHECK_LEN_FAC: nat := 4
  const PRE_CHECK_MAX_EXC_FAC: nat := 2
  const DIV_EARLY_CHECK_LEN: nat := 6
  const DIV_EARLY_ABORT_EXC: nat := 3
  const FAC_PENALTY_MULT: nat := 2
  const LOW_COST_THRESHOLD_PER_VAL: nat := 3
  const HIGH_EXP_DIV_THRESHOLD: nat := 14
  const EXP_PRIORITY: seq<nat> := [2, 1, 3, 0, 4, 5, 6, 7, 8, 9, 10, 11, 12, 13, 14, 15, 16, 17, 18]

  const DEFAULT_PARAMS: BestParams := BestParams(0, 0, false)

  // the first samples that can be encoded at all, at most 32
  function ActiveSamples(ar: Arith, samples: seq<nat>, n: nat): (r: seq<nat>)
    ensures |r| <= n
  {
    if samples == [] || n == 0 then []
    else if ar.impossible(samples[0]) then ActiveSamples(ar, samples[1..], n)
    else [samples[0]] + ActiveSamples(ar, samples[1..], n - 1)
  }

  // They are floats of the start of the slice, in their order and none left out that can be
  // encoded: at[i] is where sample i stands. Fewer than n are taken only when there are no
  // more.
  ghost predicate TakenFrom(ar: Arith, samples: seq<nat>, vs: seq<nat>, at: seq<nat>, n: nat) {
    && |at| == |vs| <= n && Ascending(at)
    && (forall i :: 0 <= i < |at| ==> StandsAt(ar, samples, vs[i], at[i]))
    && (forall k :: 0 <= k < |samples| && !ar.impossible(samples[k]) ==> k in at || (|vs| == n && AllBefore(at, k)))
  }

  predicate StandsAt(ar: Arith, samples: seq<nat>, v: nat, k: nat) {
    k < |samples| && v == samples[k] && !ar.impossible(v)
  }

  predicate Ascending(at: seq<nat>) {
    forall i, j :: 0 <= i < j < |at| ==> at[i] < at[j]
  }

  predicate AllBefore(at: seq<nat>, k: nat) {
    forall i :: 0 <= i < |at| ==> at[i] < k
  }

  lemma {:induction false} ActiveAreFirst(ar: Arith, samples: seq<nat>, n: nat) returns (at: seq<nat>)
    ensures TakenFrom(ar, samples, ActiveSamples(ar, samples, n), at, n)
  {
    at := [];
    if samples != [] && n != 0 {
      var rest := samples[1..];
      var skip := ar.impossible(samples[0]);
      var m := if skip then n else n - 1;
      var later := ActiveAreFirst(ar, rest, m);
      at := Shifted(skip, later);
      OneMoreTaken(ar, samples, ActiveSamples(ar, rest, m), later, m, at);
    }
  }

  function Shifted(skip: bool, later: seq<nat>): seq<nat> {
    var all := seq(|later|, i requires 0 <= i < |later| => later[i] + 1);
    if skip then all else [0] + all
  }

  lemma OneMoreTaken(ar: Arith, samples: seq<nat>, vs: seq<nat>, later: seq<nat>, m: nat, at: seq<nat>)
    requires samples != [] && TakenFrom(ar, samples[1..], vs, later, m)
    requires at == Shifted(ar.impossible(samples[0]), later)
    ensures if ar.impossible(samples[0]) then TakenFrom(ar, samples, vs, at, m)
            else TakenFrom(ar, samples, [samples[0]] + vs, at, m + 1)
  {
    var skip := ar.impossible(samples[0]);
    var taken, n := if skip then vs else [samples[0]] + vs, if skip then m else m + 1;
    ShiftedAscends(skip, later);
    forall i | 0 <= i < |at| ensures StandsAt(ar, samples, taken[i], at[i]) {
      if skip {
        assert StandsAt(ar, samples[1..], vs[i], later[i]);
      } else if i > 0 {
        assert StandsAt(ar, samples[1..], vs[i - 1], later[i - 1]);
      }
    }
    forall k | 0 <= k < |samples| && !ar.impossible(samples[k])
      ensures k in at || (|taken| == n && AllBefore(at, k))
    {
      TakenOrBehind(ar, samples, vs, later, m, at, k);
    }
    assert TakenFrom(ar, samples, taken, at, n);
  }

  lemma ShiftedAscends(skip: bool, later: seq<nat>)
    requires Ascending(later)
    ensures Ascending(Shifted(skip, later))
  {
  }

  lemma TakenOrBehind(ar: Arith, samples: seq<nat>, vs: seq<nat>, later: seq<nat>, m: nat, at: seq<nat>, k: nat)
    requires samples != [] && TakenFrom(ar, samples[1..], vs, later, m)
    requires at == Shifted(ar.impossible(samples[0]), later) && k < |samples| && !ar.impossible(samples[k])
    ensures k in at || (|vs| == m && AllBefore(at, k))
  {
    var skip := ar.impossible(samples[0]);
    if k == 0 {
      assert at[0] == 0;
    } else {
      assert samples[1..][k - 1] == samples[k];
      if k - 1 in later {
        var i :| 0 <= i < |later| && later[i] == k - 1;
        assert at[if skip then i else i + 1] == k;
      } else {
        assert AllBefore(later, k - 1);
      }
    }
  }

  // ---------- exact cost of a candidate ----------

  function TryEncode(ar: Arith, p: BestParams, v: nat): Option<int>
    requires p.fac <= p.exp
  {
    if p.useDiv then TryEncodeDiv(ar, p.exp, v) else TryEncodeFast(ar, p.exp, p.fac, v)
  }

  // What the search can encode the kernel accepts, as the same integer, unless a 32-bit
  // product wraps; and of floats that are not impossible nothing else.
  lemma SearchAndKernelAgree(ar: Arith, p: BestParams, v: nat)
    requires ValidBest(ar.kind, p) && (p.useDiv ==> p.fac == 0) && !ar.impossible(v)
    requires !ar.scaledImpossible(v, p.exp - p.fac) && F64.IsInt(Encode(ar, p, v) * Pow10(p.fac))
    requires !WrappedProduct(ar, p, v)
    ensures TryEncode(ar, p, v).Some? <==> Accepts(ar, p, v)
    ensures TryEncode(ar, p, v).Some? ==> TryEncode(ar, p, v).value == Encode(ar, p, v)
  {
    assert Pow10(0) == 1;
    if !p.useDiv && p.fac > 0 {
      ProductFits32(ar.kind, Encode(ar, p, v), p.fac);
      WrapIsIdentity(F64, Encode(ar, p, v) * Pow10(p.fac));
    }
  }

  // exceptions and extremes over a sample
  datatype Tally = Tally(exc: nat, lo: int, hi: int) {
    function Add(o: Option<int>): Tally {
      if o.None? then Tally(exc + 1, lo, hi) else Tally(exc, Min(lo, o.value), Max(hi, o.value))
    }
  }

  function TallyOf(ar: Arith, p: BestParams, vs: seq<nat>): Tally
    requires p.fac <= p.exp
  {
    if vs == [] then Tally(0, ar.kind.MaxInt(), ar.kind.MinInt())
    else TallyOf(ar, p, vs[..|vs| - 1]).Add(TryEncode(ar, p, vs[|vs| - 1]))
  }

  function TallyWidth(k: FloatKind, t: Tally): nat {
    if t.lo <= t.hi then BitsNeeded(k.CalcRange(t.lo, t.hi)) else 0
  }

  function FacPenalty(p: BestParams, n: nat): nat {
    if p.fac > 0 then n * FAC_PENALTY_MULT else 0
  }

  function TallyCost(k: FloatKind, p: BestParams, n: nat, t: Tally): nat {
    TallyWidth(k, t) * n + t.exc * k.ExceptionPenalty() + FacPenalty(p, n)
  }

  // bits the whole sample takes with these parameters
  function Cost(ar: Arith, p: BestParams, vs: seq<nat>): nat
    requires p.fac <= p.exp
  {
    TallyCost(ar.kind, p, |vs|, TallyOf(ar, p, vs))
  }

  function RawCost(k: FloatKind, n: nat): nat { k.Bits() * n }

  lemma TallyNext(ar: Arith, p: BestParams, vs: seq<nat>, i: nat)
    requires p.fac <= p.exp && i < |vs|
    ensures TallyOf(ar, p, vs[..i + 1]) == TallyOf(ar, p, vs[..i]).Add(TryEncode(ar, p, vs[i]))
  {
    assert vs[..i + 1][..i] == vs[..i];
  }

  lemma {:induction false} TallyGrows(ar: Arith, p: BestParams, vs: seq<nat>, i: nat)
    requires p.fac <= p.exp && i <= |vs|
    ensures TallyOf(ar, p, vs[..i]).exc <= TallyOf(ar, p, vs).exc
    decreases |vs| - i
  {
    if i < |vs| {
      TallyNext(ar, p, vs, i);
      TallyGrows(ar, p, vs, i + 1);
    } else {
      assert vs[..i] == vs;
    }
  }

  lemma {:induction false} TallyExcBound(ar: Arith, p: BestParams, vs: seq<nat>)
    requires p.fac <= p.exp
    ensures TallyOf(ar, p, vs).exc <= |vs|
  {
    if vs != [] {
      TallyExcBound(ar, p, vs[..|vs| - 1]);
    }
  }

  // ---------- scanning a sample ----------

  // All of vs[start..], or up to the exception that costs as much as the best so far.
  method ScanRest(ar: Arith, p: BestParams, vs: seq<nat>, start: nat, t0: Tally, base: nat, best: nat)
      returns (t: Tally, cut: bool)
    requires p.fac <= p.exp && start <= |vs| && t0 == TallyOf(ar, p, vs[..start])
    ensures !cut ==> t == TallyOf(ar, p, vs)
    ensures cut ==> 0 < t.exc <= TallyOf(ar, p, vs).exc && t.exc * ar.kind.ExceptionPenalty() + base >= best
  {
    t := t0;
    var i := start;
    while i < |vs|
      invariant start <= i <= |vs| && t == TallyOf(ar, p, vs[..i])
    {
      TallyNext(ar, p, vs, i);
      var o := TryEncode(ar, p, vs[i]);
      t := t.Add(o);
      if o.None? && t.exc * ar.kind.ExceptionPenalty() + base >= best {
        TallyGrows(ar, p, vs, i + 1);
        return t, true;
      }
      i := i + 1;
    }
    assert vs[..|vs|] == vs;
    cut := false;
  }

  // The first n samples, without a cost limit.
  method ScanHead(ar: Arith, p: BestParams, vs: seq<nat>, n: nat) returns (t: Tally)
    requires p.fac <= p.exp && n <= |vs|
    ensures t == TallyOf(ar, p, vs[..n])
  {
    t := Tally(0, ar.kind.MaxInt(), ar.kind.MinInt());
    var i := 0;
    while i < n
      invariant 0 <= i <= n && t == TallyOf(ar, p, vs[..i])
    {
      TallyNext(ar, p, vs, i);
      t := t.Add(TryEncode(ar, p, vs[i]));
      i := i + 1;
    }
  }

  // A scan that was cut belongs to a candidate no better than the best.
  lemma CutCosts(ar: Arith, p: BestParams, vs: seq<nat>, t: Tally, best: nat)
    requires p.fac <= p.exp && t.exc <= TallyOf(ar, p, vs).exc
    requires t.exc * ar.kind.ExceptionPenalty() + FacPenalty(p, |vs|) >= best
    ensures Cost(ar, p, vs) >= best
  {
    var full, pen := TallyOf(ar, p, vs), ar.kind.ExceptionPenalty();
    assert t.exc * pen <= full.exc * pen;
    assert TallyWidth(ar.kind, full) * |vs| >= 0;
  }

  // ---------- the best so far ----------

  datatype Best = Best(params: BestParams, cost: nat, exceptions: nat)

  // The recorded cost is exact, and below the cost of raw floats once anything was accepted.
  ghost predicate Recorded(ar: Arith, vs: seq<nat>, b: Best) {
    && ValidBest(ar.kind, b.params)
    && b.cost <= RawCost(ar.kind, |vs|)
    && (b.cost == RawCost(ar.kind, |vs|) ==> b.params == DEFAULT_PARAMS && b.exceptions == |vs|)
    && (b.cost < RawCost(ar.kind, |vs|) ==> b.cost == Cost(ar, b.params, vs))
  }

  // Good enough to stop the whole search.
  predicate GoodEnough(k: FloatKind, cost: nat, t: Tally) {
    cost == 0 || (t.exc == 0 && TallyWidth(k, t) <= EARLY_EXIT_BIT_WIDTH)
  }

  // Accepts a fully scanned candidate when it is strictly cheaper.
  method Consider(ar: Arith, p: BestParams, vs: seq<nat>, t: Tally, b: Best) returns (b': Best, stop: bool)
    requires ValidBest(ar.kind, p) && t == TallyOf(ar, p, vs) && Recorded(ar, vs, b)
    ensures Recorded(ar, vs, b') && b'.cost <= b.cost && b'.cost <= Cost(ar, p, vs)
    ensures b' != b ==> b'.params == p && b'.cost == Cost(ar, p, vs) < b.cost && b'.exceptions == t.exc
    ensures stop <==> b'.cost < b.cost && GoodEnough(ar.kind, b'.cost, t)
  {
    var cost := TallyCost(ar.kind, p, |vs|, t);
    if cost < b.cost {
      b' := Best(p, cost, t.exc);
      stop := GoodEnough(ar.kind, cost, t);
    } else {
      b', stop := b, false;
    }
  }

  // Only exceptions: never cheaper than raw.
  lemma AllExceptions(ar: Arith, p: BestParams, vs: seq<nat>, b: Best)
    requires p.fac <= p.exp && TallyOf(ar, p, vs).exc == |vs| && Recorded(ar, vs, b)
    ensures b.cost <= Cost(ar, p, vs)
  {
    MoreThanRaw(ar.kind, TallyWidth(ar.kind, TallyOf(ar, p, vs)), |vs|);
  }

  lemma MoreThanRaw(k: FloatKind, w: nat, n: nat)
    ensures RawCost(k, n) <= n * k.ExceptionPenalty()
    ensures w * n >= 0
  {
    if k.F64? {
      assert n * k.ExceptionPenalty() == 80 * n;
    } else {
      assert n * k.ExceptionPenalty() == 48 * n;
    }
  }

  // ---------- one exponent as a multiplication ----------

  function HeadLen(vs: seq<nat>, n: nat): nat { if |vs| < n then |vs| else n }

  // some of the first samples can be encoded
  predicate MulFeasible(ar: Arith, exp: nat, vs: seq<nat>) {
    var n := HeadLen(vs, PRE_CHECK_LEN_MUL);
    TallyOf(ar, BestParams(exp, 0, false), vs[..n]).exc < n
  }

  method TryMul(ar: Arith, exp: nat, vs: seq<nat>, b: Best)
      returns (b': Best, feasible: bool, exceptions: nat, anyDecimal: bool, stop: bool)
    requires exp <= ar.kind.MaxExponent() && Recorded(ar, vs, b)
    ensures Recorded(ar, vs, b') && b'.cost <= b.cost
    ensures feasible <==> MulFeasible(ar, exp, vs)
    ensures feasible ==> b'.cost <= Cost(ar, BestParams(exp, 0, false), vs)
    ensures feasible ==> (exceptions > 0 <==> TallyOf(ar, BestParams(exp, 0, false), vs).exc > 0)
    ensures stop ==> b'.cost < b.cost && GoodEnough(ar.kind, b'.cost, TallyOf(ar, b'.params, vs))
    ensures b'.cost < RawCost(ar.kind, |vs|) && b' != b ==> b'.exceptions == TallyOf(ar, b'.params, vs).exc
    ensures b' != b || feasible ==> anyDecimal
  {
    var p := BestParams(exp, 0, false);
    var preN := HeadLen(vs, PRE_CHECK_LEN_MUL);
    var t := ScanHead(ar, p, vs, preN);
    b', feasible, exceptions, anyDecimal, stop := b, t.exc < preN, t.exc, false, false;
    if feasible {
      FeasibleEncodes(ar, p, vs, preN);
      var cut;
      t, cut := ScanRest(ar, p, vs, preN, t, 0, b.cost);
      exceptions := t.exc;
      if cut {
        CutCosts(ar, p, vs, t, b.cost);
      }
      if exceptions != |vs| {
        anyDecimal := true;
        if exceptions * ar.kind.ExceptionPenalty() < b.cost {
          b', stop := Consider(ar, p, vs, t, b);
        } else if !cut {
          CutCosts(ar, p, vs, t, b.cost);
        }
      } else if !cut {
        AllExceptions(ar, p, vs, b);
      }
    }
  }

  // A sample of the head that can be encoded is one of all samples.
  lemma FeasibleEncodes(ar: Arith, p: BestParams, vs: seq<nat>, n: nat)
    requires p.fac <= p.exp && n <= |vs| && TallyOf(ar, p, vs[..n]).exc < n
    ensures TallyOf(ar, p, vs).exc < |vs|
  {
    TallyRestBound(ar, p, vs, n, |vs|);
    assert vs[..|vs|] == vs;
  }

  lemma {:induction false} TallyRestBound(ar: Arith, p: BestParams, vs: seq<nat>, m: nat, n: nat)
    requires p.fac <= p.exp && m <= n <= |vs|
    ensures TallyOf(ar, p, vs[..n]).exc <= TallyOf(ar, p, vs[..m]).exc + (n - m)
  {
    if m < n {
      TallyRestBound(ar, p, vs, m, n - 1);
      TallyNext(ar, p, vs, n - 1);
    }
  }

  // ---------- one exponent as a division ----------

  predicate DivTried(ar: Arith, exp: nat, vs: seq<nat>) {
    exp > 0 && (!MulFeasible(ar, exp, vs) || TallyOf(ar, BestParams(exp, 0, false), vs).exc > 0
      || exp >= HIGH_EXP_DIV_THRESHOLD)
  }

  // three of the first six samples fail
  predicate DivAborted(ar: Arith, exp: nat, vs: seq<nat>) {
    TallyOf(ar, BestParams(exp, 0, true), vs[..HeadLen(vs, DIV_EARLY_CHECK_LEN)]).exc >= DIV_EARLY_ABORT_EXC
  }

  // not given up early, and some sample can be encoded
  predicate DivSeen(ar: Arith, exp: nat, vs: seq<nat>) {
    !DivAborted(ar, exp, vs) && TallyOf(ar, BestParams(exp, 0, true), vs).exc < |vs|
  }

  method TryDiv(ar: Arith, exp: nat, vs: seq<nat>, b: Best) returns (b': Best, anyDecimal: bool, stop: bool)
    requires exp <= ar.kind.MaxExponent() && Recorded(ar, vs, b)
    ensures Recorded(ar, vs, b') && b'.cost <= b.cost
    ensures !DivAborted(ar, exp, vs) ==> b'.cost <= Cost(ar, BestParams(exp, 0, true), vs)
    ensures stop ==> b'.cost < b.cost && GoodEnough(ar.kind, b'.cost, TallyOf(ar, b'.params, vs))
    ensures b' != b ==> b'.exceptions == TallyOf(ar, b'.params, vs).exc
    ensures b' != b || DivSeen(ar, exp, vs) ==> anyDecimal
  {
    var p := BestParams(exp, 0, true);
    var pen := ar.kind.ExceptionPenalty();
    b', anyDecimal, stop := b, false, false;
    var t := Tally(0, ar.kind.MaxInt(), ar.kind.MinInt());
    var i := 0;
    while i < |vs|
      invariant 0 <= i <= |vs| && t == TallyOf(ar, p, vs[..i])
    {
      TallyNext(ar, p, vs, i);
      var o := TryEncodeDiv(ar, exp, vs[i]);
      t := t.Add(o);
      if o.None? {
        TallyGrows(ar, p, vs, i + 1);
        if t.exc >= DIV_EARLY_ABORT_EXC && i < DIV_EARLY_CHECK_LEN {
          AbortSeen(ar, p, vs, i + 1);
          return;
        }
        if t.exc * pen >= b.cost {
          CutCosts(ar, p, vs, t, b.cost);
          anyDecimal := t.exc != |vs|;
          return;
        }
      }
      i := i + 1;
    }
    assert vs[..|vs|] == vs;
    if t.exc != |vs| {
      anyDecimal := true;
      if t.exc * pen < b.cost {
        b', stop := Consider(ar, p, vs, t, b);
      } else {
        CutCosts(ar, p, vs, t, b.cost);
      }
    } else {
      AllExceptions(ar, p, vs, b);
    }
  }

  lemma AbortSeen(ar: Arith, p: BestParams, vs: seq<nat>, i: nat)
    requires p.fac <= p.exp && i <= |vs| && i <= DIV_EARLY_CHECK_LEN
    ensures TallyOf(ar, p, vs[..i]).exc <= TallyOf(ar, p, vs[..HeadLen(vs, DIV_EARLY_CHECK_LEN)]).exc
  {
    var n := HeadLen(vs, DIV_EARLY_CHECK_LEN);
    assert vs[..n][..i] == vs[..i];
    TallyGrows(ar, p, vs[..n], i);
  }

  // ---------- first pass: exponents ----------

  // No candidate with this exponent that was not dismissed by a pre-check is cheaper.
  ghost predicate ExponentDone(ar: Arith, exp: nat, vs: seq<nat>, cost: nat) {
    && (MulFeasible(ar, exp, vs) ==> cost <= Cost(ar, BestParams(exp, 0, false), vs))
    && (DivTried(ar, exp, vs) && !DivAborted(ar, exp, vs) ==> cost <= Cost(ar, BestParams(exp, 0, true), vs))
  }

  // Some sample can be encoded with this exponent, as the pre-checks see it.
  predicate DecimalAt(ar: Arith, exp: nat, vs: seq<nat>) {
    MulFeasible(ar, exp, vs) || (DivTried(ar, exp, vs) && DivSeen(ar, exp, vs))
  }

  // The recorded exception count is exact once anything was accepted.
  ghost predicate CountedExceptions(ar: Arith, vs: seq<nat>, b: Best) {
    Recorded(ar, vs, b) && b.cost < RawCost(ar.kind, |vs|) ==> b.exceptions == TallyOf(ar, b.params, vs).exc
  }

  method TryExponent(ar: Arith, exp: nat, vs: seq<nat>, b: Best) returns (b': Best, anyDecimal: bool, stop: bool)
    requires exp <= ar.kind.MaxExponent() && Recorded(ar, vs, b) && CountedExceptions(ar, vs, b)
    ensures Recorded(ar, vs, b') && b'.cost <= b.cost && CountedExceptions(ar, vs, b')
    ensures stop ==> b'.cost < b.cost && GoodEnough(ar.kind, b'.cost, TallyOf(ar, b'.params, vs))
    ensures !stop ==> ExponentDone(ar, exp, vs, b'.cost)
    ensures b' != b || (!stop && DecimalAt(ar, exp, vs)) ==> anyDecimal
  {
    var feasible, exceptions;
    b', feasible, exceptions, anyDecimal, stop := TryMul(ar, exp, vs, b);
    if !stop && exp > 0 && (!feasible || exceptions > 0 || exp >= HIGH_EXP_DIV_THRESHOLD) {
      var decimal;
      b', decimal, stop := TryDiv(ar, exp, vs, b');
      anyDecimal := anyDecimal || decimal;
    }
  }

  ghost predicate DecimalSeen(ar: Arith, vs: seq<nat>) {
    exists e :: 0 <= e <= ar.kind.MaxExponent() && DecimalAt(ar, e, vs)
  }

  ghost predicate NoDecimalBefore(ar: Arith, n: nat, vs: seq<nat>)
    requires n <= |EXP_PRIORITY|
  {
    forall j :: 0 <= j < n && EXP_PRIORITY[j] <= ar.kind.MaxExponent() ==> !DecimalAt(ar, EXP_PRIORITY[j], vs)
  }

  lemma NoDecimal(ar: Arith, vs: seq<nat>)
    requires NoDecimalBefore(ar, |EXP_PRIORITY|, vs)
    ensures !DecimalSeen(ar, vs)
  {
    forall e | 0 <= e <= ar.kind.MaxExponent() ensures !DecimalAt(ar, e, vs) {
      PriorityHas(e);
    }
  }

  // One of the exponents in their order, unless it is too large for the kind of float.
  method TryPriority(ar: Arith, i: nat, vs: seq<nat>, b: Best) returns (b': Best, decimal: bool, stop: bool)
    requires i < |EXP_PRIORITY| && Recorded(ar, vs, b) && CountedExceptions(ar, vs, b) && PrefixDone(ar, i, vs, b.cost)
    ensures Recorded(ar, vs, b') && CountedExceptions(ar, vs, b') && b'.cost <= b.cost
    ensures stop ==> GoodEnough(ar.kind, b'.cost, TallyOf(ar, b'.params, vs)) && b'.cost < b.cost
    ensures !stop ==> PrefixDone(ar, i + 1, vs, b'.cost)
    ensures !stop && NoDecimalBefore(ar, i, vs) ==> decimal || NoDecimalBefore(ar, i + 1, vs)
    ensures b' != b ==> decimal
  {
    var exp := EXP_PRIORITY[i];
    b', decimal, stop := b, false, false;
    if exp <= ar.kind.MaxExponent() {
      b', decimal, stop := TryExponent(ar, exp, vs, b);
      PrefixStaysDone(ar, i, vs, b.cost, b'.cost);
    }
  }

  method SearchExponents(ar: Arith, vs: seq<nat>) returns (b: Best, anyDecimal: bool, stop: bool)
    ensures Recorded(ar, vs, b) && CountedExceptions(ar, vs, b)
    ensures stop ==> GoodEnough(ar.kind, b.cost, TallyOf(ar, b.params, vs)) && b.cost < RawCost(ar.kind, |vs|)
    ensures !stop ==> forall e :: 0 <= e <= ar.kind.MaxExponent() ==> ExponentDone(ar, e, vs, b.cost)
    ensures b.cost < RawCost(ar.kind, |vs|) ==> anyDecimal
    ensures !stop && DecimalSeen(ar, vs) ==> anyDecimal
  {
    b, anyDecimal, stop := Best(DEFAULT_PARAMS, RawCost(ar.kind, |vs|), |vs|), false, false;
    var i := 0;
    while i < |EXP_PRIORITY|
      invariant 0 <= i <= |EXP_PRIORITY| && Recorded(ar, vs, b) && CountedExceptions(ar, vs, b)
      invariant PrefixDone(ar, i, vs, b.cost)
      invariant b.cost < RawCost(ar.kind, |vs|) ==> anyDecimal
      invariant anyDecimal || NoDecimalBefore(ar, i, vs)
    {
      var decimal;
      b, decimal, stop := TryPriority(ar, i, vs, b);
      anyDecimal := anyDecimal || decimal;
      if stop {
        return;
      }
      i := i + 1;
    }
    PriorityCovers(ar, vs, b.cost);
    if !anyDecimal {
      NoDecimal(ar, vs);
    }
    stop := false;
  }

  // the exponents tried first
  ghost predicate PrefixDone(ar: Arith, n: nat, vs: seq<nat>, cost: nat)
    requires n <= |EXP_PRIORITY|
  {
    forall j :: 0 <= j < n && EXP_PRIORITY[j] <= ar.kind.MaxExponent() ==> ExponentDone(ar, EXP_PRIORITY[j], vs, cost)
  }

  lemma PrefixStaysDone(ar: Arith, n: nat, vs: seq<nat>, before: nat, cost: nat)
    requires n <= |EXP_PRIORITY| && cost <= before && PrefixDone(ar, n, vs, before)
    ensures PrefixDone(ar, n, vs, cost)
  {
    forall j | 0 <= j < n && EXP_PRIORITY[j] <= ar.kind.MaxExponent() ensures ExponentDone(ar, EXP_PRIORITY[j], vs, cost) {
      assert ExponentDone(ar, EXP_PRIORITY[j], vs, before);
    }
  }

  lemma PriorityCovers(ar: Arith, vs: seq<nat>, cost: nat)
    requires PrefixDone(ar, |EXP_PRIORITY|, vs, cost)
    ensures forall e :: 0 <= e <= ar.kind.MaxExponent() ==> ExponentDone(ar, e, vs, cost)
  {
    forall e | 0 <= e <= ar.kind.MaxExponent() ensures ExponentDone(ar, e, vs, cost) {
      PriorityHas(e);
    }
  }

  function PriorityIndex(e: nat): nat {
    if e == 2 then 0 else if e == 1 then 1 else if e == 3 then 2 else if e == 0 then 3 else e
  }

  lemma PriorityHas(e: nat)
    requires e < 19
    ensures |EXP_PRIORITY| == 19 && EXP_PRIORITY[PriorityIndex(e)] == e
  {
    if e >= 4 {
      assert EXP_PRIORITY[4..] == [4, 5, 6, 7, 8, 9, 10, 11, 12, 13, 14, 15, 16, 17, 18];
    }
  }

  // ---------- second pass: factors ----------

  predicate FacDismissed(ar: Arith, exp: nat, fac: nat, vs: seq<nat>)
    requires fac <= exp
  {
    TallyOf(ar, BestParams(exp, fac, false), vs[..HeadLen(vs, PRE_CHECK_LEN_FAC)]).exc >= PRE_CHECK_MAX_EXC_FAC
  }

  method TryFactor(ar: Arith, exp: nat, fac: nat, vs: seq<nat>, b: Best) returns (b': Best, stop: bool)
    requires 1 <= fac <= exp <= ar.kind.MaxExponent() && fac <= ar.kind.MaxFac() && Recorded(ar, vs, b)
    ensures Recorded(ar, vs, b') && b'.cost <= b.cost
    ensures !FacDismissed(ar, exp, fac, vs) ==> b'.cost <= Cost(ar, BestParams(exp, fac, false), vs)
    ensures stop ==> b'.cost < b.cost && GoodEnough(ar.kind, b'.cost, TallyOf(ar, b'.params, vs))
  {
    var p := BestParams(exp, fac, false);
    var pen := ar.kind.ExceptionPenalty();
    var preN := HeadLen(vs, PRE_CHECK_LEN_FAC);
    var t := ScanHead(ar, p, vs, preN);
    b', stop := b, false;
    var facPenalty := |vs| * FAC_PENALTY_MULT;
    TallyGrows(ar, p, vs, preN);
    if t.exc >= PRE_CHECK_MAX_EXC_FAC || t.exc * pen + facPenalty >= b.cost {
      if t.exc < PRE_CHECK_MAX_EXC_FAC {
        CutCosts(ar, p, vs, t, b.cost);
      }
      return;
    }
    var cut;
    t, cut := ScanRest(ar, p, vs, preN, t, facPenalty, b.cost);
    if cut {
      CutCosts(ar, p, vs, t, b.cost);
    }
    if t.exc != |vs| && t.exc * pen + facPenalty < b.cost {
      b', stop := Consider(ar, p, vs, t, b);
    } else if t.exc == |vs| && !cut {
      AllExceptions(ar, p, vs, b);
    } else {
      CutCosts(ar, p, vs, t, b.cost);
    }
  }

  predicate InFactorRange(k: FloatKind, exp: nat, fac: nat, maxExp: nat) {
    1 <= exp <= maxExp && 1 <= fac <= exp && fac <= k.MaxFac()
  }

  // Every factor candidate up to the given exponent was dismissed or is no cheaper.
  ghost predicate FactorsDone(ar: Arith, vs: seq<nat>, maxExp: nat, cost: nat) {
    forall e: nat, f: nat :: InFactorRange(ar.kind, e, f, maxExp) ==>
      FacDismissed(ar, e, f, vs) || cost <= Cost(ar, BestParams(e, f, false), vs)
  }

  // The factors below f of one exponent.
  ghost predicate FactorsBelow(ar: Arith, vs: seq<nat>, exp: nat, f: nat, cost: nat) {
    forall g: nat :: 1 <= g < f && g <= exp ==>
      FacDismissed(ar, exp, g, vs) || cost <= Cost(ar, BestParams(exp, g, false), vs)
  }

  method SearchFactorsOf(ar: Arith, vs: seq<nat>, exp: nat, b0: Best) returns (b: Best, stop: bool)
    requires 1 <= exp <= ar.kind.MaxExponent() && Recorded(ar, vs, b0)
    ensures Recorded(ar, vs, b) && b.cost <= b0.cost
    ensures stop ==> b.cost < b0.cost && GoodEnough(ar.kind, b.cost, TallyOf(ar, b.params, vs))
    ensures !stop ==> FactorsBelow(ar, vs, exp, ar.kind.MaxFac() + 1, b.cost)
  {
    var maxFac := if exp < ar.kind.MaxFac() then exp else ar.kind.MaxFac();
    b, stop := b0, false;
    var fac := 1;
    while fac <= maxFac
      invariant 1 <= fac <= maxFac + 1 && Recorded(ar, vs, b) && b.cost <= b0.cost
      invariant FactorsBelow(ar, vs, exp, fac, b.cost)
    {
      b, stop := TryFactor(ar, exp, fac, vs, b);
      if stop {
        return;
      }
      fac := fac + 1;
    }
    stop := false;
  }

  method SearchFactors(ar: Arith, vs: seq<nat>, maxExp: nat, b0: Best) returns (b: Best, stop: bool)
    requires maxExp <= ar.kind.MaxExponent() && Recorded(ar, vs, b0)
    ensures Recorded(ar, vs, b) && b.cost <= b0.cost
    ensures stop ==> b.cost < b0.cost && GoodEnough(ar.kind, b.cost, TallyOf(ar, b.params, vs))
    ensures !stop ==> FactorsDone(ar, vs, maxExp, b.cost)
  {
    b, stop := b0, false;
    var exp := 1;
    while exp <= maxExp
      invariant 1 <= exp <= maxExp + 1 && Recorded(ar, vs, b) && b.cost <= b0.cost
      invariant FactorsDone(ar, vs, exp - 1, b.cost)
    {
      ghost var before := b.cost;
      b, stop := SearchFactorsOf(ar, vs, exp, b);
      if stop {
        return;
      }
      OneMoreExponent(ar, vs, exp, before, b.cost);
      exp := exp + 1;
    }
    stop := false;
  }

  lemma OneMoreExponent(ar: Arith, vs: seq<nat>, exp: nat, before: nat, cost: nat)
    requires exp >= 1 && cost <= before && FactorsDone(ar, vs, exp - 1, before)
    requires FactorsBelow(ar, vs, exp, ar.kind.MaxFac() + 1, cost)
    ensures FactorsDone(ar, vs, exp, cost)
  {
    forall e: nat, f: nat | InFactorRange(ar.kind, e, f, exp)
      ensures FacDismissed(ar, e, f, vs) || cost <= Cost(ar, BestParams(e, f, false), vs)
    {
      if e < exp {
        assert InFactorRange(ar.kind, e, f, exp - 1);
      }
    }
  }

  // ---------- the whole search ----------

  // the exponents searched for factors once the pure decimals are known
  function MaxSearchExp(k: FloatKind, b: Best): nat {
    if b.exceptions == 0 then (if b.params.exp > 0 then b.params.exp - 1 else 0) else k.MaxExponent()
  }

  // stopped at a cheap exact fit
  ghost predicate Stopped(ar: Arith, vs: seq<nat>, b: Best) {
    && b.params.fac <= b.params.exp
    && b.cost < RawCost(ar.kind, |vs|)
    && GoodEnough(ar.kind, b.cost, TallyOf(ar, b.params, vs))
  }

  // Unless it stopped early, no exponent that survived its pre-check is cheaper than
  // the answer, and no factor either when factors were worth a search, that is when any
  // sample is decimal and the best exponent is not cheap already: `decimal` is that
  // exponent, from which the range of factors follows.
  ghost predicate Answer(ar: Arith, vs: seq<nat>, decimal: Best, b: Best) {
    && Recorded(ar, vs, decimal) && Recorded(ar, vs, b) && b.cost <= decimal.cost
    && (Stopped(ar, vs, b)
        || ((forall e :: 0 <= e <= ar.kind.MaxExponent() ==> ExponentDone(ar, e, vs, b.cost))
            && (|vs| * LOW_COST_THRESHOLD_PER_VAL < decimal.cost
                && (decimal.cost < RawCost(ar.kind, |vs|) || DecimalSeen(ar, vs)) ==>
                  FactorsDone(ar, vs, MaxSearchExp(ar.kind, decimal), b.cost))))
  }

  method FindBest(ar: Arith, vs: seq<nat>) returns (b: Best, ghost decimal: Best)
    ensures Answer(ar, vs, decimal, b)
  {
    var anyDecimal, stop;
    b, anyDecimal, stop := SearchExponents(ar, vs);
    decimal := b;
    if stop || !anyDecimal || b.cost <= |vs| * LOW_COST_THRESHOLD_PER_VAL {
      return;
    }
    var maxExp := MaxSearchExp(ar.kind, b);
    if maxExp == 0 {
      return;
    }
    b, stop := SearchFactors(ar, vs, maxExp, b);
    ExponentsStayDone(ar, vs, decimal.cost, b.cost);
  }

  lemma ExponentsStayDone(ar: Arith, vs: seq<nat>, before: nat, cost: nat)
    requires cost <= before
    requires forall e :: 0 <= e <= ar.kind.MaxExponent() ==> ExponentDone(ar, e, vs, before)
    ensures forall e :: 0 <= e <= ar.kind.MaxExponent() ==> ExponentDone(ar, e, vs, cost)
  {
    forall e | 0 <= e <= ar.kind.MaxExponent() ensures ExponentDone(ar, e, vs, cost) {
      assert ExponentDone(ar, e, vs, before);
    }
  }

  method FindBestParams(ar: Arith, samples: seq<nat>) returns (p: BestParams)
    ensures ValidBest(ar.kind, p)
    ensures ActiveSamples(ar, samples, SAMPLES_COUNT) == [] ==> p == DEFAULT_PARAMS
    ensures ActiveSamples(ar, samples, SAMPLES_COUNT) != [] ==>
      exists d, b :: Answer(ar, ActiveSamples(ar, samples, SAMPLES_COUNT), d, b) && b.params == p
  {
    var vs := ActiveSamples(ar, samples, SAMPLES_COUNT);
    if vs == [] {
      return DEFAULT_PARAMS;
    }
    ghost var decimal;
    var b;
    b, decimal := FindBest(ar, vs);
    p := b.params;
  }

  // ---------- constant slices ----------

  // The first exponent whose encoding restores the float.
  method FindIdenticalBase(ar: Arith, v: nat) returns (r: Option<(nat, int)>)
    requires ar.Valid()
    ensures r.Some? ==> r.value.0 <= ar.kind.MaxExponent() && ar.kind.IsInt(r.value.1)
    ensures r.Some? ==> Decode(ar, BestParams(r.value.0, 0, false), r.value.1) == v
    ensures r.Some? ==> TryEncodeFast(ar, r.value.0, 0, v) == Some(r.value.1)
    ensures r.Some? ==> forall e: nat :: e < r.value.0 ==> TryEncodeFast(ar, e, 0, v).None?
    ensures r.None? <==> forall e: nat :: e <= ar.kind.MaxExponent() ==> TryEncodeFast(ar, e, 0, v).None?
  {
    for exp := 0 to ar.kind.MaxExponent() + 1
      invariant forall e: nat :: e < exp ==> TryEncodeFast(ar, e, 0, v).None?
    {
      var o := TryEncodeFast(ar, exp, 0, v);
      if o.Some? {
        TryEncodeFastDecodes(ar, exp, 0, v);
        return Some((exp, o.value));
      }
    }
    return None;
  }
}
