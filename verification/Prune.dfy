/**
 Outlier pruning: integers too far from the base become exceptions so that the rest
 fit a narrower width.
 */
module Prune {
  import opened Wrappers
  import opened Words
  import opened Floats
  import opened Params
  import opened Packers
  import opened Exceptions
  import opened Blocks

  const MIN_PRUNE_BIT_WIDTH: nat := 4
  const MAX_PRUNE_EXCEPTIONS: nat := 16
  const CANDIDATE_WIDTHS: seq<nat> := [48, 32, 28, 24, 20, 16, 12, 8, 0]

  // ---------- sorting exceptions by position ----------

  predicate Nondecreasing(es: seq<Exception>) {
    forall i, j :: 0 <= i < j < |es| ==> es[i].pos <= es[j].pos
  }

  function InsertByPos(es: seq<Exception>, e: Exception): seq<Exception> {
    if es == [] || e.pos <= es[0].pos then [e] + es
    else [es[0]] + InsertByPos(es[1..], e)
  }

  function SortByPos(es: seq<Exception>): seq<Exception> {
    if es == [] then [] else InsertByPos(SortByPos(es[1..]), es[0])
  }

  // of neighbours with one position, the first stays
  function DedupByPos(es: seq<Exception>): seq<Exception>
    decreases |es|
  {
    if |es| < 2 then es
    else if es[0].pos == es[1].pos then DedupByPos([es[0]] + es[2..])
    else [es[0]] + DedupByPos(es[1..])
  }

  function SortDedup(es: seq<Exception>): seq<Exception> {
    DedupByPos(SortByPos(es))
  }

  lemma {:induction false} InsertSorts(es: seq<Exception>, e: Exception)
    requires Nondecreasing(es)
    ensures Nondecreasing(InsertByPos(es, e))
    ensures forall x :: x in InsertByPos(es, e) <==> x in es || x == e
  {
    if es != [] && e.pos > es[0].pos {
      InsertSorts(es[1..], e);
      var r := InsertByPos(es[1..], e);
      assert forall x :: x in es <==> x in es[1..] || x == es[0];
      forall i, j | 0 <= i < j < |r| + 1 ensures ([es[0]] + r)[i].pos <= ([es[0]] + r)[j].pos {
        if i == 0 {
          assert r[j - 1] in r;
        }
      }
    }
  }

  lemma {:induction false} SortSorts(es: seq<Exception>)
    ensures Nondecreasing(SortByPos(es))
    ensures forall x :: x in SortByPos(es) <==> x in es
  {
    if es != [] {
      SortSorts(es[1..]);
      InsertSorts(SortByPos(es[1..]), es[0]);
      assert forall x :: x in es <==> x in es[1..] || x == es[0];
    }
  }

  lemma {:induction false} DedupSubset(es: seq<Exception>)
    ensures forall x :: x in DedupByPos(es) ==> x in es
    ensures |DedupByPos(es)| <= |es|
    decreases |es|
  {
    if |es| < 2 {
    } else if es[0].pos == es[1].pos {
      DedupSubset([es[0]] + es[2..]);
    } else {
      DedupSubset(es[1..]);
    }
  }

  lemma {:induction false} DedupCovers(es: seq<Exception>, i: nat)
    requires Excepted(es, i)
    ensures Excepted(DedupByPos(es), i)
    decreases |es|
  {
    if |es| >= 2 {
      var j :| 0 <= j < |es| && es[j].pos == i;
      if es[0].pos == es[1].pos {
        var next := [es[0]] + es[2..];
        assert next[if j < 2 then 0 else j - 1].pos == i;
        DedupCovers(next, i);
      } else {
        var r := DedupByPos(es[1..]);
        if j == 0 {
          assert ([es[0]] + r)[0].pos == i;
        } else {
          assert es[1..][j - 1].pos == i;
          DedupCovers(es[1..], i);
          ExceptedConcat([es[0]], r, i);
        }
      }
    }
  }

  lemma {:induction false} DedupSorted(es: seq<Exception>)
    requires Nondecreasing(es)
    ensures Sorted(DedupByPos(es))
    decreases |es|
  {
    if |es| < 2 {
    } else if es[0].pos == es[1].pos {
      DedupSorted([es[0]] + es[2..]);
    } else {
      var r := DedupByPos(es[1..]);
      DedupSorted(es[1..]);
      forall j | 0 <= j < |r| ensures es[0].pos < r[j].pos {
        DedupSubset(es[1..]);
        assert r[j] in es[1..];
      }
    }
  }

  // Sorting and removing repeats keeps exactly the positions there were.
  lemma SortDedupKeeps(es: seq<Exception>, slice: seq<nat>)
    requires Records(es, slice)
    ensures Sorted(SortDedup(es)) && Records(SortDedup(es), slice) && |SortDedup(es)| <= |es|
    ensures forall i :: Excepted(SortDedup(es), i) <==> Excepted(es, i)
  {
    SortSorts(es);
    SortLength(es);
    DedupSorted(SortByPos(es));
    DedupSubset(SortByPos(es));
    var r := SortDedup(es);
    forall i | Excepted(es, i) ensures Excepted(r, i) {
      var j :| 0 <= j < |es| && es[j].pos == i;
      assert es[j] in SortByPos(es);
      DedupCovers(SortByPos(es), i);
    }
    forall j | 0 <= j < |r| ensures r[j] in es {
      assert r[j] in r;
    }
    forall i | Excepted(r, i) ensures Excepted(es, i) {
      var j :| 0 <= j < |r| && r[j].pos == i;
    }
  }

  lemma {:induction false} SortLength(es: seq<Exception>)
    ensures |SortByPos(es)| == |es|
  {
    if es != [] {
      SortLength(es[1..]);
      InsertLength(SortByPos(es[1..]), es[0]);
    }
  }

  lemma {:induction false} InsertLength(es: seq<Exception>, e: Exception)
    ensures |InsertByPos(es, e)| == |es| + 1
  {
    if es != [] && e.pos > es[0].pos {
      InsertLength(es[1..], e);
    }
  }

  // ---------- the outliers of a width ----------

  // (1 << w) - 1
  function MaxAllowed(w: nat): nat { Mask(w) }

  // Positions below n whose offset exceeds the width, in order.
  function Outliers(k: FloatKind, slice: seq<nat>, ints: seq<int>, base: int, w: nat, n: nat): seq<Exception>
    requires n <= |slice| && n <= |ints|
  {
    if n == 0 then []
    else
      Outliers(k, slice, ints, base, w, n - 1)
        + (if k.IntDiffToU64(ints[n - 1], base) > MaxAllowed(w) then [Exception(n - 1, slice[n - 1])] else [])
  }

  lemma {:induction false} OutliersExact(k: FloatKind, slice: seq<nat>, ints: seq<int>, base: int, w: nat, n: nat)
    requires n <= |slice| && n <= |ints|
    ensures var os := Outliers(k, slice, ints, base, w, n);
      && Sorted(os) && Records(os, slice)
      && (forall j :: 0 <= j < |os| ==> os[j].pos < n)
      && (forall i :: 0 <= i < n ==> (Excepted(os, i) <==> k.IntDiffToU64(ints[i], base) >= Pow2(w)))
  {
    if n > 0 {
      OutliersExact(k, slice, ints, base, w, n - 1);
      var pre, os := Outliers(k, slice, ints, base, w, n - 1), Outliers(k, slice, ints, base, w, n);
      if os != pre {
        var e := Exception(n - 1, slice[n - 1]);
        assert os == pre + [e];
        assert os[|pre|] == e;
        forall i | 0 <= i < n - 1 ensures Excepted(os, i) <==> Excepted(pre, i) {
          ExceptedSnoc(pre, e, i);
        }
      } else if Excepted(os, n - 1) {
        assert false;
      }
    }
  }

  // Recording the outliers and moving their slots to the base keeps what the block
  // stands for and makes every offset fit.
  ghost predicate Pruned(ar: Arith, p: BestParams, slice: seq<nat>, ints: seq<int>, base: int, w: nat, es: seq<Exception>) {
    Represents(ar, p, slice, ints, es) && AllBelow(Offsets(ar.kind, ints, base), w)
  }

  lemma PrunedFits(k: FloatKind, before: seq<int>, after: seq<int>, base: int, w: nat)
    requires |after| == |before|
    requires forall i :: 0 <= i < |after| ==> after[i] == base || after[i] == before[i]
    requires forall i :: 0 <= i < |after| && k.IntDiffToU64(before[i], base) >= Pow2(w) ==> after[i] == base
    ensures AllBelow(Offsets(k, after, base), w)
  {
  }

  lemma PrunedState(ar: Arith, p: BestParams, slice: seq<nat>, before: seq<int>, after: seq<int>, base: int, w: nat,
                    es: seq<Exception>, es': seq<Exception>)
    requires Represents(ar, p, slice, before, es) && ar.kind.IsInt(base)
    requires |after| == |before| && Sorted(es') && Records(es', slice)
    requires forall i :: Excepted(es, i) ==> Excepted(es', i)
    requires forall i :: 0 <= i < |before| && ar.kind.IntDiffToU64(before[i], base) >= Pow2(w) ==> Excepted(es', i)
    requires forall i :: 0 <= i < |after| ==> after[i] == base || after[i] == before[i]
    requires forall i :: 0 <= i < |after| && ar.kind.IntDiffToU64(before[i], base) >= Pow2(w) ==> after[i] == base
    requires forall i :: 0 <= i < |after| && after[i] != before[i] ==> Excepted(es', i)
    ensures Pruned(ar, p, slice, after, base, w, es')
  {
    PrunedFits(ar.kind, before, after, base, w);
    forall i | 0 <= i < |slice| ensures Decode(ar, p, after[i]) == slice[i] || Excepted(es', i) {
      if !Excepted(es', i) {
        assert after[i] == before[i];
      }
    }
  }

  // the slots of outliers hold the base
  function Marked(k: FloatKind, ints: seq<int>, base: int, w: nat): (r: seq<int>)
    ensures |r| == |ints|
  {
    seq(|ints|, j requires 0 <= j < |ints| => if k.IntDiffToU64(ints[j], base) > MaxAllowed(w) then base else ints[j])
  }

  // the slots of exceptions do
  function BaseFilled(ints: seq<int>, base: int, es: seq<Exception>): (r: seq<int>)
    ensures |r| == |ints|
  {
    seq(|ints|, j requires 0 <= j < |ints| => if Excepted(es, j) then base else ints[j])
  }

  // One pass: every outlier is recorded and its slot set to the base.
  method MarkOutliers(k: FloatKind, slice: seq<nat>, enc: array<int>, base: int, w: nat, es: seq<Exception>)
      returns (es': seq<Exception>)
    requires enc.Length == |slice|
    modifies enc
    ensures es' == es + Outliers(k, slice, old(enc[..]), base, w, |slice|)
    ensures forall j :: 0 <= j < |slice| ==>
      enc[j] == if k.IntDiffToU64(old(enc[j]), base) > MaxAllowed(w) then base else old(enc[j])
  {
    es' := es;
    var i := 0;
    while i < |slice|
      invariant 0 <= i <= |slice| && es' == es + Outliers(k, slice, old(enc[..]), base, w, i)
      invariant forall j :: i <= j < |slice| ==> enc[j] == old(enc[j])
      invariant forall j :: 0 <= j < i ==>
        enc[j] == if k.IntDiffToU64(old(enc[j]), base) > MaxAllowed(w) then base else old(enc[j])
    {
      if k.IntDiffToU64(enc[i], base) > MaxAllowed(w) {
        es' := es' + [Exception(i, slice[i])];
        enc[i] := base;
      }
      i := i + 1;
    }
  }

  // Prunes to a width already decided on.
  method ApplyTargetBw(ar: Arith, ghost p: BestParams, slice: seq<nat>, enc: array<int>, base: int, w: nat, es: seq<Exception>)
      returns (es': seq<Exception>)
    requires Represents(ar, p, slice, enc[..], es) && ar.kind.IsInt(base)
    modifies enc
    ensures Pruned(ar, p, slice, enc[..], base, w, es')
    ensures enc[..] == Marked(ar.kind, old(enc[..]), base, w)
    ensures es' == PrunedList(es, Outliers(ar.kind, slice, old(enc[..]), base, w, |slice|))
  {
    ghost var before := enc[..];
    var hadPrev := es != [];
    es' := MarkOutliers(ar.kind, slice, enc, base, w, es);
    if hadPrev && |es'| > 1 {
      es' := SortDedup(es');
    }
    PrunedLists(ar.kind, slice, before, base, w, es);
    PrunedState(ar, p, slice, before, enc[..], base, w, es, es');
  }

  // The exception list after the outliers were appended.
  function PrunedList(es: seq<Exception>, os: seq<Exception>): seq<Exception> {
    if es != [] && |es + os| > 1 then SortDedup(es + os) else es + os
  }

  lemma PrunedLists(k: FloatKind, slice: seq<nat>, ints: seq<int>, base: int, w: nat, es: seq<Exception>)
    requires |ints| == |slice| && Sorted(es) && Records(es, slice)
    ensures var es' := PrunedList(es, Outliers(k, slice, ints, base, w, |slice|));
      && Sorted(es') && Records(es', slice)
      && (forall i :: Excepted(es, i) ==> Excepted(es', i))
      && (forall i :: 0 <= i < |ints| && k.IntDiffToU64(ints[i], base) >= Pow2(w) ==> Excepted(es', i))
  {
    var os := Outliers(k, slice, ints, base, w, |slice|);
    OutliersExact(k, slice, ints, base, w, |slice|);
    forall i ensures Excepted(es + os, i) <==> Excepted(es, i) || Excepted(os, i) {
      ExceptedConcat(es, os, i);
    }
    assert Records(es + os, slice);
    SortDedupKeeps(es + os, slice);
    if es == [] {
      assert es + os == os;
    } else if |es + os| <= 1 {
      assert es + os == es;
    }
  }

  // ---------- the search for a width ----------

  // sum of hist[w+1 .. n]
  function HistAbove(hist: seq<nat>, w: nat, n: nat): nat
    requires n < |hist|
  {
    if n <= w then 0 else HistAbove(hist, w, n - 1) + hist[n]
  }

  // offsets among the first n integers that need exactly b bits
  function WidthCount(k: FloatKind, ints: seq<int>, base: int, b: nat, n: nat): nat
    requires n <= |ints|
  {
    if n == 0 then 0
    else
      WidthCount(k, ints, base, b, n - 1)
        + (if BitsNeeded(k.IntDiffToU64(ints[n - 1], base)) == b then 1 else 0)
  }

  function WidthCounts(k: FloatKind, ints: seq<int>, base: int, n: nat): (h: seq<nat>)
    requires n <= |ints|
    ensures |h| == 65
  {
    seq(65, b requires 0 <= b < 65 => WidthCount(k, ints, base, b, n))
  }

  // Counters of 16 bits.
  function Wrapped(hist: seq<nat>): (h: seq<nat>)
    ensures |h| == |hist|
  {
    seq(|hist|, b requires 0 <= b < |hist| => hist[b] % 0x1_0000)
  }

  // Elements by the width of their offset, counted in 16 bits.
  method Histogram(k: FloatKind, ints: seq<int>, base: int) returns (hist: seq<nat>)
    ensures hist == Wrapped(WidthCounts(k, ints, base, |ints|))
  {
    hist := EmptyHistogram();
    var i := 0;
    while i < |ints|
      invariant 0 <= i <= |ints|
      invariant hist == Wrapped(WidthCounts(k, ints, base, i))
    {
      var diff := k.IntDiffToU64(ints[i], base);
      var b := BitsNeeded(diff);
      BitsNeededInModulus(k, diff);
      HistStep(k, ints, base, i, b);
      hist := hist[b := (hist[b] + 1) % 0x1_0000];
      i := i + 1;
    }
  }

  lemma HistStep(k: FloatKind, ints: seq<int>, base: int, i: nat, b: nat)
    requires i < |ints| && b == BitsNeeded(k.IntDiffToU64(ints[i], base)) && b < 65
    ensures var h := Wrapped(WidthCounts(k, ints, base, i));
      Wrapped(WidthCounts(k, ints, base, i + 1)) == h[b := (h[b] + 1) % 0x1_0000]
  {
    var h, next := Wrapped(WidthCounts(k, ints, base, i)), Wrapped(WidthCounts(k, ints, base, i + 1));
    var c := WidthCount(k, ints, base, b, i);
    assert next[b] == (h[b] + 1) % 0x1_0000 by {
      assert next[b] == (c + 1) % 0x1_0000 && h[b] == c % 0x1_0000;
      WrapNext(c);
    }
    forall a | 0 <= a < 65 && a != b ensures next[a] == h[a] {
      assert WidthCount(k, ints, base, a, i + 1) == WidthCount(k, ints, base, a, i);
    }
  }

  lemma WrapNext(c: nat)
    ensures (c + 1) % 0x1_0000 == (c % 0x1_0000 + 1) % 0x1_0000
  {
  }

  lemma {:induction false} AboveStep(k: FloatKind, ints: seq<int>, base: int, i: nat, w: nat, n: nat)
    requires i < |ints| && n < 65
    ensures var b := BitsNeeded(k.IntDiffToU64(ints[i], base));
      HistAbove(WidthCounts(k, ints, base, i + 1), w, n)
        == HistAbove(WidthCounts(k, ints, base, i), w, n) + (if w < b <= n then 1 else 0)
  {
    if n > w {
      AboveStep(k, ints, base, i, w, n - 1);
    }
  }

  lemma {:induction false} NothingAbove(k: FloatKind, ints: seq<int>, base: int, w: nat, n: nat)
    requires n < 65
    ensures HistAbove(WidthCounts(k, ints, base, 0), w, n) == 0
  {
    if n > w {
      NothingAbove(k, ints, base, w, n - 1);
    }
  }

  // Counted without a limit, the elements wider than w are its outliers.
  lemma {:induction false} AboveIsOutliers(k: FloatKind, slice: seq<nat>, ints: seq<int>, base: int, w: nat, i: nat)
    requires i <= |ints| == |slice| && w <= 64
    ensures HistAbove(WidthCounts(k, ints, base, i), w, 64) == |Outliers(k, slice, ints, base, w, i)|
  {
    if i == 0 {
      NothingAbove(k, ints, base, w, 64);
    } else {
      var diff := k.IntDiffToU64(ints[i - 1], base);
      AboveIsOutliers(k, slice, ints, base, w, i - 1);
      AboveStep(k, ints, base, i - 1, w, 64);
      BitsNeededInModulus(k, diff);
      BitsNeededIff(diff, w);
    }
  }

  // no counter behind w up to n overflowed
  predicate NoWrapAbove(hist: seq<nat>, w: nat, n: nat)
    requires n < |hist|
  {
    forall b :: w < b <= n ==> hist[b] < 0x1_0000
  }

  lemma {:induction false} WrappedAboveIff(hist: seq<nat>, w: nat, n: nat)
    requires n < |hist|
    ensures HistAbove(Wrapped(hist), w, n) <= HistAbove(hist, w, n)
    ensures HistAbove(Wrapped(hist), w, n) == HistAbove(hist, w, n) <==> NoWrapAbove(hist, w, n)
  {
    if n > w {
      WrappedAboveIff(hist, w, n - 1);
      assert hist[n] % 0x1_0000 <= hist[n];
      assert hist[n] % 0x1_0000 == hist[n] <==> hist[n] < 0x1_0000;
    }
  }

  // The count read off the histogram is the number of outliers of a width if and only if
  // no larger width is needed by 65536 or more offsets.
  lemma CountExactIff(k: FloatKind, slice: seq<nat>, ints: seq<int>, base: int, w: nat)
    requires |ints| == |slice| && w <= 64
    ensures SeenCounts(k, ints, base)[w] <= |Outliers(k, slice, ints, base, w, |slice|)|
    ensures SeenCounts(k, ints, base)[w] == |Outliers(k, slice, ints, base, w, |slice|)|
      <==> NoWrapAbove(WidthCounts(k, ints, base, |ints|), w, 64)
  {
    AboveIsOutliers(k, slice, ints, base, w, |slice|);
    WrappedAboveIff(WidthCounts(k, ints, base, |ints|), w, 64);
  }

  function EmptyHistogram(): (h: seq<nat>)
    ensures |h| == 65 && forall b :: 0 <= b < 65 ==> h[b] == 0
  {
    seq(65, _ => 0)
  }

  // excCount[w]: the elements wider than w, summed from the wide end down
  method CountsAbove(hist: seq<nat>) returns (excCount: seq<nat>)
    requires |hist| == 65
    ensures excCount == CountsOf(hist)
  {
    excCount := seq(65, _ => 0);
    var running, w := 0, 65;
    while w > 0
      invariant 0 <= w <= 65 && |excCount| == 65
      invariant w > 0 ==> running == HistAbove(hist, w - 1, 64)
      invariant forall v :: w <= v < 65 ==> excCount[v] == HistAbove(hist, v, 64)
    {
      w := w - 1;
      excCount := excCount[w := running];
      running := running + hist[w];
      if w > 0 {
        HistFrom(hist, w - 1, 64);
      }
    }
  }

  function CountsOf(hist: seq<nat>): (c: seq<nat>)
    requires |hist| == 65
    ensures |c| == 65
  {
    seq(65, w requires 0 <= w < 65 => HistAbove(hist, w, 64))
  }

  lemma {:induction false} HistFrom(hist: seq<nat>, w: nat, n: nat)
    requires w < n < |hist|
    ensures HistAbove(hist, w, n) == hist[w + 1] + HistAbove(hist, w + 1, n)
  {
    if n > w + 1 {
      HistFrom(hist, w, n - 1);
    }
  }

  // bytes of the packed integers and of the exception table
  function BlockCost(k: FloatKind, count: nat, w: nat, excs: nat): nat {
    PackedSize(count, w) + ExceptionsByteSize(k, excs, IsLarge(count))
  }

  // Too many outliers at the widest candidate: give up early.
  method WithinBudget(k: FloatKind, ints: seq<int>, base: int, w: nat, budget: nat) returns (ok: bool)
    ensures ok <==> Excess(k, ints, base, w, |ints|) <= budget
  {
    var excess := 0;
    for i := 0 to |ints|
      invariant excess == Excess(k, ints, base, w, i) <= budget
    {
      if k.IntDiffToU64(ints[i], base) > MaxAllowed(w) {
        excess := excess + 1;
        if excess > budget {
          ExcessGrows(k, ints, base, w, i + 1, |ints|);
          return false;
        }
      }
    }
    return true;
  }

  function Excess(k: FloatKind, ints: seq<int>, base: int, w: nat, n: nat): nat
    requires n <= |ints|
  {
    if n == 0 then 0
    else Excess(k, ints, base, w, n - 1) + (if k.IntDiffToU64(ints[n - 1], base) > MaxAllowed(w) then 1 else 0)
  }

  lemma {:induction false} ExcessGrows(k: FloatKind, ints: seq<int>, base: int, w: nat, m: nat, n: nat)
    requires m <= n <= |ints|
    ensures Excess(k, ints, base, w, m) <= Excess(k, ints, base, w, n)
  {
    if m < n {
      ExcessGrows(k, ints, base, w, m, n - 1);
    }
  }

  // a candidate below the current width with few enough outliers
  predicate Affordable(forWidth: nat, excCount: seq<nat>, w: nat)
    requires |excCount| == 65 && forWidth <= 64
  {
    w in CANDIDATE_WIDTHS && w < forWidth && excCount[w] <= MAX_PRUNE_EXCEPTIONS
  }

  // The cheapest candidate width below the current one, or the current one.
  method BestCandidate(k: FloatKind, count: nat, forWidth: nat, excs: nat, excCount: seq<nat>) returns (best: nat)
    requires |excCount| == 65 && forWidth <= 64
    ensures best <= forWidth
    ensures best < forWidth ==> Affordable(forWidth, excCount, best)
    ensures best < forWidth ==>
      BlockCost(k, count, best, excs + excCount[best]) < BlockCost(k, count, forWidth, excs)
    ensures forall w: nat :: Affordable(forWidth, excCount, w) ==>
      BlockCost(k, count, best, excs + (if best < forWidth then excCount[best] else 0))
        <= BlockCost(k, count, w, excs + excCount[w])
  {
    best := forWidth;
    var minCost := BlockCost(k, count, forWidth, excs);
    for i := 0 to |CANDIDATE_WIDTHS|
      invariant best <= forWidth
      invariant minCost == BlockCost(k, count, best, excs + (if best < forWidth then excCount[best] else 0))
      invariant minCost <= BlockCost(k, count, forWidth, excs)
      invariant best < forWidth ==> Affordable(forWidth, excCount, best)
      invariant best < forWidth ==> minCost < BlockCost(k, count, forWidth, excs)
      invariant forall j :: 0 <= j < i && Affordable(forWidth, excCount, CANDIDATE_WIDTHS[j]) ==>
        minCost <= BlockCost(k, count, CANDIDATE_WIDTHS[j], excs + excCount[CANDIDATE_WIDTHS[j]])
    {
      var w := CANDIDATE_WIDTHS[i];
      if w < forWidth && excCount[w] <= MAX_PRUNE_EXCEPTIONS {
        var cost := BlockCost(k, count, w, excs + excCount[w]);
        if cost < minCost {
          minCost, best := cost, w;
        }
      }
    }
  }

  // Every exception slot gets the base.
  method FillBase(enc: array<int>, base: int, es: seq<Exception>)
    requires forall i :: 0 <= i < |es| ==> es[i].pos < enc.Length
    modifies enc
    ensures forall j :: 0 <= j < enc.Length ==> enc[j] == if Excepted(es, j) then base else old(enc[j])
  {
    for i := 0 to |es|
      invariant forall j :: 0 <= j < enc.Length ==> enc[j] == if Excepted(es[..i], j) then base else old(enc[j])
    {
      assert es[..i + 1] == es[..i] + [es[i]];
      forall j ensures Excepted(es[..i + 1], j) <==> Excepted(es[..i], j) || es[i].pos == j {
        ExceptedSnoc(es[..i], es[i], j);
      }
      enc[es[i].pos] := base;
    }
    assert es[..|es|] == es;
  }

  // Wide enough, few exceptions yet, and the widest candidate stays within the budget.
  predicate Prunable(k: FloatKind, ints: seq<int>, base: int, forWidth: nat, excs: nat) {
    && forWidth > MIN_PRUNE_BIT_WIDTH && excs < MAX_PRUNE_EXCEPTIONS
    && var widest := FirstBelow(CANDIDATE_WIDTHS, forWidth);
       widest.Some? && Excess(k, ints, base, widest.value, |ints|) <= MAX_PRUNE_EXCEPTIONS - excs
  }

  // the outliers of every width, as far as 16-bit counters tell
  function SeenCounts(k: FloatKind, ints: seq<int>, base: int): (c: seq<nat>)
    ensures |c| == 65
  {
    CountsOf(Wrapped(WidthCounts(k, ints, base, |ints|)))
  }

  // The cost of a width as the search sees it.
  function SeenCost(k: FloatKind, ints: seq<int>, base: int, forWidth: nat, excs: nat, w: nat): nat
    requires w <= forWidth <= 64
  {
    BlockCost(k, |ints|, w, excs + (if w < forWidth then SeenCounts(k, ints, base)[w] else 0))
  }

  // What the search answers: the cheapest candidate for the counts it sees, or the old
  // width.
  ghost predicate PruneAnswer(k: FloatKind, ints: seq<int>, base: int, forWidth: nat, excs: nat, w: nat) {
    && w <= forWidth <= 64
    && (w < forWidth ==>
          && Prunable(k, ints, base, forWidth, excs) && Affordable(forWidth, SeenCounts(k, ints, base), w)
          && SeenCost(k, ints, base, forWidth, excs, w) < BlockCost(k, |ints|, forWidth, excs))
    && (Prunable(k, ints, base, forWidth, excs) ==>
          forall v: nat :: Affordable(forWidth, SeenCounts(k, ints, base), v) ==>
            SeenCost(k, ints, base, forWidth, excs, w) <= SeenCost(k, ints, base, forWidth, excs, v))
  }

  method FindPruneWidth(k: FloatKind, ints: seq<int>, base: int, forWidth: nat, excs: nat) returns (w: nat)
    requires forWidth <= 64
    ensures PruneAnswer(k, ints, base, forWidth, excs, w)
  {
    w := forWidth;
    if forWidth <= MIN_PRUNE_BIT_WIDTH || excs >= MAX_PRUNE_EXCEPTIONS {
      return;
    }
    var widest := FirstBelow(CANDIDATE_WIDTHS, forWidth);
    if widest.None? {
      return;
    }
    var ok := WithinBudget(k, ints, base, widest.value, MAX_PRUNE_EXCEPTIONS - excs);
    if !ok {
      return;
    }
    w := CheapestSeen(k, ints, base, forWidth, excs);
  }

  method CheapestSeen(k: FloatKind, ints: seq<int>, base: int, forWidth: nat, excs: nat) returns (w: nat)
    requires forWidth <= 64
    ensures w <= forWidth
    ensures w < forWidth ==> Affordable(forWidth, SeenCounts(k, ints, base), w)
    ensures w < forWidth ==> SeenCost(k, ints, base, forWidth, excs, w) < BlockCost(k, |ints|, forWidth, excs)
    ensures forall v: nat :: Affordable(forWidth, SeenCounts(k, ints, base), v) ==>
      SeenCost(k, ints, base, forWidth, excs, w) <= SeenCost(k, ints, base, forWidth, excs, v)
  {
    var hist := Histogram(k, ints, base);
    var excCount := CountsAbove(hist);
    assert excCount == SeenCounts(k, ints, base);
    w := BestCandidate(k, |ints|, forWidth, excs, excCount);
  }

  // Searches for a width that pays for its exceptions and prunes to it. It pays when the
  // counters of the widths behind it did not overflow.
  method TryPruneOutliers(ar: Arith, ghost p: BestParams, slice: seq<nat>, enc: array<int>, base: int, forWidth: nat,
                          es: seq<Exception>) returns (w: nat, es': seq<Exception>)
    requires Represents(ar, p, slice, enc[..], es) && ar.kind.IsInt(base) && forWidth <= 64
    modifies enc
    ensures w <= forWidth
    ensures w == forWidth ==> es' == es && enc[..] == old(enc[..])
    ensures w < forWidth ==> Pruned(ar, p, slice, enc[..], base, w, es')
    ensures PruneAnswer(ar.kind, old(enc[..]), base, forWidth, |es|, w)
    ensures w < forWidth ==>
      && es' == SortDedup(es + Outliers(ar.kind, slice, old(enc[..]), base, w, |slice|))
      && enc[..] == BaseFilled(old(enc[..]), base, es')
    ensures w < forWidth && es == [] ==> es' == Outliers(ar.kind, slice, old(enc[..]), base, w, |slice|)
    ensures w < forWidth ==>
      forall i :: 0 <= i < |slice| && ar.kind.IntDiffToU64(old(enc[i]), base) >= Pow2(w) ==> Excepted(es', i)
    ensures w < forWidth && NoWrapAbove(WidthCounts(ar.kind, old(enc[..]), base, |slice|), w, 64) ==>
      BlockCost(ar.kind, |slice|, w, |es'|) < BlockCost(ar.kind, |slice|, forWidth, |es|)
  {
    es' := es;
    w := FindPruneWidth(ar.kind, enc[..], base, forWidth, |es|);
    if w < forWidth {
      es' := PruneTo(ar, p, slice, enc, base, w, es);
      OutliersStay(ar.kind, slice, old(enc[..]), base, w);
      PrunePays(ar.kind, slice, old(enc[..]), base, forWidth, w, es, es');
    }
  }

  // Outliers are in order: alone, sorting leaves them as they are.
  lemma OutliersStay(k: FloatKind, slice: seq<nat>, ints: seq<int>, base: int, w: nat)
    requires |ints| == |slice|
    ensures var os := Outliers(k, slice, ints, base, w, |slice|); SortDedup([] + os) == os
  {
    var os := Outliers(k, slice, ints, base, w, |slice|);
    OutliersExact(k, slice, ints, base, w, |slice|);
    SortedStays(os);
    assert [] + os == os;
  }

  lemma {:induction false} SortedStays(es: seq<Exception>)
    requires Sorted(es)
    ensures SortByPos(es) == es && DedupByPos(es) == es
  {
    if es != [] {
      SortedStays(es[1..]);
    }
  }

  // Records the outliers of a width and fills the slots of all exceptions with the base.
  method PruneTo(ar: Arith, ghost p: BestParams, slice: seq<nat>, enc: array<int>, base: int, w: nat, es: seq<Exception>)
      returns (es': seq<Exception>)
    requires Represents(ar, p, slice, enc[..], es) && ar.kind.IsInt(base)
    modifies enc
    ensures Pruned(ar, p, slice, enc[..], base, w, es')
    ensures es' == SortDedup(es + Outliers(ar.kind, slice, old(enc[..]), base, w, |slice|))
    ensures enc[..] == BaseFilled(old(enc[..]), base, es')
    ensures |es'| <= |es| + |Outliers(ar.kind, slice, old(enc[..]), base, w, |slice|)|
    ensures forall i :: 0 <= i < |slice| && ar.kind.IntDiffToU64(old(enc[i]), base) >= Pow2(w) ==> Excepted(es', i)
  {
    ghost var before := enc[..];
    var all := CollectOutliers(ar.kind, slice, enc[..], base, w, es);
    es' := SortDedup(all);
    PrunedBySort(ar.kind, slice, before, base, w, es);
    FillBase(enc, base, es');
    PrunedState(ar, p, slice, before, enc[..], base, w, es, es');
  }

  // Counters that did not overflow tell the true cost.
  lemma PrunePays(k: FloatKind, slice: seq<nat>, ints: seq<int>, base: int, forWidth: nat, w: nat, es: seq<Exception>,
                  es': seq<Exception>)
    requires |ints| == |slice| && w < forWidth <= 64
    requires |es'| <= |es| + |Outliers(k, slice, ints, base, w, |slice|)|
    requires SeenCost(k, ints, base, forWidth, |es|, w) < BlockCost(k, |ints|, forWidth, |es|)
    ensures NoWrapAbove(WidthCounts(k, ints, base, |slice|), w, 64) ==>
      BlockCost(k, |slice|, w, |es'|) < BlockCost(k, |slice|, forWidth, |es|)
  {
    if NoWrapAbove(WidthCounts(k, ints, base, |slice|), w, 64) {
      var seen := SeenCounts(k, ints, base)[w];
      assert seen == |Outliers(k, slice, ints, base, w, |slice|)| by {
        CountExactIff(k, slice, ints, base, w);
      }
      CostOfFewer(k, |slice|, w, |es'|, |es| + seen);
    }
  }

  // The widest candidate below a width, if any.
  lemma WidestBelow(w: nat)
    ensures GreatestBelow(CANDIDATE_WIDTHS, w, FirstBelow(CANDIDATE_WIDTHS, w))
  {
    FirstIsGreatest(CANDIDATE_WIDTHS, w);
  }

  lemma {:induction false} FirstIsGreatest(ws: seq<nat>, w: nat)
    requires forall i, j :: 0 <= i < j < |ws| ==> ws[i] > ws[j]
    ensures GreatestBelow(ws, w, FirstBelow(ws, w))
  {
    if ws != [] {
      var rest := ws[1..];
      assert ws == [ws[0]] + rest;
      if ws[0] >= w {
        FirstIsGreatest(rest, w);
        assert forall v :: v in ws <==> v == ws[0] || v in rest;
      } else {
        assert forall v :: v in ws ==> v <= ws[0];
      }
    }
  }

  predicate GreatestBelow(ws: seq<nat>, w: nat, r: Option<nat>) {
    && (r.None? ==> forall v :: v in ws ==> v >= w)
    && (r.Some? ==> r.value in ws && r.value < w)
    && (r.Some? ==> forall v :: v in ws && v < w ==> v <= r.value)
  }

  function FirstBelow(ws: seq<nat>, w: nat): Option<nat> {
    if ws == [] then None else if ws[0] < w then Some(ws[0]) else FirstBelow(ws[1..], w)
  }

  method CollectOutliers(k: FloatKind, slice: seq<nat>, ints: seq<int>, base: int, w: nat, es: seq<Exception>)
      returns (all: seq<Exception>)
    requires |ints| == |slice|
    ensures all == es + Outliers(k, slice, ints, base, w, |slice|)
  {
    all := es;
    for i := 0 to |slice|
      invariant all == es + Outliers(k, slice, ints, base, w, i)
    {
      if k.IntDiffToU64(ints[i], base) > MaxAllowed(w) {
        all := all + [Exception(i, slice[i])];
      }
    }
  }

  lemma PrunedBySort(k: FloatKind, slice: seq<nat>, ints: seq<int>, base: int, w: nat, es: seq<Exception>)
    requires |ints| == |slice| && Sorted(es) && Records(es, slice)
    ensures var all := es + Outliers(k, slice, ints, base, w, |slice|);
      var es' := SortDedup(all);
      && Sorted(es') && Records(es', slice) && |es'| <= |all|
      && (forall i :: Excepted(es, i) ==> Excepted(es', i))
      && (forall i :: 0 <= i < |ints| && k.IntDiffToU64(ints[i], base) >= Pow2(w) ==> Excepted(es', i))
  {
    var os := Outliers(k, slice, ints, base, w, |slice|);
    OutliersExact(k, slice, ints, base, w, |slice|);
    forall i ensures Excepted(es + os, i) <==> Excepted(es, i) || Excepted(os, i) {
      ExceptedConcat(es, os, i);
    }
    assert Records(es + os, slice);
    SortDedupKeeps(es + os, slice);
  }

  lemma CostOfFewer(k: FloatKind, count: nat, w: nat, m: nat, n: nat)
    requires m <= n
    ensures BlockCost(k, count, w, m) <= BlockCost(k, count, w, n)
  {
    var large := IsLarge(count);
    if k.F64? {
      assert m * EntrySize(k, large) <= n * EntrySize(k, large);
    } else {
      assert m * EntrySize(k, large) <= n * EntrySize(k, large);
    }
  }

  // ---------- a count that wraps ----------

  // 0, 2048, and n integers of seven bits, no two neighbours the same
  function Crowd(n: nat): (ints: seq<int>)
    ensures |ints| == n + 2
  {
    [0, 2048] + seq(n, i requires 0 <= i < n => 64 + i % 64)
  }

  lemma CrowdAt(n: nat, i: nat)
    requires i < n
    ensures Crowd(n)[i + 2] == 64 + i % 64 && 64 <= Crowd(n)[i + 2] < 128
  {
  }

  // offsets of seven bits, one of twelve, one of none
  function CrowdWidth(i: nat): nat {
    if i == 0 then 0 else if i == 1 then 12 else 7
  }

  lemma CrowdWidths(n: nat, i: nat)
    requires i < n + 2
    ensures var diff := F64.IntDiffToU64(Crowd(n)[i], 0);
      diff == Crowd(n)[i] && BitsNeeded(diff) == CrowdWidth(i) && (diff > 255 <==> i == 1) && (diff > 0 <==> i > 0)
  {
    if i == 1 {
      BitsBetween(2048, 12);
    } else if i > 1 {
      CrowdAt(n, i - 2);
      BitsBetween(Crowd(n)[i], 7);
    }
  }

  lemma BitsBetween(x: nat, w: nat)
    requires (w == 7 && 64 <= x < 128) || (w == 12 && 2048 <= x < 4096)
    ensures BitsNeeded(x) == w
  {
    assert Pow2(6) == 64 && Pow2(11) == 2048;
    BitsNeededIff(x, w - 1);
    BitsNeededIff(x, w);
  }

  lemma {:induction false} CrowdCounts(n: nat, b: nat, i: nat)
    requires 2 <= i <= n + 2
    ensures WidthCount(F64, Crowd(n), 0, b, i) == (if b == 7 then i - 2 else if b == 0 || b == 12 then 1 else 0)
  {
    CrowdWidths(n, i - 1);
    if i > 2 {
      CrowdCounts(n, b, i - 1);
    } else {
      CrowdWidths(n, 0);
      assert WidthCount(F64, Crowd(n), 0, b, 0) == 0;
      assert WidthCount(F64, Crowd(n), 0, b, 1) == (if b == 0 then 1 else 0);
    }
  }

  lemma {:induction false} OneAboveHist(hist: seq<nat>, c: nat, w: nat, n: nat)
    requires n < |hist| && forall b :: 0 < b < |hist| ==> hist[b] == (if b == c then 1 else 0)
    ensures HistAbove(hist, w, n) == (if w < c <= n then 1 else 0)
  {
    if n > w {
      OneAboveHist(hist, c, w, n - 1);
    }
  }

  // 65536 offsets of seven bits are counted as none.
  lemma CrowdSeen(ints: seq<int>, w: nat)
    requires ints == Crowd(0x1_0000) && w < 12
    ensures SeenCounts(F64, ints, 0)[w] == 1
    ensures !NoWrapAbove(WidthCounts(F64, ints, 0, |ints|), 0, 64)
  {
    var hist := Wrapped(WidthCounts(F64, ints, 0, |ints|));
    forall b | 0 < b < 65 ensures hist[b] == (if b == 12 then 1 else 0) {
      CrowdCounts(0x1_0000, b, |ints|);
    }
    OneAboveHist(hist, 12, w, 64);
    CrowdCounts(0x1_0000, 7, |ints|);
    assert WidthCounts(F64, ints, 0, |ints|)[7] == 0x1_0000;
  }

  lemma {:induction false} CrowdExcess(n: nat, i: nat)
    requires 2 <= i <= n + 2
    ensures Excess(F64, Crowd(n), 0, 8, i) == 1
  {
    assert MaxAllowed(8) == 255;
    CrowdWidths(n, i - 1);
    if i > 2 {
      CrowdExcess(n, i - 1);
    } else {
      CrowdWidths(n, 0);
      assert Excess(F64, Crowd(n), 0, 8, 0) == 0 && Excess(F64, Crowd(n), 0, 8, 1) == 0;
    }
  }

  // All but the first are outliers.
  lemma {:induction false} AllButFirst(k: FloatKind, slice: seq<nat>, ints: seq<int>, base: int, w: nat, i: nat)
    requires 1 <= i <= |ints| == |slice| && k.IntDiffToU64(ints[0], base) <= MaxAllowed(w)
    requires forall j :: 0 < j < |ints| ==> k.IntDiffToU64(ints[j], base) > MaxAllowed(w)
    ensures |Outliers(k, slice, ints, base, w, i)| == i - 1
  {
    if i > 1 {
      AllButFirst(k, slice, ints, base, w, i - 1);
    } else {
      assert Outliers(k, slice, ints, base, w, 0) == [];
    }
  }

  lemma CrowdOutliers(slice: seq<nat>, ints: seq<int>, w: nat)
    requires ints == Crowd(0x1_0000) && |slice| == |ints| && w == 0
    ensures |Outliers(F64, slice, ints, 0, w, |ints|)| == 0x1_0001
  {
    assert MaxAllowed(w) == 0;
    forall j | 0 <= j < |ints| ensures F64.IntDiffToU64(ints[j], 0) > 0 <==> j > 0 {
      CrowdWidths(0x1_0000, j);
    }
    AllButFirst(F64, slice, ints, 0, w, |ints|);
  }

  lemma FirstBelowTwelve()
    ensures FirstBelow(CANDIDATE_WIDTHS, 12) == Some(8)
    ensures forall w: nat :: w in CANDIDATE_WIDTHS && w < 12 <==> w == 8 || w == 0
  {
    var ws := CANDIDATE_WIDTHS;
    assert FirstBelow(ws[6..], 12) == FirstBelow(ws[6..][1..], 12) == Some(8);
    forall i | 0 <= i < 6 ensures FirstBelow(ws[i..], 12) == FirstBelow(ws[i + 1..], 12) {
      assert ws[i..][1..] == ws[i + 1..];
    }
    assert ws[0..] == ws;
  }

  // what the widths cost as the search sees them
  lemma CrowdCosts(ints: seq<int>, n: nat)
    requires ints == Crowd(0x1_0000) && n == |ints|
    ensures SeenCost(F64, ints, 0, 12, 0, 0) == 16 && SeenCost(F64, ints, 0, 12, 0, 8) > 16
    ensures SeenCost(F64, ints, 0, 12, 0, 12) == BlockCost(F64, n, 12, 0) > 16
  {
    CrowdSeen(ints, 0);
    CrowdSeen(ints, 8);
    OffIsMul(n, 0);
    OffIsMul(n, 8);
    OffIsMul(n, 12);
  }

  lemma CrowdPrunable(ints: seq<int>)
    requires ints == Crowd(0x1_0000)
    ensures Prunable(F64, ints, 0, 12, 0) && Affordable(12, SeenCounts(F64, ints, 0), 0)
  {
    FirstBelowTwelve();
    CrowdExcess(0x1_0000, |ints|);
    CrowdSeen(ints, 0);
  }

  // The search takes width 0 for cheap, where every float but one is an exception.
  lemma CrowdAnswer(slice: seq<nat>, ints: seq<int>, w: nat)
    requires ints == Crowd(0x1_0000) && |slice| == |ints| && PruneAnswer(F64, ints, 0, 12, 0, w)
    ensures w == 0 && |Outliers(F64, slice, ints, 0, w, |ints|)| == 0x1_0001
    ensures BlockCost(F64, |ints|, 12, 0) < 100_000 && BlockCost(F64, |ints|, w, 0x1_0001) > 700_000
  {
    CrowdPrunable(ints);
    CrowdCosts(ints, |ints|);
    FirstBelowTwelve();
    assert w == 0;
    CrowdOutliers(slice, ints, w);
    OffIsMul(|ints|, 12);
  }
}
