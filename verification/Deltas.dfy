/**
 Differential mode: the extreme differences of neighbours, the width they need, and
 the decision whether differences beat offsets from a base.
 */
module Deltas {
  import opened Wrappers
  import opened Words
  import opened Floats
  import opened Packers

  function Min(a: int, b: int): int { if a <= b then a else b }
  function Max(a: int, b: int): int { if a >= b then a else b }

  // first-order differences of prev, xs[0], xs[1], ...
  function DeltasFrom(k: FloatKind, prev: int, xs: seq<int>): (r: seq<int>)
    ensures |r| == |xs|
  {
    seq(|xs|, i requires 0 <= i < |xs| => k.IntSub(xs[i], if i == 0 then prev else xs[i - 1]))
  }

  // min(lo, ds...) and max(hi, ds...)
  function MinAll(lo: int, ds: seq<int>): int {
    if ds == [] then lo else Min(MinAll(lo, ds[..|ds| - 1]), ds[|ds| - 1])
  }

  function MaxAll(hi: int, ds: seq<int>): int {
    if ds == [] then hi else Max(MaxAll(hi, ds[..|ds| - 1]), ds[|ds| - 1])
  }

  function LastOr(prev: int, xs: seq<int>): int {
    if xs == [] then prev else xs[|xs| - 1]
  }

  lemma {:induction false} ExtremesBound(lo: int, hi: int, ds: seq<int>)
    ensures MinAll(lo, ds) <= lo && hi <= MaxAll(hi, ds)
    ensures forall i :: 0 <= i < |ds| ==> MinAll(lo, ds) <= ds[i] <= MaxAll(hi, ds)
  {
    if ds != [] {
      var pre := ds[..|ds| - 1];
      ExtremesBound(lo, hi, pre);
      forall i | 0 <= i < |ds| ensures MinAll(lo, ds) <= ds[i] <= MaxAll(hi, ds) {
        if i < |ds| - 1 {
          assert pre[i] == ds[i];
        }
      }
    }
  }

  lemma {:induction false} ExtremesConcat(lo: int, hi: int, a: seq<int>, b: seq<int>)
    ensures MinAll(lo, a + b) == MinAll(MinAll(lo, a), b)
    ensures MaxAll(hi, a + b) == MaxAll(MaxAll(hi, a), b)
    decreases |b|
  {
    if b == [] {
      assert a + b == a;
    } else {
      ExtremesConcat(lo, hi, a, b[..|b| - 1]);
      assert (a + b)[..|a + b| - 1] == a + b[..|b| - 1];
    }
  }

  lemma DeltasConcat(k: FloatKind, prev: int, a: seq<int>, b: seq<int>)
    ensures DeltasFrom(k, prev, a + b) == DeltasFrom(k, prev, a) + DeltasFrom(k, LastOr(prev, a), b)
  {
  }

  // Four differences at a time, then the rest one by one.
  method ScanDeltas(k: FloatKind, xs: seq<int>, prev: int, lo: int, hi: int) returns (prev': int, lo': int, hi': int)
    ensures Scanned(k, prev, lo, hi, xs, prev', lo', hi')
  {
    prev', lo', hi' := prev, lo, hi;
    var i := 0;
    while i + 4 <= |xs|
      invariant 0 <= i <= |xs| && Scanned(k, prev, lo, hi, xs[..i], prev', lo', hi')
    {
      ghost var p, l, h := prev', lo', hi';
      prev', lo', hi' := ScanFour(k, xs[i..i + 4], prev', lo', hi');
      ScanChunk(k, prev, lo, hi, xs[..i], xs[i..i + 4], p, l, h, prev', lo', hi');
      assert xs[..i + 4] == xs[..i] + xs[i..i + 4];
      i := i + 4;
    }
    prev', lo', hi' := ScanRest(k, xs, i, prev, lo, hi, prev', lo', hi');
  }

  method ScanRest(k: FloatKind, xs: seq<int>, start: nat, ghost prev: int, ghost lo: int, ghost hi: int,
                  p: int, l: int, h: int) returns (prev': int, lo': int, hi': int)
    requires start <= |xs| && Scanned(k, prev, lo, hi, xs[..start], p, l, h)
    ensures Scanned(k, prev, lo, hi, xs, prev', lo', hi')
  {
    prev', lo', hi' := p, l, h;
    var i := start;
    while i < |xs|
      invariant start <= i <= |xs| && Scanned(k, prev, lo, hi, xs[..i], prev', lo', hi')
    {
      ScanOneMore(k, prev, lo, hi, xs, i, prev', lo', hi');
      var d := k.IntSub(xs[i], prev');
      lo', hi', prev' := Min(lo', d), Max(hi', d), xs[i];
      i := i + 1;
    }
    assert xs[..|xs|] == xs;
  }

  lemma ScanOneMore(k: FloatKind, prev: int, lo: int, hi: int, xs: seq<int>, i: nat, p: int, l: int, h: int)
    requires i < |xs| && Scanned(k, prev, lo, hi, xs[..i], p, l, h)
    ensures var d := k.IntSub(xs[i], p);
      Scanned(k, prev, lo, hi, xs[..i + 1], xs[i], Min(l, d), Max(h, d))
  {
    var d := k.IntSub(xs[i], p);
    ExtremesSnoc(l, h, [], d);
    assert DeltasFrom(k, p, [xs[i]]) == [] + [d];
    ScanChunk(k, prev, lo, hi, xs[..i], [xs[i]], p, l, h, xs[i], Min(l, d), Max(h, d));
    assert xs[..i + 1] == xs[..i] + [xs[i]];
  }

  method ScanFour(k: FloatKind, c: seq<int>, prev: int, lo: int, hi: int) returns (prev': int, lo': int, hi': int)
    requires |c| == 4
    ensures Scanned(k, prev, lo, hi, c, prev', lo', hi')
  {
    var d0, d1 := k.IntSub(c[0], prev), k.IntSub(c[1], c[0]);
    var d2, d3 := k.IntSub(c[2], c[1]), k.IntSub(c[3], c[2]);
    FourExtremes(lo, hi, d0, d1, d2, d3);
    assert DeltasFrom(k, prev, c) == [d0, d1, d2, d3];
    lo' := Min(lo, Min(Min(d0, d1), Min(d2, d3)));
    hi' := Max(hi, Max(Max(d0, d1), Max(d2, d3)));
    prev' := c[3];
  }

  ghost predicate Scanned(k: FloatKind, prev: int, lo: int, hi: int, xs: seq<int>, prev': int, lo': int, hi': int) {
    && prev' == LastOr(prev, xs)
    && lo' == MinAll(lo, DeltasFrom(k, prev, xs))
    && hi' == MaxAll(hi, DeltasFrom(k, prev, xs))
  }

  lemma ExtremesSnoc(lo: int, hi: int, ds: seq<int>, d: int)
    ensures MinAll(lo, ds + [d]) == Min(MinAll(lo, ds), d)
    ensures MaxAll(hi, ds + [d]) == Max(MaxAll(hi, ds), d)
  {
    assert (ds + [d])[..|ds|] == ds;
  }

  lemma FourExtremes(lo: int, hi: int, d0: int, d1: int, d2: int, d3: int)
    ensures MinAll(lo, [d0, d1, d2, d3]) == Min(lo, Min(Min(d0, d1), Min(d2, d3)))
    ensures MaxAll(hi, [d0, d1, d2, d3]) == Max(hi, Max(Max(d0, d1), Max(d2, d3)))
  {
    ExtremesSnoc(lo, hi, [], d0);
    ExtremesSnoc(lo, hi, [d0], d1);
    ExtremesSnoc(lo, hi, [d0, d1], d2);
    ExtremesSnoc(lo, hi, [d0, d1, d2], d3);
    assert [] + [d0] == [d0] && [d0] + [d1] == [d0, d1];
    assert [d0, d1] + [d2] == [d0, d1, d2] && [d0, d1, d2] + [d3] == [d0, d1, d2, d3];
  }

  // Scans of neighbouring parts compose.
  lemma ScanChunk(k: FloatKind, prev: int, lo: int, hi: int, xs: seq<int>, chunk: seq<int>,
                  p: int, l: int, h: int, prev': int, lo': int, hi': int)
    requires Scanned(k, prev, lo, hi, xs, p, l, h) && Scanned(k, p, l, h, chunk, prev', lo', hi')
    requires chunk != []
    ensures Scanned(k, prev, lo, hi, xs + chunk, prev', lo', hi')
  {
    DeltasConcat(k, prev, xs, chunk);
    ExtremesConcat(lo, hi, DeltasFrom(k, prev, xs), DeltasFrom(k, p, chunk));
  }

  // ---------- width of the differences ----------

  function LeastDelta(k: FloatKind, first: int, rest: seq<int>): int {
    MinAll(k.MaxInt(), DeltasFrom(k, first, rest))
  }

  function GreatestDelta(k: FloatKind, first: int, rest: seq<int>): int {
    MaxAll(k.MinInt(), DeltasFrom(k, first, rest))
  }

  function DeltaWidth(k: FloatKind, first: int, rest: seq<int>): nat {
    BitsNeeded(k.CalcRange(LeastDelta(k, first, rest), GreatestDelta(k, first, rest)))
  }

  // one of the differences, and none is less
  predicate IsLeast(ds: seq<int>, m: int) {
    m in ds && forall i :: 0 <= i < |ds| ==> m <= ds[i]
  }

  // no two differences are 2^w or more apart
  predicate Apart(ds: seq<int>, w: nat) {
    forall i, j :: 0 <= i < |ds| && 0 <= j < |ds| ==> ds[i] - ds[j] < Pow2(w)
  }

  lemma {:induction false} ExtremesOccur(lo: int, hi: int, ds: seq<int>)
    ensures MinAll(lo, ds) == lo || MinAll(lo, ds) in ds
    ensures MaxAll(hi, ds) == hi || MaxAll(hi, ds) in ds
  {
    if ds != [] {
      ExtremesOccur(lo, hi, ds[..|ds| - 1]);
    }
  }

  // The extremes are differences that occur.
  lemma DeltasAttained(k: FloatKind, first: int, rest: seq<int>)
    requires rest != []
    ensures LeastDelta(k, first, rest) in DeltasFrom(k, first, rest)
    ensures GreatestDelta(k, first, rest) in DeltasFrom(k, first, rest)
  {
    var ds := DeltasFrom(k, first, rest);
    ExtremesOccur(k.MaxInt(), k.MinInt(), ds);
    ExtremesBound(k.MaxInt(), k.MinInt(), ds);
    assert k.IsInt(ds[0]);
  }

  // The width is the least in which all differences fit as offsets from each other.
  lemma DeltaWidthIff(k: FloatKind, first: int, rest: seq<int>, w: nat)
    requires rest != []
    ensures DeltaWidth(k, first, rest) <= w <==> Apart(DeltasFrom(k, first, rest), w)
  {
    var ds, lo, hi := DeltasFrom(k, first, rest), LeastDelta(k, first, rest), GreatestDelta(k, first, rest);
    DeltaExtremes(k, first, rest);
    DeltasAttained(k, first, rest);
    assert k.CalcRange(lo, hi) == hi - lo;
    BitsNeededIff(hi - lo, w);
    ApartIff(ds, lo, hi, w);
  }

  lemma ApartIff(ds: seq<int>, lo: int, hi: int, w: nat)
    requires lo in ds && hi in ds && forall i :: 0 <= i < |ds| ==> lo <= ds[i] <= hi
    ensures Apart(ds, w) <==> hi - lo < Pow2(w)
  {
    var i :| 0 <= i < |ds| && ds[i] == hi;
    var j :| 0 <= j < |ds| && ds[j] == lo;
    if Apart(ds, w) {
      assert ds[i] - ds[j] < Pow2(w);
    }
  }

  lemma LeastIs(k: FloatKind, first: int, rest: seq<int>)
    requires rest != []
    ensures IsLeast(DeltasFrom(k, first, rest), LeastDelta(k, first, rest))
    ensures forall v: nat :: DeltaWidth(k, first, rest) <= v <==> Apart(DeltasFrom(k, first, rest), v)
  {
    DeltasAttained(k, first, rest);
    DeltaExtremes(k, first, rest);
    forall v: nat ensures DeltaWidth(k, first, rest) <= v <==> Apart(DeltasFrom(k, first, rest), v) {
      DeltaWidthIff(k, first, rest, v);
    }
  }

  method DeltaRange(k: FloatKind, first: int, rest: seq<int>) returns (minDelta: int, w: nat)
    ensures minDelta == LeastDelta(k, first, rest) && w == DeltaWidth(k, first, rest)
    ensures rest != [] ==> IsLeast(DeltasFrom(k, first, rest), minDelta)
    ensures rest != [] ==> forall v: nat :: w <= v <==> Apart(DeltasFrom(k, first, rest), v)
  {
    var prev, lo, hi := ScanDeltas(k, rest, first, k.MaxInt(), k.MinInt());
    minDelta, w := lo, BitsNeeded(k.CalcRange(lo, hi));
    if rest != [] {
      LeastIs(k, first, rest);
    }
  }

  // Full answer of the evaluation, without the early exit.
  function DeltaBenefit(k: FloatKind, first: int, rest: seq<int>, forWidth: nat): Option<(int, nat)> {
    if rest == [] then None
    else if DeltaWidth(k, first, rest) < forWidth then Some((LeastDelta(k, first, rest), DeltaWidth(k, first, rest)))
    else None
  }

  // Sixteen differences first: when they are already too wide, stop.
  method EvalDeltaBenefit(k: FloatKind, first: int, rest: seq<int>, forWidth: nat) returns (r: Option<(int, nat)>)
    ensures r == DeltaBenefit(k, first, rest, forWidth)
    ensures r.Some? <==> rest != [] && forWidth > 0 && Apart(DeltasFrom(k, first, rest), forWidth - 1)
    ensures r.Some? ==>
      && IsLeast(DeltasFrom(k, first, rest), r.value.0)
      && forall v: nat :: r.value.1 <= v <==> Apart(DeltasFrom(k, first, rest), v)
  {
    r := EvalEarly(k, first, rest, forWidth);
    if rest != [] {
      LeastIs(k, first, rest);
    }
  }

  method EvalEarly(k: FloatKind, first: int, rest: seq<int>, forWidth: nat) returns (r: Option<(int, nat)>)
    ensures r == DeltaBenefit(k, first, rest, forWidth)
  {
    if rest == [] {
      return None;
    }
    var preN := if |rest| < 16 then |rest| else 16;
    var prev, lo, hi := ScanDeltas(k, rest[..preN], first, k.MaxInt(), k.MinInt());
    if BitsNeeded(k.CalcRange(lo, hi)) >= forWidth {
      EarlyExitSound(k, first, rest, preN);
      return None;
    }
    assert rest[..preN] + rest[preN..] == rest;
    DeltasConcat(k, first, rest[..preN], rest[preN..]);
    ExtremesConcat(k.MaxInt(), k.MinInt(), DeltasFrom(k, first, rest[..preN]), DeltasFrom(k, prev, rest[preN..]));
    if preN < |rest| {
      prev, lo, hi := ScanDeltas(k, rest[preN..], prev, lo, hi);
    } else {
      assert rest[..preN] == rest;
    }
    var w := BitsNeeded(k.CalcRange(lo, hi));
    r := if w < forWidth then Some((lo, w)) else None;
  }

  lemma DeltaExtremes(k: FloatKind, first: int, rest: seq<int>)
    requires rest != []
    ensures var lo, hi := LeastDelta(k, first, rest), GreatestDelta(k, first, rest);
      k.IsInt(lo) && k.IsInt(hi) && lo <= hi
    ensures forall i :: 0 <= i < |rest| ==>
      LeastDelta(k, first, rest) <= DeltasFrom(k, first, rest)[i] <= GreatestDelta(k, first, rest)
  {
    var ds := DeltasFrom(k, first, rest);
    ExtremesBound(k.MaxInt(), k.MinInt(), ds);
    ExtremesInts(k, ds);
    assert LeastDelta(k, first, rest) <= ds[0] <= GreatestDelta(k, first, rest);
  }

  lemma {:induction false} ExtremesInts(k: FloatKind, ds: seq<int>)
    requires AllInts(k, ds)
    ensures k.IsInt(MinAll(k.MaxInt(), ds)) && k.IsInt(MaxAll(k.MinInt(), ds))
  {
    if ds != [] {
      ExtremesInts(k, ds[..|ds| - 1]);
    }
  }

  // A prefix never needs more bits than the whole.
  lemma EarlyExitSound(k: FloatKind, first: int, rest: seq<int>, n: nat)
    requires 0 < n <= |rest|
    ensures DeltaWidth(k, first, rest[..n]) <= DeltaWidth(k, first, rest)
  {
    var a := rest[..n];
    ScanGrows(k, first, a, rest[n..]);
    assert a + rest[n..] == rest;
    DeltaExtremes(k, first, a);
    DeltaExtremes(k, first, rest);
    RangeGrows(k, LeastDelta(k, first, a), GreatestDelta(k, first, a), LeastDelta(k, first, rest), GreatestDelta(k, first, rest));
  }

  lemma RangeGrows(k: FloatKind, lo: int, hi: int, lo': int, hi': int)
    requires k.IsInt(lo') && k.IsInt(hi') && lo' <= lo <= hi <= hi'
    ensures BitsNeeded(k.CalcRange(lo, hi)) <= BitsNeeded(k.CalcRange(lo', hi'))
  {
    assert k.CalcRange(lo, hi) == hi - lo && k.CalcRange(lo', hi') == hi' - lo';
    BitsNeededMono(hi - lo, hi' - lo');
  }

  lemma ScanGrows(k: FloatKind, first: int, a: seq<int>, b: seq<int>)
    ensures LeastDelta(k, first, a + b) <= LeastDelta(k, first, a)
    ensures GreatestDelta(k, first, a) <= GreatestDelta(k, first, a + b)
  {
    DeltasConcat(k, first, a, b);
    ExtremesConcat(k.MaxInt(), k.MinInt(), DeltasFrom(k, first, a), DeltasFrom(k, LastOr(first, a), b));
    ExtremesBound(LeastDelta(k, first, a), GreatestDelta(k, first, a), DeltasFrom(k, LastOr(first, a), b));
  }

  // The offsets that delta mode packs fit the width it found.
  lemma DeltaOffsetsFit(k: FloatKind, ints: seq<int>)
    requires |ints| > 1
    ensures AllBelow(DeltaOffsets(k, ints, LeastDelta(k, ints[0], ints[1..])), DeltaWidth(k, ints[0], ints[1..]))
    ensures k.IsInt(LeastDelta(k, ints[0], ints[1..])) && DeltaWidth(k, ints[0], ints[1..]) <= k.Bits()
  {
    var first, rest := ints[0], ints[1..];
    var lo, hi, w := LeastDelta(k, first, rest), GreatestDelta(k, first, rest), DeltaWidth(k, first, rest);
    DeltaExtremes(k, first, rest);
    BitsNeededInModulus(k, k.CalcRange(lo, hi));
    forall i | 0 <= i < |rest| ensures DeltaOffsets(k, ints, lo)[i] < Pow2(w) {
      var d := DeltasFrom(k, first, rest)[i];
      OffsetInRange(k, lo, hi, d);
      BitsNeededExact(k.CalcRange(lo, hi));
    }
  }
}
