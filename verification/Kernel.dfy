/**
 The encoding kernel: floats to integers, the extremes of the integers that restore
 their float, and an exception for every float that none restores.
 */
module Kernel {
  import opened Wrappers
  import opened Words
  import opened Floats
  import opened Params
  import opened Exceptions
  import opened Blocks
  import opened Deltas

  // Every integer stored for slice[..n] is the encoding of its float.
  ghost predicate Encoded(ar: Arith, p: BestParams, slice: seq<nat>, ints: seq<int>, n: nat)
    requires p.fac <= p.exp
  {
    n <= |ints| && n <= |slice| && forall i :: 0 <= i < n ==> ints[i] == Encode(ar, p, slice[i])
  }

  // The floats among the first n that the kernel does not accept, with their bits.
  function Rejected(ar: Arith, p: BestParams, slice: seq<nat>, n: nat): seq<Exception>
    requires p.fac <= p.exp && n <= |slice|
  {
    if n == 0 then []
    else
      Rejected(ar, p, slice, n - 1)
        + (if Accepts(ar, p, slice[n - 1]) then [] else [Exception(n - 1, slice[n - 1])])
  }

  lemma {:induction false} RejectedShape(ar: Arith, p: BestParams, slice: seq<nat>, n: nat)
    requires p.fac <= p.exp && n <= |slice|
    ensures var es := Rejected(ar, p, slice, n);
      Sorted(es) && Records(es, slice) && forall j :: 0 <= j < |es| ==> es[j].pos < n
  {
    if n > 0 {
      RejectedShape(ar, p, slice, n - 1);
    }
  }

  lemma {:induction false} RejectedAt(ar: Arith, p: BestParams, slice: seq<nat>, n: nat, i: nat)
    requires p.fac <= p.exp && i < n <= |slice|
    ensures Excepted(Rejected(ar, p, slice, n), i) <==> !Accepts(ar, p, slice[i])
  {
    var pre := Rejected(ar, p, slice, n - 1);
    if i < n - 1 {
      RejectedAt(ar, p, slice, n - 1, i);
    } else {
      RejectedShape(ar, p, slice, n - 1);
      NotExcepted(pre, i);
    }
    ExceptedSnoc(pre, Exception(n - 1, slice[n - 1]), i);
    if Accepts(ar, p, slice[n - 1]) {
      assert Rejected(ar, p, slice, n) == pre;
    }
  }

  lemma NotExcepted(es: seq<Exception>, n: nat)
    requires forall j :: 0 <= j < |es| ==> es[j].pos < n
    ensures !Excepted(es, n)
  {
  }

  // The exceptions recorded are exactly the floats that are not accepted.
  lemma RejectedExact(ar: Arith, p: BestParams, slice: seq<nat>, n: nat)
    requires p.fac <= p.exp && n <= |slice|
    ensures var es := Rejected(ar, p, slice, n);
      && Sorted(es) && Records(es, slice)
      && (forall j :: 0 <= j < |es| ==> es[j].pos < n)
      && (forall i :: 0 <= i < n ==> (Excepted(es, i) <==> !Accepts(ar, p, slice[i])))
  {
    RejectedShape(ar, p, slice, n);
    forall i | 0 <= i < n ensures Excepted(Rejected(ar, p, slice, n), i) <==> !Accepts(ar, p, slice[i]) {
      RejectedAt(ar, p, slice, n, i);
    }
  }

  lemma {:induction false} RejectedGrows(ar: Arith, p: BestParams, slice: seq<nat>, m: nat, n: nat)
    requires p.fac <= p.exp && m <= n <= |slice|
    ensures |Rejected(ar, p, slice, m)| <= |Rejected(ar, p, slice, n)|
  {
    if m < n {
      RejectedGrows(ar, p, slice, m, n - 1);
    }
  }

  lemma {:induction false} NoneRejected(ar: Arith, p: BestParams, slice: seq<nat>, n: nat)
    requires p.fac <= p.exp && n <= |slice| && forall j :: 0 <= j < n ==> Accepts(ar, p, slice[j])
    ensures Rejected(ar, p, slice, n) == []
  {
    if n > 0 {
      NoneRejected(ar, p, slice, n - 1);
    }
  }

  lemma {:induction false} AllRejected(ar: Arith, p: BestParams, slice: seq<nat>, n: nat)
    requires p.fac <= p.exp && n <= |slice| && forall j :: 0 <= j < n ==> !Accepts(ar, p, slice[j])
    ensures |Rejected(ar, p, slice, n)| == n
  {
    if n > 0 {
      AllRejected(ar, p, slice, n - 1);
    }
  }

  // lo and hi are the least and the greatest encoding of an accepted float among the
  // first n; without one they are the extremes of the integer type, the wrong way round.
  ghost predicate Extremes(ar: Arith, p: BestParams, slice: seq<nat>, n: nat, lo: int, hi: int)
    requires p.fac <= p.exp && n <= |slice|
  {
    && (forall i :: 0 <= i < n && Accepts(ar, p, slice[i]) ==> lo <= Encode(ar, p, slice[i]) <= hi)
    && (if exists i :: 0 <= i < n && Accepts(ar, p, slice[i])
        then Attained(ar, p, slice, n, lo) && Attained(ar, p, slice, n, hi)
        else lo == ar.kind.MaxInt() && hi == ar.kind.MinInt())
  }

  ghost predicate Attained(ar: Arith, p: BestParams, slice: seq<nat>, n: nat, v: int)
    requires p.fac <= p.exp && n <= |slice|
  {
    exists i :: 0 <= i < n && Accepts(ar, p, slice[i]) && Encode(ar, p, slice[i]) == v
  }

  // One more float, accepted or not.
  lemma ExtremesStep(ar: Arith, p: BestParams, slice: seq<nat>, n: nat, lo: int, hi: int)
    requires ar.Valid() && p.fac <= p.exp && n < |slice| && Extremes(ar, p, slice, n, lo, hi)
    ensures var v := Encode(ar, p, slice[n]);
      if Accepts(ar, p, slice[n]) then Extremes(ar, p, slice, n + 1, Min(lo, v), Max(hi, v))
      else Extremes(ar, p, slice, n + 1, lo, hi)
  {
    var v := Encode(ar, p, slice[n]);
    forall u | Attained(ar, p, slice, n, u) ensures Attained(ar, p, slice, n + 1, u) {
      var i :| 0 <= i < n && Accepts(ar, p, slice[i]) && Encode(ar, p, slice[i]) == u;
      assert 0 <= i < n + 1;
    }
    if Accepts(ar, p, slice[n]) {
      assert Attained(ar, p, slice, n + 1, v);
    }
  }

  // The slots of rejected floats among the first n hold 0, all others the encoding.
  ghost predicate Zeroed(ar: Arith, p: BestParams, slice: seq<nat>, ints: seq<int>, n: nat)
    requires p.fac <= p.exp
  {
    && |ints| == |slice|
    && forall i :: 0 <= i < |slice| ==>
         ints[i] == (if i >= n || Accepts(ar, p, slice[i]) then Encode(ar, p, slice[i]) else 0)
  }

  // The block's integers, exceptions and extremes: what pruning and packing start from.
  ghost predicate Encoding(ar: Arith, p: BestParams, slice: seq<nat>, ints: seq<int>, es: seq<Exception>, lo: int, hi: int) {
    && Represents(ar, p, slice, ints, es)
    && es == Rejected(ar, p, slice, |slice|)
    && Zeroed(ar, p, slice, ints, |slice|)
    && Extremes(ar, p, slice, |slice|, lo, hi)
  }

  // What an encoding pass leaves: all of it, or the news that too many floats are rejected.
  ghost predicate Pass(ar: Arith, p: BestParams, slice: seq<nat>, ints: seq<int>, es: seq<Exception>, lo: int, hi: int)
    requires p.fac <= p.exp
  {
    && (|es| <= MAX_EXCEPTIONS <==> |Rejected(ar, p, slice, |slice|)| <= MAX_EXCEPTIONS)
    && (|es| <= MAX_EXCEPTIONS ==> Encoding(ar, p, slice, ints, es, lo, hi))
  }

  method EncodeSlice(ar: Arith, p: BestParams, slice: seq<nat>, enc: array<int>)
      returns (lo: int, hi: int, es: seq<Exception>)
    requires ar.Valid() && KernelFaithful(ar) && ValidBest(ar.kind, p) && enc.Length == |slice|
    modifies enc
    ensures Pass(ar, p, slice, enc[..], es, lo, hi)
  {
    var anyDiff := false;
    lo, hi, es := ar.kind.MaxInt(), ar.kind.MinInt(), [];
    var i := 0;
    while i < |slice|
      invariant 0 <= i <= |slice| && Encoded(ar, p, slice, enc[..], i)
      invariant !anyDiff ==> Extremes(ar, p, slice, i, lo, hi)
      invariant !anyDiff ==> forall j :: 0 <= j < i ==> Accepts(ar, p, slice[j])
    {
      enc[i] := Encode(ar, p, slice[i]);
      if !anyDiff {
        ExtremesStep(ar, p, slice, i, lo, hi);
      }
      if KernelDecode(ar, p, enc[i]) == slice[i] {
        lo, hi := Min(lo, enc[i]), Max(hi, enc[i]);
      } else {
        anyDiff := true;
      }
      i := i + 1;
    }
    if !anyDiff {
      AcceptedDecode(ar, p, slice, enc[..]);
      return;
    }
    lo, hi, es := Rescan(ar, p, slice, enc);
  }

  lemma AcceptedDecode(ar: Arith, p: BestParams, slice: seq<nat>, ints: seq<int>)
    requires ar.Valid() && KernelFaithful(ar) && ValidBest(ar.kind, p)
    requires |ints| == |slice| && Encoded(ar, p, slice, ints, |slice|)
    requires forall j :: 0 <= j < |slice| ==> Accepts(ar, p, slice[j])
    ensures Represents(ar, p, slice, ints, []) && Rejected(ar, p, slice, |slice|) == []
  {
    NoneRejected(ar, p, slice, |slice|);
  }

  // Second pass: exceptions are recorded, their slots zeroed, and the scan gives up
  // beyond the limit.
  method Rescan(ar: Arith, p: BestParams, slice: seq<nat>, enc: array<int>)
      returns (lo: int, hi: int, es: seq<Exception>)
    requires ar.Valid() && KernelFaithful(ar) && ValidBest(ar.kind, p) && enc.Length == |slice|
    requires Encoded(ar, p, slice, enc[..], |slice|)
    modifies enc
    ensures Pass(ar, p, slice, enc[..], es, lo, hi)
  {
    lo, hi, es := ar.kind.MaxInt(), ar.kind.MinInt(), [];
    var i := 0;
    while i < |slice|
      invariant 0 <= i <= |slice| && |es| <= MAX_EXCEPTIONS
      invariant Scanned(ar, p, slice, enc[..], es, lo, hi, i)
    {
      ghost var before := enc[..];
      ScanStep(ar, p, slice, before, es, lo, hi, i);
      if KernelDecode(ar, p, enc[i]) == slice[i] {
        lo, hi := Min(lo, enc[i]), Max(hi, enc[i]);
      } else {
        enc[i] := 0;
        es := es + [Exception(i, slice[i])];
        assert enc[..] == before[i := 0];
        if |es| > MAX_EXCEPTIONS {
          RejectedGrows(ar, p, slice, i + 1, |slice|);
          return ar.kind.MaxInt(), ar.kind.MinInt(), es;
        }
      }
      i := i + 1;
    }
    RejectedDecode(ar, p, slice, enc[..], es);
  }

  // What the second pass knows after i floats.
  ghost predicate Scanned(ar: Arith, p: BestParams, slice: seq<nat>, ints: seq<int>, es: seq<Exception>, lo: int, hi: int,
                          i: nat)
    requires p.fac <= p.exp && i <= |slice|
  {
    Zeroed(ar, p, slice, ints, i) && es == Rejected(ar, p, slice, i) && Extremes(ar, p, slice, i, lo, hi)
  }

  lemma ScanStep(ar: Arith, p: BestParams, slice: seq<nat>, ints: seq<int>, es: seq<Exception>, lo: int, hi: int, i: nat)
    requires ar.Valid() && p.fac <= p.exp && i < |slice| && Scanned(ar, p, slice, ints, es, lo, hi, i)
    ensures KernelDecode(ar, p, ints[i]) == slice[i] <==> Accepts(ar, p, slice[i])
    ensures if Accepts(ar, p, slice[i])
            then Scanned(ar, p, slice, ints, es, Min(lo, ints[i]), Max(hi, ints[i]), i + 1)
            else Scanned(ar, p, slice, ints[i := 0], es + [Exception(i, slice[i])], lo, hi, i + 1)
  {
    ExtremesStep(ar, p, slice, i, lo, hi);
  }

  // Zeroed slots stand for nothing: their positions are exceptions.
  lemma RejectedDecode(ar: Arith, p: BestParams, slice: seq<nat>, ints: seq<int>, es: seq<Exception>)
    requires ar.Valid() && KernelFaithful(ar) && ValidBest(ar.kind, p) && |ints| == |slice|
    requires es == Rejected(ar, p, slice, |slice|)
    requires Zeroed(ar, p, slice, ints, |slice|)
    ensures Represents(ar, p, slice, ints, es)
  {
    RejectedExact(ar, p, slice, |slice|);
  }
}
