/**
 The word kernels that do not mask: widths 56 and 64 as whole words, width 52 in pairs.
 They are given values of any size; what they store then is stated exactly.
 */
module RawWords {
  import opened Words
  import opened BitPack

  // ---------- widths 56 and 64 ----------

  // Of a value that ends the bytes, only the bits that fit show.
  lemma TailCut(x: nat, v: nat, b: nat, n: nat, w: nat)
    requires x < Pow2(8 * b) && 8 * n <= w
    ensures LeBytes(x + Shl(v, 8 * b), b + n) == LeBytes(x + Shl(Low(v, w), 8 * b), b + n)
  {
    AppendBits(x, v, b, 0, n);
    AppendBits(x, Low(v, w), b, 0, n);
    SmallWord(x, 8 * b);
    LeBytesOfLow(v, n, w);
  }

  // The bits over the width are overwritten by the next word, or cut off at the end.
  method PackWords(vs: seq<nat>, w: nat, stride: nat, a: array<byte>, p: nat)
    requires w == 8 * stride && 7 <= stride <= 8 && p + PackedSize(|vs|, w) + SLACK <= a.Length
    modifies a
    ensures Holds(a[..], p, PackedSize(|vs|, w), Stream(LowAll(vs, w), w))
    ensures a[..p] == old(a[..p])
  {
    ghost var low := LowAll(vs, w);
    StreamAll(low, w);
    var i, b := 0, 0;
    while i < |vs|
      invariant 0 <= i <= |vs| && 8 * b == Off(i, w)
      invariant Holds(a[..], p, b, Stream(low[..i], w))
      invariant a[..p] == old(a[..p])
    {
      OffMono(i + 1, |vs|, w);
      PackWord(vs, w, stride, i, b, a, p);
      i, b := i + 1, b + stride;
    }
  }

  method PackWord(vs: seq<nat>, w: nat, stride: nat, i: nat, b: nat, a: array<byte>, p: nat)
    requires w == 8 * stride && 7 <= stride <= 8 && i < |vs| && 8 * b == Off(i, w) && p + b + 8 <= a.Length
    requires Holds(a[..], p, b, Stream(LowAll(vs, w)[..i], w))
    modifies a
    ensures Holds(a[..], p, b + stride, Stream(LowAll(vs, w)[..i + 1], w))
    ensures a[..p] == old(a[..p])
  {
    WordInStream(vs, w, i, b);
    PutWord(vs[i], w, stride, b, 8, a, p, Stream(LowAll(vs, w)[..i], w));
  }

  lemma WordInStream(vs: seq<nat>, w: nat, i: nat, b: nat)
    requires i < |vs| && 8 * b == Off(i, w)
    ensures Stream(LowAll(vs, w)[..i], w) < Pow2(8 * b)
    ensures Stream(LowAll(vs, w)[..i + 1], w) == Stream(LowAll(vs, w)[..i], w) + Shl(Low(vs[i], w), 8 * b)
  {
    var low := LowAll(vs, w);
    LowAllBelow(vs, w);
    StreamBound(low[..i], w);
    StreamNext(low, i, w);
  }

  // A word of n bytes behind the number x, of which stride bytes stay.
  method PutWord(v: nat, w: nat, stride: nat, b: nat, n: nat, a: array<byte>, p: nat, ghost x: nat)
    requires w == 8 * stride && stride <= n && x < Pow2(8 * b) && p + b + n <= a.Length
    requires Holds(a[..], p, b, x)
    modifies a
    ensures Holds(a[..], p, b + stride, x + Shl(Low(v, w), 8 * b))
    ensures a[..p] == old(a[..p])
  {
    ghost var next := x + Shl(v, 8 * b);
    PutBehind(a, p, b, v, n, b, x);
    HoldsLess(a[..], p, b + n, next, b + stride);
    TailCut(x, v, b, stride, w);
    HoldsSame(a[..], p, b + stride, next, x + Shl(Low(v, w), 8 * b));
  }

  lemma HoldsSame(bytes: seq<byte>, p: nat, e: nat, x: nat, y: nat)
    requires Holds(bytes, p, e, x) && LeBytes(x, e) == LeBytes(y, e)
    ensures Holds(bytes, p, e, y)
  {
  }

  // ---------- width 52 ----------

  // What is stored for value i: the second of a pair is or-ed with the bits of the
  // first that go over the width. The last of an odd number is cut by the bytes only.
  function SpilledAt(vs: seq<nat>, i: nat, w: nat): nat
    requires i < |vs|
  {
    if i % 2 == 1 then Low(BitOr(vs[i], Shr(vs[i - 1], w)), w)
    else if i == |vs| - 1 then vs[i]
    else Low(vs[i], w)
  }

  function Spilled(vs: seq<nat>, w: nat): (r: seq<nat>)
    ensures |r| == |vs|
  {
    seq(|vs|, i requires 0 <= i < |vs| => SpilledAt(vs, i, w))
  }

  // Or-ing above bit k leaves the bits below alone.
  lemma {:induction false} OrAbove(l: nat, h: nat, y: nat, k: nat)
    requires l < Pow2(k)
    ensures BitOr(l + Shl(h, k), Shl(y, k)) == l + Shl(BitOr(h, y), k)
    decreases k
  {
    if k > 0 {
      OrAbove(l / 2, h, y, k - 1);
      OrHalves(l + Shl(h, k), Shl(y, k));
      var z := Shl(h, k - 1);
      assert (l + 2 * z) / 2 == l / 2 + z && (l + 2 * z) % 2 == l % 2;
    }
  }

  lemma OrHalves(x: nat, y: nat)
    ensures BitOr(x, y) == (if x % 2 == 1 || y % 2 == 1 then 1 else 0) + 2 * BitOr(x / 2, y / 2)
  {
  }

  // Or-ing below bit k leaves the bits above alone.
  lemma {:induction false} OrBelow(x: nat, h: nat, k: nat)
    requires h < Pow2(k)
    ensures Shr(BitOr(x, h), k) == Shr(x, k)
    ensures Low(BitOr(x, h), k) == BitOr(Low(x, k), h)
    decreases k
  {
    OrHalves(x, h);
    if k > 0 {
      OrBelow(x / 2, h / 2, k - 1);
      OrHalves(Low(x, k), h);
      var low := Low(x / 2, k - 1);
      assert (x % 2 + 2 * low) / 2 == low && (x % 2 + 2 * low) % 2 == x % 2;
    } else {
      SmallWord(h, 0);
    }
  }

  // v0 | (v1 << w) and v1 >> (n - w), the two words of a pair: those of the cut first
  // value and the second one or-ed with the bits that went over.
  lemma PairSpill(v0: nat, v1: nat, w: nat, n: nat)
    requires v0 < Pow2(n) && w <= n
    ensures var l, u := Low(v0, w), BitOr(v1, Shr(v0, w));
      && BitOr(v0, ShlWord(v1, w, n)) == BitOr(l, ShlWord(u, w, n))
      && Shr(v1, n - w) == Shr(u, n - w)
  {
    ShrLt(v0, n - w, w);
    OrBelow(v1, Shr(v0, w), n - w);
    OrComm(Shr(v0, w), Low(v1, n - w));
    LowFits(v0, w);
    SpillInto(v0, v1, w, n);
    OrCut(Low(v0, w), BitOr(v1, Shr(v0, w)), w, n);
  }

  lemma OrCut(l: nat, u: nat, w: nat, n: nat)
    requires l < Pow2(w) && w <= n
    ensures BitOr(l, ShlWord(u, w, n)) == l + Shl(Low(u, n - w), w)
  {
    OrShifted(l, u, w, n);
    LowSum(l, u, w, n);
  }

  lemma SpillInto(v0: nat, v1: nat, w: nat, n: nat)
    requires w <= n
    ensures BitOr(v0, ShlWord(v1, w, n)) == Low(v0, w) + Shl(BitOr(Shr(v0, w), Low(v1, n - w)), w)
  {
    ShrLowIsDivMod(v0, w);
    ShiftedCut(v1, w, n);
    OrAbove(Low(v0, w), Shr(v0, w), Low(v1, n - w), w);
  }

  lemma ShiftedCut(v: nat, w: nat, n: nat)
    requires w <= n
    ensures ShlWord(v, w, n) == Shl(Low(v, n - w), w)
  {
    ShlZero(w);
    LowSum(0, v, w, n);
  }

  lemma SpilledBelow(vs: seq<nat>, w: nat, i: nat)
    requires i <= |vs| && i % 2 == 0
    ensures AllBelow(Spilled(vs, w)[..i], w)
  {
    forall j | 0 <= j < i ensures Spilled(vs, w)[j] < Pow2(w) {
      ShrLowIsDivMod(vs[j], w);
      if j % 2 == 1 {
        ShrLowIsDivMod(BitOr(vs[j], Shr(vs[j - 1], w)), w);
      }
    }
  }

  // What the bytes of a pair hold.
  lemma PairTail(x: nat, l: nat, u: nat, b: nat, n: nat, w: nat)
    requires x < Pow2(8 * b) && l < Pow2(w) && 8 * n == 2 * w
    ensures LeBytes(x + Shl(l + Shl(u, w), 8 * b), b + n) == LeBytes(x + Shl(l + Shl(Low(u, w), w), 8 * b), b + n)
  {
    TailCut(x, l + Shl(u, w), b, n, 2 * w);
    LowSum(l, u, w, 2 * w);
  }

  // the bits a pair has in the stream before the bytes cut it, and after
  function PairBits(v0: nat, v1: nat, w: nat): nat {
    Low(v0, w) + Shl(BitOr(v1, Shr(v0, w)), w)
  }

  function PairKept(v0: nat, v1: nat, w: nat): nat {
    Low(v0, w) + Shl(Low(BitOr(v1, Shr(v0, w)), w), w)
  }

  lemma PairWords(v0: nat, v1: nat, w: nat, b: nat, n: nat, x: nat, w0: nat, w1: nat, next: nat)
    requires x < Pow2(8 * b) && v0 < Pow2(8 * n) && w <= 8 * n
    requires w0 == BitOr(v0, ShlWord(v1, w, 8 * n)) && w1 == Shr(v1, 8 * n - w)
    requires next == x + Shl(PairBits(v0, v1, w), 8 * b)
    ensures LeBytes(next, b) == LeBytes(x, b)
    ensures LeBytes(w0, n) == LeBytes(Shr(next, 8 * b), n) && w1 == Shr(next, 8 * (b + n))
  {
    var l, u := Low(v0, w), BitOr(v1, Shr(v0, w));
    PairSpill(v0, v1, w, 8 * n);
    LowFits(v0, w);
    PairAtByte(x, l, u, w, b, n, w0, next);
  }

  lemma LowFits(x: nat, k: nat)
    ensures Low(x, k) < Pow2(k)
  {
    ShrLowIsDivMod(x, k);
  }

  lemma PairBytes(v0: nat, v1: nat, w: nat, stride: nat, b: nat, x: nat)
    requires x < Pow2(8 * b) && 8 * stride == 2 * w
    ensures LeBytes(x + Shl(PairBits(v0, v1, w), 8 * b), b + stride)
         == LeBytes(x + Shl(PairKept(v0, v1, w), 8 * b), b + stride)
  {
    LowFits(v0, w);
    PairTail(x, Low(v0, w), BitOr(v1, Shr(v0, w)), b, stride, w);
  }

  // Two words of n bytes, of which stride bytes stay.
  method PutSpilledPair(v0: nat, v1: nat, w: nat, stride: nat, b: nat, n: nat, a: array<byte>, p: nat, ghost x: nat)
    requires n == 8 && 2 * w == 8 * stride && w <= 8 * n && stride <= 16 && v0 < Pow2(8 * n) && x < Pow2(8 * b)
    requires Holds(a[..], p, b, x) && p + b + 16 <= a.Length
    modifies a
    ensures Holds(a[..], p, b + stride, x + Shl(PairKept(v0, v1, w), 8 * b))
    ensures a[..p] == old(a[..p])
  {
    ghost var next := x + Shl(PairBits(v0, v1, w), 8 * b);
    var w0, w1 := BitOr(v0, ShlWord(v1, w, 8 * n)), Shr(v1, 8 * n - w);
    PairWords(v0, v1, w, b, n, x, w0, w1, next);
    PutWide(a, p, b, w0, w1, n, n, b, x, next);
    HoldsLess(a[..], p, b + 8 + n, next, b + stride);
    PairBytes(v0, v1, w, stride, b, x);
  }

  lemma PairInStream(vs: seq<nat>, w: nat, i: nat)
    requires i + 1 < |vs| && i % 2 == 0
    ensures Stream(Spilled(vs, w)[..i + 2], w)
         == Stream(Spilled(vs, w)[..i], w) + Shl(PairKept(vs[i], vs[i + 1], w), Off(i, w))
    ensures Stream(Spilled(vs, w)[..i], w) < Pow2(Off(i, w))
  {
    SpilledBelow(vs, w, i);
    StreamBound(Spilled(vs, w)[..i], w);
    TwoAppended(Spilled(vs, w), i, w);
  }

  // Pairs in 13 bytes, the last of an odd number in 7.
  method PackPairs(vs: seq<nat>, w: nat, stride: nat, n: nat, a: array<byte>, p: nat)
    requires w == 52 && stride == 13 && n == 8 && AllBelow(vs, 8 * n)
    requires p + PackedSize(|vs|, w) + SLACK <= a.Length
    modifies a
    ensures Holds(a[..], p, PackedSize(|vs|, w), Stream(Spilled(vs, w), w))
    ensures a[..p] == old(a[..p])
  {
    StreamAll(Spilled(vs, w), w);
    var i, b := 0, 0;
    while i + 1 < |vs|
      invariant 0 <= i <= |vs| && i % 2 == 0 && 8 * b == Off(i, w)
      invariant Holds(a[..], p, b, Stream(Spilled(vs, w)[..i], w))
      invariant a[..p] == old(a[..p])
    {
      PackPairAt(vs, w, stride, n, i, b, a, p);
      i, b := i + 2, b + stride;
    }
    if i < |vs| {
      PutLast(vs, w, i, b, 7, a, p);
    }
  }

  method PackPairAt(vs: seq<nat>, w: nat, stride: nat, n: nat, i: nat, b: nat, a: array<byte>, p: nat)
    requires w == 52 && stride == 13 && n == 8 && AllBelow(vs, 8 * n) && i + 1 < |vs| && i % 2 == 0
    requires p + PackedSize(|vs|, w) + SLACK <= a.Length && 8 * b == Off(i, w)
    requires Holds(a[..], p, b, Stream(Spilled(vs, w)[..i], w))
    modifies a
    ensures Holds(a[..], p, b + stride, Stream(Spilled(vs, w)[..i + 2], w))
    ensures a[..p] == old(a[..p]) && 8 * (b + stride) == Off(i + 2, w)
  {
    PairRoom(i, |vs|, w, stride, b);
    PairInStream(vs, w, i);
    ghost var x := Stream(Spilled(vs, w)[..i], w);
    PutSpilledPair(vs[i], vs[i + 1], w, stride, b, n, a, p, x);
  }

  lemma PairRoom(i: nat, n: nat, w: nat, stride: nat, b: nat)
    requires i + 1 < n && 2 * w == 8 * stride && 8 * b == Off(i, w)
    ensures 8 * (b + stride) == Off(i + 2, w) && b + stride <= PackedSize(n, w)
  {
    OffMono(i + 2, n, w);
    OffTwo(i, w);
  }

  lemma LastInStream(vs: seq<nat>, w: nat, i: nat)
    requires i == |vs| - 1 && i % 2 == 0
    ensures Stream(Spilled(vs, w), w) == Stream(Spilled(vs, w)[..i], w) + Shl(vs[i], Off(i, w))
    ensures Stream(Spilled(vs, w)[..i], w) < Pow2(Off(i, w))
  {
    SpilledBelow(vs, w, i);
    StreamBound(Spilled(vs, w)[..i], w);
    StreamNext(Spilled(vs, w), i, w);
    StreamAll(Spilled(vs, w), w);
  }

  method PutLast(vs: seq<nat>, w: nat, i: nat, b: nat, n: nat, a: array<byte>, p: nat)
    requires w == 52 && n == 7 && i == |vs| - 1 && i % 2 == 0 && 8 * b == Off(i, w)
    requires p + PackedSize(|vs|, w) + SLACK <= a.Length
    requires Holds(a[..], p, b, Stream(Spilled(vs, w)[..i], w))
    modifies a
    ensures Holds(a[..], p, PackedSize(|vs|, w), Stream(Spilled(vs, w), w))
    ensures a[..p] == old(a[..p])
  {
    ghost var x := Stream(Spilled(vs, w)[..i], w);
    LastInStream(vs, w, i);
    PutBehind(a, p, b, vs[i], n, b, x);
  }

  // ---------- when nothing spills ----------

  lemma SpilledInRange(vs: seq<nat>, w: nat)
    requires AllBelow(vs, w)
    ensures Spilled(vs, w) == vs
  {
    forall i | 0 <= i < |vs| ensures SpilledAt(vs, i, w) == vs[i] {
      SmallWord(vs[i], w);
      if i % 2 == 1 {
        SmallWord(vs[i - 1], w);
        OrComm(vs[i], 0);
      }
    }
  }

  lemma {:induction false} LastFieldCut(vs: seq<nat>, w: nat, i: nat)
    requires i < |vs| && forall j :: 0 <= j < |vs| - 1 ==> vs[j] < Pow2(w)
    ensures Field(Stream(vs, w), i, w) == Low(vs[i], w)
  {
    if i > 0 {
      Split(vs[0], Stream(vs[1..], w), w);
      SmallWord(vs[0], w);
      LastFieldCut(vs[1..], w, i - 1);
      ShrShr(Stream(vs, w), w, Off(i - 1, w));
    } else {
      Split(vs[0], Stream(vs[1..], w), w);
    }
  }

  // what reading the stored bytes gives for value i
  function ReadBackAt(vs: seq<nat>, i: nat, w: nat): nat
    requires i < |vs|
  {
    if i % 2 == 1 then Low(BitOr(vs[i], Shr(vs[i - 1], w)), w) else Low(vs[i], w)
  }

  function StoredPairs(vs: seq<nat>, w: nat): seq<byte> {
    LeBytes(Stream(Spilled(vs, w), w), PackedSize(|vs|, w))
  }

  lemma PairsReadBack(vs: seq<nat>, w: nat, i: nat)
    requires i < |vs|
    ensures Unpack(StoredPairs(vs, w), |vs|, w)[i] == ReadBackAt(vs, i, w)
  {
    var sp := Spilled(vs, w);
    var n, m := Stream(sp, w), PackedSize(|vs|, w);
    LeValOfBytes(n, m);
    ShrLowIsDivMod(n, 8 * m);
    OffMono(i + 1, |vs|, w);
    FieldBelow(Low(n, 8 * m), Shr(n, 8 * m), Off(i, w), w, 8 * m);
    SpilledButLast(vs, w);
    LastFieldCut(sp, w, i);
    LowTwice(vs, w, i);
  }

  lemma SpilledButLast(vs: seq<nat>, w: nat)
    ensures forall j :: 0 <= j < |vs| - 1 ==> Spilled(vs, w)[j] < Pow2(w)
  {
    forall j | 0 <= j < |vs| - 1 ensures Spilled(vs, w)[j] < Pow2(w) {
      LowFits(vs[j], w);
      if j % 2 == 1 {
        LowFits(BitOr(vs[j], Shr(vs[j - 1], w)), w);
      }
    }
  }

  lemma LowTwice(vs: seq<nat>, w: nat, i: nat)
    requires i < |vs|
    ensures Low(SpilledAt(vs, i, w), w) == ReadBackAt(vs, i, w)
  {
    LowLow(vs[i], w, w);
    if i % 2 == 1 {
      LowLow(BitOr(vs[i], Shr(vs[i - 1], w)), w, w);
    }
  }

  // Or-ing the bits that go over the width of the first of a pair changes nothing.
  predicate Unspilled(vs: seq<nat>, i: nat, w: nat)
    requires i < |vs|
  {
    i % 2 == 0 || BitOr(vs[i], Shr(vs[i - 1], w)) == vs[i]
  }

  predicate SpillsNowhere(vs: seq<nat>, w: nat) {
    forall i :: 0 <= i < |vs| ==> Unspilled(vs, i, w)
  }

  lemma OrUnchangedIff(x: nat, h: nat, k: nat)
    requires h < Pow2(k)
    ensures Low(BitOr(x, h), k) == Low(x, k) <==> BitOr(x, h) == x
  {
    OrBelow(x, h, k);
    ShrLowIsDivMod(x, k);
    ShrLowIsDivMod(BitOr(x, h), k);
  }

  lemma ReadBackIff(vs: seq<nat>, w: nat, i: nat)
    requires i < |vs| && AllBelow(vs, w + w)
    ensures ReadBackAt(vs, i, w) == Low(vs[i], w) <==> Unspilled(vs, i, w)
  {
    if i % 2 == 1 {
      ShrLt(vs[i - 1], w, w);
      OrUnchangedIff(vs[i], Shr(vs[i - 1], w), w);
    }
  }

  // The pair kernel gives back the low bits of every value exactly when nothing spills.
  lemma PairsLosslessIff(vs: seq<nat>, w: nat)
    requires AllBelow(vs, w + w)
    ensures Unpack(StoredPairs(vs, w), |vs|, w) == LowAll(vs, w) <==> SpillsNowhere(vs, w)
  {
    var back := Unpack(StoredPairs(vs, w), |vs|, w);
    forall i | 0 <= i < |vs| ensures back[i] == LowAll(vs, w)[i] <==> Unspilled(vs, i, w) {
      PairsReadBack(vs, w, i);
      ReadBackIff(vs, w, i);
    }
    if SpillsNowhere(vs, w) {
      assert back == LowAll(vs, w);
    }
  }

  lemma OneOver(w: nat)
    ensures Shr(Shl(1, w), w) == 1 && Low(Shl(1, w), w) == 0
  {
    Split(0, 1, w);
    SmallWord(0, w);
  }

  lemma LowOne(w: nat)
    ensures Low(1, w) == (if w == 0 then 0 else 1)
  {
    if w > 0 {
      assert Low(1, w) == 1 % 2 + 2 * Low(1 / 2, w - 1);
      SmallWord(0, w - 1);
    }
  }

  // A bit over the width of the first of a pair comes back as bit 0 of the second.
  lemma SpillExample(w: nat, v: nat)
    requires v == Shl(1, w) && w > 0
    ensures !SpillsNowhere([v, 0], w)
    ensures LowAll([v, 0], w) == [0, 0] && Unpack(StoredPairs([v, 0], w), 2, w) == [0, 1]
  {
    var vs := [v, 0];
    OneOver(w);
    LowOne(w);
    SmallWord(0, w);
    assert BitOr(0, 1) == 1;
    assert !Unspilled(vs, 1, w);
    assert ReadBackAt(vs, 0, w) == 0 && ReadBackAt(vs, 1, w) == 1;
    var back := Unpack(StoredPairs(vs, w), |vs|, w);
    assert back[0] == 0 by { PairsReadBack(vs, w, 0); }
    assert back[1] == 1 by { PairsReadBack(vs, w, 1); }
  }

  // Values that fit never spill.
  lemma FittingNeverSpill(vs: seq<nat>, w: nat)
    requires AllBelow(vs, w)
    ensures SpillsNowhere(vs, w)
  {
    forall i | 0 <= i < |vs| ensures Unspilled(vs, i, w) {
      if i % 2 == 1 {
        SmallWord(vs[i - 1], w);
        OrComm(vs[i], 0);
      }
    }
  }
}
