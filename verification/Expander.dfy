/**
 Repeat expansion as the decoder runs it: whole words and whole bytes of the bitmap at
 once where they are all clear or all set, bit by bit elsewhere.
 */
module Expander {
  import opened Words
  import opened Decoding
  import opened Repeats

  const WORD_BYTES: nat := 8

  // ---------- counting ----------

  // count_ones
  function PopCount(x: nat): nat {
    if x == 0 then 0 else x % 2 + PopCount(x / 2)
  }

  lemma {:induction false} PopSplit(x: nat, k: nat)
    ensures PopCount(x) == PopCount(Low(x, k)) + PopCount(Shr(x, k))
    decreases k
  {
    if k > 0 {
      PopSplit(x / 2, k - 1);
      var low := Low(x / 2, k - 1);
      assert (x % 2 + 2 * low) / 2 == low && (x % 2 + 2 * low) % 2 == x % 2;
    }
  }

  // One more bit counted.
  lemma PopBit(x: nat, r: nat)
    ensures PopCount(Low(x, r + 1)) == PopCount(Low(x, r)) + Shr(x, r) % 2
  {
    PopSplit(Low(x, r + 1), r);
    LowLow(x, r, r + 1);
    LowSplit(x, r, 1);
    ShrLowIsDivMod(x, r);
    Split(Low(x, r), Low(Shr(x, r), 1), r);
    SmallWord(Low(x, r), r);
    var b := Low(Shr(x, r), 1);
    assert b == Shr(x, r) % 2;
    assert PopCount(b) == b;
  }

  lemma {:induction false} OnesInByte(bitmap: seq<byte>, a: nat, r: nat)
    requires a < |bitmap| && r <= 8
    ensures Ones(bitmap, 8 * a + r) == Ones(bitmap, 8 * a) + PopCount(Low(bitmap[a], r))
    decreases r
  {
    if r > 0 {
      OnesInByte(bitmap, a, r - 1);
      PopBit(bitmap[a], r - 1);
      assert (8 * a + (r - 1)) / 8 == a && (8 * a + (r - 1)) % 8 == r - 1;
    }
  }

  lemma ByteOnes(bitmap: seq<byte>, a: nat)
    requires a < |bitmap|
    ensures Ones(bitmap, 8 * a + 8) == Ones(bitmap, 8 * a) + PopCount(bitmap[a])
  {
    Pow2Of16();
    OnesInByte(bitmap, a, 8);
    SmallWord(bitmap[a], 8);
  }

  lemma PopConcat(pre: seq<byte>, b: byte)
    ensures PopCount(LeVal(pre + [b])) == PopCount(LeVal(pre)) + PopCount(b)
  {
    assert LeVal([b]) == b + 256 * LeVal([]);
    LeValConcat(pre, [b]);
    LeValBound(pre);
    PopAbove(LeVal(pre), b, 8 * |pre|);
  }

  // Bits above all bits set so far are counted on their own.
  lemma PopAbove(x: nat, y: nat, k: nat)
    requires x < Pow2(k)
    ensures PopCount(x + Shl(y, k)) == PopCount(x) + PopCount(y)
  {
    Split(x, y, k);
    SmallWord(x, k);
    PopSplit(x + Shl(y, k), k);
  }

  // set bits in the first n bytes
  function OnesIn(bitmap: seq<byte>, n: nat): nat
    requires n <= |bitmap|
  {
    if n == 0 then 0 else OnesIn(bitmap, n - 1) + PopCount(bitmap[n - 1])
  }

  lemma {:induction false} OnesInIsOnes(bitmap: seq<byte>, n: nat)
    requires n <= |bitmap|
    ensures OnesIn(bitmap, n) == Ones(bitmap, 8 * n)
    decreases n
  {
    if n > 0 {
      OnesInIsOnes(bitmap, n - 1);
      ByteOnes(bitmap, n - 1);
      assert 8 * (n - 1) + 8 == 8 * n;
    }
  }

  lemma {:induction false} BytesOnes(bitmap: seq<byte>, a: nat, m: nat)
    requires a + m <= |bitmap|
    ensures OnesIn(bitmap, a + m) == OnesIn(bitmap, a) + PopCount(LeVal(bitmap[a..a + m]))
    decreases m
  {
    if m > 0 {
      var e := a + (m - 1);
      BytesOnes(bitmap, a, m - 1);
      assert bitmap[a..a + m] == bitmap[a..e] + [bitmap[e]];
      PopConcat(bitmap[a..e], bitmap[e]);
    }
  }

  // Set bits among the first count, by words, bytes and a masked last byte.
  method CountBitmapOnes(bitmap: seq<byte>, count: nat) returns (ones: nat)
    requires |bitmap| == BitmapLen(count)
    ensures ones == Ones(bitmap, count)
  {
    var fullBytes := count / 8;
    ones := CountBytes(bitmap, fullBytes);
    if count % 8 > 0 {
      OnesInByte(bitmap, fullBytes, count % 8);
      AndMask(bitmap[fullBytes], count % 8);
      ones := ones + PopCount(BitAnd(bitmap[fullBytes], Mask(count % 8)));
    }
  }

  method CountBytes(bitmap: seq<byte>, fullBytes: nat) returns (ones: nat)
    requires fullBytes <= |bitmap|
    ensures ones == Ones(bitmap, 8 * fullBytes)
  {
    var fullWords := fullBytes / WORD_BYTES;
    ones := 0;
    var w := 0;
    while w < fullWords
      invariant 0 <= w <= fullWords && ones == OnesIn(bitmap, WORD_BYTES * w)
    {
      BytesOnes(bitmap, WORD_BYTES * w, WORD_BYTES);
      ones := ones + PopCount(LeVal(bitmap[WORD_BYTES * w..WORD_BYTES * w + WORD_BYTES]));
      w := w + 1;
    }
    var b := WORD_BYTES * fullWords;
    while b < fullBytes
      invariant WORD_BYTES * fullWords <= b <= fullBytes && ones == OnesIn(bitmap, b)
    {
      ones := ones + PopCount(bitmap[b]);
      b := b + 1;
    }
    OnesInIsOnes(bitmap, fullBytes);
  }

  // ---------- testing bits ----------

  lemma {:induction false} BitTest(x: nat, k: nat)
    ensures BitAnd(x, Shl(1, k)) == 0 <==> Shr(x, k) % 2 == 0
    decreases k
  {
    if x == 0 {
      SmallWord(0, k);
    } else if k > 0 {
      BitTest(x / 2, k - 1);
      ShlZero(k);
      ShlZero(k - 1);
    } else {
      assert BitAnd(x / 2, 0) == 0;
    }
  }

  // every bit of the mask of n bits is set
  lemma {:induction false} MaskBits(n: nat, k: nat)
    requires k < n
    ensures Shr(Mask(n), k) % 2 == 1
    decreases k
  {
    if k > 0 {
      assert Mask(n) / 2 == Mask(n - 1);
      MaskBits(n - 1, k - 1);
    }
  }

  lemma ClearByte(bitmap: seq<byte>, a: nat, i: nat)
    requires a < |bitmap| && 8 * a <= i < 8 * a + 8
    ensures bitmap[a] == 0 ==> !RepeatBit(bitmap, i)
    ensures bitmap[a] == 0xFF ==> RepeatBit(bitmap, i)
  {
    SmallWord(0, i % 8);
    Pow2Of16();
    MaskBits(8, i % 8);
  }

  lemma {:induction false} ClearBytes(s: seq<byte>, j: nat)
    requires j < |s|
    ensures LeVal(s) == 0 ==> s[j] == 0
    ensures LeVal(s) == Mask(8 * |s|) ==> s[j] == 0xFF
    decreases |s|
  {
    LeValBound(s[1..]);
    BytePow(|s| - 1);
    if j > 0 {
      ClearBytes(s[1..], j - 1);
    }
  }

  lemma ClearWord(bitmap: seq<byte>, a: nat, m: nat, i: nat)
    requires a + m <= |bitmap| && 8 * a <= i < 8 * (a + m)
    ensures LeVal(bitmap[a..a + m]) == 0 ==> !RepeatBit(bitmap, i)
    ensures LeVal(bitmap[a..a + m]) == Mask(8 * m) ==> RepeatBit(bitmap, i)
  {
    ClearBytes(bitmap[a..a + m], i / 8 - a);
    ClearByte(bitmap, i / 8, i);
  }

  // ---------- expanding ----------

  // The first pos elements are out; prev is the last of them, shown from srcIdx.
  ghost predicate Expanding(bitmap: seq<byte>, nr: seq<nat>, out: seq<nat>, pos: nat, srcIdx: nat, prev: nat) {
    && 0 < pos <= |out| && pos <= 8 * |bitmap|
    && srcIdx == SourceIndex(bitmap, pos - 1) && prev == Shown(nr, srcIdx)
    && forall i :: 0 <= i < pos ==> out[i] == Shown(nr, SourceIndex(bitmap, i))
  }

  // One bit.
  method ExpandBit(bitmap: seq<byte>, nr: seq<nat>, pos: nat, srcIdx0: nat, prev0: nat, out: array<nat>)
      returns (srcIdx: nat, prev: nat)
    requires Expanding(bitmap, nr, out[..], pos, srcIdx0, prev0) && pos < out.Length && pos < 8 * |bitmap|
    modifies out
    ensures Expanding(bitmap, nr, out[..], pos + 1, srcIdx, prev)
    ensures forall i :: pos + 1 <= i < out.Length ==> out[i] == old(out[i])
  {
    srcIdx, prev := srcIdx0, prev0;
    BitTest(bitmap[pos / 8], pos % 8);
    if BitAnd(bitmap[pos / 8], Shl(1, pos % 8)) == 0 {
      srcIdx := srcIdx + 1;
      prev := Shown(nr, srcIdx);
    }
    out[pos] := prev;
  }

  // n clear bits show the next n non-repeats.
  method CopyRun(bitmap: seq<byte>, nr: seq<nat>, pos: nat, n: nat, srcIdx0: nat, prev0: nat, out: array<nat>)
      returns (srcIdx: nat, prev: nat)
    requires Expanding(bitmap, nr, out[..], pos, srcIdx0, prev0) && pos + n <= out.Length && pos + n <= 8 * |bitmap|
    requires forall i :: pos <= i < pos + n ==> !RepeatBit(bitmap, i)
    modifies out
    ensures Expanding(bitmap, nr, out[..], pos + n, srcIdx, prev)
    ensures forall i :: pos + n <= i < out.Length ==> out[i] == old(out[i])
  {
    srcIdx, prev := srcIdx0, prev0;
    for k := 0 to n
      invariant Expanding(bitmap, nr, out[..], pos + k, srcIdx, prev)
      invariant forall i :: pos + k <= i < out.Length ==> out[i] == old(out[i])
    {
      assert !RepeatBit(bitmap, pos + k);
      srcIdx := srcIdx + 1;
      prev := Shown(nr, srcIdx);
      out[pos + k] := prev;
    }
  }

  // n set bits show the same element again.
  method FillRun(bitmap: seq<byte>, nr: seq<nat>, pos: nat, n: nat, ghost srcIdx: nat, prev: nat, out: array<nat>)
    requires Expanding(bitmap, nr, out[..], pos, srcIdx, prev) && pos + n <= out.Length && pos + n <= 8 * |bitmap|
    requires forall i :: pos <= i < pos + n ==> RepeatBit(bitmap, i)
    modifies out
    ensures Expanding(bitmap, nr, out[..], pos + n, srcIdx, prev)
    ensures forall i :: pos + n <= i < out.Length ==> out[i] == old(out[i])
  {
    for k := 0 to n
      invariant Expanding(bitmap, nr, out[..], pos + k, srcIdx, prev)
      invariant forall i :: pos + k <= i < out.Length ==> out[i] == old(out[i])
    {
      assert RepeatBit(bitmap, pos + k);
      out[pos + k] := prev;
    }
  }

  method ExpandByte(bitmap: seq<byte>, nr: seq<nat>, a: nat, srcIdx0: nat, prev0: nat, out: array<nat>)
      returns (srcIdx: nat, prev: nat)
    requires Expanding(bitmap, nr, out[..], 8 * a, srcIdx0, prev0) && a < |bitmap| && 8 * a + 8 <= out.Length
    modifies out
    ensures Expanding(bitmap, nr, out[..], 8 * a + 8, srcIdx, prev)
    ensures forall i :: 8 * a + 8 <= i < out.Length ==> out[i] == old(out[i])
  {
    srcIdx, prev := srcIdx0, prev0;
    forall i | 8 * a <= i < 8 * a + 8
      ensures bitmap[a] == 0 ==> !RepeatBit(bitmap, i)
      ensures bitmap[a] == 0xFF ==> RepeatBit(bitmap, i)
    {
      ClearByte(bitmap, a, i);
    }
    if bitmap[a] == 0 {
      srcIdx, prev := CopyRun(bitmap, nr, 8 * a, 8, srcIdx, prev, out);
    } else if bitmap[a] == 0xFF {
      FillRun(bitmap, nr, 8 * a, 8, srcIdx, prev, out);
    } else {
      srcIdx, prev := ExpandBits(bitmap, nr, 8 * a, 8 * a + 8, srcIdx, prev, out);
    }
  }

  method ExpandBits(bitmap: seq<byte>, nr: seq<nat>, from: nat, until: nat, srcIdx0: nat, prev0: nat, out: array<nat>)
      returns (srcIdx: nat, prev: nat)
    requires Expanding(bitmap, nr, out[..], from, srcIdx0, prev0) && from <= until <= out.Length && until <= 8 * |bitmap|
    modifies out
    ensures Expanding(bitmap, nr, out[..], until, srcIdx, prev)
    ensures forall i :: until <= i < out.Length ==> out[i] == old(out[i])
  {
    srcIdx, prev := srcIdx0, prev0;
    for i := from to until
      invariant Expanding(bitmap, nr, out[..], i, srcIdx, prev)
      invariant forall j :: i <= j < out.Length ==> out[j] == old(out[j])
    {
      srcIdx, prev := ExpandBit(bitmap, nr, i, srcIdx, prev, out);
    }
  }

  method ExpandBytes(bitmap: seq<byte>, nr: seq<nat>, from: nat, until: nat, srcIdx0: nat, prev0: nat, out: array<nat>)
      returns (srcIdx: nat, prev: nat)
    requires Expanding(bitmap, nr, out[..], 8 * from, srcIdx0, prev0) && from <= until <= |bitmap| && 8 * until <= out.Length
    modifies out
    ensures Expanding(bitmap, nr, out[..], 8 * until, srcIdx, prev)
    ensures forall i :: 8 * until <= i < out.Length ==> out[i] == old(out[i])
  {
    srcIdx, prev := srcIdx0, prev0;
    for a := from to until
      invariant Expanding(bitmap, nr, out[..], 8 * a, srcIdx, prev)
      invariant forall i :: 8 * a <= i < out.Length ==> out[i] == old(out[i])
    {
      srcIdx, prev := ExpandByte(bitmap, nr, a, srcIdx, prev, out);
    }
  }

  // Word w of the bitmap; element 0 is already out.
  method ExpandWord(bitmap: seq<byte>, nr: seq<nat>, w: nat, srcIdx0: nat, prev0: nat, out: array<nat>)
      returns (srcIdx: nat, prev: nat)
    requires Expanding(bitmap, nr, out[..], if w == 0 then 1 else WORD * w, srcIdx0, prev0)
    requires 8 * w + 8 <= |bitmap| && WORD * w + WORD <= out.Length
    modifies out
    ensures Expanding(bitmap, nr, out[..], WORD * w + WORD, srcIdx, prev)
    ensures forall i :: WORD * w + WORD <= i < out.Length ==> out[i] == old(out[i])
  {
    srcIdx, prev := srcIdx0, prev0;
    if w == 0 {
      srcIdx, prev := ExpandBits(bitmap, nr, 1, 8, srcIdx, prev, out);
      srcIdx, prev := ExpandBytes(bitmap, nr, 1, 8, srcIdx, prev, out);
      return;
    }
    srcIdx, prev := ExpandLaterWord(bitmap, nr, w, WORD_BYTES, WORD * w, srcIdx, prev, out);
  }

  method ExpandLaterWord(bitmap: seq<byte>, nr: seq<nat>, w: nat, m: nat, pos: nat, srcIdx0: nat, prev0: nat, out: array<nat>)
      returns (srcIdx: nat, prev: nat)
    requires m == 8 && pos == WORD * w && Expanding(bitmap, nr, out[..], pos, srcIdx0, prev0)
    requires 8 * w + m <= |bitmap| && pos + WORD <= out.Length
    modifies out
    ensures Expanding(bitmap, nr, out[..], pos + WORD, srcIdx, prev)
    ensures forall i :: pos + WORD <= i < out.Length ==> out[i] == old(out[i])
  {
    var word := LeVal(bitmap[8 * w..8 * w + m]);
    srcIdx, prev := srcIdx0, prev0;
    if word == 0 {
      WordClear(bitmap, w, m);
      srcIdx, prev := CopyRun(bitmap, nr, pos, WORD, srcIdx, prev, out);
    } else if word == AllOnes(m) {
      WordFull(bitmap, w, m);
      FillRun(bitmap, nr, pos, WORD, srcIdx, prev, out);
    } else {
      var from := 8 * w;
      assert 8 * from == pos && 8 * (from + m) == pos + WORD;
      srcIdx, prev := ExpandBytes(bitmap, nr, from, from + m, srcIdx, prev, out);
    }
  }

  // u64::MAX for eight bytes
  function AllOnes(m: nat): nat { Mask(8 * m) }

  lemma WordClear(bitmap: seq<byte>, w: nat, m: nat)
    requires m == 8 && 8 * w + m <= |bitmap| && LeVal(bitmap[8 * w..8 * w + m]) == 0
    ensures forall i :: WORD * w <= i < WORD * w + WORD ==> !RepeatBit(bitmap, i)
  {
    forall i | WORD * w <= i < WORD * w + WORD ensures !RepeatBit(bitmap, i) {
      ClearWord(bitmap, 8 * w, m, i);
    }
  }

  lemma WordFull(bitmap: seq<byte>, w: nat, m: nat)
    requires m == 8 && 8 * w + m <= |bitmap| && LeVal(bitmap[8 * w..8 * w + m]) == AllOnes(m)
    ensures forall i :: WORD * w <= i < WORD * w + WORD ==> RepeatBit(bitmap, i)
  {
    forall i | WORD * w <= i < WORD * w + WORD ensures RepeatBit(bitmap, i) {
      ClearWord(bitmap, 8 * w, m, i);
    }
  }

  // The expander shows what the recurrence says, for any bitmap.
  method ExpandRepeats(bitmap: seq<byte>, count: nat, nr: seq<nat>, out: array<nat>)
    requires |bitmap| == BitmapLen(count) && count <= out.Length
    modifies out
    ensures out[..count] == Expand(bitmap, nr, count)
    ensures forall i :: count <= i < out.Length ==> out[i] == old(out[i])
  {
    if count == 0 {
      return;
    }
    var srcIdx, prev := 0, Shown(nr, 0);
    out[0] := prev;
    var words := count / WORD;
    for w := 0 to words
      invariant Expanding(bitmap, nr, out[..], if w == 0 then 1 else WORD * w, srcIdx, prev)
      invariant forall i :: (if w == 0 then 1 else WORD * w) <= i < out.Length ==> out[i] == old(out[i])
    {
      srcIdx, prev := ExpandWord(bitmap, nr, w, srcIdx, prev, out);
    }
    srcIdx, prev := ExpandBits(bitmap, nr, if words == 0 then 1 else WORD * words, count, srcIdx, prev, out);
  }

  // ---------- what it reads ----------

  lemma {:induction false} SourceCountsClear(bitmap: seq<byte>, i: nat)
    requires i < 8 * |bitmap|
    ensures SourceIndex(bitmap, i) == i + 1 - Ones(bitmap, i + 1) - (if RepeatBit(bitmap, 0) then 0 else 1)
  {
    if i > 0 {
      SourceCountsClear(bitmap, i - 1);
    } else {
      assert Ones(bitmap, 1) == Ones(bitmap, 0) + (if RepeatBit(bitmap, 0) then 1 else 0);
    }
  }

  // The elements shown are exactly the stored non-repeats when the first bit is clear;
  // when it is set, the last one shown lies one past them.
  lemma ReadsStoredIff(bitmap: seq<byte>, count: nat)
    requires 0 < count <= 8 * |bitmap|
    ensures SourceIndex(bitmap, count - 1) < count - Ones(bitmap, count) <==> !RepeatBit(bitmap, 0)
    ensures !RepeatBit(bitmap, 0) ==> SourceIndex(bitmap, count - 1) == count - Ones(bitmap, count) - 1
    ensures RepeatBit(bitmap, 0) ==> SourceIndex(bitmap, count - 1) == count - Ones(bitmap, count)
  {
    SourceCountsClear(bitmap, count - 1);
  }
}
