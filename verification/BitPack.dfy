/**
 Bit packing. Every packer appends `Packed(vs, w)`: the values as one little-endian
 stream of w bits each. The kernels store whole words, so a store may run past the
 bytes it owns; the bytes it spoils are the ones the next store repairs.
 */
module BitPack {
  import opened Words
  import opened Buffers

  const CHUNK_8: nat := 8
  // Spare capacity the packers ask for behind the packed bytes.
  const SLACK: nat := 16

  // bytes[p .. p+e] are the first e bytes of the number acc
  ghost predicate Holds(bytes: seq<byte>, p: nat, e: nat, acc: nat) {
    p + e <= |bytes| && bytes[p..p + e] == LeBytes(acc, e)
  }

  lemma HoldsLess(bytes: seq<byte>, p: nat, e: nat, acc: nat, e': nat)
    requires Holds(bytes, p, e, acc) && e' <= e
    ensures Holds(bytes, p, e', acc)
  {
    LeBytesPrefix(acc, e', e);
    assert bytes[p..p + e'] == bytes[p..p + e][..e'];
  }

  // x | (os[0] << s) | (os[1] << (s + w)) | ... on a word of n bits
  function OrChain(x: nat, s: nat, os: seq<nat>, w: nat, n: nat): nat
    decreases |os|
  {
    if os == [] then x
    else
      var k := |os| - 1;
      BitOr(OrChain(x, s, os[..k], w, n), ShlWord(os[k], s + Off(k, w), n))
  }

  lemma OrChainIsStream(x: nat, s: nat, os: seq<nat>, w: nat, n: nat)
    requires x < Pow2(s) && AllBelow(os, w)
    requires s <= n && (|os| > 0 ==> s + Off(|os| - 1, w) <= n)
    ensures OrChain(x, s, os, w, n) == Low(x + Shl(Stream(os, w), s), n)
  {
    ChainStarts(x, s, w, n);
    var i := 0;
    assert os[..0] == [];
    while i < |os|
      invariant i <= |os| && ChainIs(x, s, os[..i], w, n)
    {
      OffMono(i, |os| - 1, w);
      assert os[..i + 1] == os[..i] + [os[i]];
      ChainGrows(x, s, os[..i], os[i], w, n);
      i := i + 1;
    }
    assert os[..|os|] == os;
  }

  ghost predicate ChainIs(x: nat, s: nat, os: seq<nat>, w: nat, n: nat) {
    OrChain(x, s, os, w, n) == Low(ChainSum(x, s, os, w), n)
  }

  // what the chain amounts to on an unbounded word
  ghost function ChainSum(x: nat, s: nat, os: seq<nat>, w: nat): nat {
    x + Shl(Stream(os, w), s)
  }

  lemma ChainStarts(x: nat, s: nat, w: nat, n: nat)
    requires x < Pow2(s) && s <= n
    ensures ChainIs(x, s, [], w, n)
  {
    ShlZero(s);
    Pow2Mono(s, n);
    SmallWord(x, n);
  }

  lemma ChainGrows(x: nat, s: nat, pre: seq<nat>, v: nat, w: nat, n: nat)
    requires x < Pow2(s) && AllBelow(pre, w) && s + Off(|pre|, w) <= n && ChainIs(x, s, pre, w, n)
    ensures ChainIs(x, s, pre + [v], w, n)
  {
    var z, y, t := OrChain(x, s, pre, w, n), ChainSum(x, s, pre, w), s + Off(|pre|, w);
    ChainBound(x, s, pre, w);
    ChainLast(x, s, pre, v, w, n);
    ChainAppend(x, s, pre, v, w);
    OrOnTop(z, y, v, t, n);
  }

  // Or-ing above all bits of a number that fits.
  lemma OrOnTop(z: nat, y: nat, v: nat, t: nat, n: nat)
    requires z == Low(y, n) && y < Pow2(t) && t <= n
    ensures BitOr(z, ShlWord(v, t, n)) == Low(y + Shl(v, t), n)
  {
    Pow2Mono(t, n);
    SmallWord(y, n);
    OrShifted(y, v, t, n);
  }

  lemma ChainLast(x: nat, s: nat, pre: seq<nat>, v: nat, w: nat, n: nat)
    ensures OrChain(x, s, pre + [v], w, n) == BitOr(OrChain(x, s, pre, w, n), ShlWord(v, s + Off(|pre|, w), n))
  {
    assert (pre + [v])[..|pre|] == pre;
  }

  lemma ChainBound(x: nat, s: nat, os: seq<nat>, w: nat)
    requires x < Pow2(s) && AllBelow(os, w)
    ensures ChainSum(x, s, os, w) < Pow2(s + Off(|os|, w))
  {
    StreamBound(os, w);
    ShlLt(Stream(os, w), Off(|os|, w), s);
  }

  lemma ChainAppend(x: nat, s: nat, pre: seq<nat>, v: nat, w: nat)
    ensures ChainSum(x, s, pre + [v], w) == ChainSum(x, s, pre, w) + Shl(v, s + Off(|pre|, w))
  {
    StreamAppend(pre, v, w);
    ShlAdd(Stream(pre, w), Shl(v, Off(|pre|, w)), s);
    ShlShl(v, Off(|pre|, w), s);
  }

  // o0 | (o1 << w) | (o2 << 2w) | ... , the word a group of values is put together in
  function OrWord(os: seq<nat>, w: nat): nat
    requires os != []
  {
    OrChain(os[0], w, os[1..], w, 64)
  }

  lemma OrWordIsStream(os: seq<nat>, w: nat, n: nat)
    requires os != [] && AllBelow(os, w) && Off(|os|, w) <= n
    ensures OrChain(os[0], w, os[1..], w, n) == Stream(os, w)
    ensures Stream(os, w) < Pow2(Off(|os|, w))
  {
    OffAdd(|os| - 1, 1, w);
    if |os| > 1 {
      OffAdd(|os| - 2, 1, w);
    }
    OrChainIsStream(os[0], w, os[1..], w, n);
    StreamBound(os, w);
    Pow2Mono(Off(|os|, w), n);
    SmallWord(Stream(os, w), n);
  }

  // Stores the low n bytes of x at byte b of the chunk at p, turning the bytes
  // that held acc into bytes that hold next.
  method PutAt(a: array<byte>, p: nat, b: nat, x: nat, n: nat, ghost e: nat, ghost acc: nat, ghost next: nat)
    requires Holds(a[..], p, e, acc) && b <= e && p + b + n <= a.Length
    requires LeBytes(next, b) == LeBytes(acc, b)
    requires LeBytes(x, n) == LeBytes(Shr(next, 8 * b), n)
    modifies a
    ensures Holds(a[..], p, b + n, next)
    ensures a[..p] == old(a[..p])
  {
    HoldsLess(a[..], p, e, acc, b);
    LeBytesSplit(next, b, n);
    Store(a, p + b, x, n);
    assert a[p..p + b + n] == old(a[p..p + b]) + LeBytes(x, n);
    assert a[..p] == old(a[..p]);
  }

  // A value of n bytes behind the number stored so far.
  method PutBehind(a: array<byte>, p: nat, b: nat, x: nat, n: nat, ghost e: nat, ghost acc: nat)
    requires Holds(a[..], p, e, acc) && b <= e && p + b + n <= a.Length && acc < Pow2(8 * b)
    modifies a
    ensures Holds(a[..], p, b + n, acc + Shl(x, 8 * b))
    ensures a[..p] == old(a[..p])
  {
    WholeByteAppend(acc, x, b, n);
    PutAt(a, p, b, x, n, e, acc, acc + Shl(x, 8 * b));
  }

  // ---------- kernels for one chunk of eight ----------

  ghost predicate Chunk(o: seq<nat>, w: nat) {
    |o| == 8 && AllBelow(o, w)
  }

  // widths 3, 5, 6, 7, 8: all eight values in one word
  method PackOneWord(w: nat, o: seq<nat>, n: nat, a: array<byte>, p: nat)
    requires 1 <= w <= 8 && Chunk(o, w) && w <= n <= 8 && p + n <= a.Length
    modifies a
    ensures Holds(a[..], p, w, Stream(o, w)) && a[..p] == old(a[..p])
  {
    var word := OrWord(o, w);
    OffIsMul(8, w);
    OrWordIsStream(o, w, 64);
    PutAt(a, p, 0, word, n, 0, 0, word);
    HoldsLess(a[..], p, n, word, w);
  }

  // widths 1, 2, 4: each value cut to u8 and masked, 8 / w of them to a byte
  method PackSubByte(w: nat, o: seq<nat>, a: array<byte>, p: nat)
    requires w == 1 || w == 2 || w == 4
    requires Chunk(o, w) && p + w <= a.Length
    modifies a
    ensures Holds(a[..], p, w, Stream(o, w)) && a[..p] == old(a[..p])
  {
    assert o[..8] == o;
    if w == 1 {
      PutByteGroup(w, o, 0, 8, 0, a, p);
    } else if w == 2 {
      PutByteGroup(w, o, 0, 4, 0, a, p);
      PutByteGroup(w, o, 4, 8, 1, a, p);
    } else {
      PutByteGroup(w, o, 0, 2, 0, a, p);
      PutByteGroup(w, o, 2, 4, 1, a, p);
      PutByteGroup(w, o, 4, 6, 2, a, p);
      PutByteGroup(w, o, 6, 8, 3, a, p);
    }
  }

  // byte j of the chunk, made of o[k..l]
  method PutByteGroup(w: nat, o: seq<nat>, k: nat, l: nat, j: nat, a: array<byte>, p: nat)
    requires 1 <= w <= 8 && Chunk(o, w) && k < l <= 8 && k * w == 8 * j && (l - k) * w == 8
    requires Holds(a[..], p, j, Stream(o[..k], w)) && p + j < a.Length
    modifies a
    ensures Holds(a[..], p, j + 1, Stream(o[..l], w)) && a[..p] == old(a[..p])
  {
    var masked := ByteMasked(o[k..l], w);
    SubByteMask(o[k..l], w);
    var b := OrWord(masked, w);
    SubByteStep(o, w, k, l, j);
    PutAt(a, p, j, b, 1, j, Stream(o[..k], w), Stream(o[..l], w));
  }

  // (v as u8) & ((1 << w) - 1) for each value of a group
  function ByteMasked(group: seq<nat>, w: nat): (r: seq<nat>)
    ensures |r| == |group|
  {
    if group == [] then [] else [BitAnd(Low(group[0], 8), Mask(w))] + ByteMasked(group[1..], w)
  }

  lemma {:induction false} SubByteMask(group: seq<nat>, w: nat)
    requires w <= 8 && AllBelow(group, w)
    ensures ByteMasked(group, w) == group
  {
    if group != [] {
      SubByteMask(group[1..], w);
      Pow2Mono(w, 8);
      SmallWord(group[0], 8);
      SmallWord(group[0], w);
      AndMask(group[0], w);
    }
  }

  lemma SubByteStep(o: seq<nat>, w: nat, k: nat, l: nat, j: nat)
    requires 1 <= w <= 8 && Chunk(o, w) && k < l <= 8 && k * w == 8 * j && (l - k) * w == 8
    ensures LeBytes(Stream(o[..l], w), j) == LeBytes(Stream(o[..k], w), j)
    ensures LeBytes(OrWord(o[k..l], w), 1) == LeBytes(Shr(Stream(o[..l], w), 8 * j), 1)
  {
    GroupAppended(o, w, k, l, j);
    WholeByteAppend(Stream(o[..k], w), OrWord(o[k..l], w), j, 1);
  }

  lemma GroupAppended(o: seq<nat>, w: nat, k: nat, l: nat, j: nat)
    requires 1 <= w <= 8 && Chunk(o, w) && k < l <= 8 && k * w == 8 * j && (l - k) * w == 8
    ensures Stream(o[..k], w) < Pow2(8 * j)
    ensures Stream(o[..l], w) == Stream(o[..k], w) + Shl(OrWord(o[k..l], w), 8 * j)
  {
    OffIsMul(k, w);
    OffIsMul(l - k, w);
    OrWordIsStream(o[k..l], w, 64);
    StreamSplit(o[..l], k, w);
    assert o[..l][..k] == o[..k];
    assert o[..l][k..] == o[k..l];
    StreamBound(o[..k], w);
  }

  // A value appended at a byte boundary.
  lemma WholeByteAppend(acc: nat, v: nat, b: nat, n: nat)
    requires acc < Pow2(8 * b)
    ensures LeBytes(acc + Shl(v, 8 * b), b) == LeBytes(acc, b)
    ensures LeBytes(v, n) == LeBytes(Shr(acc + Shl(v, 8 * b), 8 * b), n)
  {
    LeBytesLow(acc, v, b);
    Split(acc, v, 8 * b);
    SmallWord(acc, 8 * b);
  }

  // A word at byte b and what goes over 64 bits behind it.
  method PutWide(a: array<byte>, p: nat, b: nat, low: nat, high: nat, n: nat, m: nat,
                 ghost e: nat, ghost acc: nat, ghost next: nat)
    requires Holds(a[..], p, e, acc) && b <= e && p + b + n + m <= a.Length
    requires LeBytes(next, b) == LeBytes(acc, b)
    requires LeBytes(low, n) == LeBytes(Shr(next, 8 * b), n)
    requires LeBytes(high, m) == LeBytes(Shr(next, 8 * (b + n)), m)
    modifies a
    ensures Holds(a[..], p, b + n + m, next)
    ensures a[..p] == old(a[..p])
  {
    PutAt(a, p, b, low, n, e, acc, next);
    PutAt(a, p, b + n, high, m, b + n, next, next);
  }

  // widths 9, 11, 13, 15: two half words, spliced into one word and its overflow
  method PackLowHigh(w: nat, o: seq<nat>, m: nat, a: array<byte>, p: nat)
    requires 9 <= w <= 15 && Chunk(o, w) && w <= 8 + m && p + 8 + m <= a.Length
    modifies a
    ensures Holds(a[..], p, w, Stream(o, w)) && a[..p] == old(a[..p])
  {
    var w0 := OrWord(o[..4], w);
    var w1 := OrWord(o[4..], w);
    var low := BitOr(w0, ShlWord(w1, 4 * w, 64));
    var high := Shr(w1, 64 - 4 * w);
    ghost var s := Stream(o, w);
    HalfWords(o, w);
    PutSpliced(a, p, low, high, m, w0, w1, 4 * w, 8, s);
    HoldsLess(a[..], p, 8 + m, s, w);
  }

  // a number of two parts that meet at bit k, as a word and its overflow
  method PutSpliced(a: array<byte>, p: nat, low: nat, high: nat, m: nat,
                    ghost x: nat, ghost y: nat, ghost k: nat, n: nat, ghost s: nat)
    requires x < Pow2(k) && k <= 8 * n && s == x + Shl(y, k) && p + n + m <= a.Length
    requires low == BitOr(x, ShlWord(y, k, 8 * n)) && high == Shr(y, 8 * n - k)
    modifies a
    ensures Holds(a[..], p, n + m, s) && a[..p] == old(a[..p])
  {
    SpliceAtStart(x, y, k, n, s);
    PutWide(a, p, 0, low, high, n, m, 0, 0, s);
  }

  lemma HalfWords(o: seq<nat>, w: nat)
    requires 1 <= w <= 16 && Chunk(o, w)
    ensures Stream(o, w) == OrWord(o[..4], w) + Shl(OrWord(o[4..], w), 4 * w)
    ensures OrWord(o[..4], w) < Pow2(4 * w)
  {
    OffIsMul(4, w);
    OrWordIsStream(o[..4], w, 64);
    OrWordIsStream(o[4..], w, 64);
    StreamSplit(o, 4, w);
  }

  // x | (y << k) and y >> (8n - k) are the two parts of x + (y << k), cut at n bytes.
  lemma Splice(x: nat, y: nat, k: nat, n: nat)
    requires x < Pow2(k) && k <= 8 * n
    ensures LeBytes(BitOr(x, ShlWord(y, k, 8 * n)), n) == LeBytes(x + Shl(y, k), n)
    ensures Shr(y, 8 * n - k) == Shr(x + Shl(y, k), 8 * n)
  {
    OrShifted(x, y, k, 8 * n);
    LeBytesOfLow(x + Shl(y, k), n, 8 * n);
    Split(x, y, k);
    SmallWord(x, k);
    ShrShr(x + Shl(y, k), k, 8 * n - k);
  }

  lemma SpliceAtStart(x: nat, y: nat, k: nat, n: nat, s: nat)
    requires x < Pow2(k) && k <= 8 * n && s == x + Shl(y, k)
    ensures LeBytes(s, 0) == LeBytes(0, 0)
    ensures LeBytes(BitOr(x, ShlWord(y, k, 8 * n)), n) == LeBytes(Shr(s, 8 * 0), n)
    ensures Shr(y, 8 * n - k) == Shr(s, 8 * (0 + n))
  {
    Splice(x, y, k, n);
  }

  // widths 10, 12, 14, 16: two half words of 4w bits, w/2 bytes apart
  method PackOverlap(w: nat, o: seq<nat>, a: array<byte>, p: nat)
    requires 10 <= w <= 16 && w % 2 == 0 && Chunk(o, w) && p + w / 2 + 8 <= a.Length
    modifies a
    ensures Holds(a[..], p, w, Stream(o, w)) && a[..p] == old(a[..p])
  {
    var w0 := OrWord(o[..4], w);
    var w1 := OrWord(o[4..], w);
    HalfWords(o, w);
    PutBehind(a, p, 0, w0, 8, 0, 0);
    assert 4 * w == 8 * (w / 2);
    PutBehind(a, p, w / 2, w1, 8, 8, w0);
    HoldsLess(a[..], p, w / 2 + 8, Stream(o, w), w);
  }

  // widths 20, 28, 32: pairs of 2w bits at whole bytes, q bytes apart
  method PackPairs(w: nat, q: nat, o: seq<nat>, a: array<byte>, p: nat)
    requires w == 4 * q && 1 <= w <= 32 && Chunk(o, w) && p + w + 8 <= a.Length
    modifies a
    ensures Holds(a[..], p, w, Stream(o, w)) && a[..p] == old(a[..p])
  {
    StreamAll(o, w);
    PairOffs(w, q);
    PutTwoPairs(w, q, o, 0, 0, 0, a, p);
    PutTwoPairs(w, q, o, 4, 2 * q, q + 8, a, p);
    HoldsLess(a[..], p, 3 * q + 8, Stream(o, w), w);
  }

  method PutTwoPairs(w: nat, q: nat, o: seq<nat>, i: nat, b: nat, ghost e: nat, a: array<byte>, p: nat)
    requires 1 <= w <= 32 && Chunk(o, w) && i + 3 < 8 && Off(i, w) == 8 * b && Off(i + 2, w) == 8 * (b + q)
    requires Holds(a[..], p, e, Stream(o[..i], w)) && b <= e && q <= 8 && p + b + q + 8 <= a.Length
    modifies a
    ensures Holds(a[..], p, b + q + 8, Stream(o[..i + 4], w)) && a[..p] == old(a[..p])
  {
    PutPair(w, o, i, b, e, a, p);
    PutPair(w, o, i + 2, b + q, b + 8, a, p);
  }

  lemma PairOffs(w: nat, q: nat)
    requires w == 4 * q
    ensures Off(0, w) == 0 && Off(2, w) == 8 * q && Off(4, w) == 8 * (2 * q) && Off(6, w) == 8 * (3 * q)
  {
    OffTwo(0, w);
    OffTwo(2, w);
    OffTwo(4, w);
  }

  // the pair of values i and i + 1, at byte b
  method PutPair(w: nat, o: seq<nat>, i: nat, b: nat, ghost e: nat, a: array<byte>, p: nat)
    requires 1 <= w <= 32 && Chunk(o, w) && i + 1 < 8 && Off(i, w) == 8 * b
    requires Holds(a[..], p, e, Stream(o[..i], w)) && b <= e && p + b + 8 <= a.Length
    modifies a
    ensures Holds(a[..], p, b + 8, Stream(o[..i + 2], w)) && a[..p] == old(a[..p])
  {
    var pair := BitOr(o[i], ShlWord(o[i + 1], w, 64));
    PairAppended(w, o, i);
    ghost var acc := Stream(o[..i], w);
    StreamBound(o[..i], w);
    PutBehind(a, p, b, pair, 8, e, acc);
  }

  lemma PairAppended(w: nat, o: seq<nat>, i: nat)
    requires 1 <= w <= 32 && AllBelow(o, w) && i + 1 < |o|
    ensures var pair := BitOr(o[i], ShlWord(o[i + 1], w, 64));
      && pair < Pow2(2 * w)
      && Stream(o[..i + 2], w) == Stream(o[..i], w) + Shl(pair, Off(i, w))
  {
    PairJoined(o[i], o[i + 1], w, 64);
    TwoAppended(o, i, w);
  }

  lemma PairJoined(v0: nat, v1: nat, w: nat, n: nat)
    requires v0 < Pow2(w) && v1 < Pow2(w) && 2 * w <= n
    ensures BitOr(v0, ShlWord(v1, w, n)) == v0 + Shl(v1, w) < Pow2(2 * w)
  {
    ShlWordFits(v1, w, w, n);
    OrDisjoint(v0, v1, w);
    ShlLt(v1, w, w);
  }

  lemma TwoAppended(o: seq<nat>, i: nat, w: nat)
    requires i + 1 < |o|
    ensures Stream(o[..i + 2], w) == Stream(o[..i], w) + Shl(o[i] + Shl(o[i + 1], w), Off(i, w))
  {
    StreamNext(o, i, w);
    StreamNext(o, i + 1, w);
    ShlAdd(o[i], Shl(o[i + 1], w), Off(i, w));
    ShlShl(o[i + 1], w, Off(i, w));
  }

  // width 24: three words, values 2 and 5 split between two of them
  method PackThreeWords(o: seq<nat>, a: array<byte>, p: nat)
    requires Chunk(o, 24) && p + 24 <= a.Length
    modifies a
    ensures Holds(a[..], p, 24, Stream(o, 24)) && a[..p] == old(a[..p])
  {
    var w0 := OrChain(o[0], 24, o[1..3], 24, 64);
    var w1 := OrChain(Shr(o[2], 16), 8, o[3..6], 24, 64);
    var w2 := OrChain(Shr(o[5], 8), 16, o[6..8], 24, 64);
    FirstWord24(o);
    SecondWord24(o);
    ThirdWord24(o);
    ghost var s := Stream(o, 24);
    PutAt(a, p, 0, w0, 8, 0, 0, s);
    PutAt(a, p, 8, w1, 8, 8, s, s);
    PutAt(a, p, 16, w2, 8, 16, s, s);
  }

  lemma FirstWord24(o: seq<nat>)
    requires Chunk(o, 24)
    ensures LeBytes(OrChain(o[0], 24, o[1..3], 24, 64), 8) == LeBytes(Stream(o, 24), 8)
  {
    OffIsMul(1, 24);
    OffIsMul(2, 24);
    WordAt(o, 0, 3, 24, 0, 8);
  }

  lemma SecondWord24(o: seq<nat>)
    requires Chunk(o, 24)
    ensures LeBytes(OrChain(Shr(o[2], 16), 8, o[3..6], 24, 64), 8) == LeBytes(Shr(Stream(o, 24), 64), 8)
  {
    OffIsMul(2, 24);
    OffIsMul(3, 24);
    WordAt(o, 2, 6, 24, 16, 8);
  }

  lemma ThirdWord24(o: seq<nat>)
    requires Chunk(o, 24)
    ensures LeBytes(OrChain(Shr(o[5], 8), 16, o[6..8], 24, 64), 8) == LeBytes(Shr(Stream(o, 24), 128), 8)
  {
    OffIsMul(1, 24);
    OffIsMul(2, 24);
    OffIsMul(5, 24);
    WordAt(o, 5, 8, 24, 8, 8);
  }

  // The word of n bytes at bit j of value k: what is left of that value, then o[k+1..l].
  lemma WordAt(o: seq<nat>, k: nat, l: nat, w: nat, j: nat, n: nat)
    requires AllBelow(o, w) && j <= w && k + 1 < l <= |o|
    requires w - j + Off(l - k - 2, w) <= 8 * n <= w - j + Off(l - k - 1, w)
    ensures LeBytes(OrChain(Shr(o[k], j), w - j, o[k + 1..l], w, 8 * n), n)
         == LeBytes(Shr(Stream(o, w), Off(k, w) + j), n)
  {
    ShrLt(o[k], w - j, j);
    CutWord(Shr(o[k], j), w - j, o[k + 1..l], w, o[l..], n);
    assert o[k + 1..] == o[k + 1..l] + o[l..];
    TailAt(o, k, w, j);
  }

  // A word that ends inside the last of its values.
  lemma CutWord(x: nat, s: nat, os: seq<nat>, w: nat, rest: seq<nat>, n: nat)
    requires x < Pow2(s) && AllBelow(os, w) && os != []
    requires s + Off(|os| - 1, w) <= 8 * n <= s + Off(|os|, w)
    ensures LeBytes(OrChain(x, s, os, w, 8 * n), n) == LeBytes(x + Shl(Stream(os + rest, w), s), n)
  {
    var y, r := x + Shl(Stream(os, w), s), Stream(rest, w);
    var d := s + Off(|os|, w) - 8 * n;
    assert LeBytes(OrChain(x, s, os, w, 8 * n), n) == LeBytes(y, n) by {
      OrChainIsStream(x, s, os, w, 8 * n);
      LeBytesOfLow(y, n, 8 * n);
    }
    assert x + Shl(Stream(os + rest, w), s) == y + Shl(Shl(r, d), 8 * n) by {
      StreamConcat(os, rest, w);
      ShlAdd(Stream(os, w), Shl(r, Off(|os|, w)), s);
      ShlShl(r, Off(|os|, w), s);
      ShlShl(r, d, 8 * n);
    }
    LeBytesLow(y, Shl(r, d), n);
  }

  // The stream from bit j of value k on.
  lemma TailAt(o: seq<nat>, k: nat, w: nat, j: nat)
    requires AllBelow(o, w) && k < |o| && j <= w
    ensures Shr(Stream(o, w), Off(k, w) + j) == Shr(o[k], j) + Shl(Stream(o[k + 1..], w), w - j)
  {
    StreamSplit(o, k, w);
    StreamBound(o[..k], w);
    Split(Stream(o[..k], w), Stream(o[k..], w), Off(k, w));
    SmallWord(Stream(o[..k], w), Off(k, w));
    ShrShr(Stream(o, w), Off(k, w), j);
    assert o[k..][1..] == o[k + 1..];
    ShrSum(o[k], Stream(o[k + 1..], w), j, w);
  }

  // The value stored at bit offset t = 8b + s of the chunk, or-ed into the byte
  // that the value before it ended in.
  method WriteShifted(a: array<byte>, p: nat, v: nat, vw: nat, t: nat, ghost e: nat, ghost acc: nat)
    requires v < Pow2(vw) && vw <= 64 && acc < Pow2(t)
    requires t / 8 <= e && (t % 8 != 0 ==> t / 8 < e)
    requires Holds(a[..], p, e, acc) && p + t / 8 + 9 <= a.Length
    modifies a
    ensures Holds(a[..], p, t / 8 + (if vw + t % 8 > 64 then 9 else 8), acc + Shl(v, t))
    ensures a[..p] == old(a[..p])
  {
    var byteIdx := t / 8;
    var shift := t % 8;
    if shift == 0 {
      PutBehind(a, p, byteIdx, v, 8, e, acc);
    } else {
      WriteOverhang(a, p, v, byteIdx, shift, vw + shift > 64, e, acc);
    }
  }

  method WriteOverhang(a: array<byte>, p: nat, v: nat, b: nat, shift: nat, wide: bool, ghost e: nat, ghost acc: nat)
    requires shift < 8 && acc < Pow2(8 * b + shift) && b < e
    requires Holds(a[..], p, e, acc) && p + b + 9 <= a.Length
    modifies a
    ensures Holds(a[..], p, b + (if wide then 9 else 8), acc + Shl(v, 8 * b + shift))
    ensures a[..p] == old(a[..p])
  {
    PutShifted(a, p, v, b, shift, 8, e, acc);
    if wide {
      PutSpill(a, p, v, b, shift, 8, acc);
    }
  }

  // The shifted value or-ed with the byte it shares, as a word of n bytes.
  method PutShifted(a: array<byte>, p: nat, v: nat, b: nat, shift: nat, n: nat, ghost e: nat, ghost acc: nat)
    requires shift < 8 && acc < Pow2(8 * b + shift) && b < e && n > 0
    requires Holds(a[..], p, e, acc) && p + b + n <= a.Length
    modifies a
    ensures Holds(a[..], p, b + n, acc + Shl(v, 8 * b + shift))
    ensures a[..p] == old(a[..p])
  {
    var existing := a[p + b];
    var combined := BitOr(ShlWord(v, shift, 8 * n), existing);
    Overhang(a[..], p, e, acc, b, shift);
    ShiftedWord(acc, v, b, shift, n);
    PutAt(a, p, b, combined, n, e, acc, acc + Shl(v, 8 * b + shift));
  }

  // The bits that did not fit the word.
  method PutSpill(a: array<byte>, p: nat, v: nat, b: nat, shift: nat, n: nat, ghost acc: nat)
    requires shift < 8 && acc < Pow2(8 * b + shift) && n > 0
    requires Holds(a[..], p, b + n, acc + Shl(v, 8 * b + shift)) && p + b + n + 1 <= a.Length
    modifies a
    ensures Holds(a[..], p, b + n + 1, acc + Shl(v, 8 * b + shift))
    ensures a[..p] == old(a[..p])
  {
    ghost var next := acc + Shl(v, 8 * b + shift);
    ShiftedWord(acc, v, b, shift, n);
    PutAt(a, p, b + n, Shr(v, 8 * n - shift), 1, b + n, next, next);
  }

  lemma ShiftedWord(acc: nat, v: nat, b: nat, s: nat, n: nat)
    requires acc < Pow2(8 * b + s) && s <= 8 * n
    ensures var next := acc + Shl(v, 8 * b + s);
      && LeBytes(next, b) == LeBytes(acc, b)
      && LeBytes(BitOr(ShlWord(v, s, 8 * n), Shr(acc, 8 * b)), n) == LeBytes(Shr(next, 8 * b), n)
      && Shr(v, 8 * n - s) == Shr(next, 8 * (b + n))
  {
    var next := acc + Shl(v, 8 * b + s);
    AppendBits(acc, v, b, s, 0);
    assert LeBytes(next, b) == LeBytes(acc, b);
    OrComm(ShlWord(v, s, 8 * n), Shr(acc, 8 * b));
    Splice(Shr(acc, 8 * b), v, s, n);
    ShrShr(next, 8 * b, 8 * n);
  }

  // The byte a value ended in holds its last bits and zeros above them.
  lemma Overhang(bytes: seq<byte>, p: nat, e: nat, acc: nat, b: nat, s: nat)
    requires Holds(bytes, p, e, acc) && b < e && s <= 8 && acc < Pow2(8 * b + s)
    ensures bytes[p + b] == Shr(acc, 8 * b) < Pow2(s)
  {
    assert bytes[p + b] == bytes[p..p + e][b];
    LeBytesPrefix(acc, b, e);
    ShrLt(acc, s, 8 * b);
    Pow2Mono(s, 8);
    Pow2Of16();
  }

  // The bytes WriteShifted leaves behind cover the value's last bit.
  lemma EndsBefore(t: nat, vw: nat)
    requires vw <= 64
    ensures t + vw <= 8 * (t / 8 + (if vw + t % 8 > 64 then 9 else 8))
  {
  }

  // widths 17 to 31: four pairs of 2w bits
  method Pack17To32(w: nat, o: seq<nat>, a: array<byte>, p: nat)
    requires 17 <= w <= 31 && Chunk(o, w) && p + w + 8 <= a.Length
    modifies a
    ensures Holds(a[..], p, w, Stream(o, w)) && a[..p] == old(a[..p])
  {
    StreamAll(o, w);
    OffIsMul(6, w);
    OffIsMul(8, w);
    ghost var e: nat := 0;
    var i, t := 0, 0;
    while i < 8
      invariant 0 <= i <= 8 && i % 2 == 0 && t == Off(i, w) <= 8 * e
      invariant Holds(a[..], p, e, Stream(o[..i], w))
      invariant a[..p] == old(a[..p])
    {
      e := WritePair(w, o, i, t, e, a, p);
      i, t := i + 2, t + 2 * w;
    }
    HoldsLess(a[..], p, e, Stream(o, w), w);
  }

  method WritePair(w: nat, o: seq<nat>, i: nat, t: nat, ghost e: nat, a: array<byte>, p: nat) returns (ghost e': nat)
    requires 17 <= w <= 31 && Chunk(o, w) && p + w + 8 <= a.Length && i <= 6 && t == Off(i, w) <= 8 * e
    requires Off(6, w) == 6 * w && Holds(a[..], p, e, Stream(o[..i], w))
    modifies a
    ensures t + 2 * w == Off(i + 2, w) <= 8 * e'
    ensures Holds(a[..], p, e', Stream(o[..i + 2], w)) && a[..p] == old(a[..p])
  {
    OffMono(i, 6, w);
    var pair := BitOr(o[i], ShlWord(o[i + 1], w, 64));
    ghost var acc, next := Stream(o[..i], w), Stream(o[..i + 2], w);
    PairBehind(w, o, i, t, pair, acc, next);
    WriteShifted(a, p, pair, 2 * w, t, e, acc);
    e' := t / 8 + (if 2 * w + t % 8 > 64 then 9 else 8);
    EndsBefore(t, 2 * w);
  }

  lemma PairBehind(w: nat, o: seq<nat>, i: nat, t: nat, pair: nat, acc: nat, next: nat)
    requires 1 <= w <= 32 && AllBelow(o, w) && i + 1 < |o| && t == Off(i, w)
    requires pair == BitOr(o[i], ShlWord(o[i + 1], w, 64))
    requires acc == Stream(o[..i], w) && next == Stream(o[..i + 2], w)
    ensures acc < Pow2(t) && pair < Pow2(2 * w) && next == acc + Shl(pair, t) && Off(i + 2, w) == t + 2 * w
  {
    OffTwo(i, w);
    PairAppended(w, o, i);
    StreamBound(o[..i], w);
  }

  // Value i of a chunk at its bit offset; fewer than nine bytes are in use behind it.
  method WriteAtBit(w: nat, o: seq<nat>, i: nat, t: nat, ghost e: nat, a: array<byte>, p: nat)
    requires 33 <= w <= 48 && Chunk(o, w) && i < 8 && t == Off(i, w) <= 8 * e && p + t / 8 + 9 <= a.Length
    requires Holds(a[..], p, e, Stream(o[..i], w))
    modifies a
    ensures Holds(a[..], p, t / 8 + 8, Stream(o[..i + 1], w)) && t + w == Off(i + 1, w)
    ensures a[..p] == old(a[..p])
  {
    StreamBound(o[..i], w);
    StreamNext(o, i, w);
    WriteShifted(a, p, o[i], w, t, e, Stream(o[..i], w));
  }

  // widths 33 to 48: one value at a time
  method Pack33To48(w: nat, o: seq<nat>, a: array<byte>, p: nat)
    requires 33 <= w <= 48 && Chunk(o, w) && p + w + 8 <= a.Length
    modifies a
    ensures Holds(a[..], p, w, Stream(o, w)) && a[..p] == old(a[..p])
  {
    StreamAll(o, w);
    OffIsMul(7, w);
    OffIsMul(8, w);
    ghost var e: nat := 0;
    var i, t := 0, 0;
    while i < 8
      invariant 0 <= i <= 8 && t == Off(i, w) <= 8 * e
      invariant Holds(a[..], p, e, Stream(o[..i], w))
      invariant a[..p] == old(a[..p])
    {
      OffMono(i, 7, w);
      WriteAtBit(w, o, i, t, e, a, p);
      e := t / 8 + 8;
      i, t := i + 1, t + w;
    }
    HoldsLess(a[..], p, e, Stream(o, w), w);
  }

  method Pack8Unrolled(w: nat, o: seq<nat>, a: array<byte>, p: nat)
    requires 1 <= w <= 16 && Chunk(o, w) && p + w + 8 <= a.Length
    modifies a
    ensures Holds(a[..], p, w, Stream(o, w)) && a[..p] == old(a[..p])
  {
    if w == 1 || w == 2 || w == 4 {
      PackSubByte(w, o, a, p);
    } else if w == 3 {
      PackOneWord(w, o, 4, a, p);
    } else if w <= 8 {
      PackOneWord(w, o, 8, a, p);
    } else if w == 9 {
      PackLowHigh(w, o, 1, a, p);
    } else if w == 11 {
      PackLowHigh(w, o, 4, a, p);
    } else if w == 13 || w == 15 {
      PackLowHigh(w, o, 8, a, p);
    } else {
      PackOverlap(w, o, a, p);
    }
  }

  // Eight values become w bytes; at most 8 bytes behind them are spoiled.
  method PackChunk8(w: nat, o: seq<nat>, a: array<byte>, p: nat)
    requires 1 <= w <= 48 && Chunk(o, w) && p + w + 8 <= a.Length
    modifies a
    ensures Holds(a[..], p, w, Stream(o, w)) && a[..p] == old(a[..p])
  {
    if w <= 16 {
      Pack8Unrolled(w, o, a, p);
    } else if w == 20 || w == 28 || w == 32 {
      PackPairs(w, w / 4, o, a, p);
    } else if w == 24 {
      PackThreeWords(o, a, p);
    } else if w <= 31 {
      Pack17To32(w, o, a, p);
    } else {
      Pack33To48(w, o, a, p);
    }
  }

  // ---------- the accumulator stream ----------

  // m bytes of the number s are written at p, acc holds its next bits
  ghost predicate Writing(bytes: seq<byte>, p: nat, m: nat, acc: nat, bits: nat, s: nat) {
    && Holds(bytes, p, m, s)
    && acc == Shr(s, 8 * m)
    && s < Pow2(8 * m + bits)
  }

  // One value into the 128-bit accumulator; a full 64-bit word goes out.
  method PushBits(acc: nat, bits: nat, v: nat, w: nat, a: array<byte>, p: nat, m: nat, ghost s: nat)
      returns (acc': nat, bits': nat, m': nat)
    requires Writing(a[..], p, m, acc, bits, s) && bits < 64 && w <= 64 && v < Pow2(w)
    requires 8 * (p + m) + bits + w <= 8 * a.Length
    modifies a
    ensures Writing(a[..], p, m', acc', bits', s + Shl(v, 8 * m + bits))
    ensures bits' < 64 && 8 * m' + bits' == 8 * m + bits + w
    ensures a[..p] == old(a[..p])
  {
    PushedWord(acc, bits, v, w, m, s);
    ghost var next := s + Shl(v, 8 * m + bits);
    acc', bits', m' := BitOr(acc, ShlWord(v, bits, 128)), bits + w, m;
    if bits' >= 64 {
      PutAt(a, p, m, acc', 8, m, s, next);
      ShrShr(next, 8 * m, 64);
      acc', bits', m' := Shr(acc', 64), bits' - 64, m + 8;
    } else {
      assert Holds(a[..], p, m, next);
    }
  }

  lemma PushedWord(acc: nat, bits: nat, v: nat, w: nat, m: nat, s: nat)
    requires acc == Shr(s, 8 * m) && s < Pow2(8 * m + bits) && v < Pow2(w) && bits + w <= 128
    ensures var next := s + Shl(v, 8 * m + bits);
      && BitOr(acc, ShlWord(v, bits, 128)) == Shr(next, 8 * m)
      && LeBytes(next, m) == LeBytes(s, m)
      && next < Pow2(8 * m + bits + w)
  {
    AppendKeeps(s, v, m, bits);
    assert BitOr(acc, ShlWord(v, bits, 128)) == acc + Shl(v, bits) by {
      ShlWordFits(v, w, bits, 128);
      OrDisjoint(acc, v, bits);
    }
    ShlLt(v, w, 8 * m + bits);
  }

  lemma AppendKeeps(acc: nat, v: nat, b: nat, s: nat)
    requires acc < Pow2(8 * b + s)
    ensures var next := acc + Shl(v, 8 * b + s);
      && LeBytes(next, b) == LeBytes(acc, b)
      && Shr(next, 8 * b) == Shr(acc, 8 * b) + Shl(v, s) && Shr(acc, 8 * b) < Pow2(s)
  {
    AppendBits(acc, v, b, s, 0);
  }

  // The last bits, byte by byte.
  method FlushBits(acc0: nat, bits0: nat, a: array<byte>, p: nat, m0: nat, ghost s: nat)
    requires Writing(a[..], p, m0, acc0, bits0, s) && p + m0 + (bits0 + 7) / 8 <= a.Length
    modifies a
    ensures Holds(a[..], p, m0 + (bits0 + 7) / 8, s)
    ensures a[..p] == old(a[..p])
  {
    var acc, bits, m := acc0, bits0, m0;
    while bits > 0
      invariant Holds(a[..], p, m, s) && acc == Shr(s, 8 * m)
      invariant m + (bits + 7) / 8 == m0 + (bits0 + 7) / 8
      invariant a[..p] == old(a[..p])
    {
      PutAt(a, p, m, acc, 1, m, s, s);
      ShrShr(s, 8 * m, 8);
      acc := Shr(acc, 8);
      bits := if bits >= 8 then bits - 8 else 0;
      m := m + 1;
    }
  }

  // The general packer: any width, values cut to it by the caller.
  method PackStream(vs: seq<nat>, w: nat, a: array<byte>, p: nat)
    requires w <= 64 && AllBelow(vs, w) && p + PackedSize(|vs|, w) <= a.Length
    modifies a
    ensures Holds(a[..], p, PackedSize(|vs|, w), Stream(vs, w))
    ensures a[..p] == old(a[..p])
  {
    StreamAll(vs, w);
    var acc, bits, m := PushAll(vs, w, a, p);
    FlushBits(acc, bits, a, p, m, Stream(vs, w));
  }

  method PushAt(vs: seq<nat>, w: nat, i: nat, acc: nat, bits: nat, m: nat, a: array<byte>, p: nat)
      returns (acc': nat, bits': nat, m': nat)
    requires w <= 64 && AllBelow(vs, w) && i < |vs| && p + PackedSize(|vs|, w) <= a.Length
    requires bits < 64 && 8 * m + bits == Off(i, w) && Writing(a[..], p, m, acc, bits, Stream(vs[..i], w))
    modifies a
    ensures bits' < 64 && 8 * m' + bits' == Off(i + 1, w) && Writing(a[..], p, m', acc', bits', Stream(vs[..i + 1], w))
    ensures a[..p] == old(a[..p])
  {
    OffMono(i + 1, |vs|, w);
    StreamNext(vs, i, w);
    acc', bits', m' := PushBits(acc, bits, vs[i], w, a, p, m, Stream(vs[..i], w));
  }

  method PushAll(vs: seq<nat>, w: nat, a: array<byte>, p: nat) returns (acc: nat, bits: nat, m: nat)
    requires w <= 64 && AllBelow(vs, w) && p + PackedSize(|vs|, w) <= a.Length
    modifies a
    ensures Writing(a[..], p, m, acc, bits, Stream(vs[..|vs|], w)) && 8 * m + bits == Off(|vs|, w)
    ensures a[..p] == old(a[..p])
  {
    acc, bits, m := 0, 0, 0;
    var i := 0;
    while i < |vs|
      invariant 0 <= i <= |vs| && bits < 64
      invariant Writing(a[..], p, m, acc, bits, Stream(vs[..i], w))
      invariant 8 * m + bits == Off(i, w)
      invariant a[..p] == old(a[..p])
    {
      acc, bits, m := PushAt(vs, w, i, acc, bits, m, a, p);
      i := i + 1;
    }
  }

  // ---------- whole inputs ----------

  // Chunks of eight through the kernels, the rest through the accumulator.
  method PackChunks(vs: seq<nat>, w: nat, a: array<byte>, p: nat)
    requires 1 <= w <= 48 && AllBelow(vs, w) && p + PackedSize(|vs|, w) + SLACK <= a.Length
    modifies a
    ensures Holds(a[..], p, PackedSize(|vs|, w), Stream(vs, w))
    ensures a[..p] == old(a[..p])
  {
    var chunks := |vs| / CHUNK_8;
    ChunksFit(|vs|, w);
    StreamAll(vs, w);
    var c := 0;
    while c < chunks
      invariant 0 <= c <= chunks
      invariant Holds(a[..], p, Off(c, w), Stream(vs[..8 * c], w))
      invariant a[..p] == old(a[..p])
    {
      OffMono(c + 1, chunks, w);
      PackChunkAt(vs, c, w, a, p);
      c := c + 1;
    }
    PackRest(vs, chunks, w, a, p);
  }

  // chunk c, at c * w bytes behind p
  method PackChunkAt(vs: seq<nat>, c: nat, w: nat, a: array<byte>, p: nat)
    requires 1 <= w <= 48 && AllBelow(vs, w) && 8 * c + 8 <= |vs|
    requires p + Off(c, w) + w + 8 <= a.Length
    requires Holds(a[..], p, Off(c, w), Stream(vs[..8 * c], w))
    modifies a
    ensures Holds(a[..], p, Off(c + 1, w), Stream(vs[..8 * (c + 1)], w))
    ensures a[..p] == old(a[..p])
  {
    OffIsMul(c, w);
    assert vs[..8 * (c + 1)] == vs[..8 * c + 8] && Off(c + 1, w) == Off(c, w) + w;
    var at := p + c * w;
    ghost var before := a[..];
    PackChunk8(w, vs[8 * c..8 * c + 8], a, at);
    ChunkJoin(vs, c, w);
    HoldsJoin(before, a[..], p, Off(c, w), w, Stream(vs[..8 * c], w),
              Stream(vs[8 * c..8 * c + 8], w), Stream(vs[..8 * c + 8], w));
  }

  // the values behind the last whole chunk
  method PackRest(vs: seq<nat>, c: nat, w: nat, a: array<byte>, p: nat)
    requires 1 <= w <= 48 && AllBelow(vs, w) && c == |vs| / 8
    requires p + PackedSize(|vs|, w) <= a.Length
    requires Holds(a[..], p, Off(c, w), Stream(vs[..8 * c], w))
    modifies a
    ensures Holds(a[..], p, PackedSize(|vs|, w), Stream(vs, w))
    ensures a[..p] == old(a[..p])
  {
    ChunksFit(|vs|, w);
    OffIsMul(c, w);
    PackBehind(vs, vs[..8 * c], vs[8 * c..], c, w, Off(c, w), PackedSize(|vs| - 8 * c, w), a, p, p + c * w);
  }

  // the stream continued behind m bytes that are written already
  method PackBehind(ghost vs: seq<nat>, ghost pre: seq<nat>, rest: seq<nat>, ghost c: nat, w: nat,
                    ghost m: nat, ghost n: nat, a: array<byte>, p: nat, at: nat)
    requires w <= 64 && |pre| == 8 * c && vs == pre + rest && AllBelow(vs, w)
    requires m == Off(c, w) && n == PackedSize(|rest|, w) && at == p + m && at + n <= a.Length
    requires Holds(a[..], p, m, Stream(pre, w))
    modifies a
    ensures Holds(a[..], p, m + n, Stream(vs, w)) && a[..p] == old(a[..p])
  {
    ghost var before := a[..];
    assert AllBelow(rest, w) by {
      RestBelow(pre, rest, w);
    }
    PackStream(rest, w, a, at);
    RestJoin(vs, pre, rest, c, w, m, n);
    HoldsJoin(before, a[..], p, m, n, Stream(pre, w), Stream(rest, w), Stream(vs, w));
  }

  lemma RestBelow(pre: seq<nat>, rest: seq<nat>, w: nat)
    requires AllBelow(pre + rest, w)
    ensures AllBelow(rest, w)
  {
    forall i | 0 <= i < |rest| ensures rest[i] < Pow2(w) {
      assert rest[i] == (pre + rest)[|pre| + i];
    }
  }

  lemma ChunksFit(n: nat, w: nat)
    ensures PackedSize(n, w) == Off(n / 8, w) + PackedSize(n - 8 * (n / 8), w)
  {
    PackedSizeConcat(n / 8, n - 8 * (n / 8), w);
  }

  lemma ChunkJoin(vs: seq<nat>, c: nat, w: nat)
    requires 8 * c + 8 <= |vs| && AllBelow(vs, w)
    ensures LeBytes(Stream(vs[..8 * c + 8], w), Off(c, w) + w)
         == LeBytes(Stream(vs[..8 * c], w), Off(c, w)) + LeBytes(Stream(vs[8 * c..8 * c + 8], w), w)
  {
    SizeOfEight(w);
    PackedJoin(vs[..8 * c + 8], vs[..8 * c], vs[8 * c..8 * c + 8], c, w, Off(c, w), w);
  }

  lemma SizeOfEight(w: nat)
    ensures PackedSize(8, w) == w
  {
    PackedSizeConcat(1, 0, w);
  }

  lemma RestJoin(vs: seq<nat>, pre: seq<nat>, rest: seq<nat>, c: nat, w: nat, m: nat, n: nat)
    requires |pre| == 8 * c && vs == pre + rest && AllBelow(vs, w) && m == Off(c, w) && n == PackedSize(|rest|, w)
    ensures LeBytes(Stream(vs, w), m + n) == LeBytes(Stream(pre, w), m) + LeBytes(Stream(rest, w), n)
  {
    forall i | 0 <= i < |pre| ensures pre[i] < Pow2(w) {
      assert pre[i] == vs[i];
    }
    PackedJoin(vs, pre, rest, c, w, m, n);
  }

  // A part stored behind another continues it when the numbers join.
  lemma HoldsJoin(before: seq<byte>, after: seq<byte>, p: nat, m: nat, n: nat, x: nat, y: nat, s: nat)
    requires Holds(before, p, m, x) && Holds(after, p + m, n, y) && |before| == |after|
    requires after[..p + m] == before[..p + m]
    requires LeBytes(s, m + n) == LeBytes(x, m) + LeBytes(y, n)
    ensures Holds(after, p, m + n, s) && after[..p] == before[..p]
  {
    assert after[p..p + m] == after[..p + m][p..] == before[..p + m][p..] == before[p..p + m];
    assert after[..p] == after[..p + m][..p] == before[..p + m][..p];
    assert after[p..p + (m + n)] == after[p..p + m] + after[p + m..p + m + n];
  }

  // A pair that starts at a whole byte, as one word and its overflow.
  lemma PairAtByte(acc: nat, v0: nat, v1: nat, w: nat, b: nat, n: nat, word: nat, next: nat)
    requires acc < Pow2(8 * b) && v0 < Pow2(w) && w <= 8 * n
    requires word == BitOr(v0, ShlWord(v1, w, 8 * n)) && next == acc + Shl(v0 + Shl(v1, w), 8 * b)
    ensures LeBytes(next, b) == LeBytes(acc, b)
    ensures LeBytes(word, n) == LeBytes(Shr(next, 8 * b), n) && Shr(v1, 8 * n - w) == Shr(next, 8 * (b + n))
  {
    var pair := v0 + Shl(v1, w);
    BehindBytes(acc, pair, b, next);
    Splice(v0, v1, w, n);
    assert Shr(pair, 8 * n) == Shr(next, 8 * (b + n)) by {
      ShrShr(next, 8 * b, 8 * n);
      assert 8 * b + 8 * n == 8 * (b + n);
    }
  }

  lemma BehindBytes(acc: nat, y: nat, b: nat, next: nat)
    requires acc < Pow2(8 * b) && next == acc + Shl(y, 8 * b)
    ensures LeBytes(next, b) == LeBytes(acc, b) && Shr(next, 8 * b) == y
  {
    LeBytesLow(acc, y, b);
    Split(acc, y, 8 * b);
    SmallWord(acc, 8 * b);
  }
}
