/**
 Repeat blocks: a bitmap of the elements that repeat the one before them, and a block
 of the others.
 */
module Repeats {
  import opened Wrappers
  import opened Words
  import opened Buffers
  import opened BitPack
  import opened Floats
  import opened Params
  import opened Header
  import opened Blocks
  import opened Decoding
  import opened Lossless

  const WORD: nat := 64
  const BYTE_BITS: nat := 8

  // ---------- what is stored ----------

  predicate Repeated(data: seq<nat>, i: nat)
    requires i < |data|
  {
    i > 0 && data[i] == data[i - 1]
  }

  function Flag(data: seq<nat>, i: nat): (r: nat)
    requires i < |data|
    ensures r < 2
  {
    if Repeated(data, i) then 1 else 0
  }

  function Flags(data: seq<nat>): (r: seq<nat>)
    ensures |r| == |data|
  {
    seq(|data|, i requires 0 <= i < |data| => Flag(data, i))
  }

  // the elements among the first n that repeat nothing
  function NonRepeats(data: seq<nat>, n: nat): (r: seq<nat>)
    requires n <= |data|
    ensures |r| <= n
  {
    if n == 0 then []
    else NonRepeats(data, n - 1) + (if Repeated(data, n - 1) then [] else [data[n - 1]])
  }

  // bit i of the bitmap is flag i
  function Bitmap(data: seq<nat>): (r: seq<byte>)
    ensures |r| == PackedSize(|data|, 1)
  {
    Packed(Flags(data), 1)
  }

  lemma BitmapHasLen(n: nat)
    ensures PackedSize(n, 1) == BitmapLen(n) && n <= 8 * BitmapLen(n)
  {
    OffIsMul(n, 1);
  }

  lemma FlagsBelow(data: seq<nat>)
    ensures AllBelow(Flags(data), 1)
  {
    assert Pow2(1) == 2;
  }

  // ---------- a bitmap's bits are the bits of its number ----------

  // Bits below and above bit k of x + (y << k).
  lemma BitBelow(x: nat, y: nat, j: nat, k: nat)
    requires j < k
    ensures Shr(x + Shl(y, k), j) % 2 == Shr(x, j) % 2
  {
    ShrSum(x, y, j, k);
    assert Shl(y, k - j) % 2 == 0;
  }

  lemma BitAbove(x: nat, y: nat, j: nat, k: nat)
    requires k <= j && x < Pow2(k)
    ensures Shr(x + Shl(y, k), j) == Shr(y, j - k)
  {
    Split(x, y, k);
    SmallWord(x, k);
    ShrShr(x + Shl(y, k), k, j - k);
  }

  lemma BitOfSum(b: byte, rest: nat, i: nat)
    ensures i < 8 ==> Shr(b + 256 * rest, i) % 2 == Shr(b, i) % 2
    ensures i >= 8 ==> Shr(b + 256 * rest, i) == Shr(rest, i - 8)
  {
    ByteShift(rest);
    Pow2Of16();
    if i < 8 {
      BitBelow(b, rest, i, 8);
    } else {
      BitAbove(b, rest, i, 8);
    }
  }

  lemma {:induction false} BitOfBytes(bytes: seq<byte>, i: nat)
    requires i < 8 * |bytes|
    ensures RepeatBit(bytes, i) <==> Shr(LeVal(bytes), i) % 2 == 1
  {
    BitOfSum(bytes[0], LeVal(bytes[1..]), i);
    if i >= 8 {
      BitOfBytes(bytes[1..], i - 8);
      assert bytes[1..][(i - 8) / 8] == bytes[i / 8];
    }
  }

  lemma BitIsFlag(data: seq<nat>, i: nat)
    requires i < |data|
    ensures i < 8 * |Bitmap(data)|
    ensures RepeatBit(Bitmap(data), i) <==> Repeated(data, i)
  {
    BitmapHasLen(|data|);
    FlagsBelow(data);
    UnpackPacked(Flags(data), 1);
    OffIsMul(i, 1);
    BitOfBytes(Bitmap(data), i);
    OneBit(LeVal(Bitmap(data)), i, 1);
    assert Unpack(Bitmap(data), |data|, 1)[i] == Flag(data, i);
  }

  lemma OneBit(n: nat, i: nat, w: nat)
    requires w == 1
    ensures Field(n, i, w) == Shr(n, i) % 2
  {
    OffIsMul(i, w);
    assert i * w == i;
    LowBit(Shr(n, i), w);
  }

  lemma LowBit(x: nat, w: nat)
    requires w == 1
    ensures Low(x, w) == x % 2
  {
    assert Low(x / 2, w - 1) == 0;
  }

  // ---------- expansion undoes the split ----------

  lemma {:induction false} OnesAreRepeats(data: seq<nat>, n: nat)
    requires n <= |data|
    ensures n <= 8 * |Bitmap(data)|
    ensures n - Ones(Bitmap(data), n) == |NonRepeats(data, n)|
    decreases n
  {
    BitmapHasLen(|data|);
    if n > 0 {
      OnesAreRepeats(data, n - 1);
      BitIsFlag(data, n - 1);
    }
  }

  // The last non-repeat among the first i + 1 elements is element i itself.
  lemma {:induction false} SourceShows(data: seq<nat>, bits: seq<byte>, i: nat)
    requires i < |data| && Marks(data, bits)
    ensures var nr := NonRepeats(data, i + 1);
      SourceIndex(bits, i) == |nr| - 1 && nr[|nr| - 1] == data[i]
  {
    assert RepeatBit(bits, i) <==> Repeated(data, i);
    if i > 0 {
      SourceShows(data, bits, i - 1);
      if Repeated(data, i) {
        assert NonRepeats(data, i + 1) == NonRepeats(data, i);
      } else {
        assert NonRepeats(data, i + 1) == NonRepeats(data, i) + [data[i]];
      }
    }
  }

  ghost predicate Marks(data: seq<nat>, bits: seq<byte>) {
    && |data| <= 8 * |bits|
    && forall i :: 0 <= i < |data| ==> (RepeatBit(bits, i) <==> Repeated(data, i))
  }

  lemma BitmapMarks(data: seq<nat>)
    ensures Marks(data, Bitmap(data))
  {
    BitmapHasLen(|data|);
    forall i | 0 <= i < |data| ensures RepeatBit(Bitmap(data), i) <==> Repeated(data, i) {
      BitIsFlag(data, i);
    }
  }

  lemma {:induction false} NonRepeatsPrefix(data: seq<nat>, m: nat, n: nat)
    requires m <= n <= |data|
    ensures NonRepeats(data, m) <= NonRepeats(data, n)
  {
    if m < n {
      NonRepeatsPrefix(data, m, n - 1);
    }
  }

  lemma ExpandRestores(data: seq<nat>)
    ensures |data| <= 8 * |Bitmap(data)|
    ensures Expand(Bitmap(data), NonRepeats(data, |data|), |data|) == data
  {
    BitmapMarks(data);
    MarksRestore(data, Bitmap(data));
  }

  lemma MarksRestore(data: seq<nat>, bits: seq<byte>)
    requires Marks(data, bits)
    ensures Expand(bits, NonRepeats(data, |data|), |data|) == data
  {
    forall i | 0 <= i < |data| ensures Shown(NonRepeats(data, |data|), SourceIndex(bits, i)) == data[i] {
      ElementShown(data, bits, i);
    }
  }

  lemma ElementShown(data: seq<nat>, bits: seq<byte>, i: nat)
    requires i < |data| && Marks(data, bits)
    ensures Shown(NonRepeats(data, |data|), SourceIndex(bits, i)) == data[i]
  {
    var pre, nr, at := NonRepeats(data, i + 1), NonRepeats(data, |data|), SourceIndex(bits, i);
    SourceShows(data, bits, i);
    NonRepeatsPrefix(data, i + 1, |data|);
    assert pre <= nr && at == |pre| - 1;
    ShownInPrefix(pre, nr, at);
  }

  lemma ShownInPrefix(pre: seq<nat>, nr: seq<nat>, at: nat)
    requires pre <= nr && at < |pre|
    ensures Shown(nr, at) == pre[at]
  {
  }

  // ---------- filling the buffers ----------

  // Splits the data into its bitmap and its non-repeats, a word of bits at a time.
  method FillRepeatBuffers(data: seq<nat>) returns (bitmap: array<byte>, nonRepeats: seq<nat>)
    requires data != []
    ensures fresh(bitmap) && bitmap[..] == Bitmap(data)
    ensures nonRepeats == NonRepeats(data, |data|)
  {
    BitmapHasLen(|data|);
    bitmap := new byte[BitmapLen(|data|)](_ => 0);
    nonRepeats := [data[0]];
    assert NonRepeats(data, 1) == NonRepeats(data, 0) + [data[0]];
    var n := |data| / WORD;
    var more := FillWords(data, n, bitmap);
    var start := if n == 0 then 1 else WORD * n;
    var rest := FillRest(data, start, bitmap);
    NonRepeatsJoin(data, start, |data|);
    nonRepeats := nonRepeats + more + rest;
    NonRepeatsJoin(data, 1, start);
  }

  // The first w words of the bitmap are written, the rest is still zero.
  ghost predicate Filled(data: seq<nat>, bitmap: seq<byte>, w: nat)
    requires WORD * w <= |data|
  {
    && Holds(bitmap, 0, 8 * w, Stream(Flags(data)[..WORD * w], 1))
    && forall j :: 8 * w <= j < |bitmap| ==> bitmap[j] == 0
  }

  // element 0 is no repeat and needs no look
  function WordStart(w: nat): nat { if w == 0 then 1 else WORD * w }

  method FillOneWord(data: seq<nat>, w: nat, bitmap: array<byte>) returns (next: seq<nat>)
    requires WORD * w + WORD <= |data| && 8 * w + 8 <= bitmap.Length && Filled(data, bitmap[..], w)
    modifies bitmap
    ensures Filled(data, bitmap[..], w + 1)
    ensures next == Between(data, WordStart(w), WORD * w + WORD)
  {
    var word;
    FlagsBelow(data);
    word, next := FillWord(data, WORD * w);
    StoreWord(bitmap, Flags(data), w, word);
  }

  lemma NextBetween(data: seq<nat>, w: nat)
    requires WORD * w + WORD <= |data|
    ensures Between(data, 1, WordStart(w + 1))
         == Between(data, 1, WordStart(w)) + Between(data, WordStart(w), WORD * w + WORD)
  {
    BetweenJoin(data, 1, WordStart(w), WORD * w + WORD);
  }

  method FillWords(data: seq<nat>, n: nat, bitmap: array<byte>) returns (more: seq<nat>)
    requires data != [] && n == |data| / WORD && bitmap.Length == PackedSize(|data|, 1)
    requires forall j :: 0 <= j < bitmap.Length ==> bitmap[j] == 0
    modifies bitmap
    ensures bitmap[..] == LeBytes(Stream(Flags(data)[..WordStart(n)], 1), bitmap.Length)
    ensures more == Between(data, 1, WordStart(n))
  {
    BitmapHasLen(|data|);
    StreamAll(Flags(data), 1);
    FlagsBelow(data);
    more := [];
    var w := 0;
    while w < n
      invariant 0 <= w <= n && more == Between(data, 1, WordStart(w))
      invariant Filled(data, bitmap[..], w)
    {
      var next := FillOneWord(data, w, bitmap);
      NextBetween(data, w);
      more := more + next;
      w := w + 1;
    }
    FilledIs(data, bitmap[..], n);
  }

  lemma FilledIs(data: seq<nat>, bitmap: seq<byte>, n: nat)
    requires data != [] && WORD * n <= |data| && Filled(data, bitmap, n)
    ensures bitmap == LeBytes(Stream(Flags(data)[..WordStart(n)], 1), |bitmap|)
  {
    FlagsBounded(data, WORD * n);
    ZeroTail(bitmap, 8 * n, Stream(Flags(data)[..WORD * n], 1));
    FirstBit(data);
  }

  lemma {:induction false} BetweenJoin(data: seq<nat>, l: nat, m: nat, n: nat)
    requires l <= m <= n <= |data|
    ensures Between(data, l, n) == Between(data, l, m) + Between(data, m, n)
  {
    if m < n {
      BetweenJoin(data, l, m, n - 1);
    }
  }

  // the non-repeats among elements m to n
  function Between(data: seq<nat>, m: nat, n: nat): (r: seq<nat>)
    requires m <= n <= |data|
    decreases n
  {
    if m == n then []
    else Between(data, m, n - 1) + (if Repeated(data, n - 1) then [] else [data[n - 1]])
  }

  lemma {:induction false} NonRepeatsJoin(data: seq<nat>, m: nat, n: nat)
    requires m <= n <= |data|
    ensures NonRepeats(data, n) == NonRepeats(data, m) + Between(data, m, n)
  {
    if m < n {
      NonRepeatsJoin(data, m, n - 1);
    }
  }

  // Sixty-four flags put together in a word.
  method FillWord(data: seq<nat>, base: nat) returns (word: nat, more: seq<nat>)
    requires base + WORD <= |data|
    ensures word == Stream(Flags(data)[base..base + WORD], 1)
    ensures more == Between(data, if base == 0 then 1 else base, base + WORD)
  {
    var flags := Flags(data)[base..base + WORD];
    word, more := 0, [];
    var j := if base == 0 then 1 else 0;
    FirstFlag(data, base, flags);
    var prev := if base == 0 then data[0] else data[base - 1];
    while j < WORD
      invariant (if base == 0 then 1 else 0) <= j <= WORD
      invariant prev == data[if base + j == 0 then 0 else base + j - 1]
      invariant word == Stream(flags[..j], 1) && word < Pow2(j)
      invariant more == Between(data, if base == 0 then 1 else base, base + j)
    {
      FlagIntoWord(flags, j, word);
      if data[base + j] == prev {
        word := BitOr(word, ShlWord(1, j, WORD));
      } else {
        more := more + [data[base + j]];
        prev := data[base + j];
      }
      j := j + 1;
    }
    assert flags[..WORD] == flags;
  }

  lemma FirstFlag(data: seq<nat>, base: nat, flags: seq<nat>)
    requires base + WORD <= |data| && flags == Flags(data)[base..base + WORD]
    ensures Stream(flags[..0], 1) == 0 && Pow2(0) == 1
    ensures base == 0 ==> Stream(flags[..1], 1) == 0
  {
    if base == 0 {
      StreamNext(flags, 0, 1);
      ShlZero(Off(0, 1));
      assert flags[0] == Flag(data, 0) == 0;
    }
  }

  lemma FlagIntoWord(flags: seq<nat>, j: nat, word: nat)
    requires j < |flags| && j < WORD && flags[j] < 2 && word == Stream(flags[..j], 1) && word < Pow2(j)
    ensures word < Pow2(j + 1)
    ensures Stream(flags[..j + 1], 1) == (if flags[j] == 1 then BitOr(word, ShlWord(1, j, WORD)) else word)
    ensures Stream(flags[..j + 1], 1) < Pow2(j + 1)
  {
    StreamNext(flags, j, 1);
    OffIsMul(j, 1);
    ShlZero(j);
    OrBit(word, j, WORD);
  }

  // A bit above all bits set so far.
  lemma OrBit(x: nat, j: nat, n: nat)
    requires x < Pow2(j) && j < n
    ensures BitOr(x, ShlWord(1, j, n)) == x + Pow2(j) < Pow2(n)
    ensures x + Pow2(j) < Pow2(j + 1)
  {
    OrShifted(x, 1, j, n);
    ShlZero(j);
    Pow2Mono(j + 1, n);
    SmallWord(x + Pow2(j), n);
  }

  lemma FlagsBounded(data: seq<nat>, n: nat)
    requires n <= |data|
    ensures Stream(Flags(data)[..n], 1) < Pow2(n)
  {
    FlagsBelow(data);
    StreamBound(Flags(data)[..n], 1);
    OffIsMul(n, 1);
  }

  // The first element repeats nothing.
  lemma FirstBit(data: seq<nat>)
    requires data != []
    ensures Stream(Flags(data)[..1], 1) == 0 == Stream(Flags(data)[..0], 1)
  {
    StreamAll(Flags(data), 1);
    StreamNext(Flags(data), 0, 1);
    ShlZero(Off(0, 1));
  }

  method StoreWord(a: array<byte>, ghost flags: seq<nat>, w: nat, word: nat)
    requires WORD * w + WORD <= |flags| && AllBelow(flags, 1) && 8 * w + 8 <= a.Length
    requires word == Stream(flags[WORD * w..WORD * w + WORD], 1)
    requires Holds(a[..], 0, 8 * w, Stream(flags[..WORD * w], 1))
    requires forall j :: 8 * w <= j < a.Length ==> a[j] == 0
    modifies a
    ensures Holds(a[..], 0, 8 * w + 8, Stream(flags[..WORD * w + WORD], 1))
    ensures forall j :: 8 * w + 8 <= j < a.Length ==> a[j] == 0
  {
    WordAppended(flags, w, word);
    Store(a, 8 * w, word, 8);
    assert a[..][0..8 * w + 8] == old(a[..8 * w]) + LeBytes(word, 8);
    assert forall j :: 8 * w + 8 <= j < a.Length ==> a[..][j] == old(a[8 * w + 8..])[j - (8 * w + 8)];
  }

  lemma WordAppended(flags: seq<nat>, w: nat, word: nat)
    requires WORD * w + WORD <= |flags| && AllBelow(flags, 1)
    requires word == Stream(flags[WORD * w..WORD * w + WORD], 1)
    ensures LeBytes(Stream(flags[..WORD * w + WORD], 1), 8 * w + 8)
         == LeBytes(Stream(flags[..WORD * w], 1), 8 * w) + LeBytes(word, 8)
  {
    var pre, group := flags[..WORD * w], flags[WORD * w..WORD * w + WORD];
    assert flags[..WORD * w + WORD] == pre + group;
    GroupAppends(pre, group, 8 * w, 8, word);
  }

  // A group of flags behind whole bytes of flags.
  lemma GroupAppends(pre: seq<nat>, group: seq<nat>, b: nat, n: nat, word: nat)
    requires |pre| == 8 * b && AllBelow(pre, 1) && word == Stream(group, 1)
    ensures LeBytes(Stream(pre + group, 1), b + n) == LeBytes(Stream(pre, 1), b) + LeBytes(word, n)
  {
    StreamConcat(pre, group, 1);
    StreamBound(pre, 1);
    OffIsMul(|pre|, 1);
    WholeByteAppend(Stream(pre, 1), word, b, n);
    LeBytesSplit(Stream(pre + group, 1), b, n);
  }

  lemma {:induction false} ZeroBytes(n: nat)
    ensures forall j :: 0 <= j < n ==> LeBytes(0, n)[j] == 0
  {
    if n > 0 {
      ZeroBytes(n - 1);
    }
  }

  // Bytes behind a number that are zero belong to it.
  lemma ZeroTail(bytes: seq<byte>, m: nat, x: nat)
    requires Holds(bytes, 0, m, x) && x < Pow2(8 * m)
    requires forall j :: m <= j < |bytes| ==> bytes[j] == 0
    ensures bytes == LeBytes(x, |bytes|)
  {
    LeBytesSplit(x, m, |bytes| - m);
    SmallWord(x, 8 * m);
    ZeroBytes(|bytes| - m);
    assert bytes[m..] == LeBytes(0, |bytes| - m);
    assert bytes == bytes[..m] + bytes[m..];
  }

  // The elements behind the last whole word, bit by bit.
  method FillRest(data: seq<nat>, start: nat, bitmap: array<byte>) returns (more: seq<nat>)
    requires 0 < start <= |data| && bitmap.Length == PackedSize(|data|, 1)
    requires bitmap[..] == LeBytes(Stream(Flags(data)[..start], 1), bitmap.Length)
    modifies bitmap
    ensures bitmap[..] == Bitmap(data) && more == Between(data, start, |data|)
  {
    more := [];
    BitmapHasLen(|data|);
    var prev, i := data[start - 1], start;
    while i < |data|
      invariant start <= i <= |data| && prev == data[i - 1]
      invariant bitmap[..] == LeBytes(Stream(Flags(data)[..i], 1), bitmap.Length)
      invariant more == Between(data, start, i)
    {
      FlagsBounded(data, i);
      FlagAppended(data, i);
      FlagIntoBytes(bitmap[..], Stream(Flags(data)[..i], 1), Stream(Flags(data)[..i + 1], 1), i, Repeated(data, i));
      if data[i] == prev {
        bitmap[i / 8] := BitOr(bitmap[i / 8], ShlWord(1, i % 8, BYTE_BITS));
      } else {
        more := more + [data[i]];
        prev := data[i];
      }
      i := i + 1;
    }
    assert Flags(data)[..|data|] == Flags(data);
  }

  // Flag i goes into byte i / 8; a clear flag changes nothing.
  lemma FlagIntoBytes(bytes: seq<byte>, x: nat, next: nat, i: nat, isSet: bool)
    requires bytes == LeBytes(x, |bytes|) && i < 8 * |bytes| && x < Pow2(i)
    requires next == x + (if isSet then Pow2(i) else 0)
    ensures BitOr(bytes[i / 8], ShlWord(1, i % 8, BYTE_BITS)) < 256
    ensures LeBytes(next, |bytes|)
         == (if isSet then bytes[i / 8 := BitOr(bytes[i / 8], ShlWord(1, i % 8, BYTE_BITS))] else bytes)
  {
    SetBitAt(bytes, x, x + Pow2(i), i / 8, i % 8);
  }

  lemma SetBitAt(bytes: seq<byte>, x: nat, next: nat, b: nat, s: nat)
    requires bytes == LeBytes(x, |bytes|) && b < |bytes| && s < 8
    requires x < Pow2(8 * b + s) && next == x + Pow2(8 * b + s)
    ensures BitOr(bytes[b], ShlWord(1, s, BYTE_BITS)) < 256
    ensures LeBytes(next, |bytes|) == bytes[b := BitOr(bytes[b], ShlWord(1, s, BYTE_BITS))]
  {
    SetBit(bytes, x, b, s, |bytes| - b);
  }

  lemma FlagAppended(data: seq<nat>, i: nat)
    requires i < |data|
    ensures Stream(Flags(data)[..i + 1], 1) == Stream(Flags(data)[..i], 1) + (if Repeated(data, i) then Pow2(i) else 0)
  {
    StreamNext(Flags(data), i, 1);
    OffIsMul(i, 1);
    ShlZero(i);
  }

  // Setting a bit above all bits of a number.
  lemma SetBit(bytes: seq<byte>, x: nat, b: nat, s: nat, n: nat)
    requires n > 0 && bytes == LeBytes(x, b + n) && s < 8 && x < Pow2(8 * b + s)
    ensures BitOr(bytes[b], ShlWord(1, s, BYTE_BITS)) < 256
    ensures LeBytes(x + Pow2(8 * b + s), b + n) == bytes[b := BitOr(bytes[b], ShlWord(1, s, BYTE_BITS))]
  {
    var v := Shr(x, 8 * b);
    LeBytesSplit(x, b, n);
    AppendBit(x, b, s, n);
    ShrLt(x, s, 8 * b);
    OrBit(v, s, BYTE_BITS);
    Pow2Of16();
    var c := v + Pow2(s);
    BitReplaced(bytes, LeBytes(x, b), v, c, n);
    assert BitOr(bytes[b], ShlWord(1, s, BYTE_BITS)) == c;
  }

  lemma AppendBit(x: nat, b: nat, s: nat, n: nat)
    requires x < Pow2(8 * b + s)
    ensures LeBytes(x + Pow2(8 * b + s), b + n) == LeBytes(x, b) + LeBytes(Shr(x, 8 * b) + Pow2(s), n)
  {
    AppendBits(x, 1, b, s, n);
    ShlZero(8 * b + s);
    ShlZero(s);
  }

  lemma BitReplaced(bytes: seq<byte>, pre: seq<byte>, v: nat, w: nat, n: nat)
    requires v < 256 && w < 256 && n > 0 && bytes == pre + LeBytes(v, n)
    ensures bytes[|pre|] == v && bytes[|pre| := w] == pre + LeBytes(w, n)
  {
    SmallByte(v, n);
    SmallByte(w, n);
    ReplaceAt(pre, v, w, LeBytes(0, n - 1), bytes);
  }

  lemma SmallByte(v: nat, n: nat)
    requires v < 256 && n > 0
    ensures LeBytes(v, n) == [v] + LeBytes(0, n - 1)
  {
  }

  lemma ReplaceAt(a: seq<byte>, v: byte, w: byte, c: seq<byte>, s: seq<byte>)
    requires s == a + ([v] + c)
    ensures s[|a|] == v && s[|a| := w] == a + ([w] + c)
  {
  }

  // ---------- the block ----------

  // the header's flag, the bitmap, and the payload of the non-repeats' own block
  function RepeatFrame(data: seq<nat>, h: ParsedHeader, payload: seq<byte>): seq<byte> {
    WriteHeader(h.typeByte, true, |data|, RepackParams(h.params)) + Bitmap(data) + payload
  }

  function RepackParams(params: Option<AlpParams>): Option<nat> {
    if params.Some? then Some(PackParams(params.value)) else None
  }

  method WriteRepeatChunk(data: seq<nat>, bitmap: array<byte>, h: ParsedHeader, payload: seq<byte>, dst: ByteVec)
    requires dst.Valid() && bitmap[..] == Bitmap(data) && bitmap != dst.buf
    modifies dst, dst.buf
    ensures dst.Valid() && (dst.buf == old(dst.buf) || fresh(dst.buf))
    ensures dst.Bytes() == old(dst.Bytes()) + RepeatFrame(data, h, payload)
  {
    ghost var before := dst.Bytes();
    var hdr := WriteHeader(h.typeByte, true, |data|, RepackParams(h.params));
    var bits := bitmap[..];
    dst.ExtendFromSlice(hdr);
    dst.ExtendFromSlice(bits);
    dst.ExtendFromSlice(payload);
    assert before + hdr + bits + payload == before + (hdr + bits + payload);
  }

  // the header's length is that of a block with or without parameters
  function RepeatFrameLen(count: nat, hasParams: bool, payload: nat): nat {
    (if hasParams then HeaderLen(count) else RawHeaderLen(count)) + BitmapLen(count) + payload
  }

  lemma RepeatFrameSize(data: seq<nat>, h: ParsedHeader, payload: seq<byte>)
    ensures |RepeatFrame(data, h, payload)| == RepeatFrameLen(|data|, h.params.Some?, |payload|)
  {
    BitmapHasLen(|data|);
  }

  lemma {:induction false} NonRepeatsBits(k: FloatKind, data: seq<nat>, n: nat)
    requires AllBits(k, data) && n <= |data|
    ensures AllBits(k, NonRepeats(data, n))
  {
    if n > 0 {
      NonRepeatsBits(k, data, n - 1);
    }
  }

  // Repacked parameters are the two bytes they were read from.
  lemma RepackedParse(raw: nat, useDiv: bool)
    requires raw < 0x1_0000
    ensures PackParams(UnpackParams(raw, useDiv)) == raw
  {
    assert raw == raw % 32 + raw / 32 * 32;
    assert raw / 32 == raw / 32 % 16 + raw / 512 * 16;
  }

  // A parsed header has a known type, parameters where its type wants them, and
  // parameters that survive being written again.
  lemma ParsedParts(src: seq<byte>)
    requires ReadHeader(src).Ok?
    ensures var h := ReadHeader(src).value;
      && 1 <= h.typeByte <= MAX_TYPE_BYTE && h.cursor <= |src|
      && (h.params.Some? <==> !HasNoParams(h.typeByte) && h.count > 0)
    ensures var h := ReadHeader(src).value;
      h.params.Some? ==> PackParams(h.params.value) < 0x1_0000
    ensures var h := ReadHeader(src).value;
      h.params.Some? ==> UnpackParams(PackParams(h.params.value), IsDec(h.typeByte)) == h.params.value
  {
    var h := ReadHeader(src).value;
    if h.params.Some? {
      var n := h.cursor - 2;
      LeValBound(src[n..n + 2]);
      Pow2Of16();
      RepackedParse(LeVal(src[n..n + 2]), IsDec(h.typeByte));
    }
  }

  // A decoded payload does not depend on what lies before it.
  lemma PayloadOnly(ar: Arith, src: seq<byte>, c: nat, src': seq<byte>, c': nat, t: nat, count: nat, params: Option<AlpParams>)
    requires c <= |src| && c' <= |src'| && src[c..] == src'[c'..]
    requires DecodeDirect(ar, src, c, t, count, params).Ok?
    ensures DecodeDirect(ar, src', c', t, count, params) == DecodeDirect(ar, src, c, t, count, params)
  {
    if t == RawByte(ar.kind) {
      var n := count * ar.kind.Size();
      assert |src| - c == |src'| - c';
      assert src[c..c + n] == src[c..][..n] == src'[c'..][..n] == src'[c'..c' + n];
    }
  }

  // The non-repeats of non-empty data.
  lemma SomeNonRepeat(data: seq<nat>)
    requires data != []
    ensures NonRepeats(data, |data|) != []
  {
    NonRepeatsPrefix(data, 1, |data|);
    assert NonRepeats(data, 1) == NonRepeats(data, 0) + [data[0]];
  }

  // When a block of the non-repeats restores them, the repeat block made of its
  // header fields and payload restores the data.
  lemma RepeatRestores(ar: Arith, plain: seq<byte>, data: seq<nat>)
    requires 0 < |data| < COUNT_LIMIT
    requires RestoresPlain(ar, plain, NonRepeats(data, |data|))
    ensures var h := ReadHeader(plain).value;
      h.cursor <= |plain| && Restores(ar, RepeatFrame(data, h, plain[h.cursor..]), data)
  {
    var h := ReadHeader(plain).value;
    ParsedParts(plain);
    SomeNonRepeat(data);
    var nr := NonRepeats(data, |data|);
    PlainDecodes(ar, plain, nr);
    RepeatDecodes(ar, data, h, plain, RepeatFrame(data, h, plain[h.cursor..]));
  }

  lemma PlainDecodes(ar: Arith, plain: seq<byte>, slice: seq<nat>)
    requires RestoresPlain(ar, plain, slice) && slice != []
    ensures var h := ReadHeader(plain).value;
      && h.count == |slice| && h.cursor <= |plain|
      && DecodeDirect(ar, plain, h.cursor, h.typeByte, |slice|, h.params) == Ok(slice)
  {
    assert DecodesTo(ar, plain, slice);
    ReadCountAgrees(plain);
    ParsedParts(plain);
  }

  lemma RepeatHeader(data: seq<nat>, h: ParsedHeader, plain: seq<byte>, rest: seq<byte>)
    requires 0 < |data| < COUNT_LIMIT && ReadHeader(plain) == Ok(h) && h.count > 0
    ensures var hdr := WriteHeader(h.typeByte, true, |data|, RepackParams(h.params));
      && ReadHeader(hdr + rest) == Ok(ParsedHeader(h.typeByte, |data|, LenTag(|data|), h.params, |hdr|, true))
      && ReadCount(hdr + rest) == Ok(|data|)
  {
    ParsedParts(plain);
    HeaderRoundTrip(h.typeByte, true, |data|, RepackParams(h.params), rest);
    ReadCountAgrees(WriteHeader(h.typeByte, true, |data|, RepackParams(h.params)) + rest);
  }

  lemma RepeatPayload(ar: Arith, data: seq<nat>, h: ParsedHeader, plain: seq<byte>, hdr: seq<byte>, frame: seq<byte>)
    requires data != [] && h.cursor <= |plain| && h.count == |NonRepeats(data, |data|)| > 0
    requires frame == hdr + (Bitmap(data) + plain[h.cursor..])
    requires DecodeDirect(ar, plain, h.cursor, h.typeByte, h.count, h.params) == Ok(NonRepeats(data, |data|))
    ensures DecodeRepeat(ar, frame, |hdr|, h.typeByte, |data|, h.params) == Ok(data)
  {
    var bits := Bitmap(data);
    FrameParts(hdr, bits, plain[h.cursor..], frame);
    BitmapHasLen(|data|);
    PartsExpand(ar, data, plain, h.cursor, frame, |hdr|, |hdr| + |bits|, h.typeByte, h.count, h.params, bits);
  }

  // The payload decodes in its new place, and the bitmap before it expands it.
  lemma PartsExpand(ar: Arith, data: seq<nat>, plain: seq<byte>, cursor: nat, frame: seq<byte>, start: nat, at: nat, t: nat,
                    n: nat, params: Option<AlpParams>, bits: seq<byte>)
    requires data != [] && n == |NonRepeats(data, |data|)| > 0 && bits == Bitmap(data) && |bits| == BitmapLen(|data|)
    requires cursor <= |plain| && at == start + |bits| <= |frame| && frame[start..at] == bits && plain[cursor..] == frame[at..]
    requires DecodeDirect(ar, plain, cursor, t, n, params) == Ok(NonRepeats(data, |data|))
    ensures DecodeRepeat(ar, frame, start, t, |data|, params) == Ok(data)
  {
    PayloadOnly(ar, plain, cursor, frame, at, t, n, params);
    BehindExpands(ar, frame, at, t, n, params, data, bits);
    RepeatIs(ar, frame, start, at, t, |data|, params, bits, data);
  }

  lemma RepeatDecodes(ar: Arith, data: seq<nat>, h: ParsedHeader, plain: seq<byte>, frame: seq<byte>)
    requires 0 < |data| < COUNT_LIMIT && ReadHeader(plain) == Ok(h) && h.cursor <= |plain|
    requires h.count == |NonRepeats(data, |data|)| > 0
    requires frame == RepeatFrame(data, h, plain[h.cursor..])
    requires DecodeDirect(ar, plain, h.cursor, h.typeByte, h.count, h.params) == Ok(NonRepeats(data, |data|))
    ensures Restores(ar, frame, data)
  {
    var hdr := WriteHeader(h.typeByte, true, |data|, RepackParams(h.params));
    var rest := Bitmap(data) + plain[h.cursor..];
    FrameSplits(data, h, plain[h.cursor..], hdr, frame);
    RepeatHeader(data, h, plain, rest);
    RepeatPayload(ar, data, h, plain, hdr, frame);
    FlaggedDecodes(ar, frame, ParsedHeader(h.typeByte, |data|, LenTag(|data|), h.params, |hdr|, true), data);
  }

  lemma FrameSplits(data: seq<nat>, h: ParsedHeader, payload: seq<byte>, hdr: seq<byte>, frame: seq<byte>)
    requires |data| < COUNT_LIMIT && frame == RepeatFrame(data, h, payload)
    requires hdr == WriteHeader(h.typeByte, true, |data|, RepackParams(h.params))
    ensures frame == hdr + (Bitmap(data) + payload)
  {
  }

  lemma FlaggedDecodes(ar: Arith, frame: seq<byte>, h: ParsedHeader, data: seq<nat>)
    requires ReadHeader(frame) == Ok(h) && ReadCount(frame) == Ok(|data|) && data != []
    requires h.hasRepeat && h.count == |data| && h.cursor <= |frame|
    requires DecodeRepeat(ar, frame, h.cursor, h.typeByte, |data|, h.params) == Ok(data)
    ensures Restores(ar, frame, data)
  {
    assert DecodesTo(ar, frame, data);
  }

  lemma FrameParts(a: seq<byte>, b: seq<byte>, c: seq<byte>, s: seq<byte>)
    requires s == a + (b + c)
    ensures s[|a|..|a| + |b|] == b && s[|a| + |b|..] == c
  {
  }

  // The decoder behind the bitmap.
  lemma BehindExpands(ar: Arith, frame: seq<byte>, at: nat, t: nat, n: nat, params: Option<AlpParams>, data: seq<nat>,
                      bitmap: seq<byte>)
    requires data != [] && at <= |frame| && n == |NonRepeats(data, |data|)| > 0 && bitmap == Bitmap(data)
    requires DecodeDirect(ar, frame, at, t, n, params) == Ok(NonRepeats(data, |data|))
    ensures |data| <= 8 * |bitmap|
    ensures DecodeBehind(ar, frame, at, t, |data|, params, bitmap) == Ok(data)
  {
    OnesAreRepeats(data, |data|);
    ExpandRestores(data);
    var nr := NonRepeats(data, |data|);
    BehindIs(ar, frame, at, t, n, params, bitmap, |data|, nr);
  }

  lemma BehindIs(ar: Arith, frame: seq<byte>, at: nat, t: nat, n: nat, params: Option<AlpParams>, bitmap: seq<byte>,
                 count: nat, nr: seq<nat>)
    requires at <= |frame| && count <= 8 * |bitmap| && n == NonRepeatCount(bitmap, count) && n > 0
    requires DecodeDirect(ar, frame, at, t, n, params) == Ok(nr)
    ensures DecodeBehind(ar, frame, at, t, count, params, bitmap) == Ok(Expand(bitmap, nr, count))
  {
  }

  lemma RepeatIs(ar: Arith, frame: seq<byte>, cursor: nat, at: nat, t: nat, count: nat, params: Option<AlpParams>, bitmap: seq<byte>,
                 vs: seq<nat>)
    requires |bitmap| == BitmapLen(count) && at == cursor + |bitmap| <= |frame| && frame[cursor..at] == bitmap
    requires DecodeBehind(ar, frame, at, t, count, params, bitmap) == Ok(vs)
    ensures DecodeRepeat(ar, frame, cursor, t, count, params) == Ok(vs)
  {
  }
}
