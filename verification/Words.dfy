/**
 Machine words, little-endian byte strings and the bit stream they carry.

 Words are natural numbers. Shifts and bitwise operators are defined bit by bit,
 so that every fact about them is proved by induction on the shift.
 */
module Words {

  type byte = x: int | 0 <= x < 256
  type u64 = x: int | 0 <= x < 0x1_0000_0000_0000_0000

  // Element counts take at most four bytes.
  const COUNT_LIMIT: nat := 0x1_0000_0000

  // ---------- shifts ----------

  function Pow2(k: nat): (r: nat)
    ensures r > 0
  {
    if k == 0 then 1 else 2 * Pow2(k - 1)
  }

  // x << k, without a word size
  function Shl(x: nat, k: nat): nat {
    if k == 0 then x else 2 * Shl(x, k - 1)
  }

  // x >> k
  function Shr(x: nat, k: nat): nat {
    if k == 0 then x else Shr(x / 2, k - 1)
  }

  // x & ((1 << k) - 1)
  function Low(x: nat, k: nat): nat {
    if k == 0 then 0 else x % 2 + 2 * Low(x / 2, k - 1)
  }

  // The arithmetic reading of the three.
  lemma {:induction false} ShlIsMul(x: nat, k: nat)
    ensures Shl(x, k) == x * Pow2(k)
  {
    if k > 0 {
      ShlIsMul(x, k - 1);
      assert x * (2 * Pow2(k - 1)) == 2 * (x * Pow2(k - 1));
    }
  }

  lemma {:induction false} ShrLowIsDivMod(x: nat, k: nat)
    ensures x == Low(x, k) + Shl(Shr(x, k), k)
    ensures Low(x, k) < Pow2(k)
  {
    if k > 0 {
      ShrLowIsDivMod(x / 2, k - 1);
    }
  }

  lemma {:induction false} ShlShl(x: nat, j: nat, k: nat)
    ensures Shl(Shl(x, j), k) == Shl(x, j + k)
  {
    if k > 0 {
      ShlShl(x, j, k - 1);
    }
  }

  lemma {:induction false} ShlAdd(x: nat, y: nat, k: nat)
    ensures Shl(x + y, k) == Shl(x, k) + Shl(y, k)
  {
    if k > 0 {
      ShlAdd(x, y, k - 1);
    }
  }

  lemma {:induction false} ShlLt(x: nat, j: nat, k: nat)
    requires x < Pow2(j)
    ensures Shl(x, k) + Pow2(k) <= Pow2(j + k)
  {
    if k == 0 {
    } else {
      ShlLt(x, j, k - 1);
      assert Pow2(j + k) == 2 * Pow2(j + (k - 1));
    }
  }

  lemma {:induction false} ShlZero(k: nat)
    ensures Shl(0, k) == 0 && Shl(1, k) == Pow2(k)
  {
    if k > 0 {
      ShlZero(k - 1);
    }
  }

  lemma {:induction false} ShrShr(x: nat, j: nat, k: nat)
    ensures Shr(Shr(x, j), k) == Shr(x, j + k)
    decreases j
  {
    if j > 0 {
      ShrShr(x / 2, j - 1, k);
    }
  }

  lemma {:induction false} ShrLt(x: nat, j: nat, k: nat)
    requires x < Pow2(j + k)
    ensures Shr(x, k) < Pow2(j)
    decreases k
  {
    if k > 0 {
      assert Pow2(j + k) == 2 * Pow2(j + (k - 1));
      ShrLt(x / 2, j, k - 1);
    }
  }

  // Splitting a sum at bit k.
  lemma {:induction false} Split(x: nat, y: nat, k: nat)
    ensures Shr(x + Shl(y, k), k) == Shr(x, k) + y
    ensures Low(x + Shl(y, k), k) == Low(x, k)
    decreases k
  {
    if k > 0 {
      var z := Shl(y, k - 1);
      assert (x + 2 * z) / 2 == x / 2 + z && (x + 2 * z) % 2 == x % 2;
      Split(x / 2, y, k - 1);
    }
  }

  // Shifting back less than was shifted out.
  lemma ShrSum(x: nat, y: nat, j: nat, k: nat)
    requires j <= k
    ensures Shr(x + Shl(y, k), j) == Shr(x, j) + Shl(y, k - j)
  {
    ShlShl(y, k - j, j);
    Split(x, Shl(y, k - j), j);
  }

  lemma {:induction false} SmallWord(x: nat, k: nat)
    requires x < Pow2(k)
    ensures Shr(x, k) == 0 && Low(x, k) == x
    decreases k
  {
    if k > 0 {
      SmallWord(x / 2, k - 1);
    }
  }

  lemma {:induction false} LowLow(x: nat, j: nat, k: nat)
    requires j <= k
    ensures Low(Low(x, k), j) == Low(x, j)
    decreases j
  {
    if j > 0 {
      assert Low(x, k) == x % 2 + 2 * Low(x / 2, k - 1);
      LowLow(x / 2, j - 1, k - 1);
    }
  }

  lemma {:induction false} Pow2Mono(j: nat, k: nat)
    requires j <= k
    ensures Pow2(j) <= Pow2(k)
    ensures j < k ==> 2 * Pow2(j) <= Pow2(k)
  {
    if j < k {
      Pow2Mono(j, k - 1);
    }
  }

  // Powers as numerals.
  lemma Pow2Of16()
    ensures Pow2(8) == 256 && Pow2(16) == 0x1_0000
  {
    assert Pow2(8) == 256;
    assert Pow2(16) == 256 * Pow2(8);
  }

  lemma Pow2Of32()
    ensures Pow2(31) == 0x8000_0000 && Pow2(32) == 0x1_0000_0000
  {
    Pow2Of16();
    assert Pow2(24) == 256 * Pow2(16);
    assert Pow2(32) == 256 * Pow2(24);
    assert Pow2(32) == 2 * Pow2(31);
  }

  lemma Pow2Of64()
    ensures Pow2(63) == 0x8000_0000_0000_0000 && Pow2(64) == 0x1_0000_0000_0000_0000
  {
    Pow2Of32();
    assert Pow2(40) == 256 * Pow2(32);
    assert Pow2(48) == 256 * Pow2(40);
    assert Pow2(56) == 256 * Pow2(48);
    assert Pow2(64) == 256 * Pow2(56);
    assert Pow2(64) == 2 * Pow2(63);
  }

  // ---------- bitwise or, bitwise and ----------

  function BitOr(x: nat, y: nat): nat
    decreases x + y
  {
    if x == 0 then y
    else if y == 0 then x
    else (if x % 2 == 1 || y % 2 == 1 then 1 else 0) + 2 * BitOr(x / 2, y / 2)
  }

  function BitAnd(x: nat, y: nat): nat
    decreases x + y
  {
    if x == 0 || y == 0 then 0
    else (if x % 2 == 1 && y % 2 == 1 then 1 else 0) + 2 * BitAnd(x / 2, y / 2)
  }

  // x << k on a word of n bits: the bits pushed out are lost
  function ShlWord(x: nat, k: nat, n: nat): nat {
    Low(Shl(x, k), n)
  }

  // (1 << k) - 1
  function Mask(k: nat): nat {
    Pow2(k) - 1
  }

  // Bits that do not meet add up.
  lemma {:induction false} OrDisjoint(x: nat, y: nat, k: nat)
    requires x < Pow2(k)
    ensures BitOr(x, Shl(y, k)) == x + Shl(y, k)
    decreases k
  {
    if k > 0 {
      OrDisjoint(x / 2, y, k - 1);
      assert Shl(y, k) / 2 == Shl(y, k - 1) && Shl(y, k) % 2 == 0;
    }
  }

  lemma {:induction false} OrComm(x: nat, y: nat)
    ensures BitOr(x, y) == BitOr(y, x)
    decreases x + y
  {
    if x > 0 && y > 0 {
      OrComm(x / 2, y / 2);
    }
  }

  lemma {:induction false} AndMask(x: nat, k: nat)
    ensures BitAnd(x, Mask(k)) == Low(x, k)
    decreases k
  {
    if k == 0 {
    } else if x == 0 {
      SmallWord(0, k);
    } else {
      AndMask(x / 2, k - 1);
      assert Mask(k) / 2 == Mask(k - 1) && Mask(k) % 2 == 1;
    }
  }

  lemma {:induction false} LowSplit(v: nat, j: nat, k: nat)
    ensures Low(v, j + k) == Low(v, j) + Shl(Low(Shr(v, j), k), j)
    decreases j
  {
    if j > 0 {
      LowSplit(v / 2, j - 1, k);
    }
  }

  // Cutting a sum whose lower part is whole.
  lemma LowSum(x: nat, y: nat, k: nat, j: nat)
    requires x < Pow2(k) && k <= j
    ensures Low(x + Shl(y, k), j) == x + Shl(Low(y, j - k), k)
  {
    LowSplit(x + Shl(y, k), k, j - k);
    Split(x, y, k);
    SmallWord(x, k);
  }

  // x | (y << k) on a word of n bits: the sum, cut at n bits.
  lemma OrShifted(x: nat, y: nat, k: nat, n: nat)
    requires x < Pow2(k) && k <= n
    ensures BitOr(x, ShlWord(y, k, n)) == Low(x + Shl(y, k), n)
  {
    LowSum(x, y, k, n);
    ShlZero(k);
    LowSum(0, y, k, n);
    SmallWord(0, n - k);
    OrDisjoint(x, Low(y, n - k), k);
  }

  // A shift that stays inside the word loses nothing.
  lemma ShlWordFits(x: nat, j: nat, k: nat, n: nat)
    requires x < Pow2(j) && j + k <= n
    ensures ShlWord(x, k, n) == Shl(x, k) && Shl(x, k) < Pow2(j + k)
  {
    ShlLt(x, j, k);
    Pow2Mono(j + k, n);
    SmallWord(Shl(x, k), n);
  }

  // ---------- little-endian byte strings ----------

  function LeBytes(v: nat, n: nat): (s: seq<byte>)
    ensures |s| == n
  {
    if n == 0 then [] else [v % 256] + LeBytes(v / 256, n - 1)
  }

  function LeVal(s: seq<byte>): nat {
    if s == [] then 0 else s[0] + 256 * LeVal(s[1..])
  }

  lemma ByteShift(x: nat)
    ensures Shl(x, 8) == 256 * x && Shr(x, 8) == x / 256 && Low(x, 8) == x % 256
  {
    assert Shl(x, 1) == 2 * x;
    assert Shl(x, 2) == 4 * x;
    assert Shl(x, 4) == 4 * Shl(x, 2);
    assert Shl(x, 6) == 4 * Shl(x, 4);
    assert Shr(x, 8) == Shr(x / 2 / 2, 6);
    assert Shr(x / 4, 6) == Shr(x / 4 / 2 / 2, 4);
    assert Shr(x / 16, 4) == Shr(x / 16 / 2 / 2, 2);
    assert Shr(x / 64, 2) == Shr(x / 128, 1);
    assert Shr(x / 128, 1) == x / 256;
    ShrLowIsDivMod(x, 8);
    var y := x / 256;
    assert Shl(y, 1) == 2 * y;
    assert Shl(y, 2) == 4 * y;
    assert Shl(y, 4) == 4 * Shl(y, 2);
    assert Shl(y, 6) == 4 * Shl(y, 4);
  }

  // The byte string from byte m on is that of the number shifted by m bytes.
  lemma {:induction false} LeBytesSplit(v: nat, m: nat, n: nat)
    ensures LeBytes(v, m + n) == LeBytes(v, m) + LeBytes(Shr(v, 8 * m), n)
  {
    if m > 0 {
      ByteShift(v);
      ShrShr(v, 8, 8 * (m - 1));
      LeBytesSplit(v / 256, m - 1, n);
      LeBytesCons(v, m + n);
      LeBytesCons(v, m);
    }
  }

  lemma LeBytesCons(v: nat, n: nat)
    requires n > 0
    ensures LeBytes(v, n) == [v % 256] + LeBytes(v / 256, n - 1)
  {
  }

  // What lies beyond m bytes does not show in the first m.
  lemma {:induction false} LeBytesLow(x: nat, y: nat, m: nat)
    ensures LeBytes(x + Shl(y, 8 * m), m) == LeBytes(x, m)
    decreases m
  {
    if m > 0 {
      var z := Shl(y, 8 * (m - 1));
      ShlShl(y, 8 * (m - 1), 8);
      ByteShift(z);
      assert (x + 256 * z) / 256 == x / 256 + z && (x + 256 * z) % 256 == x % 256;
      LeBytesLow(x / 256, y, m - 1);
      LeBytesCons(x, m);
      LeBytesCons(x + Shl(y, 8 * m), m);
    }
  }

  lemma LeBytesPrefix(v: nat, m: nat, n: nat)
    requires m <= n
    ensures LeBytes(v, n)[..m] == LeBytes(v, m)
    ensures m < n ==> LeBytes(v, n)[m] == Shr(v, 8 * m) % 256
  {
    LeBytesSplit(v, m, n - m);
    if m < n {
      LeBytesCons(Shr(v, 8 * m), n - m);
    }
  }

  // Storing n bytes of a word keeps its low 8*n bits and nothing else.
  lemma LeBytesOfLow(v: nat, n: nat, k: nat)
    requires 8 * n <= k
    ensures LeBytes(Low(v, k), n) == LeBytes(v, n)
  {
    LowSplit(v, 8 * n, k - 8 * n);
    LeBytesLow(Low(v, 8 * n), Low(Shr(v, 8 * n), k - 8 * n), n);
    ShrLowIsDivMod(v, 8 * n);
    LeBytesLow(Low(v, 8 * n), Shr(v, 8 * n), n);
  }

  lemma {:induction false} LeValConcat(s: seq<byte>, t: seq<byte>)
    ensures LeVal(s + t) == LeVal(s) + Shl(LeVal(t), 8 * |s|)
  {
    if s == [] {
      assert s + t == t;
    } else {
      LeValConcat(s[1..], t);
      assert (s + t)[1..] == s[1..] + t;
      ShlShl(LeVal(t), 8 * (|s| - 1), 8);
      ByteShift(Shl(LeVal(t), 8 * (|s| - 1)));
    }
  }

  lemma {:induction false} LeValBound(s: seq<byte>)
    ensures LeVal(s) < Pow2(8 * |s|)
  {
    if s != [] {
      LeValBound(s[1..]);
      BytePow(|s| - 1);
    }
  }

  lemma BytePow(k: nat)
    ensures Pow2(8 * (k + 1)) == 256 * Pow2(8 * k)
  {
    ShlZero(8 * k);
    ShlZero(8 * (k + 1));
    ShlShl(1, 8 * k, 8);
    ByteShift(Pow2(8 * k));
  }

  // Reading back what was written gives the bits that were kept.
  lemma {:induction false} LeValOfBytes(v: nat, n: nat)
    ensures LeVal(LeBytes(v, n)) == Low(v, 8 * n)
  {
    if n > 0 {
      LeValOfBytes(v / 256, n - 1);
      LowByte(v, n - 1);
    }
  }

  lemma LowByte(v: nat, k: nat)
    ensures Low(v, 8 * (k + 1)) == v % 256 + 256 * Low(v / 256, 8 * k)
  {
    LowSplit(v, 8, 8 * k);
    ByteShift(v);
    ByteShift(Low(v / 256, 8 * k));
  }

  lemma LeRoundTrip(v: nat, n: nat)
    requires v < Pow2(8 * n)
    ensures LeVal(LeBytes(v, n)) == v
  {
    LeValOfBytes(v, n);
    SmallWord(v, 8 * n);
  }

  // ---------- the packed bit stream ----------

  predicate AllBelow(vs: seq<nat>, w: nat) {
    forall i :: 0 <= i < |vs| ==> vs[i] < Pow2(w)
  }

  // the low w bits of each value
  function LowAll(vs: seq<nat>, w: nat): (r: seq<nat>)
    ensures |r| == |vs|
  {
    seq(|vs|, i requires 0 <= i < |vs| => Low(vs[i], w))
  }

  lemma LowAllBelow(vs: seq<nat>, w: nat)
    ensures AllBelow(LowAll(vs, w), w)
  {
    forall i | 0 <= i < |vs| ensures LowAll(vs, w)[i] < Pow2(w) {
      ShrLowIsDivMod(vs[i], w);
    }
  }

  lemma LowAllInRange(vs: seq<nat>, w: nat)
    requires AllBelow(vs, w)
    ensures LowAll(vs, w) == vs
  {
    forall i | 0 <= i < |vs| ensures LowAll(vs, w)[i] == vs[i] {
      SmallWord(vs[i], w);
    }
  }

  // i * w, the bit offset of value i
  function Off(i: nat, w: nat): nat {
    if i == 0 then 0 else Off(i - 1, w) + w
  }

  lemma {:induction false} OffIsMul(i: nat, w: nat)
    ensures Off(i, w) == i * w
  {
    if i > 0 {
      OffIsMul(i - 1, w);
      assert i * w == (i - 1) * w + w;
    }
  }

  lemma {:induction false} OffAdd(i: nat, j: nat, w: nat)
    ensures Off(i + j, w) == Off(i, w) + Off(j, w)
  {
    if j > 0 {
      OffAdd(i, j - 1, w);
    }
  }

  lemma OffTwo(i: nat, w: nat)
    ensures Off(i + 2, w) == Off(i, w) + 2 * w
  {
    assert Off(i + 1, w) == Off(i, w) + w;
  }

  // Eight values of w bits are w bytes.
  lemma {:induction false} OffBytes(k: nat, w: nat)
    ensures Off(8 * k, w) == 8 * Off(k, w)
  {
    if k > 0 {
      OffBytes(k - 1, w);
      OffAdd(8 * (k - 1), 8, w);
      OffIsMul(8, w);
    }
  }

  lemma {:induction false} OffMono(i: nat, j: nat, w: nat)
    requires i <= j
    ensures Off(i, w) <= Off(j, w)
  {
    if i < j {
      OffMono(i, j - 1, w);
    }
  }

  // The number whose bits i*w .. (i+1)*w are vs[i].
  function Stream(vs: seq<nat>, w: nat): nat {
    if vs == [] then 0 else vs[0] + Shl(Stream(vs[1..], w), w)
  }

  function PackedSize(count: nat, w: nat): nat {
    (Off(count, w) + 7) / 8
  }

  // The bytes every packer has to produce.
  function Packed(vs: seq<nat>, w: nat): (s: seq<byte>)
    ensures |s| == PackedSize(|vs|, w)
  {
    LeBytes(Stream(vs, w), PackedSize(|vs|, w))
  }

  // w bits at bit offset i*w
  function Field(n: nat, i: nat, w: nat): nat {
    Low(Shr(n, Off(i, w)), w)
  }

  function Unpack(bytes: seq<byte>, count: nat, w: nat): (vs: seq<nat>)
    ensures |vs| == count
  {
    seq(count, i requires 0 <= i < count => Field(LeVal(bytes), i, w))
  }

  lemma {:induction false} StreamConcat(a: seq<nat>, b: seq<nat>, w: nat)
    ensures Stream(a + b, w) == Stream(a, w) + Shl(Stream(b, w), Off(|a|, w))
  {
    if a == [] {
      assert a + b == b;
    } else {
      StreamConcat(a[1..], b, w);
      assert (a + b)[1..] == a[1..] + b;
      var s, t := Stream(a[1..], w), Stream(b, w);
      ShlAdd(s, Shl(t, Off(|a| - 1, w)), w);
      ShlShl(t, Off(|a| - 1, w), w);
    }
  }

  lemma StreamAppend(a: seq<nat>, v: nat, w: nat)
    ensures Stream(a + [v], w) == Stream(a, w) + Shl(v, Off(|a|, w))
  {
    StreamConcat(a, [v], w);
    ShlZero(w);
    assert Stream([v], w) == v + Shl(Stream([], w), w);
  }

  lemma StreamNext(vs: seq<nat>, i: nat, w: nat)
    requires i < |vs|
    ensures Stream(vs[..i + 1], w) == Stream(vs[..i], w) + Shl(vs[i], Off(i, w))
  {
    assert vs[..i + 1] == vs[..i] + [vs[i]];
    StreamAppend(vs[..i], vs[i], w);
  }

  lemma StreamAll(vs: seq<nat>, w: nat)
    ensures Stream(vs[..|vs|], w) == Stream(vs, w) && Stream(vs[..0], w) == 0
  {
    assert vs[..|vs|] == vs;
  }

  lemma StreamSplit(o: seq<nat>, k: nat, w: nat)
    requires k <= |o|
    ensures Stream(o, w) == Stream(o[..k], w) + Shl(Stream(o[k..], w), Off(k, w))
  {
    StreamConcat(o[..k], o[k..], w);
    assert o == o[..k] + o[k..];
  }

  lemma {:induction false} StreamBound(vs: seq<nat>, w: nat)
    requires AllBelow(vs, w)
    ensures Stream(vs, w) < Pow2(Off(|vs|, w))
  {
    if vs == [] {
    } else {
      StreamBound(vs[1..], w);
      ShlLt(Stream(vs[1..], w), Off(|vs| - 1, w), w);
    }
  }

  lemma {:induction false} StreamField(vs: seq<nat>, w: nat, i: nat)
    requires AllBelow(vs, w) && i < |vs|
    ensures Field(Stream(vs, w), i, w) == vs[i]
  {
    Split(vs[0], Stream(vs[1..], w), w);
    SmallWord(vs[0], w);
    if i > 0 {
      StreamField(vs[1..], w, i - 1);
      ShrShr(Stream(vs, w), w, Off(i - 1, w));
    }
  }

  // Bits further up do not show in a field below them.
  lemma FieldBelow(x: nat, y: nat, s: nat, w: nat, k: nat)
    requires s + w <= k
    ensures Low(Shr(x + Shl(y, k), s), w) == Low(Shr(x, s), w)
  {
    ShrSum(x, y, s, k);
    var u := Shr(x, s);
    ShlShl(y, k - s - w, w);
    Split(u, Shl(y, k - s - w), w);
  }

  // Reading w bits at offset i*w of the packed bytes gives every value back.
  lemma UnpackPacked(vs: seq<nat>, w: nat)
    requires AllBelow(vs, w)
    ensures Unpack(Packed(vs, w), |vs|, w) == vs
  {
    StreamBound(vs, w);
    Pow2Mono(Off(|vs|, w), 8 * PackedSize(|vs|, w));
    LeRoundTrip(Stream(vs, w), PackedSize(|vs|, w));
    forall i | 0 <= i < |vs| ensures Unpack(Packed(vs, w), |vs|, w)[i] == vs[i] {
      StreamField(vs, w, i);
    }
  }

  lemma PackedSizeConcat(k: nat, n: nat, w: nat)
    ensures PackedSize(8 * k, w) == Off(k, w)
    ensures PackedSize(8 * k + n, w) == Off(k, w) + PackedSize(n, w)
  {
    OffBytes(k, w);
    OffAdd(8 * k, n, w);
  }

  // Eight values of width w fill w whole bytes, so chunks of eight concatenate.
  lemma PackedConcat(a: seq<nat>, b: seq<nat>, w: nat)
    requires |a| % 8 == 0 && AllBelow(a, w)
    ensures Packed(a + b, w) == Packed(a, w) + Packed(b, w)
  {
    var k := |a| / 8;
    var m, n := Off(k, w), PackedSize(|b|, w);
    OffBytes(k, w);
    PackedSizeConcat(k, |b|, w);
    StreamConcat(a, b, w);
    StreamBound(a, w);
    var x, y := Stream(a, w), Stream(b, w);
    LeBytesSplit(x + Shl(y, 8 * m), m, n);
    LeBytesLow(x, y, m);
    Split(x, y, 8 * m);
    SmallWord(x, 8 * m);
  }

  lemma PackedJoin(vs: seq<nat>, a: seq<nat>, b: seq<nat>, c: nat, w: nat, m: nat, n: nat)
    requires vs == a + b && |a| == 8 * c && AllBelow(a, w) && m == Off(c, w) && n == PackedSize(|b|, w)
    ensures LeBytes(Stream(vs, w), m + n) == LeBytes(Stream(a, w), m) + LeBytes(Stream(b, w), n)
  {
    PackedSizeConcat(c, |b|, w);
    PackedConcat(a, b, w);
  }

  // One value appended at bit offset 8*b + s: the bytes before b stay, the n
  // bytes from b on are those of the old overhang plus the shifted value.
  lemma AppendBits(acc: nat, v: nat, b: nat, s: nat, n: nat)
    requires acc < Pow2(8 * b + s)
    ensures Shr(acc, 8 * b) < Pow2(s)
    ensures LeBytes(acc + Shl(v, 8 * b + s), b + n)
         == LeBytes(acc, b) + LeBytes(Shr(acc, 8 * b) + Shl(v, s), n)
    ensures Shr(acc + Shl(v, 8 * b + s), 8 * b) == Shr(acc, 8 * b) + Shl(v, s)
  {
    ShrLt(acc, s, 8 * b);
    ShlShl(v, s, 8 * b);
    Split(acc, Shl(v, s), 8 * b);
    LeBytesLow(acc, Shl(v, s), b);
    LeBytesSplit(acc + Shl(v, 8 * b + s), b, n);
  }
}
