/**
 Order-preserving prefix varints: 1, 2, 3, 4 or 9 bytes, whose byte order is the order
 of the numbers and none of which is a prefix of another.
 */
module Varint {
  import opened Wrappers
  import opened Words
  import opened Bytes

  function OppvLen(v: u64): (n: nat)
    ensures n == 1 || n == 2 || n == 3 || n == 4 || n == 9
  {
    if v < 0x80 then 1
    else if v < 0x4000 then 2
    else if v < 0x20_0000 then 3
    else if v < 0x1000_0000 then 4
    else 9
  }

  // As short as seven bits a byte allow, up to four bytes.
  lemma OppvLenIff(v: u64, n: nat)
    requires 1 <= n <= 4
    ensures OppvLen(v) <= n <==> v < Pow2(7 * n)
  {
    assert Pow2(7) == 0x80;
    assert Pow2(14) == 0x80 * Pow2(7);
    assert Pow2(21) == 0x80 * Pow2(14);
    assert Pow2(28) == 0x80 * Pow2(21);
  }

  // what a code of n bytes adds to its first byte
  function Marker(n: nat): (m: byte) {
    if n == 2 then 0x80 else if n == 3 then 0xC0 else if n == 4 then 0xE0 else if n == 9 then 0xF8 else 0
  }

  // values that are left for the first byte beside the marker
  function Room(n: nat): (r: nat)
    ensures r > 0
  {
    if n == 1 then 0x80 else if n == 2 then 0x40 else if n == 3 then 0x20 else if n == 4 then 0x10 else 1
  }

  function BeBytes(v: nat, n: nat): (s: seq<byte>)
    ensures |s| == n
  {
    if n == 0 then [] else BeBytes(v / 256, n - 1) + [v % 256]
  }

  function BeVal(s: seq<byte>): nat {
    if s == [] then 0 else 256 * BeVal(s[..|s| - 1]) + s[|s| - 1]
  }

  // The number in its length, big end first, the marker added to the first byte; the
  // marker of nine bytes stands alone.
  function Oppv(v: u64): (s: Key)
    ensures |s| == OppvLen(v)
  {
    var n := OppvLen(v);
    if n == 9 then [Marker(9)] + BeBytes(v, 8) else Marked(BeBytes(v, n), Marker(n))
  }

  function Marked(s: Key, m: byte): (r: Key)
    requires s != []
    ensures |r| == |s|
  {
    [(s[0] + m) % 256] + s[1..]
  }

  // the length of a code, from its first byte
  function Class(first: byte): Option<nat> {
    if first < 0x80 then Some(1)
    else if first < 0xC0 then Some(2)
    else if first < 0xE0 then Some(3)
    else if first < 0xF0 then Some(4)
    else if first == 0xF8 then Some(9)
    else None
  }

  // the leading code's number and the bytes it takes
  function Decode(s: Key): Option<(nat, nat)> {
    if s == [] || Class(s[0]).None? then None
    else
      var n := Class(s[0]).value;
      if |s| < n then None
      else if n == 9 then Some((BeVal(s[1..9]), 9))
      else Some((BeVal([s[0] % Room(n)] + s[1..n]), n))
  }

  // ---------- writing ----------

  // 0x80 | x, 0xC0 | x, 0xE0 | x: the marker's bits are free in what it is put on.
  lemma OrMarker(n: nat, f: nat)
    requires 2 <= n <= 4 && f < Room(n)
    ensures BitOr(Marker(n), f) == Marker(n) + f
  {
    OrComm(Marker(n), f);
    assert Pow2(4) == 0x10 && Pow2(5) == 0x20 && Pow2(6) == 0x40;
    if n == 2 {
      OrDisjoint(f, 2, 6);
      assert Shl(2, 6) == 0x80;
    } else if n == 3 {
      OrDisjoint(f, 6, 5);
      assert Shl(6, 5) == 0xC0;
    } else {
      OrDisjoint(f, 14, 4);
      assert Shl(14, 4) == 0xE0;
    }
  }

  // the bytes as they are computed, by shifts and ors
  function CodeBytes(v: u64): (s: seq<nat>)
    ensures |s| == OppvLen(v)
  {
    if v < 0x80 then [v]
    else if v < 0x4000 then [BitOr(0x80, v / 0x100), v % 0x100]
    else if v < 0x20_0000 then [BitOr(0xC0, v / 0x1_0000), v / 0x100 % 0x100, v % 0x100]
    else if v < 0x1000_0000 then
      [BitOr(0xE0, v / 0x100_0000), v / 0x1_0000 % 0x100, v / 0x100 % 0x100, v % 0x100]
    else [0xF8] + BeBytes(v, 8)
  }

  lemma CodeBytesAreOppv(v: u64)
    ensures CodeBytes(v) == Oppv(v)
  {
    LenFits(v);
    var n := OppvLen(v);
    if n == 1 {
      assert BeBytes(v, 1) == BeBytes(v / 256, 0) + [v];
    } else if n == 2 {
      TwoBytes(v);
      OrFirst(v, 2, v / 0x100, [v % 0x100]);
    } else if n == 3 {
      ThreeBytes(v);
      OrFirst(v, 3, v / 0x1_0000, [v / 0x100 % 0x100, v % 0x100]);
    } else if n == 4 {
      FourBytes(v);
      OrFirst(v, 4, v / 0x100_0000, [v / 0x1_0000 % 0x100, v / 0x100 % 0x100, v % 0x100]);
    }
  }

  lemma OrFirst(v: nat, n: nat, f: nat, tail: seq<byte>)
    requires 2 <= n <= 4 && f < Room(n) && BeBytes(v, n) == [f] + tail
    ensures Marked(BeBytes(v, n), Marker(n)) == [BitOr(Marker(n), f)] + tail
  {
    OrMarker(n, f);
    MarkedFirst(BeBytes(v, n), f, tail, Marker(n));
  }

  lemma MarkedFirst(s: Key, f: byte, tail: seq<byte>, m: byte)
    requires s == [f] + tail && f + m < 256
    ensures Marked(s, m) == [f + m] + tail
  {
  }

  // Writes the code at `at`; the bytes around it stay.
  method EncodeOppvSlice(v: u64, buf: array<byte>, at: nat) returns (n: nat)
    requires at + OppvLen(v) <= buf.Length
    modifies buf
    ensures n == OppvLen(v) && buf[at..at + n] == Oppv(v)
    ensures buf[..at] == old(buf[..at]) && buf[at + n..] == old(buf[at + n..])
  {
    CodeBytesAreOppv(v);
    var code: seq<byte> := CodeBytes(v);
    n := |code|;
    forall i | 0 <= i < n {
      buf[at + i] := code[i];
    }
    assert buf[at..at + n] == code;
  }

  lemma TwoBytes(v: nat)
    requires v < 0x1_0000
    ensures BeBytes(v, 2) == [v / 0x100, v % 0x100]
  {
    assert BeBytes(v / 0x100, 1) == BeBytes(v / 0x1_0000, 0) + [v / 0x100];
  }

  lemma ThreeBytes(v: nat)
    requires v < 0x100_0000
    ensures BeBytes(v, 3) == [v / 0x1_0000, v / 0x100 % 0x100, v % 0x100]
  {
    assert BeBytes(v / 0x100, 2) == BeBytes(v / 0x1_0000, 1) + [v / 0x100 % 0x100];
    assert BeBytes(v / 0x1_0000, 1) == BeBytes(v / 0x100_0000, 0) + [v / 0x1_0000];
  }

  lemma FourBytes(v: nat)
    requires v < 0x1_0000_0000
    ensures BeBytes(v, 4) == [v / 0x100_0000, v / 0x1_0000 % 0x100, v / 0x100 % 0x100, v % 0x100]
  {
    ThreeBytes(v / 0x100);
  }

  // ---------- big-endian numbers ----------

  function Pow256(n: nat): (r: nat)
    ensures r > 0
  {
    if n == 0 then 1 else 256 * Pow256(n - 1)
  }

  lemma {:induction false} BeValBound(s: seq<byte>)
    ensures BeVal(s) < Pow256(|s|)
  {
    if s != [] {
      BeValBound(s[..|s| - 1]);
    }
  }

  lemma Pow256Eight()
    ensures Pow256(8) == 0x1_0000_0000_0000_0000
  {
    assert Pow256(4) == 0x1_0000_0000;
    assert Pow256(8) == 0x1_0000_0000 * Pow256(4);
  }

  lemma {:induction false} BeRoundTrip(v: nat, n: nat)
    requires v < Pow256(n)
    ensures BeVal(BeBytes(v, n)) == v
  {
    if n > 0 {
      BeRoundTrip(v / 256, n - 1);
      var pre := BeBytes(v / 256, n - 1);
      assert (pre + [v % 256])[..n - 1] == pre;
    }
  }

  lemma {:induction false} BeOfVal(s: seq<byte>)
    ensures BeBytes(BeVal(s), |s|) == s
  {
    if s != [] {
      var pre := s[..|s| - 1];
      BeOfVal(pre);
      assert s == pre + [s[|s| - 1]];
      assert BeVal(s) / 256 == BeVal(pre) && BeVal(s) % 256 == s[|s| - 1];
    }
  }

  // Big-endian bytes of one length are ordered like the numbers.
  lemma {:induction false} BeOrder(v: nat, w: nat, n: nat)
    requires v < w < Pow256(n)
    ensures Before(BeBytes(v, n), BeBytes(w, n))
  {
    var a, b := BeBytes(v / 256, n - 1), BeBytes(w / 256, n - 1);
    if v / 256 < w / 256 {
      BeOrder(v / 256, w / 256, n - 1);
      BeforeExtends(a, b, [v % 256], [w % 256]);
    } else {
      BeforeConcat(a, [v % 256], [w % 256]);
    }
  }

  lemma {:induction false} BeFirst(v: nat, n: nat, r: nat)
    requires n > 0 && v < Pow256(n)
    ensures BeBytes(v, n)[0] < r <==> v < r * Pow256(n - 1)
  {
    if n > 1 {
      BeFirst(v / 256, n - 1, r);
      assert BeBytes(v, n)[0] == BeBytes(v / 256, n - 1)[0];
      DivBelow(v, r * Pow256(n - 2));
      assert r * Pow256(n - 1) == 256 * (r * Pow256(n - 2));
    }
  }

  lemma DivBelow(v: nat, m: nat)
    ensures v / 256 < m <==> v < 256 * m
  {
  }

  // The numbers coded in n bytes are those whose first byte leaves the marker room.
  lemma LenFits(v: u64)
    ensures var n := OppvLen(v);
      n != 9 ==> v < Pow256(n) && BeBytes(v, n)[0] < Room(n)
    ensures v < Pow256(8)
  {
    var n := OppvLen(v);
    Pow256Eight();
    assert Pow256(1) == 256 && Pow256(2) == 0x1_0000 && Pow256(3) == 0x100_0000 && Pow256(4) == 0x1_0000_0000;
    if n != 9 {
      BeFirst(v, n, Room(n));
    }
  }

  // ---------- decoding ----------

  // Encoding then decoding gives the number and its length, whatever follows.
  lemma DecodeEncode(v: u64, tail: Key)
    ensures Decode(Oppv(v) + tail) == Some((v, OppvLen(v)))
  {
    var n := OppvLen(v);
    LenFits(v);
    if n == 9 {
      DecodeLong(BeBytes(v, 8), tail);
      BeRoundTrip(v, 8);
    } else {
      DecodeMarked(BeBytes(v, n), n, tail);
      BeRoundTrip(v, n);
    }
  }

  lemma DecodeLong(word: Key, tail: Key)
    requires |word| == 8
    ensures Decode([Marker(9)] + word + tail) == Some((BeVal(word), 9))
  {
    assert ([Marker(9)] + word + tail)[1..9] == word;
  }

  lemma DecodeMarked(plain: Key, n: nat, tail: Key)
    requires 1 <= n <= 4 && |plain| == n && plain[0] < Room(n)
    ensures Decode(Marked(plain, Marker(n)) + tail) == Some((BeVal(plain), n))
  {
    var f, rest := plain[0], plain[1..];
    assert plain == [f] + rest;
    MarkerClass(n, f);
    MarkedFirst(plain, f, rest, Marker(n));
    DecodeFirst(f + Marker(n), f, rest, tail, n);
  }

  lemma DecodeFirst(first: byte, f: byte, rest: Key, tail: Key, n: nat)
    requires Class(first) == Some(n) && n != 9 && first % Room(n) == f && |rest| == n - 1
    ensures Decode([first] + rest + tail) == Some((BeVal([f] + rest), n))
  {
    var s := [first] + rest + tail;
    assert s[1..n] == rest;
    DecodeShort(s, n);
  }

  lemma DecodeShort(s: Key, n: nat)
    requires s != [] && Class(s[0]) == Some(n) && n != 9 && |s| >= n
    ensures Decode(s) == Some((BeVal([s[0] % Room(n)] + s[1..n]), n))
  {
  }

  lemma MarkerClass(n: nat, f: byte)
    requires 1 <= n <= 4 && f < Room(n)
    ensures f + Marker(n) < 256 && Class(f + Marker(n)) == Some(n) && (f + Marker(n)) % Room(n) == f
  {
  }

  // What is decoded is a u64 and lies inside the string.
  lemma DecodeBounds(s: Key)
    requires Decode(s).Some?
    ensures Decode(s).value.0 < 0x1_0000_0000_0000_0000
    ensures 0 < Decode(s).value.1 <= |s| && Decode(s).value.1 == Class(s[0]).value
  {
    var n := Decode(s).value.1;
    Pow256Eight();
    assert Pow256(4) == 0x1_0000_0000;
    if n == 9 {
      BeValBound(s[1..9]);
    } else {
      BeValBound([s[0] % Room(n)] + s[1..n]);
      Pow256Mono(n, 4);
    }
  }

  lemma {:induction false} Pow256Mono(m: nat, n: nat)
    requires m <= n
    ensures Pow256(m) <= Pow256(n)
  {
    if m < n {
      Pow256Mono(m, n - 1);
    }
  }

  // Decoding also accepts codes that are longer than needed. The bytes read are the
  // number's own code exactly when there are as many of them as its code has.
  lemma CanonicalIff(s: Key)
    requires Decode(s).Some?
    ensures var (v, n) := Decode(s).value;
      n <= |s| && v < 0x1_0000_0000_0000_0000 && (s[..n] == Oppv(v) <==> n == OppvLen(v))
  {
    DecodeBounds(s);
    var (v, n) := Decode(s).value;
    if n == OppvLen(v) {
      if n == 9 {
        BeOfVal(s[1..9]);
        assert s[..9] == [s[0]] + s[1..9];
      } else {
        var plain := [s[0] % Room(n)] + s[1..n];
        BeOfVal(plain);
        ClassMarker(s[0]);
        assert s[..n] == [s[0]] + s[1..n];
        assert plain[1..] == s[1..n];
      }
    }
  }

  lemma ClassMarker(f: byte)
    requires Class(f).Some? && Class(f) != Some(9)
    ensures f == f % Room(Class(f).value) + Marker(Class(f).value)
  {
  }

  // A code that is not the shortest: 5 in two bytes.
  lemma NonCanonicalAccepted()
    ensures Decode([0x80, 5]) == Some((5, 2)) && Oppv(5) == [5]
  {
    var s: Key := [0x80, 5];
    assert [s[0] % Room(2)] + s[1..2] == [0, 5];
    assert [0, 5][..1] == [0];
    assert BeVal([0]) == 256 * BeVal([0][..0]);
    assert BeBytes(5, 1) == BeBytes(0, 0) + [5];
  }

  // ---------- order ----------

  lemma MarkedOrder(a: Key, b: Key, m: byte)
    requires Before(a, b) && a[0] + m < 256 && b[0] + m < 256
    ensures Before(Marked(a, m), Marked(b, m))
  {
    var x, y := Marked(a, m), Marked(b, m);
    assert x[0] == a[0] + m && y[0] == b[0] + m && x[1..] == a[1..] && y[1..] == b[1..];
  }

  // Codes are ordered like the numbers, at a byte that both have.
  lemma OppvOrder(v: u64, w: u64)
    requires v < w
    ensures Before(Oppv(v), Oppv(w))
  {
    LenFits(v);
    LenFits(w);
    if OppvLen(v) == OppvLen(w) {
      SameLength(v, w, OppvLen(v));
    } else {
      LongerIsBehind(v, w);
    }
  }

  lemma SameLength(v: u64, w: u64, n: nat)
    requires v < w && n == OppvLen(v) == OppvLen(w)
    ensures Before(Oppv(v), Oppv(w))
  {
    LenFits(v);
    LenFits(w);
    if n == 9 {
      BeOrder(v, w, 8);
      BeforeConcat([Marker(9)], BeBytes(v, 8), BeBytes(w, 8));
    } else {
      BeOrder(v, w, n);
      MarkedOrder(BeBytes(v, n), BeBytes(w, n), Marker(n));
    }
  }

  // A longer code starts with a greater marker.
  lemma LongerIsBehind(v: u64, w: u64)
    requires OppvLen(v) < OppvLen(w)
    ensures Before(Oppv(v), Oppv(w))
  {
    LenFits(v);
    LenFits(w);
    assert Oppv(v)[0] < Oppv(w)[0];
  }

  // No code is a prefix of another, and byte order is number order, whatever follows.
  lemma OppvOrderIff(v: u64, w: u64, x: Key, y: Key)
    ensures v != w ==> !(Oppv(v) <= Oppv(w) + y)
    ensures v != w ==> (Below(Oppv(v) + x, Oppv(w) + y) <==> v < w)
    ensures Oppv(v) == Oppv(w) <==> v == w
  {
    if v < w {
      OppvOrder(v, w);
      BeforeIsBelow(Oppv(v), Oppv(w), x, y);
      BelowIrreflexive(Oppv(v) + x);
    } else if w < v {
      OppvOrder(w, v);
      BeforeIsBelow(Oppv(w), Oppv(v), y, x);
      BelowTotal(Oppv(v) + x, Oppv(w) + y);
    }
  }

  // Two codes in a row
  function Pair(a: u64, b: u64): Key {
    Oppv(a) + Oppv(b)
  }

  // Pairs compare like pairs of numbers, whatever stands before and behind them.
  lemma PairOrderIff(p: Key, a: u64, b: u64, c: u64, d: u64, x: Key, y: Key)
    requires (a, b) != (c, d)
    ensures Below(p + Pair(a, b) + x, p + Pair(c, d) + y) <==> a < c || (a == c && b < d)
    ensures !(p + Pair(a, b) <= p + Pair(c, d) + y)
  {
    if a < c || (a == c && b < d) {
      PairBefore(a, b, c, d);
      BeforeConcat(p, Pair(a, b), Pair(c, d));
      BeforeIsBelow(p + Pair(a, b), p + Pair(c, d), x, y);
    } else {
      PairBefore(c, d, a, b);
      BeforeConcat(p, Pair(c, d), Pair(a, b));
      BeforeIsBelow(p + Pair(c, d), p + Pair(a, b), y, x);
      BelowTotal(p + Pair(a, b) + x, p + Pair(c, d) + y);
    }
  }

  lemma PairBefore(a: u64, b: u64, c: u64, d: u64)
    requires a < c || (a == c && b < d)
    ensures Before(Pair(a, b), Pair(c, d))
  {
    if a < c {
      OppvOrder(a, c);
      BeforeExtends(Oppv(a), Oppv(c), Oppv(b), Oppv(d));
    } else {
      OppvOrder(b, d);
      BeforeConcat(Oppv(a), Oppv(b), Oppv(d));
    }
  }
}
