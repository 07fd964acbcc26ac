/**
 The unpack kernels. Each loads whole words around a value, shifts and masks; all of
 them give back `Unpack`, the w bits at bit offset i * w.
 */
module Unpacking {
  import opened Words

  const WORD128: nat := 16
  const WORD64: nat := 8
  const GROUP: nat := 8

  // the n bytes at `at`
  function Load(mem: seq<byte>, at: nat, n: nat): nat
    requires at + n <= |mem|
  {
    LeVal(mem[at..at + n])
  }

  // the bytes left from `at` on, with zeros behind them
  function LoadPadded(src: seq<byte>, at: nat, n: nat): nat {
    if at + n <= |src| then Load(src, at, n)
    else if at < |src| then LeVal(src[at..])
    else 0
  }

  // (word >> shift) & mask
  function Cut(word: nat, shift: nat, w: nat): nat {
    BitAnd(Shr(word, shift), Mask(w))
  }

  // ---------- a field inside a loaded word ----------

  // A field does not depend on the bytes behind the source.
  lemma FieldInPrefix(src: seq<byte>, behind: seq<byte>, t: nat, w: nat)
    requires t + w <= 8 * |src|
    ensures Low(Shr(LeVal(src + behind), t), w) == Low(Shr(LeVal(src), t), w)
  {
    LeValConcat(src, behind);
    FieldBelow(LeVal(src), LeVal(behind), t, w, 8 * |src|);
  }

  // The field at bit t lies in every word of n bytes around it.
  lemma FieldInWord(mem: seq<byte>, at: nat, n: nat, t: nat, w: nat)
    requires at + n <= |mem| && 8 * at <= t && t - 8 * at + w <= 8 * n
    ensures Low(Shr(Load(mem, at, n), t - 8 * at), w) == Low(Shr(LeVal(mem), t), w)
  {
    var pre, word, post := mem[..at], mem[at..at + n], mem[at + n..];
    assert mem == pre + (word + post);
    LeValConcat(pre, word + post);
    LeValBound(pre);
    Split(LeVal(pre), LeVal(word + post), 8 * at);
    SmallWord(LeVal(pre), 8 * at);
    ShrShr(LeVal(mem), 8 * at, t - 8 * at);
    FieldInPrefix(word, post, t - 8 * at, w);
  }

  lemma PaddedIsLoad(src: seq<byte>, pad: seq<byte>, at: nat, n: nat)
    requires at + n <= |src| + |pad| && forall i :: 0 <= i < |pad| ==> pad[i] == 0
    ensures LoadPadded(src, at, n) == Load(src + pad, at, n)
  {
    var mem := src + pad;
    if at + n <= |src| {
      assert mem[at..at + n] == src[at..at + n];
    } else if at < |src| {
      var zeros := mem[|src|..at + n];
      assert mem[at..at + n] == src[at..] + zeros;
      LeValConcat(src[at..], zeros);
      ZerosVal(zeros);
      ShlZero(8 * |src[at..]|);
    } else {
      ZerosVal(mem[at..at + n]);
    }
  }

  lemma {:induction false} ZerosVal(s: seq<byte>)
    requires forall i :: 0 <= i < |s| ==> s[i] == 0
    ensures LeVal(s) == 0
  {
    if s != [] {
      ZerosVal(s[1..]);
    }
  }

  // ---------- one value ----------

  // value i of the source
  function Value(src: seq<byte>, i: nat, w: nat): nat {
    Field(LeVal(src), i, w)
  }

  lemma CutIsValue(src: seq<byte>, behind: seq<byte>, at: nat, n: nat, i: nat, w: nat)
    requires at + n <= |src| + |behind| && 8 * at <= Off(i, w)
    requires Off(i, w) - 8 * at + w <= 8 * n && Off(i, w) + w <= 8 * |src|
    ensures Cut(Load(src + behind, at, n), Off(i, w) - 8 * at, w) == Value(src, i, w)
  {
    AndMask(Shr(Load(src + behind, at, n), Off(i, w) - 8 * at), w);
    FieldInWord(src + behind, at, n, Off(i, w), w);
    FieldInPrefix(src, behind, Off(i, w), w);
  }

  // src_len.saturating_sub(n)
  function LastLoad(len: nat, n: nat): nat {
    if n <= len then len - n else 0
  }

  // What every kernel does behind its last whole group: loads that start up to the last
  // place where n bytes fit are made in one piece, those behind it are padded with zeros.
  // At the start of a source of fewer than n bytes the load goes past it.
  method TailValue(src: seq<byte>, behind: seq<byte>, i: nat, w: nat, n: nat) returns (v: nat, ghost past: bool)
    requires w + 7 <= 8 * n && Off(i, w) + w <= 8 * |src|
    requires n <= |src| || n <= |behind|
    ensures v == Value(src, i, w)
    ensures past <==> Off(i, w) < 8 && |src| < n
  {
    OffIsMul(i, w);
    var t := i * w;
    if t / 8 <= LastLoad(|src|, n) {
      past := t / 8 + n > |src|;
      CutIsValue(src, behind, t / 8, n, i, w);
      v := Cut(Load(src + behind, t / 8, n), t % 8, w);
    } else {
      past := false;
      PaddedValue(src, i, t, w, n);
      v := Cut(LoadPadded(src, t / 8, n), t % 8, w);
    }
  }

  lemma PaddedValue(src: seq<byte>, i: nat, t: nat, w: nat, n: nat)
    requires w + 7 <= 8 * n && t == Off(i, w) && t + w <= 8 * |src|
    ensures Cut(LoadPadded(src, t / 8, n), t % 8, w) == Value(src, i, w)
  {
    var pad: seq<byte> := seq(n, _ => 0);
    PaddedIsLoad(src, pad, t / 8, n);
    CutIsValue(src, pad, t / 8, n, i, w);
  }

  // the first n values
  function Values(src: seq<byte>, n: nat, w: nat): (vs: seq<nat>)
    ensures |vs| == n
  {
    seq(n, i requires 0 <= i < n => Value(src, i, w))
  }

  lemma ValuesAreUnpack(src: seq<byte>, n: nat, w: nat)
    ensures Values(src, n, w) == Unpack(src, n, w)
  {
  }

  // ---------- groups of eight ----------

  // Value k of group g, loaded d bytes into the group and shifted by s.
  lemma GroupValue(src: seq<byte>, behind: seq<byte>, g: nat, k: nat, w: nat, d: nat, s: nat, n: nat)
    requires 8 * d + s == Off(k, w) && s + w <= 8 * n
    requires Off(g, w) + d + n <= |src| + |behind| && Off(8 * g + k, w) + w <= 8 * |src|
    ensures Cut(Load(src + behind, Off(g, w) + d, n), s, w) == Value(src, 8 * g + k, w)
  {
    OffBytes(g, w);
    OffAdd(8 * g, k, w);
    CutIsValue(src, behind, Off(g, w) + d, n, 8 * g + k, w);
  }

  // Cutting the word to n bits first changes nothing below bit n.
  lemma CutOfLow(x: nat, n: nat, s: nat, w: nat)
    requires s + w <= n
    ensures Cut(Low(x, n), s, w) == Cut(x, s, w)
  {
    ShrLowIsDivMod(x, n);
    FieldBelow(Low(x, n), Shr(x, n), s, w, n);
    AndMask(Shr(Low(x, n), s), w);
    AndMask(Shr(x, s), w);
  }

  lemma CutOfShr(x: nat, j: nat, s: nat, w: nat)
    ensures Cut(Shr(x, j), s, w) == Cut(x, j + s, w)
  {
    ShrShr(x, j, s);
  }

  // how many values fit in the source
  ghost predicate Covers(src: seq<byte>, count: nat, w: nat) {
    |src| >= PackedSize(count, w)
  }

  lemma InSource(src: seq<byte>, count: nat, w: nat, i: nat)
    requires Covers(src, count, w) && i < count
    ensures Off(i, w) + w <= 8 * |src|
  {
    OffMono(i + 1, count, w);
  }

  // widths below 16: one 16-byte load, its halves four values each
  method GroupLe16(src: seq<byte>, count: nat, g: nat, w: nat) returns (vs: seq<nat>)
    requires 3 <= w <= 15 && Covers(src, count, w) && 8 * g + 8 <= count && g * w + WORD128 <= |src|
    ensures vs == Values(src, 8 * g + 8, w)[8 * g..]
  {
    OffIsMul(g, w);
    var chunk := Load(src, g * w, WORD128);
    var w0, w1 := Low(chunk, 64), Low(Shr(chunk, 4 * w), 64);
    vs := Halves(w0, w1, 0, w);
    forall k | 0 <= k < 8 ensures vs[k] == Value(src, 8 * g + k, w) {
      InSource(src, count, w, 8 * g + k);
      Le16Value(src, g, k, w, chunk, 64);
    }
    GroupIs(src, g, w, vs);
  }

  lemma Le16Value(src: seq<byte>, g: nat, k: nat, w: nat, chunk: nat, n: nat)
    requires k < 8 && 4 * w <= n && 8 * w <= 8 * WORD128 && Off(g, w) + WORD128 <= |src|
    requires chunk == Load(src, Off(g, w), WORD128) && Off(8 * g + k, w) + w <= 8 * |src|
    ensures Halves(Low(chunk, n), Low(Shr(chunk, 4 * w), n), 0, w)[k] == Value(src, 8 * g + k, w)
  {
    OffIsMul(k, w);
    assert src + [] == src;
    GroupValue(src, [], g, k, w, 0, k * w, WORD128);
    if k < 4 {
      CutOfLow(chunk, n, k * w, w);
    } else {
      CutOfLow(Shr(chunk, 4 * w), n, (k - 4) * w, w);
      CutOfShr(chunk, 4 * w, (k - 4) * w, w);
      assert 4 * w + (k - 4) * w == k * w;
    }
  }

  lemma GroupIs(src: seq<byte>, g: nat, w: nat, vs: seq<nat>)
    requires |vs| == 8 && forall k :: 0 <= k < 8 ==> vs[k] == Value(src, 8 * g + k, w)
    ensures vs == Values(src, 8 * g + 8, w)[8 * g..]
  {
  }

  // widths 17 to 31: two overlapping 16-byte loads
  method Group17To32(src: seq<byte>, count: nat, g: nat, w: nat) returns (vs: seq<nat>)
    requires 17 <= w <= 31 && Covers(src, count, w) && 8 * g + 8 <= count
    requires g * w + 4 * w / 8 + WORD128 <= |src|
    ensures vs == Values(src, 8 * g + 8, w)[8 * g..]
  {
    OffIsMul(g, w);
    var mid, shift := 4 * w / 8, 4 * w % 8;
    var c0, c1 := Load(src, g * w, WORD128), Load(src, g * w + mid, WORD128);
    vs := Halves(c0, c1, shift, w);
    forall k | 0 <= k < 8 ensures vs[k] == Value(src, 8 * g + k, w) {
      InSource(src, count, w, 8 * g + k);
      HalfValue(src, g, k, w, mid, shift, c0, c1);
    }
    GroupIs(src, g, w, vs);
  }

  // four values of each word, those of the second from bit `shift` on
  function Halves(c0: nat, c1: nat, shift: nat, w: nat): (vs: seq<nat>)
    ensures |vs| == 8
  {
    seq(8, k requires 0 <= k < 8 => if k < 4 then Cut(c0, k * w, w) else Cut(c1, shift + (k - 4) * w, w))
  }

  lemma MulSplit(k: nat, w: nat)
    requires 4 <= k < 8
    ensures 0 <= (k - 4) * w <= 3 * w && k * w == 4 * w + (k - 4) * w
  {
  }

  lemma HalfValue(src: seq<byte>, g: nat, k: nat, w: nat, mid: nat, shift: nat, c0: nat, c1: nat)
    requires k < 8 && 8 * mid + shift == 4 * w && shift + 4 * w <= 8 * WORD128
    requires Off(g, w) + mid + WORD128 <= |src| && Off(8 * g + k, w) + w <= 8 * |src|
    requires c0 == Load(src, Off(g, w), WORD128) && c1 == Load(src, Off(g, w) + mid, WORD128)
    ensures Halves(c0, c1, shift, w)[k] == Value(src, 8 * g + k, w)
  {
    OffIsMul(k, w);
    assert src + [] == src;
    if k < 4 {
      GroupValue(src, [], g, k, w, 0, k * w, WORD128);
    } else {
      MulSplit(k, w);
      GroupValue(src, [], g, k, w, mid, shift + (k - 4) * w, WORD128);
    }
  }

  // widths 33 to 63: one load a value, of 8 bytes up to width 56 and of 16 above. The
  // loads of a last group may go past the source; what is there does not matter.
  method Group33To63(src: seq<byte>, behind: seq<byte>, count: nat, g: nat, w: nat)
      returns (vs: seq<nat>, ghost past: bool)
    requires 33 <= w <= 63 && Covers(src, count, w) && 8 * g + 8 <= count
    requires |behind| >= WORD128 || Off(g, w) + 7 * w / 8 + WideLoad(w) <= |src|
    ensures vs == Values(src, 8 * g + 8, w)[8 * g..]
    ensures past <==> Off(g, w) + 7 * w / 8 + WideLoad(w) > |src|
  {
    OffIsMul(g, w);
    vs, past := [], false;
    var k := 0;
    while k < 8
      invariant 0 <= k <= 8 && |vs| == k
      invariant forall j :: 0 <= j < k ==> vs[j] == Value(src, 8 * g + j, w)
      invariant past <==> k > 0 && g * w + (k - 1) * w / 8 + WideLoad(w) > |src|
    {
      InSource(src, count, w, 8 * g + k);
      OffIsMul(k, w);
      var at, t := g * w, k * w;
      UpToLast(k, w);
      past := past || at + t / 8 + WideLoad(w) > |src|;
      WideValue(src, behind, g, k, w, WideLoad(w), at, t);
      var v := Cut(Load(src + behind, at + t / 8, WideLoad(w)), t % 8, w);
      vs := vs + [v];
      k := k + 1;
    }
    GroupIs(src, g, w, vs);
  }

  // bytes of a load for widths above 32
  function WideLoad(w: nat): nat { if w <= 56 then WORD64 else WORD128 }

  // A group's loads start in order.
  lemma UpToLast(k: nat, w: nat)
    requires k < 8
    ensures k * w / 8 <= 7 * w / 8 && (k > 0 ==> (k - 1) * w / 8 <= k * w / 8)
  {
    assert k * w <= 7 * w;
    if k > 0 {
      assert (k - 1) * w <= k * w;
    }
  }

  lemma WideValue(src: seq<byte>, behind: seq<byte>, g: nat, k: nat, w: nat, n: nat, at: nat, t: nat)
    requires w + 7 <= 8 * n && Off(8 * g + k, w) + w <= 8 * |src|
    requires at == Off(g, w) && t == Off(k, w)
    requires n <= |behind| || at + t / 8 + n <= |src|
    ensures at + t / 8 + n <= |src| + |behind|
    ensures Cut(Load(src + behind, at + t / 8, n), t % 8, w) == Value(src, 8 * g + k, w)
  {
    assert Off(8 * g + k, w) == 8 * at + t by {
      OffBytes(g, w);
      OffAdd(8 * g, k, w);
    }
    GroupValue(src, behind, g, k, w, t / 8, t % 8, n);
  }

  // widths 1, 2 and 4: values do not straddle bytes
  method UnpackSubByte(src: seq<byte>, count: nat, w: nat) returns (vs: seq<nat>)
    requires (w == 1 || w == 2 || w == 4) && Covers(src, count, w)
    ensures vs == Unpack(src, count, w)
  {
    vs := [];
    var i := 0;
    while i < count
      invariant 0 <= i <= count && vs == Values(src, i, w)
    {
      InSource(src, count, w, i);
      OffIsMul(i, w);
      assert src + [] == src;
      var t := i * w;
      InOneByte(t, w);
      ByteLoad(src, t / 8);
      CutIsValue(src, [], t / 8, 1, i, w);
      vs := vs + [Cut(src[t / 8], t % 8, w)];
      i := i + 1;
    }
    ValuesAreUnpack(src, count, w);
  }

  lemma ByteLoad(src: seq<byte>, at: nat)
    requires at < |src|
    ensures Load(src, at, 1) == src[at]
  {
    assert src[at..at + 1] == [src[at]];
    assert LeVal([src[at]]) == src[at] + 256 * LeVal([]);
  }

  lemma InOneByte(t: nat, w: nat)
    requires (w == 1 || w == 2 || w == 4) && exists i: nat :: t == i * w
    ensures t % 8 + w <= 8
  {
  }

  // widths 8, 16, 32 and 64: whole little-endian words
  method UnpackWhole(src: seq<byte>, count: nat, w: nat, n: nat) returns (vs: seq<nat>)
    requires w == 8 * n && n > 0 && Covers(src, count, w)
    ensures vs == Unpack(src, count, w)
  {
    vs := [];
    var i := 0;
    while i < count
      invariant 0 <= i <= count && vs == Values(src, i, w)
    {
      InSource(src, count, w, i);
      WholeWord(src, i, w, n);
      vs := vs + [Load(src, i * n, n)];
      i := i + 1;
    }
    ValuesAreUnpack(src, count, w);
  }

  lemma WholeWord(src: seq<byte>, i: nat, w: nat, n: nat)
    requires w == 8 * n && n > 0 && Off(i, w) + w <= 8 * |src|
    ensures i * n + n <= |src| && Load(src, i * n, n) == Value(src, i, w)
  {
    OffIsMul(i, w);
    assert i * (8 * n) == 8 * (i * n);
    assert src + [] == src;
    CutIsValue(src, [], i * n, n, i, w);
    LeValBound(src[i * n..i * n + n]);
    AndMask(Load(src, i * n, n), w);
    SmallWord(Load(src, i * n, n), w);
  }

  // a width whose values are neither whole bytes nor inside one
  predicate Uneven(w: nat) { 3 <= w <= 63 && w != 4 && w != 8 && w != 16 && w != 32 }

  // Every load for `count` values stays inside a source of len bytes.
  predicate StaysInside(len: nat, count: nat, w: nat) {
    || count == 0
    || !Uneven(w)
    || (if w < 33 then WORD64 <= len
        else if count < GROUP then WORD128 <= len
        else 7 * w / 8 + WideLoad(w) <= len)
  }

  // The guard of the group loops; byteOff is the group's first byte.
  predicate LoadsAllowed(len: nat, byteOff: nat, w: nat) {
    if w < 16 then byteOff + w + WORD128 <= len
    else if w < 32 then byteOff + w + 4 * w / 8 + WORD128 <= len
    else byteOff == 0 || byteOff + w + WORD128 <= len
  }

  // One group of eight with the kernel of its width.
  method UnpackGroup(src: seq<byte>, behind: seq<byte>, count: nat, g: nat, w: nat)
      returns (vs: seq<nat>, ghost past: bool)
    requires Uneven(w) && Covers(src, count, w) && 8 * g + 8 <= count && LoadsAllowed(|src|, g * w, w)
    requires |behind| >= WORD128 || StaysInside(|src|, count, w)
    ensures vs == Values(src, 8 * g + 8, w)[8 * g..]
    ensures past <==> g == 0 && !StaysInside(|src|, count, w)
  {
    past := false;
    OffIsMul(g, w);
    GroupStart(g, w);
    if w < 16 {
      vs := GroupLe16(src, count, g, w);
    } else if w < 32 {
      vs := Group17To32(src, count, g, w);
    } else {
      vs, past := Group33To63(src, behind, count, g, w);
    }
  }

  lemma GroupStart(g: nat, w: nat)
    requires w > 0
    ensures g * w == 0 <==> g == 0
  {
    if g > 0 {
      assert g * w == w + (g - 1) * w;
    }
  }

  // Of the values read one by one only those at the start can be loaded past the source.
  lemma TailInside(len: nat, count: nat, i: nat, w: nat)
    requires Uneven(w) && i < count && (i == 0 ==> w < 32 || count < 8)
    ensures var past := Off(i, w) < 8 && len < (if w < 33 then WORD64 else WORD128);
      (past ==> !StaysInside(len, count, w)) && (i == 0 ==> (past <==> !StaysInside(len, count, w)))
  {
    if i > 0 {
      OffMono(1, i, w);
      assert Off(1, w) == Off(0, w) + w;
    }
  }

  // The other widths: groups of eight while their loads stay inside the source (or,
  // above 32 bits, are the first), then one value at a time.
  method UnpackGroups(src: seq<byte>, behind: seq<byte>, count: nat, w: nat) returns (vs: seq<nat>, ghost past: bool)
    requires Uneven(w) && Covers(src, count, w)
    requires |behind| >= WORD128 || StaysInside(|src|, count, w)
    ensures vs == Unpack(src, count, w)
    ensures past <==> !StaysInside(|src|, count, w)
  {
    var groups := count / 8;
    var g := 0;
    vs, past := [], false;
    while g < groups && LoadsAllowed(|src|, g * w, w)
      invariant 0 <= g <= groups && vs == Values(src, 8 * g, w)
      invariant past <==> g > 0 && !StaysInside(|src|, count, w)
    {
      var group, pastGroup := UnpackGroup(src, behind, count, g, w);
      assert Values(src, 8 * g + 8, w)[..8 * g] == Values(src, 8 * g, w);
      vs, past := vs + group, past || pastGroup;
      g := g + 1;
    }
    assert g == 0 ==> w < 32 || count < 8;
    var i := 8 * g;
    while i < count
      invariant 8 * g <= i <= count && vs == Values(src, i, w)
      invariant past <==> i > 0 && !StaysInside(|src|, count, w)
    {
      InSource(src, count, w, i);
      var v, pastTail := TailValue(src, behind, i, w, if w < 33 then WORD64 else WORD128);
      TailInside(|src|, count, i, w);
      vs, past := vs + [v], past || pastTail;
      i := i + 1;
    }
    ValuesAreUnpack(src, count, w);
  }

  // Every width, whatever lies behind the source.
  method BitUnpack(src: seq<byte>, behind: seq<byte>, count: nat, w: nat) returns (vs: seq<nat>, ghost past: bool)
    requires w <= 64 && Covers(src, count, w)
    requires |behind| >= WORD128 || StaysInside(|src|, count, w)
    ensures vs == Unpack(src, count, w)
    ensures past <==> !StaysInside(|src|, count, w)
  {
    past := false;
    if w == 0 {
      vs := seq(count, _ => 0);
      assert vs == Unpack(src, count, 0);
    } else if w == 1 || w == 2 || w == 4 {
      vs := UnpackSubByte(src, count, w);
    } else if w == 8 || w == 16 || w == 32 || w == 64 {
      vs := UnpackWhole(src, count, w, w / 8);
    } else {
      vs, past := UnpackGroups(src, behind, count, w);
    }
  }
}
