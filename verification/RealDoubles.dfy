/**
 Real-doubles blocks: the high bits of every float from a table of at most eight
 entries, the low bits packed, and an exception where the table has no entry.

 Index slots of exceptions are never written: they keep whatever the reused buffer
 held. Positions of exceptions are cut to sixteen bits.
 */
module RealDoubles {
  import opened Wrappers
  import opened Words
  import opened Buffers
  import opened Floats
  import opened Params
  import opened Packers
  import opened Header
  import opened Blocks
  import opened Decoding
  import opened Lossless

  // width of the low part and the table of high parts
  datatype RdScheme = RdScheme(rightWidth: nat, dict: seq<nat>) {
    // what the search for a scheme yields: a cut of 1 to 16 bits (1 to 8 for f32)
    predicate Valid(k: FloatKind) {
      && 1 <= |dict| <= MAX_RD_DICT_SIZE
      && k.Bits() - MaxCut(k) <= rightWidth < k.Bits()
      && forall i :: 0 <= i < |dict| ==> dict[i] < Pow2(k.Bits() - rightWidth)
    }
  }

  function MaxCut(k: FloatKind): nat { if k.F64? then 16 else 8 }

  function LeftWidth(size: nat): nat {
    if size <= 1 then 0 else BitsNeeded(size - 1)
  }

  // the least width that holds every index of the table
  lemma LeftWidthIff(size: nat, w: nat)
    requires size > 0
    ensures LeftWidth(size) <= w <==> size <= Pow2(w)
  {
    BitsNeededIff(size - 1, w);
  }

  function LeftOf(v: nat, rw: nat): nat { Shr(v, rw) }

  // index of the first table entry equal to left
  function Find(dict: seq<nat>, left: nat): Option<nat> {
    if dict == [] then None
    else if dict[0] == left then Some(0)
    else
      var r := Find(dict[1..], left);
      if r.None? then None else Some(1 + r.value)
  }

  lemma {:induction false} FindExact(dict: seq<nat>, left: nat)
    ensures Find(dict, left).Some? ==> Find(dict, left).value < |dict| && dict[Find(dict, left).value] == left
    ensures Find(dict, left).None? ==> left !in dict
  {
    if dict != [] {
      FindExact(dict[1..], left);
    }
  }

  // the element's index, or what was in its slot before; a table of one entry needs
  // no indices
  function LeftIndex(s: RdScheme, v: nat, stale: nat): nat {
    var r := Find(s.dict, LeftOf(v, s.rightWidth));
    if |s.dict| > 1 && r.Some? then r.value else stale
  }

  function LeftIndices(s: RdScheme, slice: seq<nat>, stale: seq<nat>): (r: seq<nat>)
    requires |stale| == |slice|
    ensures |r| == |slice|
  {
    seq(|slice|, i requires 0 <= i < |slice| => LeftIndex(s, slice[i], stale[i]))
  }

  function RightParts(s: RdScheme, slice: seq<nat>): (r: seq<nat>)
    ensures |r| == |slice|
  {
    seq(|slice|, i requires 0 <= i < |slice| => Low(slice[i], s.rightWidth))
  }

  predicate IsRdException(s: RdScheme, v: nat) {
    LeftOf(v, s.rightWidth) !in s.dict
  }

  // exceptions below position n, their positions cut to u16
  function RdExceptions(s: RdScheme, slice: seq<nat>, n: nat): seq<RdException>
    requires n <= |slice|
  {
    if n == 0 then []
    else
      RdExceptions(s, slice, n - 1)
        + (if IsRdException(s, slice[n - 1])
           then [RdException((n - 1) % 0x1_0000, LeftOf(slice[n - 1], s.rightWidth))] else [])
  }

  // Splits every float and looks its high part up.
  method EncodeRdFast(k: FloatKind, s: RdScheme, slice: seq<nat>, lefts: array<u64>)
      returns (rights: seq<nat>, es: seq<RdException>)
    requires s.Valid(k) && lefts.Length == |slice|
    modifies lefts
    ensures lefts[..] == LeftIndices(s, slice, old(lefts[..]))
    ensures rights == RightParts(s, slice)
    ensures es == RdExceptions(s, slice, |slice|)
  {
    rights, es := [], [];
    ghost var stale := lefts[..];
    var i := 0;
    while i < |slice|
      invariant 0 <= i <= |slice| && |rights| == i
      invariant forall j :: 0 <= j < i ==> rights[j] == Low(slice[j], s.rightWidth)
      invariant forall j :: 0 <= j < i ==> lefts[j] == LeftIndex(s, slice[j], stale[j])
      invariant forall j :: i <= j < |slice| ==> lefts[j] == stale[j]
      invariant es == RdExceptions(s, slice, i)
    {
      var left := LeftOf(slice[i], s.rightWidth);
      rights := rights + [BitAnd(slice[i], Mask(s.rightWidth))];
      AndMask(slice[i], s.rightWidth);
      var r := Find(s.dict, left);
      FindExact(s.dict, left);
      if r.Some? {
        if |s.dict| > 1 {
          lefts[i] := r.value;
        }
      } else {
        es := es + [RdException(i % 0x1_0000, left)];
      }
      i := i + 1;
    }
  }

  // ---------- the block ----------

  function U16Bytes(vs: seq<nat>): (b: seq<byte>)
    ensures |b| == 2 * |vs|
  {
    if vs == [] then [] else LeBytes(vs[0], 2) + U16Bytes(vs[1..])
  }

  function RdExceptionBytes(es: seq<RdException>): (b: seq<byte>)
    ensures |b| == 4 * |es|
  {
    if es == [] then [] else LeBytes(es[0].pos, 2) + LeBytes(es[0].left, 2) + RdExceptionBytes(es[1..])
  }

  // right width, left width, table size, exception count cut to u16
  function RdHead(s: RdScheme, excCount: nat): (b: seq<byte>)
    requires s.rightWidth < 256 && |s.dict| <= MAX_RD_DICT_SIZE
    ensures |b| == 5
  {
    [s.rightWidth, LeftWidth(|s.dict|) % 256, |s.dict|] + LeBytes(excCount % 0x1_0000, 2)
  }

  function LeftPacked(s: RdScheme, lefts: seq<nat>): seq<byte> {
    var w := LeftWidth(|s.dict|);
    if w > 0 then Packed(LowAll(lefts, w), w) else []
  }

  function RdPayload(s: RdScheme, slice: seq<nat>, stale: seq<nat>): seq<byte>
    requires s.rightWidth < 256 && |s.dict| <= MAX_RD_DICT_SIZE && |stale| == |slice|
  {
    var es := RdExceptions(s, slice, |slice|);
    RdHead(s, |es|) + U16Bytes(s.dict) + LeftPacked(s, LeftIndices(s, slice, stale))
      + Packed(RightParts(s, slice), s.rightWidth) + RdExceptionBytes(es)
  }

  function RdFrame(k: FloatKind, s: RdScheme, slice: seq<nat>, stale: seq<nat>): seq<byte>
    requires s.rightWidth < 256 && |s.dict| <= MAX_RD_DICT_SIZE && |stale| == |slice|
  {
    WriteHeader(RdByte(k), false, |slice|, None) + RdPayload(s, slice, stale)
  }

  lemma RightPartsFit(s: RdScheme, slice: seq<nat>)
    ensures AllBelow(RightParts(s, slice), s.rightWidth)
  {
    forall i | 0 <= i < |slice| ensures RightParts(s, slice)[i] < Pow2(s.rightWidth) {
      ShrLowIsDivMod(slice[i], s.rightWidth);
    }
  }

  lemma PartsFitWord(k: FloatKind, s: RdScheme, slice: seq<nat>)
    requires s.Valid(k)
    ensures forall i :: 0 <= i < |slice| ==> RightParts(s, slice)[i] < 0x1_0000_0000_0000_0000
  {
    RightPartsFit(s, slice);
    Pow2Mono(s.rightWidth, 64);
    Pow2Of64();
  }

  method WriteRdChunk(k: FloatKind, s: RdScheme, slice: seq<nat>, lefts: seq<u64>, rights: seq<u64>,
                      es: seq<RdException>, ghost stale: seq<nat>, dst: ByteVec)
    requires dst.Valid() && s.Valid(k) && |stale| == |slice|
    requires lefts == LeftIndices(s, slice, stale) && rights == RightParts(s, slice)
    requires es == RdExceptions(s, slice, |slice|)
    modifies dst, dst.buf
    ensures dst.Valid() && (dst.buf == old(dst.buf) || fresh(dst.buf))
    ensures dst.Bytes() == old(dst.Bytes()) + RdFrame(k, s, slice, stale)
  {
    ghost var before := dst.Bytes();
    var lw := LeftWidth(|s.dict|);
    dst.ExtendFromSlice(WriteHeader(RdByte(k), false, |slice|, None));
    dst.ExtendFromSlice(RdHead(s, |es|) + U16Bytes(s.dict));
    LeftWidthFits(|s.dict|);
    if lw > 0 {
      BitpackU64(lefts, lw, dst);
    }
    RightPartsFit(s, slice);
    LowAllInRange(rights, s.rightWidth);
    BitpackU64(rights, s.rightWidth, dst);
    dst.ExtendFromSlice(RdExceptionBytes(es));
    RegroupRd(before, WriteHeader(RdByte(k), false, |slice|, None), RdHead(s, |es|), U16Bytes(s.dict),
              LeftPacked(s, lefts), Packed(rights, s.rightWidth), RdExceptionBytes(es));
  }

  lemma RegroupRd(s: seq<byte>, a: seq<byte>, b: seq<byte>, c: seq<byte>, d: seq<byte>, e: seq<byte>, f: seq<byte>)
    ensures s + a + (b + c) + d + e + f == s + (a + (b + c + d + e + f))
    ensures d == [] ==> s + a + (b + c) + e + f == s + (a + (b + c + d + e + f))
  {
  }

  // the candidate's predicted size
  function RdTotalSize(s: RdScheme, count: nat, excs: nat): nat {
    RawHeaderLen(count) + 5 + |s.dict| * 2 + LeftBytes(count, LeftWidth(|s.dict|))
      + PackedSize(count, s.rightWidth) + excs * 4
  }

  lemma RdFrameSize(k: FloatKind, s: RdScheme, slice: seq<nat>, stale: seq<nat>)
    requires s.rightWidth < 256 && |s.dict| <= MAX_RD_DICT_SIZE && |stale| == |slice|
    ensures |RdFrame(k, s, slice, stale)| == RdTotalSize(s, |slice|, |RdExceptions(s, slice, |slice|)|)
  {
  }

  lemma LeftWidthFits(size: nat)
    requires size <= MAX_RD_DICT_SIZE
    ensures LeftWidth(size) <= 3
    ensures size > 0 ==> size <= Pow2(LeftWidth(size))
    ensures LeftWidth(size) == 0 <==> size <= 1
  {
    if size > 1 {
      BitsNeededExact(size - 1);
      assert Pow2(3) == 8;
      BitsNeededIff(size - 1, 3);
    }
  }

  // ---------- when the block restores the slice ----------

  // Positions and number of the exceptions survive being cut to sixteen bits.
  predicate ExceptionsAddressable(s: RdScheme, slice: seq<nat>) {
    && (forall i :: 0x1_0000 <= i < |slice| ==> !IsRdException(s, slice[i]))
    && |RdExceptions(s, slice, |slice|)| < 0x1_0000
  }

  // Blocks of at most 65535 elements are always addressable.
  lemma {:induction false} RdExceptionsCount(s: RdScheme, slice: seq<nat>, n: nat)
    requires n <= |slice|
    ensures |RdExceptions(s, slice, n)| <= n
  {
    if n > 0 {
      RdExceptionsCount(s, slice, n - 1);
    }
  }

  lemma SmallBlocksAddressable(s: RdScheme, slice: seq<nat>)
    requires |slice| <= 0xFFFF
    ensures ExceptionsAddressable(s, slice)
  {
    RdExceptionsCount(s, slice, |slice|);
  }

  // ---------- joining the two parts ----------

  lemma JoinIsSum(k: FloatKind, left: nat, right: nat, rw: nat)
    requires right < Pow2(rw) && rw <= k.Bits()
    ensures RdJoin(k, left, right, rw) == Low(right + Shl(left, rw), k.Bits())
  {
    OrComm(right, ShlWord(left, rw, WORD_BITS));
    OrShifted(right, left, rw, WORD_BITS);
    LowLow(right + Shl(left, rw), k.Bits(), WORD_BITS);
  }

  lemma WholeSum(v: nat, left: nat, right: nat, rw: nat, n: nat)
    requires v < Pow2(n) && left == LeftOf(v, rw) && right == Low(v, rw)
    ensures Low(right + Shl(left, rw), n) == v && right < Pow2(rw)
  {
    ShrLowIsDivMod(v, rw);
    SmallWord(v, n);
  }

  // A float is put together again from its own two parts.
  lemma JoinRestores(k: FloatKind, v: nat, rw: nat)
    requires v < Pow2(k.Bits()) && rw <= k.Bits()
    ensures RdJoin(k, LeftOf(v, rw), Low(v, rw), rw) == v
  {
    var left, right, n := LeftOf(v, rw), Low(v, rw), k.Bits();
    WholeSum(v, left, right, rw, n);
    JoinIs(k, left, right, rw, n, v);
  }

  lemma JoinIs(k: FloatKind, left: nat, right: nat, rw: nat, n: nat, v: nat)
    requires right < Pow2(rw) && rw <= n == k.Bits()
    requires Low(right + Shl(left, rw), n) == v
    ensures RdJoin(k, left, right, rw) == v
  {
    JoinIsSum(k, left, right, rw);
  }

  // Both parts can be read off a joined float.
  lemma JoinParts(k: FloatKind, left: nat, right: nat, rw: nat)
    requires right < Pow2(rw) && rw <= k.Bits() && left < Pow2(k.Bits() - rw)
    ensures Low(RdJoin(k, left, right, rw), rw) == right
    ensures LeftOf(RdJoin(k, left, right, rw), rw) == left
  {
    JoinIsSum(k, left, right, rw);
    ShlLt(left, k.Bits() - rw, rw);
    SmallWord(right + Shl(left, rw), k.Bits());
    Split(right, left, rw);
    SmallWord(right, rw);
  }

  // ---------- the exception list ----------

  // e stands for the exception at position i
  predicate Describes(s: RdScheme, slice: seq<nat>, e: RdException, i: nat) {
    i < |slice| && IsRdException(s, slice[i])
    && e == RdException(i % 0x1_0000, LeftOf(slice[i], s.rightWidth))
  }

  lemma {:induction false} RdExceptionsComplete(s: RdScheme, slice: seq<nat>, n: nat, i: nat)
    requires i < n <= |slice| && IsRdException(s, slice[i])
    ensures RdException(i % 0x1_0000, LeftOf(slice[i], s.rightWidth)) in RdExceptions(s, slice, n)
  {
    if i < n - 1 {
      RdExceptionsComplete(s, slice, n - 1, i);
    }
  }

  lemma {:induction false} RdExceptionsSound(s: RdScheme, slice: seq<nat>, n: nat, e: RdException) returns (i: nat)
    requires n <= |slice| && e in RdExceptions(s, slice, n)
    ensures i < n && Describes(s, slice, e, i)
  {
    if e in RdExceptions(s, slice, n - 1) {
      i := RdExceptionsSound(s, slice, n - 1, e);
    } else {
      i := n - 1;
    }
  }

  // No exception beyond position m: the list is that of the first m elements.
  lemma {:induction false} RdExceptionsEnd(s: RdScheme, slice: seq<nat>, m: nat, n: nat)
    requires m <= n <= |slice| && forall i :: m <= i < n ==> !IsRdException(s, slice[i])
    ensures RdExceptions(s, slice, n) == RdExceptions(s, slice, m)
  {
    if m < n {
      RdExceptionsEnd(s, slice, m, n - 1);
    }
  }

  lemma {:induction false} ReadBackExceptions(es: seq<RdException>)
    requires forall j :: 0 <= j < |es| ==> es[j].pos < 0x1_0000 && es[j].left < 0x1_0000
    ensures ReadRdExceptions(RdExceptionBytes(es)) == es
  {
    if es != [] {
      var a, b, rest := LeBytes(es[0].pos, 2), LeBytes(es[0].left, 2), RdExceptionBytes(es[1..]);
      Pow2Of16();
      LeRoundTrip(es[0].pos, 2);
      LeRoundTrip(es[0].left, 2);
      EntryParts(a, b, rest, RdExceptionBytes(es));
      ReadBackExceptions(es[1..]);
    }
  }

  lemma EntryParts(a: seq<byte>, b: seq<byte>, rest: seq<byte>, src: seq<byte>)
    requires src == a + b + rest && |a| == 2 && |b| == 2
    ensures src[..2] == a && src[2..4] == b && src[4..] == rest
  {
  }

  lemma {:induction false} ExceptionBytesPrefix(es: seq<RdException>, n: nat)
    requires n <= |es|
    ensures RdExceptionBytes(es)[..4 * n] == RdExceptionBytes(es[..n])
  {
    if n > 0 {
      ExceptionBytesPrefix(es[1..], n - 1);
      assert es[..n][1..] == es[1..][..n - 1];
      var head := LeBytes(es[0].pos, 2) + LeBytes(es[0].left, 2);
      PrefixOfConcat(head, RdExceptionBytes(es[1..]), 4 * (n - 1));
    }
  }

  lemma PrefixOfConcat(a: seq<byte>, b: seq<byte>, n: nat)
    requires n <= |b|
    ensures (a + b)[..|a| + n] == a + b[..n]
  {
  }

  lemma {:induction false} U16RoundTrip(vs: seq<nat>)
    requires forall i :: 0 <= i < |vs| ==> vs[i] < 0x1_0000
    ensures U16s(U16Bytes(vs)) == vs
  {
    if vs != [] {
      var bytes := U16Bytes(vs);
      Pow2Of16();
      LeRoundTrip(vs[0], 2);
      assert bytes[..2] == LeBytes(vs[0], 2) && bytes[2..] == U16Bytes(vs[1..]);
      U16RoundTrip(vs[1..]);
    }
  }

  // ---------- what the decoder makes of the block ----------

  // the indices the decoder reads: exceptions show what was left in their slot
  function ReadLefts(s: RdScheme, slice: seq<nat>, stale: seq<nat>): (r: seq<nat>)
    requires |stale| == |slice|
    ensures |r| == |slice|
  {
    var lw := LeftWidth(|s.dict|);
    if lw == 0 then Zeros(|slice|) else LowAll(LeftIndices(s, slice, stale), lw)
  }

  // the values before exceptions are patched
  function Unpatched(k: FloatKind, s: RdScheme, slice: seq<nat>, stale: seq<nat>): (r: seq<nat>)
    requires |stale| == |slice|
    ensures |r| == |slice|
  {
    RdValues(k, s.dict, ReadLefts(s, slice, stale), RightParts(s, slice), s.rightWidth)
  }

  // the exceptions the decoder sees: as many as the sixteen-bit count says
  function SeenExceptions(s: RdScheme, slice: seq<nat>): seq<RdException> {
    var es := RdExceptions(s, slice, |slice|);
    es[..|es| % 0x1_0000]
  }

  lemma LeftsReadBack(s: RdScheme, slice: seq<nat>, stale: seq<nat>, lw: nat)
    requires |stale| == |slice| && lw == LeftWidth(|s.dict|) > 0
    ensures Unpack(LeftPacked(s, LeftIndices(s, slice, stale)), |slice|, lw) == ReadLefts(s, slice, stale)
  {
    var vs := LowAll(LeftIndices(s, slice, stale), lw);
    forall i | 0 <= i < |vs| ensures vs[i] < Pow2(lw) {
      ShrLowIsDivMod(LeftIndices(s, slice, stale)[i], lw);
    }
    UnpackPacked(vs, lw);
  }

  lemma RdParts(h: seq<byte>, a: seq<byte>, b: seq<byte>, c: seq<byte>, d: seq<byte>, src: seq<byte>, n: nat)
    requires src == h + a + b + c + d && n <= |d|
    ensures src[|h|..|h| + |a|] == a
    ensures src[|h| + |a|..|h| + |a| + |b|] == b
    ensures src[|h| + |a| + |b|..|h| + |a| + |b| + |c|] == c
    ensures src[|h| + |a| + |b| + |c|..|h| + |a| + |b| + |c| + n] == d[..n]
  {
  }

  // A payload in its parts.
  lemma BodyFromParts(k: FloatKind, src: seq<byte>, count: nat, rw: nat, lw: nat, size: nat, n: nat,
                      a: seq<byte>, b: seq<byte>, c: seq<byte>, d: seq<byte>)
    requires var leftAt, rightAt, excAt := 5 + size * 2, RdRightAt(count, lw, size), RdExcAt(count, rw, lw, size);
      && |src| >= excAt + n * 4
      && src[5..leftAt] == a && src[leftAt..rightAt] == b && src[rightAt..excAt] == c
      && src[excAt..excAt + n * 4] == d
    ensures DecodeRdBody(k, src, count, rw, lw, size, n) == RdAssemble(k, count, rw, lw, a, b, c, d)
  {
  }

  lemma BodySplits(k: FloatKind, src: seq<byte>, count: nat, rw: nat, lw: nat, size: nat, n: nat,
                   h: seq<byte>, a: seq<byte>, b: seq<byte>, c: seq<byte>, d: seq<byte>)
    requires src == h + a + b + c + d && |h| == 5 && |a| == size * 2 && |b| == LeftBytes(count, lw)
    requires |c| == PackedSize(count, rw) && 4 * n <= |d|
    ensures DecodeRdBody(k, src, count, rw, lw, size, n) == RdAssemble(k, count, rw, lw, a, b, c, d[..4 * n])
  {
    RdParts(h, a, b, c, d, src, 4 * n);
    BodyFromParts(k, src, count, rw, lw, size, n, a, b, c, d[..4 * n]);
  }

  lemma HeadFields(s: RdScheme, excCount: nat, h: seq<byte>, src: seq<byte>)
    requires s.rightWidth < 256 && |s.dict| <= MAX_RD_DICT_SIZE && h == RdHead(s, excCount)
    requires |src| >= 5 && src[..5] == h
    ensures src[0] == s.rightWidth && src[1] == LeftWidth(|s.dict|) && src[2] == |s.dict|
    ensures LeVal(src[3..5]) == excCount % 0x1_0000
  {
    LeftWidthFits(|s.dict|);
    Pow2Of16();
    LeRoundTrip(excCount % 0x1_0000, 2);
    assert src[3..5] == h[3..5] == LeBytes(excCount % 0x1_0000, 2);
    assert src[0] == h[0] && src[1] == h[1] && src[2] == h[2];
  }

  lemma DictFits(k: FloatKind, s: RdScheme)
    requires s.Valid(k)
    ensures Pow2(k.Bits() - s.rightWidth) <= 0x1_0000
    ensures forall i :: 0 <= i < |s.dict| ==> s.dict[i] < 0x1_0000
  {
    Pow2Of16();
    Pow2Mono(k.Bits() - s.rightWidth, 16);
  }

  lemma ExceptionsFit(k: FloatKind, s: RdScheme, slice: seq<nat>)
    requires s.Valid(k) && AllBits(k, slice)
    ensures forall e :: e in RdExceptions(s, slice, |slice|) ==> e.pos < 0x1_0000 && e.left < 0x1_0000
  {
    DictFits(k, s);
    forall e | e in RdExceptions(s, slice, |slice|) ensures e.pos < 0x1_0000 && e.left < 0x1_0000 {
      var i := RdExceptionsSound(s, slice, |slice|, e);
      LeftFits(k, s, slice[i]);
    }
  }

  lemma LeftFits(k: FloatKind, s: RdScheme, v: nat)
    requires s.Valid(k) && v < k.Modulus()
    ensures LeftOf(v, s.rightWidth) < Pow2(k.Bits() - s.rightWidth) && v < Pow2(k.Bits())
  {
    ModulusIsPow2(k);
    ShrLt(v, k.Bits() - s.rightWidth, s.rightWidth);
  }

  lemma SeenReadBack(k: FloatKind, s: RdScheme, slice: seq<nat>, es: seq<RdException>, n: nat)
    requires s.Valid(k) && AllBits(k, slice)
    requires es == RdExceptions(s, slice, |slice|) && n == |es| % 0x1_0000
    ensures ReadRdExceptions(RdExceptionBytes(es)[..4 * n]) == SeenExceptions(s, slice)
  {
    ExceptionsFit(k, s, slice);
    ExceptionBytesPrefix(es, n);
    ReadBackExceptions(es[..n]);
  }

  lemma PartsDecode(k: FloatKind, s: RdScheme, slice: seq<nat>, stale: seq<nat>, left: seq<byte>, d: seq<byte>, n: nat)
    requires s.Valid(k) && AllBits(k, slice) && |stale| == |slice|
    requires left == LeftPacked(s, LeftIndices(s, slice, stale))
    requires n == |RdExceptions(s, slice, |slice|)| % 0x1_0000
    requires d == RdExceptionBytes(RdExceptions(s, slice, |slice|))[..4 * n]
    ensures RdAssemble(k, |slice|, s.rightWidth, LeftWidth(|s.dict|), U16Bytes(s.dict), left,
                       Packed(RightParts(s, slice), s.rightWidth), d)
         == PatchRd(k, Unpatched(k, s, slice, stale), SeenExceptions(s, slice), s.rightWidth)
  {
    DictFits(k, s);
    U16RoundTrip(s.dict);
    if LeftWidth(|s.dict|) > 0 {
      LeftsReadBack(s, slice, stale, LeftWidth(|s.dict|));
    }
    RightPartsFit(s, slice);
    UnpackPacked(RightParts(s, slice), s.rightWidth);
    SeenReadBack(k, s, slice, RdExceptions(s, slice, |slice|), n);
  }

  lemma BodyDecodes(k: FloatKind, s: RdScheme, slice: seq<nat>, stale: seq<nat>, src: seq<byte>, n: nat)
    requires s.Valid(k) && AllBits(k, slice) && |stale| == |slice|
    requires src == RdPayload(s, slice, stale) && n == |RdExceptions(s, slice, |slice|)| % 0x1_0000
    ensures DecodeRdBody(k, src, |slice|, s.rightWidth, LeftWidth(|s.dict|), |s.dict|, n)
         == PatchRd(k, Unpatched(k, s, slice, stale), SeenExceptions(s, slice), s.rightWidth)
  {
    var es, lw, rw := RdExceptions(s, slice, |slice|), LeftWidth(|s.dict|), s.rightWidth;
    var left, right := LeftPacked(s, LeftIndices(s, slice, stale)), Packed(RightParts(s, slice), rw);
    BodySplits(k, src, |slice|, rw, lw, |s.dict|, n, RdHead(s, |es|), U16Bytes(s.dict), left, right, RdExceptionBytes(es));
    PartsDecode(k, s, slice, stale, left, RdExceptionBytes(es)[..4 * n], n);
  }

  // What decompression makes of a real-doubles payload, whatever the slots held.
  lemma RdDecodes(k: FloatKind, s: RdScheme, slice: seq<nat>, stale: seq<nat>)
    requires s.Valid(k) && AllBits(k, slice) && |stale| == |slice|
    ensures DecodeRd(k, RdPayload(s, slice, stale), |slice|)
         == PatchRd(k, Unpatched(k, s, slice, stale), SeenExceptions(s, slice), s.rightWidth)
  {
    var es, src := RdExceptions(s, slice, |slice|), RdPayload(s, slice, stale);
    HeadFirst(s, slice, stale);
    HeadFields(s, |es|, RdHead(s, |es|), src);
    LeftWidthFits(|s.dict|);
    BodyDecodes(k, s, slice, stale, src, |es| % 0x1_0000);
  }

  lemma HeadFirst(s: RdScheme, slice: seq<nat>, stale: seq<nat>)
    requires s.rightWidth < 256 && |s.dict| <= MAX_RD_DICT_SIZE && |stale| == |slice|
    ensures RdPayload(s, slice, stale)[..5] == RdHead(s, |RdExceptions(s, slice, |slice|)|)
  {
  }

  // ---------- patching ----------

  // Low parts right everywhere, high parts right except where an entry follows.
  lemma {:induction false} PatchRdRestores(k: FloatKind, s: RdScheme, vals: seq<nat>, es: seq<RdException>, slice: seq<nat>)
    requires s.Valid(k) && AllBits(k, slice) && |vals| == |slice|
    requires forall i :: 0 <= i < |slice| ==> Low(vals[i], s.rightWidth) == Low(slice[i], s.rightWidth)
    requires forall e :: e in es ==> e.pos < |slice| && e.left == LeftOf(slice[e.pos], s.rightWidth)
    requires forall i :: 0 <= i < |slice| ==> vals[i] == slice[i] || RdException(i, LeftOf(slice[i], s.rightWidth)) in es
    ensures PatchRd(k, vals, es, s.rightWidth) == Ok(slice)
    decreases |es|
  {
    if es == [] {
      assert vals == slice;
    } else {
      var e := es[0];
      assert e in es;
      LeftFits(k, s, slice[e.pos]);
      JoinRestores(k, slice[e.pos], s.rightWidth);
      assert es == [e] + es[1..];
      PatchRdRestores(k, s, vals[e.pos := slice[e.pos]], es[1..], slice);
    }
  }

  // A position no entry names keeps its value.
  lemma {:induction false} PatchRdUntouched(k: FloatKind, vals: seq<nat>, es: seq<RdException>, rw: nat, i: nat)
    requires i < |vals| && forall e :: e in es ==> e.pos != i
    ensures var r := PatchRd(k, vals, es, rw);
      r.Ok? ==> |r.value| == |vals| && r.value[i] == vals[i]
    decreases |es|
  {
    if es != [] && es[0].pos < |vals| {
      assert es[0] in es;
      PatchRdUntouched(k, vals[es[0].pos := RdJoin(k, es[0].left, Low(vals[es[0].pos], rw), rw)], es[1..], rw, i);
    }
  }

  // ---------- one element before patching ----------

  lemma IndexSurvives(s: RdScheme, left: nat)
    requires 1 <= |s.dict| <= MAX_RD_DICT_SIZE && left in s.dict
    ensures var r := Find(s.dict, left);
      r.Some? && r.value < |s.dict| && s.dict[r.value] == left && Low(r.value, LeftWidth(|s.dict|)) == r.value
  {
    FindExact(s.dict, left);
    LeftWidthFits(|s.dict|);
    SmallWord(Find(s.dict, left).value, LeftWidth(|s.dict|));
  }

  // The table entry that element i shows is its own high part, unless it is an exception.
  lemma EntryShown(s: RdScheme, slice: seq<nat>, stale: seq<nat>, i: nat)
    requires 1 <= |s.dict| <= MAX_RD_DICT_SIZE && |stale| == |slice| && i < |slice|
    ensures !IsRdException(s, slice[i]) ==>
      RdEntry(s.dict, ReadLefts(s, slice, stale)[i]) == LeftOf(slice[i], s.rightWidth)
    ensures IsRdException(s, slice[i]) && stale[i] == 0 ==> RdEntry(s.dict, ReadLefts(s, slice, stale)[i]) == s.dict[0]
  {
    LeftWidthFits(|s.dict|);
    ShownIndex(s, slice[i], stale[i]);
  }

  // The index that the decoder reads for a float.
  lemma ShownIndex(s: RdScheme, v: nat, stale: nat)
    requires 1 <= |s.dict| <= MAX_RD_DICT_SIZE
    ensures var shown := if LeftWidth(|s.dict|) == 0 then 0 else Low(LeftIndex(s, v, stale), LeftWidth(|s.dict|));
      && (!IsRdException(s, v) ==> RdEntry(s.dict, shown) == LeftOf(v, s.rightWidth))
      && (IsRdException(s, v) && stale == 0 ==> RdEntry(s.dict, shown) == s.dict[0])
  {
    var left := LeftOf(v, s.rightWidth);
    LeftWidthFits(|s.dict|);
    EntryIs(s.dict, 0);
    if left in s.dict {
      IndexSurvives(s, left);
      EntryIs(s.dict, Find(s.dict, left).value);
    } else {
      FindExact(s.dict, left);
      SmallWord(0, LeftWidth(|s.dict|));
    }
  }

  lemma EntryIs(dict: seq<nat>, i: nat)
    requires i < |dict| <= MAX_RD_DICT_SIZE
    ensures RdEntry(dict, i) == dict[i]
  {
    assert i % MAX_RD_DICT_SIZE == i;
  }

  lemma RdEntryFits(k: FloatKind, s: RdScheme, off: nat)
    requires s.Valid(k)
    ensures RdEntry(s.dict, off) < Pow2(k.Bits() - s.rightWidth)
  {
  }

  lemma UnpatchedAt(k: FloatKind, s: RdScheme, slice: seq<nat>, stale: seq<nat>, i: nat)
    requires s.Valid(k) && AllBits(k, slice) && |stale| == |slice| && i < |slice|
    ensures var v := Unpatched(k, s, slice, stale)[i];
      && Low(v, s.rightWidth) == Low(slice[i], s.rightWidth)
      && (!IsRdException(s, slice[i]) ==> v == slice[i])
      && (IsRdException(s, slice[i]) && stale[i] == 0 ==> v != slice[i])
  {
    var left := RdEntry(s.dict, ReadLefts(s, slice, stale)[i]);
    EntryShown(s, slice, stale, i);
    LeftFits(k, s, slice[i]);
    RdEntryFits(k, s, ReadLefts(s, slice, stale)[i]);
    ShrLowIsDivMod(slice[i], s.rightWidth);
    JoinParts(k, left, Low(slice[i], s.rightWidth), s.rightWidth);
    JoinRestores(k, slice[i], s.rightWidth);
    assert s.dict[0] in s.dict;
  }

  // ---------- exactly when the block is lossless ----------

  lemma SeenSound(s: RdScheme, slice: seq<nat>, e: RdException)
    requires ExceptionsAddressable(s, slice) && e in RdExceptions(s, slice, |slice|)
    ensures e.pos < |slice| && e.left == LeftOf(slice[e.pos], s.rightWidth)
  {
    var i := RdExceptionsSound(s, slice, |slice|, e);
    assert i < 0x1_0000;
  }

  lemma AddressableSeen(s: RdScheme, slice: seq<nat>)
    requires ExceptionsAddressable(s, slice)
    ensures SeenExceptions(s, slice) == RdExceptions(s, slice, |slice|)
    ensures forall e :: e in RdExceptions(s, slice, |slice|) ==>
      e.pos < |slice| && e.left == LeftOf(slice[e.pos], s.rightWidth)
    ensures forall i :: 0 <= i < |slice| && IsRdException(s, slice[i]) ==>
      RdException(i, LeftOf(slice[i], s.rightWidth)) in RdExceptions(s, slice, |slice|)
  {
    var es := RdExceptions(s, slice, |slice|);
    assert es[..|es|] == es;
    forall e | e in es ensures e.pos < |slice| && e.left == LeftOf(slice[e.pos], s.rightWidth) {
      SeenSound(s, slice, e);
    }
    forall i | 0 <= i < |slice| && IsRdException(s, slice[i])
      ensures RdException(i, LeftOf(slice[i], s.rightWidth)) in es
    {
      assert i < 0x1_0000;
      RdExceptionsComplete(s, slice, |slice|, i);
    }
  }

  lemma RdRestores(k: FloatKind, s: RdScheme, slice: seq<nat>, stale: seq<nat>)
    requires s.Valid(k) && AllBits(k, slice) && |stale| == |slice| && ExceptionsAddressable(s, slice)
    ensures DecodeRd(k, RdPayload(s, slice, stale), |slice|) == Ok(slice)
  {
    RdDecodes(k, s, slice, stale);
    AddressableSeen(s, slice);
    forall i | 0 <= i < |slice|
      ensures Low(Unpatched(k, s, slice, stale)[i], s.rightWidth) == Low(slice[i], s.rightWidth)
      ensures !IsRdException(s, slice[i]) ==> Unpatched(k, s, slice, stale)[i] == slice[i]
    {
      UnpatchedAt(k, s, slice, stale, i);
    }
    PatchRdRestores(k, s, Unpatched(k, s, slice, stale), SeenExceptions(s, slice), slice);
  }

  // An exception that no entry the decoder sees can name.
  lemma LostException(s: RdScheme, slice: seq<nat>) returns (i: nat)
    requires !ExceptionsAddressable(s, slice)
    ensures i < |slice| && IsRdException(s, slice[i])
    ensures forall e :: e in SeenExceptions(s, slice) ==> e.pos != i
  {
    var es := RdExceptions(s, slice, |slice|);
    if j :| 0x1_0000 <= j < |slice| && IsRdException(s, slice[j]) {
      i := j;
      forall e | e in SeenExceptions(s, slice) ensures e.pos != i {
        assert e in es;
        var m := RdExceptionsSound(s, slice, |slice|, e);
      }
    } else {
      var m: nat := if |slice| < 0x1_0000 then |slice| else 0x1_0000;
      RdExceptionsEnd(s, slice, m, |slice|);
      RdExceptionsCount(s, slice, m);
      assert |es| == 0x1_0000;
      assert es[0] in es;
      i := RdExceptionsSound(s, slice, |slice|, es[0]);
    }
  }

  lemma RdLoses(k: FloatKind, s: RdScheme, slice: seq<nat>)
    requires s.Valid(k) && AllBits(k, slice) && !ExceptionsAddressable(s, slice)
    ensures DecodeRd(k, RdPayload(s, slice, Zeros(|slice|)), |slice|) != Ok(slice)
  {
    var stale := Zeros(|slice|);
    RdDecodes(k, s, slice, stale);
    var i := LostException(s, slice);
    UnpatchedAt(k, s, slice, stale, i);
    PatchRdUntouched(k, Unpatched(k, s, slice, stale), SeenExceptions(s, slice), s.rightWidth, i);
  }

  // The decoder sees the header and hands on the payload.
  lemma RdFrameDecodes(ar: Arith, s: RdScheme, slice: seq<nat>, stale: seq<nat>)
    requires s.Valid(ar.kind) && |stale| == |slice| && 0 < |slice| < COUNT_LIMIT
    ensures RestoresPlain(ar, RdFrame(ar.kind, s, slice, stale), slice)
       <==> DecodeRd(ar.kind, RdPayload(s, slice, stale), |slice|) == Ok(slice)
  {
    var hdr, payload := WriteHeader(RdByte(ar.kind), false, |slice|, None), RdPayload(s, slice, stale);
    assert (hdr + payload)[|hdr|..] == payload;
    HeaderRoundTrip(RdByte(ar.kind), false, |slice|, None, payload);
    ReadCountAgrees(hdr + payload);
    assert Restores(ar, hdr + payload, slice) <==> DecodesTo(ar, hdr + payload, slice);
  }

  // The block restores its slice whatever its reused index buffer held.
  ghost predicate AlwaysRestores(ar: Arith, s: RdScheme, slice: seq<nat>)
    requires s.Valid(ar.kind)
  {
    forall stale: seq<nat> :: |stale| == |slice| ==> RestoresFrom(ar, s, slice, stale)
  }

  ghost predicate RestoresFrom(ar: Arith, s: RdScheme, slice: seq<nat>, stale: seq<nat>)
    requires s.Valid(ar.kind) && |stale| == |slice|
  {
    RestoresPlain(ar, RdFrame(ar.kind, s, slice, stale), slice)
  }

  lemma AddressableRestores(ar: Arith, s: RdScheme, slice: seq<nat>)
    requires s.Valid(ar.kind) && AllBits(ar.kind, slice) && 0 < |slice| < COUNT_LIMIT
    requires ExceptionsAddressable(s, slice)
    ensures AlwaysRestores(ar, s, slice)
  {
    forall stale: seq<nat> | |stale| == |slice|
      ensures RestoresFrom(ar, s, slice, stale)
    {
      RdRestores(ar.kind, s, slice, stale);
      RdFrameDecodes(ar, s, slice, stale);
    }
  }

  lemma UnaddressableLoses(ar: Arith, s: RdScheme, slice: seq<nat>)
    requires s.Valid(ar.kind) && AllBits(ar.kind, slice) && 0 < |slice| < COUNT_LIMIT
    requires !ExceptionsAddressable(s, slice)
    ensures !AlwaysRestores(ar, s, slice)
  {
    var stale := Zeros(|slice|);
    RdLoses(ar.kind, s, slice);
    RdFrameDecodes(ar, s, slice, stale);
    assert !RestoresFrom(ar, s, slice, stale);
  }

  // Exactly when its exceptions fit sixteen-bit positions and a sixteen-bit count.
  lemma RdLosslessIff(ar: Arith, s: RdScheme, slice: seq<nat>)
    requires s.Valid(ar.kind) && AllBits(ar.kind, slice) && 0 < |slice| < COUNT_LIMIT
    ensures AlwaysRestores(ar, s, slice) <==> ExceptionsAddressable(s, slice)
  {
    if ExceptionsAddressable(s, slice) {
      AddressableRestores(ar, s, slice);
    } else {
      UnaddressableLoses(ar, s, slice);
    }
  }

  // A scheme kept from an earlier chunk loses an element of a longer one: n zeros and
  // one float whose high part the table does not have.
  lemma LossyExample(ar: Arith, n: nat, s: RdScheme, slice: seq<nat>)
    requires ar.kind.F64? && 0x1_0000 <= n && n + 1 < COUNT_LIMIT
    requires s == RdScheme(48, [0]) && slice == Zeros(n) + [Shl(1, s.rightWidth)]
    ensures s.Valid(ar.kind) && AllBits(ar.kind, slice) && !AlwaysRestores(ar, s, slice)
  {
    var v := OutsideTable(ar.kind, s);
    assert slice[n] == v;
    assert !ExceptionsAddressable(s, slice);
    UnaddressableLoses(ar, s, slice);
  }

  lemma OutsideTable(k: FloatKind, s: RdScheme) returns (v: nat)
    requires k.F64? && s == RdScheme(48, [0])
    ensures v == Shl(1, s.rightWidth) < k.Modulus() && IsRdException(s, v)
  {
    var w := s.rightWidth;
    v := Shl(1, w);
    ShlZero(w);
    Pow2Mono(w, 63);
    ModulusIsPow2(k);
    Pow2Of64();
    OneAbove(w);
    assert LeftOf(v, w) == 1;
  }

  lemma OneAbove(w: nat)
    ensures Shr(Shl(1, w), w) == 1
  {
    Split(0, 1, w);
    SmallWord(0, w);
  }
}
