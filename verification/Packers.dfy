/**
 The three packing entry points: plain words, offsets from a base, and offsets of
 the differences of neighbours, each appended to a byte vector.
 */
module Packers {
  import opened Words
  import opened Buffers
  import opened BitPack
  import opened RawWords
  import opened Floats

  // val & mask for every value
  function MaskAll(vs: seq<u64>, w: nat): (r: seq<nat>)
    ensures |r| == |vs|
  {
    seq(|vs|, i requires 0 <= i < |vs| => BitAnd(vs[i], Mask(w)))
  }

  lemma MaskAllIsLow(vs: seq<u64>, w: nat)
    ensures MaskAll(vs, w) == LowAll(vs, w) && AllBelow(LowAll(vs, w), w)
  {
    forall i | 0 <= i < |vs| ensures MaskAll(vs, w)[i] == LowAll(vs, w)[i] < Pow2(w) {
      AndMask(vs[i], w);
      ShrLowIsDivMod(vs[i], w);
    }
  }

  lemma NothingPacked(vs: seq<nat>, w: nat, before: seq<byte>)
    requires vs == [] || w == 0
    ensures Packed(vs, w) == [] && before + Packed(vs, w) == before
  {
    OffIsMul(|vs|, w);
  }

  // The low w bits of every value. Width 52 is the one width that does not cut its
  // values: there the bits over the width go into the next value.
  method BitpackU64(values: seq<u64>, w: nat, dst: ByteVec)
    requires dst.Valid() && w <= 64
    modifies dst, dst.buf
    ensures dst.Valid() && (dst.buf == old(dst.buf) || fresh(dst.buf))
    ensures w != 52 ==> dst.Bytes() == old(dst.Bytes()) + Packed(LowAll(values, w), w)
    ensures w == 52 ==> dst.Bytes() == old(dst.Bytes()) + StoredPairs(values, w)
    ensures AllBelow(values, w) ==> dst.Bytes() == old(dst.Bytes()) + Packed(values, w)
  {
    if AllBelow(values, w) {
      LowAllInRange(values, w);
      SpilledInRange(values, w);
    }
    if values == [] || w == 0 {
      NothingPacked(LowAll(values, w), w, dst.Bytes());
      return;
    }
    if w == 52 || w == 56 || w == 64 {
      PackRaw(values, w, dst);
    } else {
      MaskAllIsLow(values, w);
      PackWide(MaskAll(values, w), w, true, dst);
    }
  }

  // The words as they are, through the kernels that do not mask.
  method PackRaw(vs: seq<u64>, w: nat, dst: ByteVec)
    requires dst.Valid() && (w == 52 || w == 56 || w == 64)
    modifies dst, dst.buf
    ensures dst.Valid() && (dst.buf == old(dst.buf) || fresh(dst.buf))
    ensures dst.Bytes() == old(dst.Bytes())
      + (if w == 52 then StoredPairs(vs, w) else Packed(LowAll(vs, w), w))
  {
    ghost var before := dst.Bytes();
    var total := PackedSize(|vs|, w);
    dst.Reserve(total + SLACK);
    var a, p := dst.buf, dst.len;
    assert a[..p] == before;
    if w == 52 {
      WordsBelow(vs);
      RawWords.PackPairs(vs, w, 13, 8, a, p);
    } else {
      RawWords.PackWords(vs, w, w / 8, a, p);
    }
    dst.Grow(total);
  }

  // The words 2^52 and 0 at width 52: what is appended reads back as 0 and 1.
  method PackSpilling(dst: ByteVec) returns (values: seq<u64>)
    requires dst.Valid()
    modifies dst, dst.buf
    ensures dst.Valid() && values == [0x10_0000_0000_0000, 0] && LowAll(values, 52) == [0, 0]
    ensures old(dst.Bytes()) <= dst.Bytes()
    ensures Unpack(dst.Bytes()[|old(dst.Bytes())|..], 2, 52) == [0, 1]
  {
    Pow2Of52();
    ShlZero(52);
    values := PackOver(52, 0x10_0000_0000_0000, dst);
  }

  method PackOver(w: nat, v: u64, dst: ByteVec) returns (values: seq<u64>)
    requires dst.Valid() && w == 52 && v == Shl(1, w)
    modifies dst, dst.buf
    ensures dst.Valid() && values == [v, 0] && LowAll(values, w) == [0, 0]
    ensures old(dst.Bytes()) <= dst.Bytes() && Unpack(dst.Bytes()[|old(dst.Bytes())|..], 2, w) == [0, 1]
  {
    values := [v, 0];
    SpillExample(w, v);
    AppendStored(values, w, dst);
  }

  method AppendStored(values: seq<u64>, w: nat, dst: ByteVec)
    requires dst.Valid() && w == 52
    modifies dst, dst.buf
    ensures dst.Valid() && old(dst.Bytes()) <= dst.Bytes()
    ensures dst.Bytes()[|old(dst.Bytes())|..] == StoredPairs(values, w)
  {
    BitpackU64(values, w, dst);
    assert (old(dst.Bytes()) + StoredPairs(values, w))[|old(dst.Bytes())|..] == StoredPairs(values, w);
  }

  lemma Pow2Of52()
    ensures Pow2(52) == 0x10_0000_0000_0000
  {
    Pow2Of32();
    assert Pow2(36) == 16 * Pow2(32);
    assert Pow2(44) == 256 * Pow2(36);
    assert Pow2(52) == 256 * Pow2(44);
  }

  lemma WordsBelow(vs: seq<u64>)
    ensures AllBelow(vs, 8 * 8)
  {
    Pow2Of64();
  }

  // Reserve, pack into the spare capacity, declare the packed bytes used.
  method PackWide(vs: seq<nat>, w: nat, wordKernels: bool, dst: ByteVec)
    requires dst.Valid() && 1 <= w <= 64 && AllBelow(vs, w)
    modifies dst, dst.buf
    ensures dst.Valid() && (dst.buf == old(dst.buf) || fresh(dst.buf))
    ensures dst.Bytes() == old(dst.Bytes()) + Packed(vs, w)
  {
    ghost var before := dst.Bytes();
    var total := PackedSize(|vs|, w);
    dst.Reserve(total + SLACK);
    var a, p := dst.buf, dst.len;
    assert a[..p] == before;
    LowAllInRange(vs, w);
    if w <= 48 {
      PackChunks(vs, w, a, p);
    } else if w == 64 || (wordKernels && w == 56) {
      RawWords.PackWords(vs, w, w / 8, a, p);
    } else if wordKernels && w == 52 {
      PackFitting(vs, w, a, p);
    } else {
      PackStream(vs, w, a, p);
    }
    dst.Grow(total);
  }

  method PackFitting(vs: seq<nat>, w: nat, a: array<byte>, p: nat)
    requires w == 52 && AllBelow(vs, w) && p + PackedSize(|vs|, w) + SLACK <= a.Length
    modifies a
    ensures Holds(a[..], p, PackedSize(|vs|, w), Stream(vs, w)) && a[..p] == old(a[..p])
  {
    SpilledInRange(vs, w);
    Pow2Mono(w, 64);
    RawWords.PackPairs(vs, w, 13, 8, a, p);
  }

  // ---------- frame of reference ----------

  function Offsets(k: FloatKind, ints: seq<int>, base: int): (r: seq<nat>)
    ensures |r| == |ints|
  {
    seq(|ints|, i requires 0 <= i < |ints| => k.IntDiffToU64(ints[i], base))
  }

  method BitpackEncoded(k: FloatKind, ints: seq<int>, base: int, w: nat, dst: ByteVec)
    requires dst.Valid() && w <= 64 && AllBelow(Offsets(k, ints, base), w)
    modifies dst, dst.buf
    ensures dst.Valid() && (dst.buf == old(dst.buf) || fresh(dst.buf))
    ensures dst.Bytes() == old(dst.Bytes()) + Packed(Offsets(k, ints, base), w)
  {
    if ints == [] || w == 0 {
      NothingPacked(Offsets(k, ints, base), w, dst.Bytes());
      return;
    }
    PackWide(Offsets(k, ints, base), w, true, dst);
  }

  // ---------- first-order differences ----------

  // Offsets of ints[i+1] - ints[i] from the least difference.
  function DeltaOffsets(k: FloatKind, ints: seq<int>, minDelta: int): (r: seq<nat>)
    ensures |r| == if ints == [] then 0 else |ints| - 1
  {
    if ints == [] then []
    else seq(|ints| - 1, i requires 0 <= i < |ints| - 1 =>
               k.IntDiffToU64(k.IntSub(ints[i + 1], ints[i]), minDelta))
  }

  method BitpackFusedDelta(k: FloatKind, ints: seq<int>, minDelta: int, w: nat, dst: ByteVec)
    requires dst.Valid() && w <= 64 && AllBelow(DeltaOffsets(k, ints, minDelta), w)
    modifies dst, dst.buf
    ensures dst.Valid() && (dst.buf == old(dst.buf) || fresh(dst.buf))
    ensures dst.Bytes() == old(dst.Bytes()) + Packed(DeltaOffsets(k, ints, minDelta), w)
  {
    if |ints| <= 1 || w == 0 {
      NothingPacked(DeltaOffsets(k, ints, minDelta), w, dst.Bytes());
      return;
    }
    PackWide(DeltaOffsets(k, ints, minDelta), w, false, dst);
  }
}
