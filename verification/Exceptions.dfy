/**
 The exception table: positions and original bits of the floats that the integers
 do not restore. Positions take two bytes, or four when the block has more than
 65535 elements.
 */
module Exceptions {
  import opened Wrappers
  import opened Words
  import opened Buffers
  import opened Floats

  datatype Exception = Exception(pos: nat, bits: nat)

  const MAX_EXCEPTIONS: nat := 128

  predicate IsLarge(count: nat) { count > 0xFFFF }

  // Short fields are taken exactly when every count and position of the block fits them.
  lemma LargeIff(count: nat)
    ensures !IsLarge(count) <==> count < Pow2(8 * PosLen(false))
  {
    Pow2Of16();
  }

  // bytes of the count field and of a position
  function PosLen(large: bool): nat { if large then 4 else 2 }

  function EntrySize(k: FloatKind, large: bool): nat {
    if large then k.ExcEntrySizeU32() else k.ExcEntrySize()
  }

  function ExceptionsByteSize(k: FloatKind, n: nat, large: bool): nat {
    if n == 0 then 0 else PosLen(large) + n * EntrySize(k, large)
  }

  function EntryBytes(k: FloatKind, large: bool, e: Exception): (s: seq<byte>)
    ensures |s| == EntrySize(k, large)
  {
    LeBytes(e.pos, PosLen(large)) + LeBytes(e.bits, k.Size())
  }

  function Entries(k: FloatKind, large: bool, es: seq<Exception>): seq<byte> {
    if es == [] then [] else EntryBytes(k, large, es[0]) + Entries(k, large, es[1..])
  }

  function ExceptionTable(k: FloatKind, count: nat, es: seq<Exception>): seq<byte> {
    if es == [] then []
    else LeBytes(|es|, PosLen(IsLarge(count))) + Entries(k, IsLarge(count), es)
  }

  lemma {:induction false} EntriesSize(k: FloatKind, large: bool, es: seq<Exception>)
    ensures |Entries(k, large, es)| == |es| * EntrySize(k, large)
  {
    if es != [] {
      EntriesSize(k, large, es[1..]);
      assert |es| * EntrySize(k, large) == (|es| - 1) * EntrySize(k, large) + EntrySize(k, large);
    }
  }

  lemma TableSize(k: FloatKind, count: nat, es: seq<Exception>)
    ensures |ExceptionTable(k, count, es)| == ExceptionsByteSize(k, |es|, IsLarge(count))
  {
    EntriesSize(k, IsLarge(count), es);
  }

  lemma {:induction false} EntriesAppend(k: FloatKind, large: bool, es: seq<Exception>, e: Exception)
    ensures Entries(k, large, es + [e]) == Entries(k, large, es) + EntryBytes(k, large, e)
  {
    if es == [] {
      assert es + [e] == [e];
      assert Entries(k, large, [e]) == EntryBytes(k, large, e) + Entries(k, large, []);
    } else {
      EntriesAppend(k, large, es[1..], e);
      assert (es + [e])[1..] == es[1..] + [e];
    }
  }

  method WriteEntry(k: FloatKind, large: bool, es: seq<Exception>, i: nat, ghost head: seq<byte>, dst: ByteVec)
    requires i < |es| && dst.Valid() && dst.Bytes() == head + Entries(k, large, es[..i])
    modifies dst, dst.buf
    ensures dst.Valid() && (dst.buf == old(dst.buf) || fresh(dst.buf))
    ensures dst.Bytes() == head + Entries(k, large, es[..i + 1])
  {
    EntriesAppend(k, large, es[..i], es[i]);
    assert es[..i + 1] == es[..i] + [es[i]];
    dst.ExtendFromSlice(EntryBytes(k, large, es[i]));
  }

  // The table, entry by entry; nothing at all when there are no exceptions.
  method WriteExceptions(k: FloatKind, count: nat, es: seq<Exception>, dst: ByteVec)
    requires dst.Valid()
    modifies dst, dst.buf
    ensures dst.Valid() && (dst.buf == old(dst.buf) || fresh(dst.buf))
    ensures dst.Bytes() == old(dst.Bytes()) + ExceptionTable(k, count, es)
  {
    if es == [] {
      return;
    }
    var large := IsLarge(count);
    ghost var head := dst.Bytes() + LeBytes(|es|, PosLen(large));
    dst.ExtendFromSlice(LeBytes(|es|, PosLen(large)));
    var i := 0;
    while i < |es|
      invariant 0 <= i <= |es|
      invariant dst.Valid() && (dst.buf == old(dst.buf) || fresh(dst.buf))
      invariant dst.Bytes() == head + Entries(k, large, es[..i])
    {
      WriteEntry(k, large, es, i, head, dst);
      i := i + 1;
    }
    assert es[..|es|] == es;
  }

  // ---------- reading the table back ----------

  function ReadEntries(k: FloatKind, large: bool, bytes: seq<byte>): seq<Exception>
    decreases |bytes|
  {
    var n, p := EntrySize(k, large), PosLen(large);
    if |bytes| < n then []
    else [Exception(LeVal(bytes[..p]), LeVal(bytes[p..n]))] + ReadEntries(k, large, bytes[n..])
  }

  function Patch(vals: seq<nat>, es: seq<Exception>): Result<seq<nat>>
    decreases |es|
  {
    if es == [] then Ok(vals)
    else if es[0].pos >= |vals| then Err(CorruptedData(es[0].pos, |vals|))
    else Patch(vals[es[0].pos := es[0].bits], es[1..])
  }

  // The table at src applied to the decoded values.
  function PatchExceptions(k: FloatKind, src: seq<byte>, vals: seq<nat>): Result<seq<nat>> {
    var large := IsLarge(|vals|);
    var p := PosLen(large);
    if src == [] then Ok(vals)
    else if |src| < p then Err(UnexpectedEof(p, |src|))
    else
      var needed := LeVal(src[..p]) * EntrySize(k, large);
      if |src| < p + needed then Err(UnexpectedEof(p + needed, |src|))
      else Patch(vals, ReadEntries(k, large, src[p..p + needed]))
  }

  predicate EntryFits(k: FloatKind, large: bool, e: Exception) {
    e.pos < Pow2(8 * PosLen(large)) && e.bits < Pow2(8 * k.Size())
  }

  lemma {:induction false} EntriesRoundTrip(k: FloatKind, large: bool, es: seq<Exception>)
    requires forall i :: 0 <= i < |es| ==> EntryFits(k, large, es[i])
    ensures ReadEntries(k, large, Entries(k, large, es)) == es
  {
    if es != [] {
      var e, rest := es[0], Entries(k, large, es[1..]);
      var bytes := EntryBytes(k, large, e) + rest;
      var n, p := EntrySize(k, large), PosLen(large);
      EntriesRoundTrip(k, large, es[1..]);
      assert bytes[..p] == LeBytes(e.pos, p) && bytes[p..n] == LeBytes(e.bits, k.Size());
      assert bytes[n..] == rest;
      LeRoundTrip(e.pos, p);
      LeRoundTrip(e.bits, k.Size());
    }
  }

  // Writing a table and reading it back patches exactly the listed exceptions.
  lemma TableRoundTrip(k: FloatKind, vals: seq<nat>, es: seq<Exception>)
    requires |es| < Pow2(8 * PosLen(IsLarge(|vals|)))
    requires forall i :: 0 <= i < |es| ==> EntryFits(k, IsLarge(|vals|), es[i])
    ensures PatchExceptions(k, ExceptionTable(k, |vals|, es), vals) == Patch(vals, es)
  {
    if es != [] {
      var large := IsLarge(|vals|);
      var p := PosLen(large);
      var table, entries := ExceptionTable(k, |vals|, es), Entries(k, large, es);
      LeRoundTrip(|es|, p);
      EntriesSize(k, large, es);
      EntriesRoundTrip(k, large, es);
      assert table[..p] == LeBytes(|es|, p);
      assert table[p..p + |entries|] == entries;
    }
  }

  // ---------- exception lists ----------

  // strictly increasing positions
  predicate Sorted(es: seq<Exception>) {
    forall i, j :: 0 <= i < j < |es| ==> es[i].pos < es[j].pos
  }

  // every entry lies inside the slice and holds that element's bits
  predicate Records(es: seq<Exception>, slice: seq<nat>) {
    forall i :: 0 <= i < |es| ==> es[i].pos < |slice| && es[i].bits == slice[es[i].pos]
  }

  predicate Excepted(es: seq<Exception>, pos: nat) {
    exists j :: 0 <= j < |es| && es[j].pos == pos
  }

  lemma ExceptedSnoc(es: seq<Exception>, e: Exception, i: nat)
    ensures Excepted(es + [e], i) <==> Excepted(es, i) || e.pos == i
  {
    assert (es + [e])[|es|] == e;
    if Excepted(es, i) {
      var j :| 0 <= j < |es| && es[j].pos == i;
      assert (es + [e])[j].pos == i;
    }
    if Excepted(es + [e], i) && e.pos != i {
      var j :| 0 <= j < |es| + 1 && (es + [e])[j].pos == i;
      assert es[j].pos == i;
    }
  }

  lemma ExceptedConcat(a: seq<Exception>, b: seq<Exception>, i: nat)
    ensures Excepted(a + b, i) <==> Excepted(a, i) || Excepted(b, i)
  {
    if Excepted(a, i) {
      var j :| 0 <= j < |a| && a[j].pos == i;
      assert (a + b)[j].pos == i;
    }
    if Excepted(b, i) {
      var j :| 0 <= j < |b| && b[j].pos == i;
      assert (a + b)[|a| + j].pos == i;
    }
  }

  // Values that agree with the slice outside the exceptions become the slice.
  lemma {:induction false} PatchRestores(vals: seq<nat>, es: seq<Exception>, slice: seq<nat>)
    requires |vals| == |slice| && Records(es, slice)
    requires forall i :: 0 <= i < |slice| ==> vals[i] == slice[i] || Excepted(es, i)
    ensures Patch(vals, es) == Ok(slice)
    decreases |es|
  {
    if es == [] {
      assert vals == slice;
    } else {
      var next := vals[es[0].pos := es[0].bits];
      forall i | 0 <= i < |slice| ensures next[i] == slice[i] || Excepted(es[1..], i) {
        if i != es[0].pos && vals[i] != slice[i] {
          var j :| 0 <= j < |es| && es[j].pos == i;
          assert es[1..][j - 1].pos == i;
        }
      }
      PatchRestores(next, es[1..], slice);
    }
  }

  // Distinct positions inside the slice are at most as many as its elements.
  lemma {:induction false} SortedCount(es: seq<Exception>, n: nat)
    requires Sorted(es) && forall i :: 0 <= i < |es| ==> es[i].pos < n
    ensures |es| <= n
    decreases |es|
  {
    if es != [] {
      var k := |es| - 1;
      SortedCount(es[..k], es[k].pos);
    }
  }

  lemma SmallTableFits(k: FloatKind, es: seq<Exception>, slice: seq<nat>)
    requires Sorted(es) && Records(es, slice) && AllBits(k, slice) && |slice| < COUNT_LIMIT
    ensures |es| < Pow2(8 * PosLen(IsLarge(|slice|)))
    ensures forall i :: 0 <= i < |es| ==> EntryFits(k, IsLarge(|slice|), es[i])
  {
    Pow2Of16();
    Pow2Of32();
    ModulusIsPow2(k);
    SortedCount(es, |slice|);
  }
}
