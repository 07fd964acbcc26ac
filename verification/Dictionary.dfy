/**
 Low-cardinality blocks: a table of the distinct floats, found with an open-addressing
 hash table of 128 slots, and one narrow index per element.
 */
module Dictionary {
  import opened Wrappers
  import opened Words
  import opened Buffers
  import opened Floats
  import opened Params
  import opened Packers
  import opened Header
  import opened Blocks
  import opened Decoding
  import opened Lossless

  const HASH_TABLE_SIZE: nat := 128

  // dict holds the distinct floats, bitWidth the bits of an index
  datatype DictCandidate = DictCandidate(dict: seq<nat>, bitWidth: nat)

  // ---------- what the scan has to find ----------

  // the distinct values in the order they first appear
  function Distinct(slice: seq<nat>): seq<nat> {
    if slice == [] then []
    else
      var d, v := Distinct(slice[..|slice| - 1]), slice[|slice| - 1];
      if v in d then d else d + [v]
  }

  predicate NoRepeats(d: seq<nat>) {
    forall i, j :: 0 <= i < j < |d| ==> d[i] != d[j]
  }

  lemma {:induction false} DistinctExact(slice: seq<nat>)
    ensures NoRepeats(Distinct(slice))
    ensures forall v :: v in Distinct(slice) <==> v in slice
    ensures slice != [] ==> Distinct(slice) != []
  {
    if slice != [] {
      var pre, v := slice[..|slice| - 1], slice[|slice| - 1];
      DistinctExact(pre);
      assert slice == pre + [v];
    }
  }

  lemma DistinctBits(k: FloatKind, slice: seq<nat>)
    requires AllBits(k, slice)
    ensures AllBits(k, Distinct(slice))
  {
    DistinctExact(slice);
    forall i | 0 <= i < |Distinct(slice)| ensures k.IsBits(Distinct(slice)[i]) {
      assert Distinct(slice)[i] in slice;
    }
  }

  lemma {:induction false} DistinctGrows(slice: seq<nat>, i: nat)
    requires i <= |slice|
    ensures |Distinct(slice[..i])| <= |Distinct(slice)|
    decreases |slice| - i
  {
    if i == |slice| {
      assert slice[..i] == slice;
    } else {
      assert slice[..i + 1][..i] == slice[..i];
      DistinctGrows(slice, i + 1);
    }
  }

  function Values(s: seq<nat>): set<nat> {
    set v | v in s
  }

  // The table holds as many entries as there are different floats.
  lemma DistinctCounts(slice: seq<nat>)
    ensures |Distinct(slice)| == |Values(slice)|
  {
    DistinctExact(slice);
    NoRepeatsCounts(Distinct(slice));
    assert Values(Distinct(slice)) == Values(slice);
  }

  lemma {:induction false} NoRepeatsCounts(d: seq<nat>)
    requires NoRepeats(d)
    ensures |Values(d)| == |d|
  {
    if d == [] {
      assert Values(d) == {};
    } else {
      var pre, last := d[..|d| - 1], d[|d| - 1];
      NoRepeatsCounts(pre);
      assert last !in Values(pre);
      assert d == pre + [last];
      assert Values(d) == Values(pre) + {last};
    }
  }

  function IndexWidth(dictLen: nat): nat {
    if dictLen <= 1 then 0 else BitsNeeded(dictLen - 1)
  }

  // It is the least width that holds every index.
  lemma IndexWidthIff(dictLen: nat, w: nat)
    requires dictLen > 0
    ensures IndexWidth(dictLen) <= w <==> dictLen <= Pow2(w)
  {
    BitsNeededIff(dictLen - 1, w);
  }

  // ---------- the hash table ----------

  function BitXor(x: nat, y: nat): nat
    decreases x + y
  {
    if x == 0 then y
    else if y == 0 then x
    else (if x % 2 != y % 2 then 1 else 0) + 2 * BitXor(x / 2, y / 2)
  }

  // ((key ^ (key >> 32)) as u32).wrapping_mul(0x9E37_79B9) >> 25
  function Hash(key: nat): (h: nat)
    ensures h < HASH_TABLE_SIZE
  {
    Low(BitXor(key, Shr(key, 32)), 32) * 0x9E37_79B9 / 0x200_0000 % HASH_TABLE_SIZE
  }

  // the slot j steps behind h
  function Probe(h: nat, j: nat): (s: nat)
    ensures s < HASH_TABLE_SIZE
  {
    (h + j) % HASH_TABLE_SIZE
  }

  // keys, indices and occupancy of the slots
  datatype Table = Table(keys: seq<nat>, indices: seq<nat>, occupied: seq<bool>) {
    ghost predicate Shape() {
      |keys| == HASH_TABLE_SIZE && |indices| == HASH_TABLE_SIZE && |occupied| == HASH_TABLE_SIZE
    }
  }

  function EmptyTable(): Table {
    Table(seq(HASH_TABLE_SIZE, _ => 0), seq(HASH_TABLE_SIZE, _ => 0), seq(HASH_TABLE_SIZE, _ => false))
  }

  function CountOccupied(occ: seq<bool>): nat {
    if occ == [] then 0 else CountOccupied(occ[..|occ| - 1]) + (if occ[|occ| - 1] then 1 else 0)
  }

  // Slot s can be reached from its key's hash over occupied slots.
  ghost predicate Reachable(t: Table, s: nat)
    requires t.Shape() && s < HASH_TABLE_SIZE
  {
    exists j: nat :: j < HASH_TABLE_SIZE && Probe(Hash(t.keys[s]), j) == s && PathOccupied(t, Hash(t.keys[s]), j)
  }

  ghost predicate PathOccupied(t: Table, h: nat, n: nat)
    requires t.Shape()
  {
    forall i: nat :: i < n ==> t.occupied[Probe(h, i)]
  }

  // The occupied slots are exactly the dictionary's entries, each reachable.
  ghost predicate Holds(t: Table, dict: seq<nat>) {
    && t.Shape()
    && CountOccupied(t.occupied) == |dict|
    && (forall s :: 0 <= s < HASH_TABLE_SIZE && t.occupied[s] ==>
          t.indices[s] < |dict| && dict[t.indices[s]] == t.keys[s] && Reachable(t, s))
    && (forall d :: 0 <= d < |dict| ==> InTable(t, dict[d]))
  }

  ghost predicate InTable(t: Table, key: nat)
    requires t.Shape()
  {
    exists s :: 0 <= s < HASH_TABLE_SIZE && t.occupied[s] && t.keys[s] == key
  }

  lemma {:induction false} AllOccupied(occ: seq<bool>)
    requires forall s :: 0 <= s < |occ| ==> occ[s]
    ensures CountOccupied(occ) == |occ|
  {
    if occ != [] {
      AllOccupied(occ[..|occ| - 1]);
    }
  }

  lemma {:induction false} NoneOccupied(occ: seq<bool>)
    requires forall s :: 0 <= s < |occ| ==> !occ[s]
    ensures CountOccupied(occ) == 0
  {
    if occ != [] {
      NoneOccupied(occ[..|occ| - 1]);
    }
  }

  lemma {:induction false} OccupyOne(occ: seq<bool>, s: nat)
    requires s < |occ| && !occ[s]
    ensures CountOccupied(occ[s := true]) == CountOccupied(occ) + 1
  {
    var pre := occ[..|occ| - 1];
    if s == |occ| - 1 {
      assert occ[s := true][..|occ| - 1] == pre;
    } else {
      OccupyOne(pre, s);
      assert occ[s := true][..|occ| - 1] == pre[s := true];
    }
  }

  lemma ProbeReaches(h: nat, s: nat)
    requires h < HASH_TABLE_SIZE && s < HASH_TABLE_SIZE
    ensures 0 <= (s - h) % HASH_TABLE_SIZE < HASH_TABLE_SIZE && Probe(h, (s - h) % HASH_TABLE_SIZE) == s
  {
    if s >= h {
      assert (s - h) % HASH_TABLE_SIZE == s - h;
    } else {
      assert (s - h) % HASH_TABLE_SIZE == s - h + HASH_TABLE_SIZE;
    }
  }

  lemma ProbeNext(h: nat, j: nat)
    ensures Probe(h, 0) == h % HASH_TABLE_SIZE && Probe(h, j + 1) == (Probe(h, j) + 1) % HASH_TABLE_SIZE
  {
  }

  // A table that is not full has a free slot on every probe sequence.
  lemma FullPath(t: Table, h: nat, dict: seq<nat>)
    requires Holds(t, dict) && |dict| < HASH_TABLE_SIZE && h < HASH_TABLE_SIZE
    ensures !PathOccupied(t, h, HASH_TABLE_SIZE)
  {
    if PathOccupied(t, h, HASH_TABLE_SIZE) {
      forall s | 0 <= s < HASH_TABLE_SIZE ensures t.occupied[s] {
        ProbeReaches(h, s);
      }
      AllOccupied(t.occupied);
    }
  }

  // Reaching a free slot without meeting the key means the key is not stored.
  lemma FreeSlotMeansAbsent(t: Table, dict: seq<nat>, key: nat, j: nat)
    requires Holds(t, dict) && j < HASH_TABLE_SIZE && !t.occupied[Probe(Hash(key), j)]
    requires forall i: nat :: i < j ==> t.keys[Probe(Hash(key), i)] != key
    ensures key !in dict
  {
  }

  // Storing a new key in the free slot its probe sequence ends in.
  lemma Insert(t: Table, dict: seq<nat>, key: nat, j: nat)
    requires Holds(t, dict) && j < HASH_TABLE_SIZE
    requires PathOccupied(t, Hash(key), j) && !t.occupied[Probe(Hash(key), j)]
    ensures var s := Probe(Hash(key), j);
      Holds(Table(t.keys[s := key], t.indices[s := |dict|], t.occupied[s := true]), dict + [key])
  {
    var s := Probe(Hash(key), j);
    var t' := Table(t.keys[s := key], t.indices[s := |dict|], t.occupied[s := true]);
    OccupyOne(t.occupied, s);
    assert PathOccupied(t', Hash(key), j);
    assert t'.keys[s] == key && Probe(Hash(key), j) == s;
    assert Reachable(t', s);
    forall r | 0 <= r < HASH_TABLE_SIZE && t'.occupied[r] && r != s
      ensures t'.indices[r] < |dict| + 1 && (dict + [key])[t'.indices[r]] == t'.keys[r] && Reachable(t', r)
    {
      assert Reachable(t, r);
      var n: nat :| n < HASH_TABLE_SIZE && Probe(Hash(t.keys[r]), n) == r && PathOccupied(t, Hash(t.keys[r]), n);
      assert PathOccupied(t', Hash(t'.keys[r]), n);
    }
    forall d | 0 <= d < |dict| + 1 ensures InTable(t', (dict + [key])[d]) {
      if d < |dict| {
        assert InTable(t, dict[d]);
        var r :| 0 <= r < HASH_TABLE_SIZE && t.occupied[r] && t.keys[r] == dict[d];
        assert t'.occupied[r] && t'.keys[r] == dict[d];
      } else {
        assert t'.occupied[s] && t'.keys[s] == key;
      }
    }
  }

  // Linear probing for a key: its index, or the free slot where it belongs.
  method Lookup(t: Table, ghost dict: seq<nat>, key: nat) returns (found: Option<nat>, slot: nat)
    requires Holds(t, dict) && |dict| < HASH_TABLE_SIZE
    ensures found.Some? ==> found.value < |dict| && dict[found.value] == key
    ensures found.None? ==> key !in dict && slot < HASH_TABLE_SIZE
    ensures found.None? ==>
      Holds(Table(t.keys[slot := key], t.indices[slot := |dict|], t.occupied[slot := true]), dict + [key])
  {
    var idx: nat := Hash(key);
    ghost var j: nat := 0;
    FullPath(t, Hash(key), dict);
    while true
      invariant Probing(t, key, idx, j)
      decreases HASH_TABLE_SIZE - j
    {
      if !t.occupied[idx] {
        FreeSlotMeansAbsent(t, dict, key, j);
        Insert(t, dict, key, j);
        return None, idx;
      }
      if t.keys[idx] == key {
        return Some(t.indices[idx]), idx;
      }
      ProbeStep(t, key, idx, j);
      idx := (idx + 1) % HASH_TABLE_SIZE;
      j := j + 1;
    }
  }

  // j occupied slots were passed, none with the key.
  ghost predicate Probing(t: Table, key: nat, idx: nat, j: nat) {
    && t.Shape() && j < HASH_TABLE_SIZE && idx == Probe(Hash(key), j)
    && PathOccupied(t, Hash(key), j)
    && !PathOccupied(t, Hash(key), HASH_TABLE_SIZE)
    && forall i: nat :: i < j ==> t.keys[Probe(Hash(key), i)] != key
  }

  lemma ProbeStep(t: Table, key: nat, idx: nat, j: nat)
    requires Probing(t, key, idx, j) && t.occupied[idx] && t.keys[idx] != key
    ensures Probing(t, key, (idx + 1) % HASH_TABLE_SIZE, j + 1)
  {
    ProbeNext(Hash(key), j);
    assert PathOccupied(t, Hash(key), j + 1);
  }

  lemma EmptyTableHolds()
    ensures Holds(EmptyTable(), [])
  {
    NoneOccupied(EmptyTable().occupied);
  }

  // One pass: every element's index into the table of distinct floats, or nothing as
  // soon as a sixty-fifth appears.
  method ScanDict(slice: seq<nat>) returns (r: Option<DictCandidate>, indices: seq<u64>)
    ensures r == if slice == [] || |Distinct(slice)| > MAX_DICT_ENTRIES then None
                 else Some(DictCandidate(Distinct(slice), IndexWidth(|Distinct(slice)|)))
    ensures r.Some? ==> Indexes(indices, Distinct(slice), slice)
  {
    indices := [];
    if slice == [] {
      return None, indices;
    }
    var t, dict := EmptyTable(), [];
    EmptyTableHolds();
    var i := 0;
    while i < |slice|
      invariant 0 <= i <= |slice| && Scanning(t, dict, indices, slice, i)
    {
      var found, slot := Lookup(t, dict, slice[i]);
      if found.None? {
        ScanNew(dict, indices, slice, i);
        if |dict| >= MAX_DICT_ENTRIES {
          return None, indices;
        }
        t := Table(t.keys[slot := slice[i]], t.indices[slot := |dict|], t.occupied[slot := true]);
        indices := indices + [|dict|];
        dict := dict + [slice[i]];
      } else {
        ScanKnown(dict, indices, slice, i, found.value);
        indices := indices + [found.value];
      }
      i := i + 1;
    }
    assert slice[..|slice|] == slice;
    r := Some(DictCandidate(dict, IndexWidth(|dict|)));
  }

  ghost predicate Scanning(t: Table, dict: seq<nat>, indices: seq<nat>, slice: seq<nat>, i: nat)
    requires i <= |slice|
  {
    Holds(t, dict) && |dict| <= MAX_DICT_ENTRIES && Indexed(dict, indices, slice, i)
  }

  ghost predicate Indexed(dict: seq<nat>, indices: seq<nat>, slice: seq<nat>, i: nat)
    requires i <= |slice|
  {
    dict == Distinct(slice[..i]) && Indexes(indices, dict, slice[..i])
  }

  // One more element that the dictionary already has.
  lemma ScanKnown(dict: seq<nat>, indices: seq<nat>, slice: seq<nat>, i: nat, d: nat)
    requires i < |slice| && Indexed(dict, indices, slice, i)
    requires d < |dict| && dict[d] == slice[i]
    ensures Indexed(dict, indices + [d], slice, i + 1)
  {
    DistinctStep(slice, i);
    assert slice[i] in dict;
  }

  // One more element that is new.
  lemma ScanNew(dict: seq<nat>, indices: seq<nat>, slice: seq<nat>, i: nat)
    requires i < |slice| && Indexed(dict, indices, slice, i) && slice[i] !in dict
    ensures Indexed(dict + [slice[i]], indices + [|dict|], slice, i + 1)
    ensures |Distinct(slice)| >= |dict| + 1
  {
    DistinctStep(slice, i);
    DistinctGrows(slice, i + 1);
  }

  // dict[indices[i]] is slice[i]
  predicate Indexes(indices: seq<nat>, dict: seq<nat>, slice: seq<nat>) {
    |indices| == |slice| && forall i :: 0 <= i < |slice| ==> indices[i] < |dict| && dict[indices[i]] == slice[i]
  }

  lemma DistinctStep(slice: seq<nat>, i: nat)
    requires i < |slice|
    ensures var d := Distinct(slice[..i]);
      Distinct(slice[..i + 1]) == if slice[i] in d then d else d + [slice[i]]
    ensures slice[..i + 1] == slice[..i] + [slice[i]]
  {
    assert slice[..i + 1][..i] == slice[..i];
  }

  // ---------- the block ----------

  function DictHead(dict: seq<nat>, w: nat): seq<byte>
    requires |dict| <= MAX_DICT_ENTRIES && w <= 6
  {
    [|dict|, w]
  }

  function DictPayload(k: FloatKind, dict: seq<nat>, w: nat, indices: seq<nat>): seq<byte>
    requires |dict| <= MAX_DICT_ENTRIES && w <= 6
  {
    DictHead(dict, w) + RawBytes(k, dict) + (if w > 0 then Packed(indices, w) else [])
  }

  function DictFrame(k: FloatKind, count: nat, dict: seq<nat>, w: nat, indices: seq<nat>): seq<byte>
    requires |dict| <= MAX_DICT_ENTRIES && w <= 6
  {
    WriteHeader(DictByte(k), false, count, None) + DictPayload(k, dict, w, indices)
  }

  function DictCompressedSize(k: FloatKind, count: nat, dictLen: nat, w: nat): nat {
    RawHeaderLen(count) + 2 + dictLen * k.Size() + PackedSize(count, w)
  }

  lemma IndexWidthFits(dictLen: nat)
    requires dictLen <= MAX_DICT_ENTRIES
    ensures IndexWidth(dictLen) <= 6
    ensures dictLen <= Pow2(IndexWidth(dictLen))
    ensures IndexWidth(dictLen) == 0 ==> dictLen <= 1
  {
    if dictLen > 1 {
      BitsNeededExact(dictLen - 1);
      assert Pow2(6) == 64;
      BitsNeededIff(dictLen - 1, 6);
    }
  }

  lemma IndexesBelow(indices: seq<nat>, dict: seq<nat>, slice: seq<nat>)
    requires Indexes(indices, dict, slice) && |dict| <= MAX_DICT_ENTRIES
    ensures AllBelow(indices, IndexWidth(|dict|))
  {
    IndexWidthFits(|dict|);
  }

  method WriteDictChunk(k: FloatKind, count: nat, candidate: DictCandidate, indices: seq<u64>, dst: ByteVec)
    requires dst.Valid() && |candidate.dict| <= MAX_DICT_ENTRIES && candidate.bitWidth <= 6
    requires AllBelow(indices, candidate.bitWidth)
    modifies dst, dst.buf
    ensures dst.Valid() && (dst.buf == old(dst.buf) || fresh(dst.buf))
    ensures dst.Bytes() == old(dst.Bytes()) + DictFrame(k, count, candidate.dict, candidate.bitWidth, indices)
  {
    ghost var before := dst.Bytes();
    var w := candidate.bitWidth;
    dst.ExtendFromSlice(WriteHeader(DictByte(k), false, count, None));
    dst.ExtendFromSlice(DictHead(candidate.dict, w));
    dst.ExtendFromSlice(RawBytes(k, candidate.dict));
    if w > 0 {
      LowAllInRange(indices, w);
      BitpackU64(indices, w, dst);
    }
    RegroupDict(before, WriteHeader(DictByte(k), false, count, None), DictHead(candidate.dict, w),
                RawBytes(k, candidate.dict), if w > 0 then Packed(indices, w) else []);
  }

  lemma RegroupDict(s: seq<byte>, a: seq<byte>, b: seq<byte>, c: seq<byte>, d: seq<byte>)
    ensures s + a + b + c + d == s + (a + (b + c + d))
    ensures d == [] ==> s + a + b + c == s + (a + (b + c + d))
  {
  }

  // A dictionary block restores its slice, and has the size that was predicted.
  lemma DictFrameRestores(ar: Arith, slice: seq<nat>, dict: seq<nat>, indices: seq<nat>)
    requires AllBits(ar.kind, dict) && 1 <= |dict| <= MAX_DICT_ENTRIES && 0 < |slice| < COUNT_LIMIT
    requires |dict| > 1 ==> Indexes(indices, dict, slice)
    requires |dict| == 1 ==> forall i :: 0 <= i < |slice| ==> slice[i] == dict[0]
    requires IndexWidth(|dict|) <= 6
    ensures RestoresPlain(ar, DictFrame(ar.kind, |slice|, dict, IndexWidth(|dict|), indices), slice)
    ensures |DictFrame(ar.kind, |slice|, dict, IndexWidth(|dict|), indices)|
         == DictCompressedSize(ar.kind, |slice|, |dict|, IndexWidth(|dict|))
  {
    var k, w := ar.kind, IndexWidth(|dict|);
    var payload := DictPayload(k, dict, w, indices);
    DictDecodes(k, slice, dict, indices);
    var hdr := WriteHeader(DictByte(k), false, |slice|, None);
    assert (hdr + payload)[|hdr|..] == payload;
    FrameRestores(ar, DictByte(k), |slice|, None, payload, slice);
    OffIsMul(|slice|, 0);
  }

  lemma DictDecodes(k: FloatKind, slice: seq<nat>, dict: seq<nat>, indices: seq<nat>)
    requires AllBits(k, dict) && 1 <= |dict| <= MAX_DICT_ENTRIES
    requires |dict| > 1 ==> Indexes(indices, dict, slice)
    requires |dict| == 1 ==> forall i :: 0 <= i < |slice| ==> slice[i] == dict[0]
    requires IndexWidth(|dict|) <= 6
    ensures DecodeDict(k, DictPayload(k, dict, IndexWidth(|dict|), indices), |slice|) == Ok(slice)
  {
    var w := IndexWidth(|dict|);
    var raw, tail := RawBytes(k, dict), if w > 0 then Packed(indices, w) else [];
    var payload := DictPayload(k, dict, w, indices);
    DictParts(DictHead(dict, w), raw, tail, payload);
    RawRoundTrip(k, dict);
    IndexWidthFits(|dict|);
    if w == 0 {
      assert seq(|slice|, _ => dict[0]) == slice;
      DictParsed(k, payload, |slice|, dict, 0, slice);
    } else {
      DictIndicesRead(dict, indices, w, slice);
      DictParsed(k, payload, |slice|, dict, w, slice);
    }
  }

  lemma DictIndicesRead(dict: seq<nat>, indices: seq<nat>, w: nat, slice: seq<nat>)
    requires Indexes(indices, dict, slice) && 1 <= |dict| <= MAX_DICT_ENTRIES && |dict| <= Pow2(w)
    ensures DictValues(dict, Unpack(Packed(indices, w), |indices|, w)) == slice
  {
    UnpackPacked(indices, w);
    EntriesAreValues(dict, indices, slice);
  }

  lemma EntriesAreValues(dict: seq<nat>, indices: seq<nat>, slice: seq<nat>)
    requires Indexes(indices, dict, slice) && 1 <= |dict| <= MAX_DICT_ENTRIES
    ensures DictValues(dict, indices) == slice
  {
    forall i | 0 <= i < |slice| ensures DictEntry(dict, indices[i]) == slice[i] {
      assert indices[i] % MAX_DICT_ENTRIES == indices[i];
    }
  }

  // What the decoder makes of a payload whose fields are known.
  lemma DictParsed(k: FloatKind, src: seq<byte>, count: nat, dict: seq<nat>, w: nat, vs: seq<nat>)
    requires 1 <= |dict| <= MAX_DICT_ENTRIES && w <= 6
    requires |src| >= 2 && src[0] == |dict| && src[1] == w
    requires var start := 2 + |dict| * k.Size();
      && |src| == start + (if w == 0 then 0 else PackedSize(count, w))
      && RawValues(k, src[2..start], |dict|) == dict
      && vs == (if w == 0 then seq(count, _ => dict[0]) else DictValues(dict, Unpack(src[start..], count, w)))
    ensures DecodeDict(k, src, count) == Ok(vs)
  {
    var start := 2 + |dict| * k.Size();
    if w > 0 {
      assert src[start..start + PackedSize(count, w)] == src[start..];
    }
  }

  lemma DictParts(a: seq<byte>, b: seq<byte>, c: seq<byte>, src: seq<byte>)
    requires src == a + b + c && |a| == 2
    ensures src[0] == a[0] && src[1] == a[1]
    ensures src[2..2 + |b|] == b && src[2 + |b|..] == c && |src| == 2 + |b| + |c|
  {
  }
}
