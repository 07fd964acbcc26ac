/**
 The decoder as it runs: every block type written straight into the destination,
 exceptions patched in place. Each method does what the function of `Decoding` says.
 */
module Decoder {
  import opened Wrappers
  import opened Words
  import opened Floats
  import opened Params
  import opened Header
  import opened Exceptions
  import opened Blocks
  import opened Decoding
  import opened Lossless
  import opened Unpacking
  import opened Expander

  // The method failed as the function says, or the destination holds its value.
  ghost predicate Matches(spec: Result<seq<nat>>, err: Option<Error>, out: seq<nat>) {
    match spec
    case Ok(vs) => err == None && out == vs
    case Err(e) => err == Some(e)
  }

  // ---------- exceptions ----------

  method PatchExceptionsRaw(k: FloatKind, src: seq<byte>, count: nat, out: array<nat>) returns (err: Option<Error>)
    requires count <= out.Length
    modifies out
    ensures Matches(PatchExceptions(k, src, old(out[..count])), err, out[..count])
    ensures out[count..] == old(out[count..])
  {
    if src == [] {
      return None;
    }
    var large := IsLarge(count);
    var p := PosLen(large);
    if |src| < p {
      return Some(UnexpectedEof(p, |src|));
    }
    var needed := LeVal(src[..p]) * EntrySize(k, large);
    if |src| < p + needed {
      return Some(UnexpectedEof(p + needed, |src|));
    }
    err := PatchEntries(k, large, src[p..p + needed], count, out);
  }

  method PatchEntries(k: FloatKind, large: bool, entries: seq<byte>, count: nat, out: array<nat>) returns (err: Option<Error>)
    requires count <= out.Length
    modifies out
    ensures Matches(Patch(old(out[..count]), ReadEntries(k, large, entries)), err, out[..count])
    ensures out[count..] == old(out[count..])
  {
    var n, p := EntrySize(k, large), PosLen(large);
    var rest := entries;
    while |rest| >= n
      invariant Patch(out[..count], ReadEntries(k, large, rest)) == Patch(old(out[..count]), ReadEntries(k, large, entries))
      invariant out[count..] == old(out[count..])
      decreases |rest|
    {
      var pos, bits := LeVal(rest[..p]), LeVal(rest[p..n]);
      ghost var es := ReadEntries(k, large, rest);
      assert es[0] == Exception(pos, bits) && es[1..] == ReadEntries(k, large, rest[n..]);
      if pos >= count {
        return Some(CorruptedData(pos, count));
      }
      ghost var vals := out[..count];
      out[pos] := bits;
      assert out[..count] == vals[pos := bits];
      rest := rest[n..];
    }
    err := None;
  }

  // ---------- frame of reference ----------

  method DecodeStandardRaw(ar: Arith, src: seq<byte>, behind: seq<byte>, count: nat, p: AlpParams, out: array<nat>)
      returns (err: Option<Error>)
    requires p.Validate(ar.kind) && count <= out.Length && |behind| >= WORD128
    modifies out
    ensures Matches(DecodeStandard(ar, src, count, p), err, out[..count])
    ensures out[count..] == old(out[count..])
  {
    var n := ar.kind.Size();
    if count == 0 {
      return None;
    }
    if |src| < n {
      return Some(UnexpectedEof(n, |src|));
    }
    var base := ReadBase(ar.kind, src[..n]);
    var packed := PackedSize(count, p.bitWidth);
    if |src| - n < packed {
      return Some(UnexpectedEof(packed, |src| - n));
    }
    var tail := src[n + packed..];
    var offs, past := BitUnpack(src[n..n + packed], tail + behind, count, p.bitWidth);
    WriteOffsets(ar, p.Best(), offs, base, out);
    err := PatchExceptionsRaw(ar.kind, tail, count, out);
  }

  method WriteOffsets(ar: Arith, p: BestParams, offs: seq<nat>, base: int, out: array<nat>)
    requires p.fac <= p.exp && |offs| <= out.Length
    modifies out
    ensures out[..|offs|] == DecodeInts(ar, p, OffsetInts(ar.kind, offs, base))
    ensures out[|offs|..] == old(out[|offs|..])
  {
    for i := 0 to |offs|
      invariant forall j :: 0 <= j < i ==> out[j] == Decode(ar, p, ar.kind.U64ToIntAdd(offs[j], base))
      invariant forall j :: i <= j < out.Length ==> out[j] == old(out[j])
    {
      out[i] := Decode(ar, p, ar.kind.U64ToIntAdd(offs[i], base));
    }
  }

  // ---------- differences ----------

  lemma AddAssoc(k: FloatKind, a: int, b: int, c: int)
    ensures k.IntAdd(k.IntAdd(a, b), c) == k.IntAdd(a, k.IntAdd(b, c))
  {
    WrapParts(k, a + b);
    WrapParts(k, b + c);
    WrapCongruent(k, a + b + c, -WrapQuot(k, a + b));
    WrapCongruent(k, a + b + c, -WrapQuot(k, b + c));
    assert k.IntAdd(a, b) + c == a + b + c + (-WrapQuot(k, a + b)) * k.Modulus();
    assert a + k.IntAdd(b, c) == a + b + c + (-WrapQuot(k, b + c)) * k.Modulus();
  }

  // Eight steps taken one by one end in the sums of the tree.
  lemma TreeSums(k: FloatKind, curr: int, d: seq<int>)
    requires |d| == 8
    ensures var s01, s23, s45, s67 := k.IntAdd(d[0], d[1]), k.IntAdd(d[2], d[3]), k.IntAdd(d[4], d[5]), k.IntAdd(d[6], d[7]);
      var s0123 := k.IntAdd(s01, s23);
      var c1, c3 := k.IntAdd(curr, s01), k.IntAdd(curr, s0123);
      var c5 := k.IntAdd(c3, s45);
      && k.IntAdd(k.IntAdd(curr, d[0]), d[1]) == c1
      && k.IntAdd(k.IntAdd(c1, d[2]), d[3]) == c3
      && k.IntAdd(k.IntAdd(c3, d[4]), d[5]) == c5
      && k.IntAdd(k.IntAdd(c5, d[6]), d[7]) == k.IntAdd(curr, k.IntAdd(s0123, k.IntAdd(s45, s67)))
  {
    var s01, s23, s45, s67 := k.IntAdd(d[0], d[1]), k.IntAdd(d[2], d[3]), k.IntAdd(d[4], d[5]), k.IntAdd(d[6], d[7]);
    var s0123 := k.IntAdd(s01, s23);
    var c1, c3 := k.IntAdd(curr, s01), k.IntAdd(curr, s0123);
    AddAssoc(k, curr, d[0], d[1]);
    AddAssoc(k, c1, d[2], d[3]);
    AddAssoc(k, curr, s01, s23);
    AddAssoc(k, c3, d[4], d[5]);
    AddAssoc(k, k.IntAdd(c3, s45), d[6], d[7]);
    AddAssoc(k, c3, s45, s67);
    AddAssoc(k, curr, s0123, k.IntAdd(s45, s67));
  }

  // last integer of a run of prefix sums
  function LastInt(curr: int, ints: seq<int>): int {
    if ints == [] then curr else ints[|ints| - 1]
  }

  lemma {:induction false} PrefixConcat(k: FloatKind, curr: int, minDelta: int, a: seq<nat>, b: seq<nat>)
    ensures PrefixInts(k, curr, minDelta, a + b)
         == PrefixInts(k, curr, minDelta, a) + PrefixInts(k, LastInt(curr, PrefixInts(k, curr, minDelta, a)), minDelta, b)
    decreases |a|
  {
    if a == [] {
      assert a + b == b;
    } else {
      var next := k.IntAdd(curr, k.U64ToIntAdd(a[0], minDelta));
      assert (a + b)[1..] == a[1..] + b;
      PrefixConcat(k, next, minDelta, a[1..], b);
    }
  }

  // The consumer that turns offsets of differences into integers: eight at once by a
  // tree of sums, or one.
  class DeltaConsumer {
    const k: FloatKind
    const minDelta: int
    var curr: int

    constructor (k: FloatKind, curr: int, minDelta: int)
      ensures this.k == k && this.curr == curr && this.minDelta == minDelta
    {
      this.k, this.curr, this.minDelta := k, curr, minDelta;
    }

    method Consume8(offs: seq<nat>) returns (c: seq<int>)
      requires |offs| == 8
      modifies this
      ensures c == PrefixInts(k, old(curr), minDelta, offs) && curr == LastInt(old(curr), c)
    {
      var d := seq(8, i requires 0 <= i < 8 => k.U64ToIntAdd(offs[i], minDelta));
      var s01, s23, s45, s67 := k.IntAdd(d[0], d[1]), k.IntAdd(d[2], d[3]), k.IntAdd(d[4], d[5]), k.IntAdd(d[6], d[7]);
      var s0123, s4567 := k.IntAdd(s01, s23), k.IntAdd(s45, s67);
      var total := k.IntAdd(s0123, s4567);
      var c0, c1 := k.IntAdd(curr, d[0]), k.IntAdd(curr, s01);
      var c2, c3 := k.IntAdd(c1, d[2]), k.IntAdd(curr, s0123);
      var c4, c5 := k.IntAdd(c3, d[4]), k.IntAdd(c3, s45);
      var c6, c7 := k.IntAdd(c5, d[6]), k.IntAdd(curr, total);
      TreeSums(k, curr, d);
      c := [c0, c1, c2, c3, c4, c5, c6, c7];
      StepsAre(k, curr, minDelta, offs, c);
      curr := c7;
    }

    method Consume1(off: nat) returns (next: int)
      modifies this
      ensures [next] == PrefixInts(k, old(curr), minDelta, [off]) && curr == next
    {
      next := k.IntAdd(curr, k.U64ToIntAdd(off, minDelta));
      curr := next;
    }
  }

  // integer i is the one before it plus its difference
  predicate Step(k: FloatKind, curr: int, minDelta: int, offs: seq<nat>, c: seq<int>, i: nat)
    requires i < |c| == |offs|
  {
    var before := if i == 0 then curr else c[i - 1];
    c[i] == k.IntAdd(before, k.U64ToIntAdd(offs[i], minDelta))
  }

  lemma {:induction false} StepsAre(k: FloatKind, curr: int, minDelta: int, offs: seq<nat>, c: seq<int>)
    requires |c| == |offs| && forall i :: 0 <= i < |c| ==> Step(k, curr, minDelta, offs, c, i)
    ensures c == PrefixInts(k, curr, minDelta, offs)
    decreases |offs|
  {
    if |offs| == 0 {
      assert c == [];
    } else {
      assert Step(k, curr, minDelta, offs, c, 0);
      forall i | 0 <= i < |c| - 1 ensures Step(k, c[0], minDelta, offs[1..], c[1..], i) {
        assert Step(k, curr, minDelta, offs, c, i + 1);
      }
      StepsAre(k, c[0], minDelta, offs[1..], c[1..]);
      assert c == [c[0]] + c[1..];
    }
  }

  // All offsets through the consumer, in groups of eight and then singly.
  method ConsumeAll(consumer: DeltaConsumer, offs: seq<nat>) returns (ints: seq<int>)
    modifies consumer
    ensures ints == PrefixInts(consumer.k, old(consumer.curr), consumer.minDelta, offs)
  {
    ints := [];
    ghost var first := consumer.curr;
    var i := 0;
    while i + 8 <= |offs|
      invariant 0 <= i <= |offs| && Consumed(consumer, first, offs[..i], ints)
    {
      PrefixConcat(consumer.k, first, consumer.minDelta, offs[..i], offs[i..i + 8]);
      assert offs[..i + 8] == offs[..i] + offs[i..i + 8];
      var c := consumer.Consume8(offs[i..i + 8]);
      ints := ints + c;
      i := i + 8;
    }
    while i < |offs|
      invariant 0 <= i <= |offs| && Consumed(consumer, first, offs[..i], ints)
    {
      PrefixConcat(consumer.k, first, consumer.minDelta, offs[..i], [offs[i]]);
      assert offs[..i + 1] == offs[..i] + [offs[i]];
      var next := consumer.Consume1(offs[i]);
      ints := ints + [next];
      i := i + 1;
    }
    assert offs[..|offs|] == offs;
  }

  ghost predicate Consumed(consumer: DeltaConsumer, first: int, offs: seq<nat>, ints: seq<int>)
    reads consumer
  {
    ints == PrefixInts(consumer.k, first, consumer.minDelta, offs) && consumer.curr == LastInt(first, ints)
  }

  method DecodeDeltaRaw(ar: Arith, src: seq<byte>, behind: seq<byte>, count: nat, p: AlpParams, out: array<nat>)
      returns (err: Option<Error>)
    requires p.Validate(ar.kind) && count <= out.Length && |behind| >= WORD128
    modifies out
    ensures Matches(DecodeDelta(ar, src, count, p), err, out[..count])
    ensures out[count..] == old(out[count..])
  {
    var n := ar.kind.Size();
    if count == 0 {
      return None;
    }
    if |src| < 2 * n {
      return Some(UnexpectedEof(2 * n, |src|));
    }
    var first, minDelta := ReadBase(ar.kind, src[..n]), ReadBase(ar.kind, src[n..2 * n]);
    var packed := PackedSize(count - 1, p.bitWidth);
    if |src| - 2 * n < packed {
      return Some(UnexpectedEof(packed, |src| - 2 * n));
    }
    var tail := src[2 * n + packed..];
    var offs, past := BitUnpack(src[2 * n..2 * n + packed], tail + behind, count - 1, p.bitWidth);
    var consumer := new DeltaConsumer(ar.kind, first, minDelta);
    var ints := ConsumeAll(consumer, offs);
    WriteInts(ar, p.Best(), [first] + ints, out);
    err := PatchExceptionsRaw(ar.kind, tail, count, out);
  }

  method WriteInts(ar: Arith, p: BestParams, ints: seq<int>, out: array<nat>)
    requires p.fac <= p.exp && |ints| <= out.Length
    modifies out
    ensures out[..|ints|] == DecodeInts(ar, p, ints)
    ensures out[|ints|..] == old(out[|ints|..])
  {
    for i := 0 to |ints|
      invariant forall j :: 0 <= j < i ==> out[j] == Decode(ar, p, ints[j])
      invariant forall j :: i <= j < out.Length ==> out[j] == old(out[j])
    {
      out[i] := Decode(ar, p, ints[i]);
    }
  }

  // ---------- raw and dictionary blocks ----------

  method WriteValues(vs: seq<nat>, out: array<nat>)
    requires |vs| <= out.Length
    modifies out
    ensures out[..|vs|] == vs
    ensures out[|vs|..] == old(out[|vs|..])
  {
    for i := 0 to |vs|
      invariant forall j :: 0 <= j < i ==> out[j] == vs[j]
      invariant forall j :: i <= j < out.Length ==> out[j] == old(out[j])
    {
      out[i] := vs[i];
    }
  }

  method DecodeRawRaw(k: FloatKind, src: seq<byte>, cursor: nat, count: nat, out: array<nat>) returns (err: Option<Error>)
    requires cursor <= |src| && count <= out.Length
    modifies out
    ensures Matches(DecodeRaw(k, src, cursor, count), err, out[..count])
    ensures out[count..] == old(out[count..])
  {
    var needed := count * k.Size();
    if |src| < cursor + needed {
      return Some(UnexpectedEof(cursor + needed, |src|));
    }
    WriteValues(RawValues(k, src[cursor..cursor + needed], count), out);
    err := None;
  }

  // The table the lookups index: the entries, padded with the first to sixty-four.
  function PaddedTable(dict: seq<nat>): (t: seq<nat>)
    requires dict != [] && |dict| <= MAX_DICT_ENTRIES
    ensures |t| == MAX_DICT_ENTRIES
  {
    dict + seq(MAX_DICT_ENTRIES - |dict|, _ => dict[0])
  }

  method DecodeDictRaw(k: FloatKind, payload: seq<byte>, behind: seq<byte>, count: nat, out: array<nat>)
      returns (err: Option<Error>)
    requires count <= out.Length && |behind| >= WORD128
    modifies out
    ensures Matches(DecodeDict(k, payload, count), err, out[..count])
    ensures out[count..] == old(out[count..])
  {
    if |payload| < 2 {
      return Some(UnexpectedEof(2, |payload|));
    }
    var dictLen, w := payload[0], payload[1];
    if dictLen == 0 || dictLen > MAX_DICT_ENTRIES || w > 6 {
      return Some(InvalidHeader);
    }
    var start := 2 + dictLen * k.Size();
    if |payload| < start {
      return Some(UnexpectedEof(start, |payload|));
    }
    var dict := RawValues(k, payload[2..start], dictLen);
    if w == 0 {
      WriteValues(seq(count, _ => dict[0]), out);
      return None;
    }
    var packed := PackedSize(count, w);
    if |payload| < start + packed {
      return Some(UnexpectedEof(start + packed, |payload|));
    }
    var offs, past := BitUnpack(payload[start..start + packed], payload[start + packed..] + behind, count, w);
    WriteLookups(dict, offs, out);
    err := None;
  }

  method WriteLookups(dict: seq<nat>, offs: seq<nat>, out: array<nat>)
    requires dict != [] && |dict| <= MAX_DICT_ENTRIES && |offs| <= out.Length
    modifies out
    ensures out[..|offs|] == DictValues(dict, offs)
    ensures out[|offs|..] == old(out[|offs|..])
  {
    var table := PaddedTable(dict);
    for i := 0 to |offs|
      invariant forall j :: 0 <= j < i ==> out[j] == DictEntry(dict, offs[j])
      invariant forall j :: i <= j < out.Length ==> out[j] == old(out[j])
    {
      out[i] := table[offs[i] % MAX_DICT_ENTRIES];
    }
  }

  // ---------- real-doubles blocks ----------

  const RD_BLOCK: nat := 1024

  // Values from byte Off(m, w) on are those from value 8 * m on.
  lemma BlockValues(src: seq<byte>, count: nat, w: nat, m: nat, n: nat)
    requires Covers(src, count, w) && 8 * m + n <= count
    ensures Off(m, w) + PackedSize(n, w) <= |src|
    ensures Unpack(src[Off(m, w)..Off(m, w) + PackedSize(n, w)], n, w) == Unpack(src, count, w)[8 * m..8 * m + n]
  {
    PackedSizeConcat(m, n, w);
    OffMono(8 * m + n, count, w);
    var at := Off(m, w);
    var part := src[at..at + PackedSize(n, w)];
    forall i | 0 <= i < n ensures Unpack(part, n, w)[i] == Unpack(src, count, w)[8 * m..8 * m + n][i] {
      BlockValue(src, w, m, n, i, at, part);
      assert Unpack(src, count, w)[8 * m..8 * m + n][i] == Value(src, 8 * m + i, w);
    }
  }

  lemma BlockValue(src: seq<byte>, w: nat, m: nat, n: nat, i: nat, at: nat, part: seq<byte>)
    requires at == Off(m, w) && at + PackedSize(n, w) <= |src| && part == src[at..at + PackedSize(n, w)] && i < n
    ensures Value(part, i, w) == Value(src, 8 * m + i, w)
  {
    OffBytes(m, w);
    OffAdd(8 * m, i, w);
    InSource(part, n, w, i);
    FieldInWord(src, at, |part|, Off(8 * m + i, w), w);
  }

  // Unpacks and joins one block of at most 1024 elements.
  method JoinBlock(k: FloatKind, dict: seq<nat>, left: seq<byte>, right: seq<byte>, behind: seq<byte>, n: nat, lw: nat, rw: nat)
      returns (vs: seq<nat>)
    requires 0 < lw <= 3 && 0 < rw < k.Bits() && Covers(left, n, lw) && Covers(right, n, rw) && |behind| >= WORD128
    ensures vs == RdValues(k, dict, Unpack(left, n, lw), Unpack(right, n, rw), rw)
  {
    var lefts, past := BitUnpack(left, right + behind, n, lw);
    var rights, past' := BitUnpack(right, behind, n, rw);
    vs := RdValues(k, dict, lefts, rights, rw);
  }

  method JoinBlocks(k: FloatKind, dict: seq<nat>, left: seq<byte>, right: seq<byte>, behind: seq<byte>, count: nat,
                    lw: nat, rw: nat, out: array<nat>)
    requires 0 < lw <= 3 && 0 < rw < k.Bits() && Covers(left, count, lw) && Covers(right, count, rw)
    requires |behind| >= WORD128 && count <= out.Length
    modifies out
    ensures out[..count] == RdValues(k, dict, Unpack(left, count, lw), Unpack(right, count, rw), rw)
    ensures out[count..] == old(out[count..])
  {
    ghost var all := RdValues(k, dict, Unpack(left, count, lw), Unpack(right, count, rw), rw);
    var done, m := 0, 0;
    while done < count
      invariant 0 <= done <= count && (done < count ==> done == 8 * m)
      invariant out[..done] == all[..done]
      invariant out[count..] == old(out[count..])
    {
      var n: nat := if count - done < RD_BLOCK then count - done else RD_BLOCK;
      var vs := JoinBlockAt(k, dict, left, right, behind, count, lw, rw, m, n);
      WriteAt(vs, done, out);
      OnePart(out[..], all, done, n, vs);
      done, m := done + n, m + RD_BLOCK / 8;
    }
  }

  // The block of n values from value 8 * m on.
  method JoinBlockAt(k: FloatKind, dict: seq<nat>, left: seq<byte>, right: seq<byte>, behind: seq<byte>, count: nat,
                     lw: nat, rw: nat, m: nat, n: nat) returns (vs: seq<nat>)
    requires 0 < lw <= 3 && 0 < rw < k.Bits() && Covers(left, count, lw) && Covers(right, count, rw)
    requires |behind| >= WORD128 && 8 * m + n <= count
    ensures vs == RdValues(k, dict, Unpack(left, count, lw), Unpack(right, count, rw), rw)[8 * m..8 * m + n]
  {
    BlockValues(left, count, lw, m, n);
    BlockValues(right, count, rw, m, n);
    var lAt, rAt := Off(m, lw), Off(m, rw);
    vs := JoinBlock(k, dict, left[lAt..lAt + PackedSize(n, lw)], right[rAt..rAt + PackedSize(n, rw)],
                    right[rAt + PackedSize(n, rw)..] + behind, n, lw, rw);
    RdSlice(k, dict, Unpack(left, count, lw), Unpack(right, count, rw), rw, 8 * m, n);
  }

  // Values joined from a part of the fields are that part of the values.
  lemma RdSlice(k: FloatKind, dict: seq<nat>, lefts: seq<nat>, rights: seq<nat>, rw: nat, at: nat, n: nat)
    requires |lefts| == |rights| && at + n <= |rights|
    ensures RdValues(k, dict, lefts[at..at + n], rights[at..at + n], rw)
         == RdValues(k, dict, lefts, rights, rw)[at..at + n]
  {
  }

  lemma OnePart(s: seq<nat>, all: seq<nat>, at: nat, n: nat, vs: seq<nat>)
    requires at + n <= |s| && at + n <= |all| && s[..at] == all[..at] && s[at..at + n] == vs == all[at..at + n]
    ensures s[..at + n] == all[..at + n]
  {
    PrefixGrows(s, all, at, n);
  }

  lemma PrefixGrows(s: seq<nat>, all: seq<nat>, at: nat, n: nat)
    requires at + n <= |s| && at + n <= |all| && s[..at] == all[..at] && s[at..at + n] == all[at..at + n]
    ensures s[..at + n] == all[..at + n]
  {
    assert s[..at + n] == s[..at] + s[at..at + n] && all[..at + n] == all[..at] + all[at..at + n];
  }

  method WriteAt(vs: seq<nat>, at: nat, out: array<nat>)
    requires at + |vs| <= out.Length
    modifies out
    ensures out[..at] == old(out[..at]) && out[at..at + |vs|] == vs && out[at + |vs|..] == old(out[at + |vs|..])
  {
    for i := 0 to |vs|
      invariant forall j :: 0 <= j < i ==> out[at + j] == vs[j]
      invariant forall j :: 0 <= j < at || at + i <= j < out.Length ==> out[j] == old(out[j])
    {
      out[at + i] := vs[i];
    }
  }

  method PatchRdRaw(k: FloatKind, entries: seq<byte>, rw: nat, count: nat, out: array<nat>) returns (err: Option<Error>)
    requires count <= out.Length
    modifies out
    ensures Matches(PatchRd(k, old(out[..count]), ReadRdExceptions(entries), rw), err, out[..count])
    ensures out[count..] == old(out[count..])
  {
    var rest := entries;
    while |rest| >= 4
      invariant PatchRd(k, out[..count], ReadRdExceptions(rest), rw)
             == PatchRd(k, old(out[..count]), ReadRdExceptions(entries), rw)
      invariant out[count..] == old(out[count..])
      decreases |rest|
    {
      var pos, left := LeVal(rest[..2]), LeVal(rest[2..4]);
      ghost var es := ReadRdExceptions(rest);
      assert es[0] == RdException(pos, left) && es[1..] == ReadRdExceptions(rest[4..]);
      if pos >= count {
        return Some(CorruptedData(pos, count));
      }
      ghost var vals := out[..count];
      AndMask(out[pos], rw);
      out[pos] := RdJoin(k, left, BitAnd(out[pos], Mask(rw)), rw);
      assert out[..count] == vals[pos := out[pos]];
      rest := rest[4..];
    }
    err := None;
  }

  method DecodeRdRaw(k: FloatKind, payload: seq<byte>, behind: seq<byte>, count: nat, out: array<nat>)
      returns (err: Option<Error>)
    requires count <= out.Length && |behind| >= WORD128
    modifies out
    ensures Matches(DecodeRd(k, payload, count), err, out[..count])
    ensures out[count..] == old(out[count..])
  {
    if |payload| < 5 {
      return Some(UnexpectedEof(5, |payload|));
    }
    var rw, lw, size := payload[0], payload[1], payload[2];
    if size > MAX_RD_DICT_SIZE || rw == 0 || rw >= k.Bits() || lw > 3 {
      return Some(InvalidHeader);
    }
    var excCount := LeVal(payload[3..5]);
    ghost var spec := DecodeRdBody(k, payload, count, rw, lw, size, excCount);
    BodyCases(k, payload, count, rw, lw, size, excCount);
    err := DecodeRdBodyRaw(k, payload, behind, count, rw, lw, size, excCount, spec, out);
  }

  lemma BodyCases(k: FloatKind, payload: seq<byte>, count: nat, rw: nat, lw: nat, size: nat, excCount: nat)
    requires |payload| >= 5
    ensures var spec, leftAt := DecodeRdBody(k, payload, count, rw, lw, size, excCount), 5 + size * 2;
      var rightAt, excAt := RdRightAt(count, lw, size), RdExcAt(count, rw, lw, size);
      if |payload| < leftAt then spec == Err(UnexpectedEof(leftAt, |payload|))
      else if |payload| < excAt + excCount * 4 then spec == Err(UnexpectedEof(excAt + excCount * 4, |payload|))
      else spec == RdAssemble(k, count, rw, lw, payload[5..leftAt], payload[leftAt..rightAt], payload[rightAt..excAt],
                              payload[excAt..excAt + excCount * 4])
  {
    var excAt := RdExcAt(count, rw, lw, size);
    if |payload| < 5 + size * 2 {
    } else if |payload| < excAt + excCount * 4 {
    } else {
    }
  }

  method DecodeRdBodyRaw(k: FloatKind, payload: seq<byte>, behind: seq<byte>, count: nat, rw: nat, lw: nat, size: nat,
                         excCount: nat, ghost spec: Result<seq<nat>>, out: array<nat>) returns (err: Option<Error>)
    requires count <= out.Length && |behind| >= WORD128 && |payload| >= 5 && 0 < rw < k.Bits() && lw <= 3
    requires var leftAt := 5 + size * 2;
      var rightAt, excAt := RdRightAt(count, lw, size), RdExcAt(count, rw, lw, size);
      if |payload| < leftAt then spec == Err(UnexpectedEof(leftAt, |payload|))
      else if |payload| < excAt + excCount * 4 then spec == Err(UnexpectedEof(excAt + excCount * 4, |payload|))
      else spec == RdAssemble(k, count, rw, lw, payload[5..leftAt], payload[leftAt..rightAt], payload[rightAt..excAt],
                              payload[excAt..excAt + excCount * 4])
    modifies out
    ensures Matches(spec, err, out[..count])
    ensures out[count..] == old(out[count..])
  {
    var leftAt := 5 + size * 2;
    if |payload| < leftAt {
      return Some(UnexpectedEof(leftAt, |payload|));
    }
    var rightAt, excAt := RdRightAt(count, lw, size), RdExcAt(count, rw, lw, size);
    if |payload| < excAt + excCount * 4 {
      return Some(UnexpectedEof(excAt + excCount * 4, |payload|));
    }
    err := AssembleRaw(k, payload[5..leftAt], payload[leftAt..rightAt], payload[rightAt..excAt],
                       payload[excAt..excAt + excCount * 4], payload[excAt..] + behind, count, lw, rw, out);
  }

  // The joined values, then the exceptions over them.
  method AssembleRaw(k: FloatKind, dict: seq<byte>, left: seq<byte>, right: seq<byte>, exceptions: seq<byte>,
                     behind: seq<byte>, count: nat, lw: nat, rw: nat, out: array<nat>) returns (err: Option<Error>)
    requires lw <= 3 && 0 < rw < k.Bits() && |left| == LeftBytes(count, lw) && Covers(right, count, rw)
    requires |behind| >= WORD128 && count <= out.Length
    modifies out
    ensures Matches(RdAssemble(k, count, rw, lw, dict, left, right, exceptions), err, out[..count])
    ensures out[count..] == old(out[count..])
  {
    JoinParts(k, dict, left, right, behind, count, lw, rw, out);
    err := PatchRdRaw(k, exceptions, rw, count, out);
  }

  // No index bits: one table entry serves all.
  method JoinParts(k: FloatKind, dict: seq<byte>, left: seq<byte>, right: seq<byte>, behind: seq<byte>, count: nat,
                   lw: nat, rw: nat, out: array<nat>)
    requires lw <= 3 && 0 < rw < k.Bits() && |left| == LeftBytes(count, lw) && Covers(right, count, rw)
    requires |behind| >= WORD128 && count <= out.Length
    modifies out
    ensures out[..count] == RdValues(k, U16s(dict), if lw == 0 then Zeros(count) else Unpack(left, count, lw),
                                     Unpack(right, count, rw), rw)
    ensures out[count..] == old(out[count..])
  {
    if lw == 0 {
      var rights, past := BitUnpack(right, behind, count, rw);
      WriteValues(RdValues(k, U16s(dict), Zeros(count), rights, rw), out);
    } else {
      JoinBlocks(k, U16s(dict), left, right, behind, count, lw, rw, out);
    }
  }

  // ---------- any block ----------

  method DecodeDirectRaw(ar: Arith, src: seq<byte>, behind: seq<byte>, cursor: nat, t: nat, count: nat,
                         params: Option<AlpParams>, out: array<nat>) returns (err: Option<Error>)
    requires cursor <= |src| && count <= out.Length && |behind| >= WORD128
    modifies out
    ensures Matches(DecodeDirect(ar, src, cursor, t, count, params), err, out[..count])
    ensures out[count..] == old(out[count..])
  {
    var k := ar.kind;
    if t == RawByte(k) {
      err := DecodeRawRaw(k, src, cursor, count, out);
    } else if t == DictByte(k) {
      err := DecodeDictRaw(k, src[cursor..], behind, count, out);
    } else if t == RdByte(k) {
      err := DecodeRdRaw(k, src[cursor..], behind, count, out);
    } else if !IsStandard(k, t) && !IsDelta(k, t) {
      err := Some(InvalidHeader);
    } else if params.None? {
      err := Some(InvalidHeader);
    } else if !params.value.Validate(k) {
      err := Some(UnsupportedParams(params.value.exp, params.value.fac, params.value.bitWidth));
    } else if IsDelta(k, t) {
      err := DecodeDeltaRaw(ar, src[cursor..], behind, count, params.value, out);
    } else {
      err := DecodeStandardRaw(ar, src[cursor..], behind, count, params.value, out);
    }
  }

  method DecodeRepeatRaw(ar: Arith, src: seq<byte>, behind: seq<byte>, cursor: nat, t: nat, count: nat,
                         params: Option<AlpParams>, out: array<nat>) returns (err: Option<Error>)
    requires cursor <= |src| && count <= out.Length && |behind| >= WORD128
    modifies out
    ensures Matches(DecodeRepeat(ar, src, cursor, t, count, params), err, out[..count])
    ensures out[count..] == old(out[count..])
  {
    var n := BitmapLen(count);
    if |src| < cursor + n {
      return Some(UnexpectedEof(cursor + n, |src|));
    }
    err := DecodeBehindRaw(ar, src, behind, cursor + n, t, count, params, src[cursor..cursor + n], out);
  }

  method DecodeBehindRaw(ar: Arith, src: seq<byte>, behind: seq<byte>, cursor: nat, t: nat, count: nat,
                         params: Option<AlpParams>, bitmap: seq<byte>, out: array<nat>) returns (err: Option<Error>)
    requires cursor <= |src| && count <= out.Length && |behind| >= WORD128 && |bitmap| == BitmapLen(count)
    modifies out
    ensures Matches(DecodeBehind(ar, src, cursor, t, count, params, bitmap), err, out[..count])
    ensures out[count..] == old(out[count..])
  {
    var repeats := CountBitmapOnes(bitmap, count);
    var nonRepeats := count - repeats;
    if nonRepeats == 0 {
      return Some(InvalidHeader);
    }
    assert nonRepeats == NonRepeatCount(bitmap, count);
    err := DecodeAndExpand(ar, src, behind, cursor, t, nonRepeats, params, bitmap, count, out);
  }

  // The non-repeats into a buffer of their own, and from there to the destination.
  method DecodeAndExpand(ar: Arith, src: seq<byte>, behind: seq<byte>, cursor: nat, t: nat, n: nat,
                         params: Option<AlpParams>, bitmap: seq<byte>, count: nat, out: array<nat>)
      returns (err: Option<Error>)
    requires cursor <= |src| && count <= out.Length && |behind| >= WORD128 && |bitmap| == BitmapLen(count)
    modifies out
    ensures Matches(ExpandResult(bitmap, DecodeDirect(ar, src, cursor, t, n, params), count), err, out[..count])
    ensures out[count..] == old(out[count..])
  {
    var tmp := new nat[n];
    err := DecodeDirectRaw(ar, src, behind, cursor, t, n, params, tmp);
    assert tmp[..n] == tmp[..];
    if err == None {
      ExpandRepeats(bitmap, count, tmp[..], out);
    }
  }

  // Decodes one block into the destination; nothing behind the block's elements changes.
  method DecompressIntoRaw(ar: Arith, src: seq<byte>, behind: seq<byte>, out: array<nat>)
      returns (err: Option<Error>, written: nat)
    requires |behind| >= WORD128
    modifies out
    ensures written <= out.Length && out[written..] == old(out[written..])
    ensures Matches(DecodeBlock(ar, src, out.Length), err, out[..written])
    ensures forall slice :: Restores(ar, src, slice) ==> Given(slice, out.Length, err, out[..written])
  {
    err, written := DecodeBlockRaw(ar, src, behind, out);
    forall slice | Restores(ar, src, slice)
      ensures Given(slice, out.Length, err, out[..written])
    {
      GivenWhole(ar, src, slice, out.Length, err, out[..written]);
    }
  }

  // All of the slice when it fits, and nothing when it does not.
  predicate Given(slice: seq<nat>, cap: nat, err: Option<Error>, out: seq<nat>) {
    if |slice| <= cap then err == None && out == slice
    else err == Some(BufferTooSmall(|slice|, cap)) && out == []
  }

  lemma GivenWhole(ar: Arith, src: seq<byte>, slice: seq<nat>, cap: nat, err: Option<Error>, out: seq<nat>)
    requires Restores(ar, src, slice)
    requires ReadHeader(src).Ok? && ReadHeader(src).value.count > cap ==> out == []
    ensures Matches(DecodeBlock(ar, src, cap), err, out) ==> Given(slice, cap, err, out)
  {
    CapacityIff(ar, src, slice, cap);
  }

  method DecodeBlockRaw(ar: Arith, src: seq<byte>, behind: seq<byte>, out: array<nat>)
      returns (err: Option<Error>, written: nat)
    requires |behind| >= WORD128
    modifies out
    ensures written <= out.Length && out[written..] == old(out[written..])
    ensures Matches(DecodeBlock(ar, src, out.Length), err, out[..written])
    ensures ReadHeader(src).Ok? && ReadHeader(src).value.count > out.Length ==> written == 0
  {
    written := 0;
    var header := ReadHeader(src);
    if header.Err? {
      return Some(header.error), 0;
    }
    var h := header.value;
    if h.count == 0 {
      return None, 0;
    }
    if out.Length < h.count {
      return Some(BufferTooSmall(h.count, out.Length)), 0;
    }
    if h.hasRepeat {
      err := DecodeRepeatRaw(ar, src, behind, h.cursor, h.typeByte, h.count, h.params, out);
    } else {
      err := DecodeDirectRaw(ar, src, behind, h.cursor, h.typeByte, h.count, h.params, out);
    }
    written := h.count;
  }

  // Decompresses to exactly what the function says.
  method DecompressInto(ar: Arith, src: seq<byte>, behind: seq<byte>) returns (r: Result<seq<nat>>)
    requires |behind| >= WORD128
    ensures r == Decompress(ar, src)
  {
    var count := ReadCount(src);
    if count.Err? {
      return Err(count.error);
    }
    if count.value == 0 {
      return Ok([]);
    }
    var out := new nat[count.value];
    var err, written := DecompressIntoRaw(ar, src, behind, out);
    if err.Some? {
      return Err(err.value);
    }
    r := Ok(out[..written]);
  }
}
