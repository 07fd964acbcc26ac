/**
 Chunks on which the encoder does less than promised: all of them reached from a new
 encoder by storing another chunk first.
 */
module Overruns {
  import opened Wrappers
  import opened Words
  import opened Buffers
  import opened Floats
  import opened Params
  import opened Packers
  import opened Header
  import opened Exceptions
  import opened Blocks
  import opened Deltas
  import opened Kernel
  import opened Prune
  import opened Lossless
  import opened Plan
  import opened Engine
  import opened Dictionary
  import opened RealDoubles
  import opened Repeats
  import opened Encoder
  import opened Decoding

  // ---------- a kept dictionary decision ----------

  function UpTo(n: nat): (data: seq<nat>)
    ensures |data| == n
  {
    seq(n, i => i)
  }

  lemma {:induction false} DistinctAll(data: seq<nat>)
    requires NoRepeats(data)
    ensures Distinct(data) == data
  {
    if data != [] {
      var pre := data[..|data| - 1];
      DistinctAll(pre);
      assert data == pre + [data[|data| - 1]];
    }
  }

  lemma DictTooLong(k: FloatKind, data: seq<nat>, n: nat)
    requires n == 64 && data == UpTo(n)
    ensures |Distinct(data)| == n && DictSize(k, data) > MaxCompressedSize(k, n)
  {
    DistinctAll(data);
    BitsNeededIff(63, 6);
    BitsNeededIff(63, 5);
    assert Pow2(6) == 64;
    OffIsMul(64, 6);
  }

  // A new encoder stores five zeros as a dictionary block. The next chunk, 64 different
  // floats, is stored as one too, and takes more bytes than promised.
  method CachedDictExceeds(ar: Arith, searchRd: seq<nat> -> RdScheme)
      returns (dst: ByteVec, first: seq<byte>, data: seq<nat>)
    requires ar.Valid() && KernelFaithful(ar) && forall s: seq<nat> :: searchRd(s).Valid(ar.kind)
    ensures dst.Valid() && data == UpTo(64) && Compressed(ar, [], first, Zeros(5))
    ensures Compressed(ar, first, dst.Bytes(), data) && !Within(ar.kind, first, dst.Bytes(), data)
  {
    var enc := new Encoder(ar, searchRd);
    dst := new ByteVec();
    SameDistinct(Zeros(5), 0);
    ghost var m := enc.Memory();
    ghost var plain, inner := enc.CompressChunk(Zeros(5), dst, false);
    SingleKept(ar, Zeros(5), m, searchRd(Zeros(5)), inner, |dst.Bytes()|, enc.Memory(), enc.Kept());
    first := dst.buf[..dst.len];
    data := UpTo(64);
    DictTooLong(ar.kind, data, 64);
    plain, inner := enc.CompressChunk(data, dst, false);
  }

  // ---------- floats that nothing encodes ----------

  // Products and quotients of integers are numbers.
  ghost predicate NoNaNs(ar: Arith) {
    && (forall i, e :: !IsNaN(ar.times(i, e)))
    && (forall i, e :: !IsNaN(ar.divide(i, e)))
  }

  // all exponent bits set and a mantissa that is not zero
  predicate IsNaN(v: nat) {
    v / 0x10_0000_0000_0000 % 2048 == 2047 && v % 0x10_0000_0000_0000 != 0
  }

  function NaNs(n: nat): (data: seq<nat>)
    ensures |data| == n
  {
    seq(n, i requires 0 <= i < n => 0x7FF0_0000_0000_0001 + i)
  }

  lemma NaNsUnencodable(ar: Arith, n: nat)
    requires NoNaNs(ar) && n <= 0xFFFF
    ensures Unencodable(ar, NaNs(n))
  {
    forall p: BestParams, i | ValidBest(ar.kind, p) && 0 <= i < n ensures !Accepts(ar, p, NaNs(n)[i]) {
      assert IsNaN(NaNs(n)[i]);
    }
  }

  lemma {:induction false} NothingRepeats(data: seq<nat>, n: nat)
    requires n <= |data| && NoRepeats(data)
    ensures NonRepeats(data, n) == data[..n]
  {
    if n > 0 {
      NothingRepeats(data, n - 1);
      assert data[..n] == data[..n - 1] + [data[n - 1]];
    }
  }

  lemma NaNsStay(n: nat)
    ensures RepeatlessOf(NaNs(n)) == NaNs(n)
  {
    NothingRepeats(NaNs(n), n);
    assert NaNs(n)[..n] == NaNs(n);
  }

  lemma NaNsDiffer(n: nat)
    ensures NeighboursDiffer(NaNs(n)) && Distinct(NaNs(n)) == NaNs(n) && RepeatlessOf(NaNs(n)) == NaNs(n)
  {
    DistinctAll(NaNs(n));
    NaNsStay(n);
  }

  // ---------- a kept real-doubles scheme ----------

  // What the search finds for NaNs: their upper sixteen bits are all the same.
  const NAN_SCHEME: RdScheme := RdScheme(48, [0x7FF0])
  const NORMAL_MIN: nat := 0x10_0000_0000_0000

  // Sixteen bits at a time.
  lemma UpperBits(v: nat)
    ensures Shr(v, 48) == v / 0x1_0000_0000_0000
  {
    TwoBytes(v);
    TwoBytes(v / 0x1_0000);
    TwoBytes(v / 0x1_0000_0000);
    ShrShr(v, 16, 16);
    ShrShr(v, 32, 16);
  }

  lemma TwoBytes(v: nat)
    ensures Shr(v, 16) == v / 0x1_0000
  {
    ByteShift(v);
    ByteShift(v / 256);
    ShrShr(v, 8, 8);
  }

  lemma InNaNTable(v: nat)
    ensures IsRdException(NAN_SCHEME, v) <==> v / 0x1_0000_0000_0000 != 0x7FF0
  {
    UpperBits(v);
    assert NAN_SCHEME.dict == [0x7FF0];
  }

  // every float one that the scheme's table does not have
  lemma {:induction false} AllRdExceptions(s: RdScheme, data: seq<nat>, n: nat)
    requires n <= |data| && forall i :: 0 <= i < n ==> IsRdException(s, data[i])
    ensures |RdExceptions(s, data, n)| == n
  {
    if n > 0 {
      AllRdExceptions(s, data, n - 1);
    }
  }

  lemma {:induction false} NoRdExceptions(s: RdScheme, data: seq<nat>, n: nat)
    requires n <= |data| && forall i :: 0 <= i < n ==> !IsRdException(s, data[i])
    ensures RdExceptions(s, data, n) == []
  {
    if n > 0 {
      NoRdExceptions(s, data, n - 1);
    }
  }

  // 65 NaNs are too many for a dictionary, and smaller by the scheme than raw.
  lemma NaNsByScheme(k: FloatKind, data: seq<nat>, n: nat)
    requires k.F64? && n == 65 && data == NaNs(n)
    ensures |Distinct(data)| == n && RawOrRepeat(k, data) == RawSize(k, n)
    ensures BestScheme(k, data, NAN_SCHEME, RawSize(k, n)) == Rd
  {
    NaNsDiffer(n);
    NoMatches(data, SampleStep(n), SAMPLE_PAIRS);
    forall i | 0 <= i < n ensures !IsRdException(NAN_SCHEME, data[i]) {
      InNaNTable(data[i]);
    }
    NoRdExceptions(NAN_SCHEME, data, n);
    OffIsMul(n, 48);
  }

  // A new encoder that was given 65 NaNs keeps their scheme.
  method KeepScheme(ar: Arith, searchRd: seq<nat> -> RdScheme) returns (enc: Encoder, dst: ByteVec)
    requires ar.Valid() && ar.kind.F64? && NoNaNs(ar)
    requires (forall s: seq<nat> :: searchRd(s).Valid(ar.kind)) && searchRd(NaNs(65)) == NAN_SCHEME
    ensures fresh(enc) && fresh(enc.cache) && fresh(dst) && fresh(dst.buf)
    ensures enc.Valid() && dst.Valid() && enc.ar == ar && Compressed(ar, [], dst.Bytes(), NaNs(65))
    ensures enc.cachedScheme == Some(Rd) && enc.cachedRd == Some(NAN_SCHEME)
  {
    KernelFaithfulIff(ar);
    enc := new Encoder(ar, searchRd);
    dst := new ByteVec();
    var data := NaNs(65);
    NaNsUnencodable(ar, 65);
    assert |Distinct(data)| == 65 by {
      NaNsByScheme(ar.kind, data, 65);
    }
    ghost var m := enc.Memory();
    ghost var plain, inner := enc.CompressChunk(data, dst, false);
    RawChunks(ar, data, m, searchRd(data), inner, |dst.Bytes()|, enc.Memory(), enc.Kept());
    SchemeKept(ar.kind, data, |dst.Bytes()|, enc.Kept());
  }

  lemma SchemeKept(k: FloatKind, data: seq<nat>, size: int, kept: Decisions)
    requires k.F64? && data == NaNs(65)
    ensures RawChunk(k, data, NAN_SCHEME, size, kept) ==> kept.scheme == Some(Rd) && kept.rd == Some(NAN_SCHEME)
  {
    NaNsByScheme(k, data, 65);
  }

  lemma RdTooLong(k: FloatKind, data: seq<nat>, n: nat)
    requires k.F64? && n == |data| == 5 && forall i :: 0 <= i < n ==> IsRdException(NAN_SCHEME, data[i])
    ensures RdSize(NAN_SCHEME, data) > MaxCompressedSize(k, n)
  {
    AllRdExceptions(NAN_SCHEME, data, n);
    OffIsMul(5, 48);
  }

  // 65 NaNs leave a scheme by which five floats 2^-1022 each need their low part and an
  // exception.
  method CachedRdExceeds(ar: Arith, searchRd: seq<nat> -> RdScheme)
      returns (dst: ByteVec, first: seq<byte>, data: seq<nat>)
    requires ar.Valid() && ar.kind.F64? && NoNaNs(ar)
    requires (forall s: seq<nat> :: searchRd(s).Valid(ar.kind)) && searchRd(NaNs(65)) == NAN_SCHEME
    ensures dst.Valid() && Compressed(ar, [], first, NaNs(65)) && data == seq(5, _ => NORMAL_MIN)
    ensures !Within(ar.kind, first, dst.Bytes(), data)
  {
    var enc;
    enc, dst := KeepScheme(ar, searchRd);
    first, data := dst.buf[..dst.len], seq(5, _ => NORMAL_MIN);
    InNaNTable(NORMAL_MIN);
    RdTooLong(ar.kind, data, 5);
    ghost var plain, inner := enc.CompressChunk(data, dst, false);
  }

  // With a table of one entry the block does not depend on what its index buffer held.
  lemma OneEntryFrame(k: FloatKind, s: RdScheme, data: seq<nat>, stale: seq<nat>)
    requires s.Valid(k) && |s.dict| == 1 && |stale| == |data|
    ensures RdFrame(k, s, data, stale) == RdFrame(k, s, data, Zeros(|data|))
  {
    LeftWidthFits(1);
  }

  lemma OneEntryLoses(ar: Arith, s: RdScheme, before: seq<byte>, after: seq<byte>, data: seq<nat>)
    requires s.Valid(ar.kind) && |s.dict| == 1 && AllBits(ar.kind, data) && 0 < |data| < COUNT_LIMIT
    requires StoredAsRd(ar.kind, s, before, after, data) && !ExceptionsAddressable(s, data)
    ensures !Compressed(ar, before, after, data)
  {
    var stale: seq<nat> :| |stale| == |data| && after == before + RdFrame(ar.kind, s, data, stale);
    var frame := RdFrame(ar.kind, s, data, stale);
    OneEntryFrame(ar.kind, s, data, stale);
    RdLoses(ar.kind, s, data);
    RdFrameDecodes(ar, s, data, Zeros(|data|));
    RdFramePlain(ar, s, data, stale);
    assert (before + frame)[|before|..] == frame;
  }

  // The header of a real-doubles block never has the repeat flag.
  lemma RdFramePlain(ar: Arith, s: RdScheme, data: seq<nat>, stale: seq<nat>)
    requires s.Valid(ar.kind) && |stale| == |data| && 0 < |data| < COUNT_LIMIT
    ensures var frame := RdFrame(ar.kind, s, data, stale);
      ReadHeader(frame).Ok? && !ReadHeader(frame).value.hasRepeat
  {
    HeaderRoundTrip(RdByte(ar.kind), false, |data|, None, RdPayload(s, data, stale));
  }

  // The same scheme kept: of 65536 NaNs and one number the number does not come back.
  method CachedRdLoses(ar: Arith, searchRd: seq<nat> -> RdScheme)
      returns (dst: ByteVec, first: seq<byte>, data: seq<nat>)
    requires ar.Valid() && ar.kind.F64? && NoNaNs(ar)
    requires (forall s: seq<nat> :: searchRd(s).Valid(ar.kind)) && searchRd(NaNs(65)) == NAN_SCHEME
    ensures dst.Valid() && Compressed(ar, [], first, NaNs(65))
    ensures data == seq(0x1_0000, _ => 0x7FF0_0000_0000_0001) + [NORMAL_MIN] && AllBits(ar.kind, data)
    ensures !Compressed(ar, first, dst.Bytes(), data)
  {
    var enc;
    enc, dst := KeepScheme(ar, searchRd);
    first, data := dst.buf[..dst.len], seq(0x1_0000, _ => 0x7FF0_0000_0000_0001) + [NORMAL_MIN];
    InNaNTable(NORMAL_MIN);
    assert data[0x1_0000] == NORMAL_MIN;
    assert !ExceptionsAddressable(NAN_SCHEME, data);
    ghost var plain, inner := enc.CompressChunk(data, dst, false);
    OneEntryLoses(ar, NAN_SCHEME, first, dst.Bytes(), data);
  }

  // ---------- a kept repeat decision ----------

  // n different NaNs, m of each
  function Runs(n: nat, m: nat): (data: seq<nat>)
    requires m > 0
    ensures |data| == n * m
  {
    seq(n * m, i requires 0 <= i < n * m => 0x7FF0_0000_0000_0001 + i / m)
  }

  lemma {:induction false} RunsCollapse(n: nat, m: nat, data: seq<nat>, i: nat)
    requires m == 8 && data == Runs(n, m) && i <= |data|
    ensures NonRepeats(data, i) == NaNs((i + 7) / 8) && Distinct(data[..i]) == NaNs((i + 7) / 8)
  {
    if i > 0 {
      RunsCollapse(n, m, data, i - 1);
      var pre, v := NaNs((i + 6) / 8), data[i - 1];
      assert data[..i][..i - 1] == data[..i - 1] && v == 0x7FF0_0000_0000_0001 + (i - 1) / 8;
      if (i - 1) % 8 == 0 {
        assert (i + 7) / 8 == (i + 6) / 8 + 1 && (i + 6) / 8 == (i - 1) / 8;
        assert NaNs((i + 7) / 8) == pre + [v];
        assert v !in pre;
        assert i > 1 ==> data[i - 2] == 0x7FF0_0000_0000_0001 + (i - 2) / 8;
      } else {
        assert (i + 7) / 8 == (i + 6) / 8 > (i - 1) / 8;
        assert pre[(i - 1) / 8] == v;
        assert data[i - 2] == 0x7FF0_0000_0000_0001 + (i - 2) / 8;
      }
    }
  }

  lemma {:induction false} RunsMatch(data: seq<nat>, step: nat, n: nat)
    requires data == Runs(65, 8) && step == 32 && n <= 16
    ensures Matches(data, step, n) == n
  {
    if n > 0 {
      RunsMatch(data, step, n - 1);
      var idx := (n - 1) * step;
      assert data[idx] == data[idx + 1];
    }
  }

  lemma RunsAdopted(k: FloatKind, data: seq<nat>, s: RdScheme)
    requires k.F64? && data == Runs(65, 8)
    ensures |Distinct(data)| == 65 && Adopts(k, data) && BestScheme(k, data, s, RawOrRepeat(k, data)) == Alp
  {
    RunsCollapse(65, 8, data, |data|);
    assert data[..|data|] == data;
    RunsMatch(data, SampleStep(|data|), SAMPLE_PAIRS);
  }

  lemma RunsUnencodable(ar: Arith, n: nat, m: nat)
    requires NoNaNs(ar) && m == 8 && n <= 0xFFFF
    ensures Unencodable(ar, Runs(n, m))
  {
    var data := Runs(n, m);
    forall p: BestParams, i | ValidBest(ar.kind, p) && 0 <= i < |data| ensures !Accepts(ar, p, data[i]) {
      assert i / 8 < n && data[i] == 0x7FF0_0000_0000_0001 + i / 8;
      assert IsNaN(data[i]);
    }
  }

  // A new encoder that was given 65 NaNs eight times each keeps the decision for repeats.
  method KeepRepeat(ar: Arith, searchRd: seq<nat> -> RdScheme) returns (enc: Encoder, dst: ByteVec)
    requires ar.Valid() && ar.kind.F64? && NoNaNs(ar)
    requires forall s: seq<nat> :: searchRd(s).Valid(ar.kind)
    ensures fresh(enc) && fresh(enc.cache) && fresh(dst) && fresh(dst.buf)
    ensures enc.Valid() && dst.Valid() && enc.ar == ar && Compressed(ar, [], dst.Bytes(), Runs(65, 8))
    ensures enc.cachedScheme == Some(Alp) && enc.cachedUseRepeat == Some(true)
  {
    KernelFaithfulIff(ar);
    enc := new Encoder(ar, searchRd);
    dst := new ByteVec();
    RunsUnencodable(ar, 65, 8);
    var data := Runs(65, 8);
    RunsAdopted(ar.kind, data, searchRd(data));
    ghost var m := enc.Memory();
    ghost var plain, inner := enc.CompressChunk(data, dst, false);
    RawChunks(ar, data, m, searchRd(data), inner, |dst.Bytes()|, enc.Memory(), enc.Kept());
  }

  // 64 NaNs that repeat nothing are then stored raw behind a bitmap of zeros.
  method CachedRepeatExceeds(ar: Arith, searchRd: seq<nat> -> RdScheme)
      returns (dst: ByteVec, first: seq<byte>, data: seq<nat>)
    requires ar.Valid() && ar.kind.F64? && NoNaNs(ar)
    requires forall s: seq<nat> :: searchRd(s).Valid(ar.kind)
    ensures dst.Valid() && Compressed(ar, [], first, Runs(65, 8)) && data == NaNs(64)
    ensures Compressed(ar, first, dst.Bytes(), data) && !Within(ar.kind, first, dst.Bytes(), data)
  {
    var enc;
    enc, dst := KeepRepeat(ar, searchRd);
    first, data := dst.buf[..dst.len], NaNs(64);
    ghost var d, s := enc.Kept(), enc.RdUsed(data);
    NaNsUnencodable(ar, 64);
    NaNsStay(64);
    ghost var plain, inner := enc.CompressChunk(data, dst, false);
    KeptWithinIff(ar, d, data, false, s, plain);
  }

  // ---------- pruning by counts that wrapped ----------

  // Integers up to 2048 become floats and come back, as they do in IEEE 754 arithmetic.
  ghost predicate ExactInts(ar: Arith) {
    forall i :: 0 <= i <= 2048 ==>
      var v := ar.times(i, 0);
      ar.round(v, 0) == i && !ar.impossible(v) && !ar.scaledImpossible(v, 0)
  }

  function AsFloats(ar: Arith, ints: seq<int>): (data: seq<nat>)
    requires ar.kind.F64?
    ensures |data| == |ints|
  {
    seq(|ints|, i requires 0 <= i < |ints| => ar.times(ints[i], 0))
  }

  const PLAIN_PARAMS: BestParams := BestParams(0, 0, false)

  // The crowd's floats are accepted and encoded to the crowd.
  lemma CrowdEncodes(ar: Arith, ints: seq<int>, data: seq<nat>)
    requires ar.Valid() && ar.kind.F64? && ExactInts(ar) && ints == Crowd(0x1_0000) && data == AsFloats(ar, ints)
    ensures AllAccepted(ar, PLAIN_PARAMS, data) && Encodings(ar, PLAIN_PARAMS, data) == ints
    ensures Extremes(ar, PLAIN_PARAMS, data, |data|, 0, 2048)
  {
    forall i | 0 <= i < |data|
      ensures Accepts(ar, PLAIN_PARAMS, data[i]) && Encode(ar, PLAIN_PARAMS, data[i]) == ints[i] && 0 <= ints[i] <= 2048
    {
      CrowdBounded(i);
    }
    assert Attained(ar, PLAIN_PARAMS, data, |data|, 0) by {
      assert Encode(ar, PLAIN_PARAMS, data[0]) == 0;
    }
    assert Attained(ar, PLAIN_PARAMS, data, |data|, 2048) by {
      assert Encode(ar, PLAIN_PARAMS, data[1]) == 2048;
    }
  }

  lemma CrowdBounded(i: nat)
    requires i < 0x1_0002
    ensures 0 <= Crowd(0x1_0000)[i] <= 2048
  {
    if i >= 2 {
      CrowdAt(0x1_0000, i - 2);
    }
  }

  // Its differences need twelve bits, as its offsets do.
  lemma CrowdDeltas(ints: seq<int>)
    requires ints == Crowd(0x1_0000)
    ensures OffsetWidth(F64, 0, 2048) == 12 && !DeltaOffered(F64, ints, 12, false, None)
  {
    var first, rest := ints[0], ints[1..];
    DeltaExtremes(F64, first, rest);
    var ds := DeltasFrom(F64, first, rest);
    CrowdAt(0x1_0000, 0);
    assert ds[0] == 2048 && ds[1] == 64 - 2048;
    WideDeltas(LeastDelta(F64, first, rest), GreatestDelta(F64, first, rest));
    BitsBetween(2048, 12);
  }

  lemma WideDeltas(lo: int, hi: int)
    requires F64.IsInt(lo) && F64.IsInt(hi) && lo <= -1984 && hi >= 2048
    ensures BitsNeeded(F64.CalcRange(lo, hi)) >= 12
  {
    assert Pow2(11) == 2048;
    BitsNeededIff(F64.CalcRange(lo, hi), 11);
  }

  lemma CrowdNarrow(ar: Arith, ints: seq<int>, data: seq<nat>)
    requires ar.Valid() && ar.kind.F64? && ExactInts(ar) && ints == Crowd(0x1_0000) && data == AsFloats(ar, ints)
    ensures NarrowSlice(ar, PLAIN_PARAMS, data, 0, 2048, false, Uninit, None)
    ensures Encodings(ar, PLAIN_PARAMS, data) == ints
  {
    CrowdEncodes(ar, ints, data);
    CrowdDeltas(ints);
    CrowdApart(ar, ints, data, 0, 1);
  }

  // Different integers are different floats.
  lemma CrowdApart(ar: Arith, ints: seq<int>, data: seq<nat>, i: nat, j: nat)
    requires ar.kind.F64? && ExactInts(ar) && ints == Crowd(0x1_0000) && data == AsFloats(ar, ints)
    requires i < |ints| && j < |ints| && ints[i] != ints[j]
    ensures data[i] != data[j]
  {
    CrowdBounded(i);
    CrowdBounded(j);
    assert ar.round(data[i], 0) == ints[i] && ar.round(data[j], 0) == ints[j];
  }

  lemma {:induction false} DistinctAtLeast(data: seq<nat>, n: nat)
    requires n <= |data| && NoRepeats(data[..n])
    ensures |Distinct(data)| >= n
    decreases |data|
  {
    if n == |data| {
      assert data[..n] == data;
      DistinctAll(data);
    } else {
      var pre := data[..|data| - 1];
      assert pre[..n] == data[..n];
      DistinctAtLeast(pre, n);
    }
  }

  // No neighbours are the same, and the first 66 floats are all different.
  lemma CrowdBulky(ar: Arith, ints: seq<int>, data: seq<nat>)
    requires ar.kind.F64? && ExactInts(ar) && ints == Crowd(0x1_0000) && data == AsFloats(ar, ints)
    ensures Bulky(data)
  {
    forall i | 0 <= i < |data| ensures !Repeated(data, i) {
      if i > 0 {
        CrowdSteps(i);
        CrowdApart(ar, ints, data, i, i - 1);
      }
    }
    forall i, j | 0 <= i < j < 66 ensures data[..66][i] != data[..66][j] {
      CrowdStart(i, j);
      CrowdApart(ar, ints, data, i, j);
    }
    DistinctAtLeast(data, 66);
  }

  lemma CrowdSteps(i: nat)
    requires 0 < i < 0x1_0002
    ensures Crowd(0x1_0000)[i] != Crowd(0x1_0000)[i - 1]
  {
    if i >= 2 {
      CrowdAt(0x1_0000, i - 2);
    }
    if i >= 3 {
      CrowdAt(0x1_0000, i - 3);
    }
  }

  lemma CrowdStart(i: nat, j: nat)
    requires i < j < 66
    ensures Crowd(0x1_0000)[i] != Crowd(0x1_0000)[j]
  {
    if i >= 2 {
      CrowdAt(0x1_0000, i - 2);
    }
    if j >= 2 {
      CrowdAt(0x1_0000, j - 2);
    }
  }

  // The block made of it is raw.
  lemma CrowdRaw(slice: seq<nat>, ints: seq<int>, size: int)
    requires ints == Crowd(0x1_0000) && |slice| == |ints| && NarrowSize(F64, slice, ints, 0, 12, size)
    ensures size == RawSize(F64, |slice|) == 524_309
  {
    assert AnswerSized(F64, slice, ints, 0, 12, size);
    var w: nat :| NarrowAnswer(F64, slice, ints, 0, 12, w, size);
    CrowdAnswer(slice, ints, w);
  }

  // Twelve bits for every float would have done.
  lemma CrowdUnpruned(ar: Arith, ints: seq<int>, data: seq<nat>, frame: seq<byte>)
    requires ar.Valid() && ar.kind.F64? && ExactInts(ar) && ints == Crowd(0x1_0000) && data == AsFloats(ar, ints)
    requires frame == StandardFrame(ar.kind, AlpParams(0, 0, 12, false), ints, 0, [])
    ensures Restores(ar, frame, data) && |frame| < 100_100
  {
    CrowdEncodes(ar, ints, data);
    CrowdOffsets(ints);
    assert Represents(ar, PLAIN_PARAMS, data, ints, []);
    StandardFrameRestores(ar, AlpParams(0, 0, 12, false), data, ints, 0, []);
    OffIsMul(|ints|, 12);
  }

  lemma CrowdOffsets(ints: seq<int>)
    requires ints == Crowd(0x1_0000)
    ensures AllBelow(Offsets(F64, ints, 0), 12)
  {
    assert Pow2(12) == 4096;
    forall i | 0 <= i < |ints| ensures Offsets(F64, ints, 0)[i] < Pow2(12) {
      CrowdBounded(i);
      CrowdWidths(0x1_0000, i);
    }
  }

  // A new encoder that was given one float keeps its parameters and nothing else.
  method KeepParams(ar: Arith, searchRd: seq<nat> -> RdScheme) returns (enc: Encoder, dst: ByteVec)
    requires ar.Valid() && ar.kind.F64? && ExactInts(ar)
    requires forall s: seq<nat> :: searchRd(s).Valid(ar.kind)
    ensures fresh(enc) && fresh(enc.cache) && fresh(dst) && fresh(dst.buf)
    ensures enc.Valid() && dst.Valid() && enc.ar == ar && Compressed(ar, [], dst.Bytes(), [ar.times(1, 0)])
    ensures enc.Kept() == NothingKept && enc.cachedParams == Some(PLAIN_PARAMS)
    ensures enc.cache.targetBw == Uninit && enc.cache.useDelta == None
  {
    KernelFaithfulIff(ar);
    enc := new Encoder(ar, searchRd);
    dst := new ByteVec();
    var data := [ar.times(1, 0)];
    OneIsBase(ar, data);
    ghost var m := enc.Memory();
    ghost var plain, inner := enc.CompressChunk(data, dst, false);
    OneBaseChunk(ar, data, false, m, NothingKept, searchRd(data), inner, |dst.Bytes()|, enc.Memory(), enc.Kept());
  }

  lemma OneIsBase(ar: Arith, data: seq<nat>)
    requires ExactInts(ar) && data == [ar.times(1, 0)]
    ensures OneBase(ar, data)
  {
    assert Pow10(0) == 1;
  }

  // The next chunk of such an encoder.
  method StoreCrowd(enc: Encoder, dst: ByteVec, ghost ints: seq<int>, data: seq<nat>)
    requires enc.Valid() && dst.Valid() && enc.ar.kind.F64? && ExactInts(enc.ar)
    requires enc.Kept() == NothingKept && enc.cachedParams == Some(PLAIN_PARAMS)
    requires enc.cache.targetBw == Uninit && enc.cache.useDelta == None
    requires ints == Crowd(0x1_0000) && data == AsFloats(enc.ar, ints)
    modifies enc, enc.cache, dst, dst.buf
    ensures dst.Valid() && Compressed(enc.ar, old(dst.Bytes()), dst.Bytes(), data)
    ensures |dst.Bytes()| - |old(dst.Bytes())| == RawSize(F64, |data|) == 524_309
  {
    CrowdBulky(enc.ar, ints, data);
    ghost var m, before := enc.Memory(), dst.Bytes();
    ghost var plain, inner := enc.CompressChunk(data, dst, false);
    ghost var size := |dst.Bytes()| - |before|;
    BulkyChunk(enc.ar, data, m, enc.searchRd(data), inner, size, enc.Memory(), enc.Kept());
    RunForeseen(enc.ar, data, false, m, inner, enc.Memory());
    CrowdForeseen(enc.ar, ints, data, m.params, m.targetBw, m.useDelta, size, enc.cachedParams);
  }

  lemma CrowdForeseen(ar: Arith, ints: seq<int>, data: seq<nat>, cached: Option<BestParams>, target: CachedTargetBw,
                      useDelta: Option<bool>, size: int, r: Option<BestParams>)
    requires ar.Valid() && ar.kind.F64? && ExactInts(ar) && ints == Crowd(0x1_0000) && data == AsFloats(ar, ints)
    requires cached == Some(PLAIN_PARAMS) && target == Uninit && useDelta == None
    ensures Foreseen(ar, data, false, cached, target, useDelta, size, r) ==> size == RawSize(F64, |data|) == 524_309
  {
    CrowdNarrow(ar, ints, data);
    assert OffsetWidth(F64, 0, 2048) == 12 by {
      CrowdDeltas(ints);
    }
    if Foreseen(ar, data, false, cached, target, useDelta, size, r) {
      assert Told(ar, data, false, cached, target, useDelta, size, r);
      assert NarrowTold(ar, data, false, cached, target, useDelta, size);
      CrowdRaw(data, ints, size);
    }
  }

  // A new encoder stores one float, whose parameters are kept, and then 65538 integers of
  // at most twelve bits. The search for a pruning width counts 65536 of them as none and
  // makes all but one of the floats exceptions; the block is then stored raw, in more
  // than five times the bytes of the one that was there before pruning.
  method PruningSpoils(ar: Arith, searchRd: seq<nat> -> RdScheme)
      returns (dst: ByteVec, first: seq<byte>, data: seq<nat>, ghost unpruned: seq<byte>)
    requires ar.Valid() && ar.kind.F64? && ExactInts(ar)
    requires forall s: seq<nat> :: searchRd(s).Valid(ar.kind)
    ensures dst.Valid() && Compressed(ar, [], first, [ar.times(1, 0)])
    ensures data == AsFloats(ar, Crowd(0x1_0000)) && Compressed(ar, first, dst.Bytes(), data)
    ensures |dst.Bytes()| - |first| == RawSize(F64, |data|) == 524_309
    ensures Restores(ar, unpruned, data) && |unpruned| < 100_100
  {
    var enc;
    enc, dst := KeepParams(ar, searchRd);
    first, data := dst.buf[..dst.len], AsFloats(ar, Crowd(0x1_0000));
    StoreCrowd(enc, dst, Crowd(0x1_0000), data);
    unpruned := StandardFrame(ar.kind, AlpParams(0, 0, 12, false), Crowd(0x1_0000), 0, []);
    CrowdUnpruned(ar, Crowd(0x1_0000), data, unpruned);
  }

  // There is such an arithmetic.
  lemma ExactArith() returns (ar: Arith)
    ensures ar.Valid() && ar.kind.F64? && ExactInts(ar) && NoNaNs(ar)
  {
    ar := Arith(F64, (v, e) => if v <= 2048 then v else 0, (i, e) => if 0 <= i <= 2048 then i else 0, (i, e) => 0,
                v => false, (v, e) => false);
  }
}
