/**
 The stateful encoder: which of the block kinds a chunk gets, and the decisions that
 are carried from chunk to chunk.
 */
module Encoder {
  import opened Wrappers
  import opened Words
  import opened Buffers
  import opened Floats
  import opened Params
  import opened Packers
  import opened Header
  import opened Decoding
  import opened Lossless
  import opened Plan
  import opened Engine
  import opened Dictionary
  import opened RealDoubles
  import opened Repeats

  datatype Scheme = Alp | Dict | Rd

  // One frame was appended and it decompresses to the data.
  ghost predicate Compressed(ar: Arith, before: seq<byte>, after: seq<byte>, data: seq<nat>) {
    before <= after && Restores(ar, after[|before|..], data)
  }

  lemma CompressedFrame(ar: Arith, before: seq<byte>, frame: seq<byte>, data: seq<nat>)
    requires Restores(ar, frame, data)
    ensures Compressed(ar, before, before + frame, data)
  {
    assert (before + frame)[|before|..] == frame;
  }

  predicate Within(k: FloatKind, before: seq<byte>, after: seq<byte>, data: seq<nat>) {
    |after| - |before| <= MaxCompressedSize(k, |data|)
  }

  lemma BlockCompressed(ar: Arith, before: seq<byte>, after: seq<byte>, data: seq<nat>)
    requires Appended(ar, before, after, data)
    ensures Compressed(ar, before, after, data) && Within(ar.kind, before, after, data)
  {
    BlockWithinMax(ar, after[|before|..], data);
  }

  // ---------- floats that no parameters encode ----------

  // Whether a chunk of them is stored as a repeat block when nothing is known about
  // repeats: enough samples and elements repeat, and more than 32 bytes are saved.
  predicate Adopts(k: FloatKind, data: seq<nat>) {
    && Matches(data, SampleStep(|data|), SAMPLE_PAIRS) >= 2
    && (|data| - |RepeatlessOf(data)|) * 5 >= |data|
    && Saves(k, |data|, |RepeatlessOf(data)|)
  }

  predicate Saves(k: FloatKind, count: nat, nonRepeats: nat) {
    && RawSize(k, count) > BitmapLen(count) + HeaderLen(count) + 32
    && HeaderLen(count) + BitmapLen(count) + nonRepeats * k.Size() + 32 < RawSize(k, count)
  }

  function RawOrRepeat(k: FloatKind, data: seq<nat>): nat {
    if Adopts(k, data) then RawRepeatSize(k, |data|, |RepeatlessOf(data)|) else RawSize(k, |data|)
  }

  // Non-repeats are elements of the data.
  lemma {:induction false} NonRepeatsIn(data: seq<nat>, n: nat)
    requires n <= |data|
    ensures forall v :: v in NonRepeats(data, n) ==> v in data
  {
    if n > 0 {
      NonRepeatsIn(data, n - 1);
    }
  }

  lemma UnencodableRest(ar: Arith, data: seq<nat>)
    requires Unencodable(ar, data)
    ensures Unencodable(ar, RepeatlessOf(data))
  {
    NonRepeatsIn(data, |data|);
    var nr := RepeatlessOf(data);
    forall p: BestParams, i | ValidBest(ar.kind, p) && 0 <= i < |nr| ensures !Accepts(ar, p, nr[i]) {
      assert nr[i] in data;
      var j :| 0 <= j < |data| && data[j] == nr[i];
    }
  }

  // ---------- sizes that are known before a chunk is stored ----------

  // bytes of the data's dictionary block
  function DictSize(k: FloatKind, data: seq<nat>): nat {
    DictCompressedSize(k, |data|, |Distinct(data)|, IndexWidth(|Distinct(data)|))
  }

  // bytes of its real-doubles block with a given scheme
  function RdSize(s: RdScheme, data: seq<nat>): nat {
    RdTotalSize(s, |data|, |RdExceptions(s, data, |data|)|)
  }

  function RepeatlessOf(data: seq<nat>): seq<nat> { NonRepeats(data, |data|) }

  // The engine's block of the data's non-repeats: raw when none of them can be encoded.
  ghost predicate PlainBlock(ar: Arith, data: seq<nat>, plain: seq<byte>) {
    && EngineBlock(ar, plain, RepeatlessOf(data))
    && (Unencodable(ar, RepeatlessOf(data)) ==> IsRawBlock(ar.kind, plain, |RepeatlessOf(data)|))
  }

  // bytes of the repeat block made of it
  function RepeatSize(data: seq<nat>, plain: seq<byte>): nat {
    var h := ReadHeader(plain);
    if h.Err? || h.value.cursor > |plain| then 0
    else RepeatFrameLen(|data|, h.value.params.Some?, |plain| - h.value.cursor)
  }

  // bytes of a repeat block whose non-repeats are stored raw
  function RawRepeatSize(k: FloatKind, count: nat, nonRepeats: nat): nat {
    RawHeaderLen(count) + BitmapLen(count) + nonRepeats * k.Size()
  }

  // A repeat block is as large as with raw non-repeats if and only if they are stored
  // raw, and smaller otherwise; a single non-repeat may take two bytes more.
  lemma RepeatSizeBound(ar: Arith, data: seq<nat>, plain: seq<byte>)
    requires PlainBlock(ar, data, plain)
    ensures var n := |RepeatlessOf(data)|;
      && (IsRawBlock(ar.kind, plain, n) ==> RepeatSize(data, plain) == RawRepeatSize(ar.kind, |data|, n))
      && (!IsRawBlock(ar.kind, plain, n) ==>
            RepeatSize(data, plain) < RawRepeatSize(ar.kind, |data|, n) + (if n == 1 then 3 else 0))
  {
  }

  // The bound in numbers: the bitmap pays for itself unless repeats are rare.
  lemma RawRepeatWithinIff(k: FloatKind, count: nat, nonRepeats: nat)
    requires nonRepeats <= count
    ensures RawRepeatSize(k, count, nonRepeats) <= MaxCompressedSize(k, count)
      <==> BitmapLen(count) + CountBytes(count) <= 6 + (count - nonRepeats) * k.Size()
  {
    SizeSplits(k, count, nonRepeats);
  }

  lemma SizeSplits(k: FloatKind, m: nat, n: nat)
    requires n <= m
    ensures m * k.Size() == n * k.Size() + (m - n) * k.Size()
  {
    if k.F64? {
      assert k.Size() == 8;
    } else {
      assert k.Size() == 4;
    }
  }

  // Within the bound as soon as raw non-repeats would be; with raw ones exactly then.
  lemma RepeatWithin(ar: Arith, data: seq<nat>, plain: seq<byte>)
    requires PlainBlock(ar, data, plain) && |data| > 4
    ensures RawRepeatSize(ar.kind, |data|, |RepeatlessOf(data)|) <= MaxCompressedSize(ar.kind, |data|) ==>
      RepeatSize(data, plain) <= MaxCompressedSize(ar.kind, |data|)
    ensures IsRawBlock(ar.kind, plain, |RepeatlessOf(data)|) ==>
      (RepeatSize(data, plain) <= MaxCompressedSize(ar.kind, |data|) <==>
       RawRepeatSize(ar.kind, |data|, |RepeatlessOf(data)|) <= MaxCompressedSize(ar.kind, |data|))
  {
    RepeatSizeBound(ar, data, plain);
    if |RepeatlessOf(data)| == 1 {
      SizeSplits(ar.kind, |data|, 1);
      SizeSplits(ar.kind, |data|, 4);
    }
  }

  predicate ValidDict(k: FloatKind, c: DictCandidate) {
    1 <= |c.dict| <= MAX_DICT_ENTRIES && AllBits(k, c.dict) && c.bitWidth == IndexWidth(|c.dict|)
  }

  // the number of elements that repeat the one before them
  method CountRepeats(data: seq<nat>) returns (n: nat)
    requires data != []
    ensures n == |data| - |NonRepeats(data, |data|)|
  {
    n := 0;
    var prev, i := data[0], 1;
    assert NonRepeats(data, 1) == NonRepeats(data, 0) + [data[0]];
    while i < |data|
      invariant 1 <= i <= |data| && prev == data[i - 1]
      invariant n == i - |NonRepeats(data, i)|
    {
      if data[i] == prev {
        n := n + 1;
      } else {
        prev := data[i];
      }
      i := i + 1;
    }
  }

  const SAMPLE_PAIRS: nat := 16

  // equal neighbours among the first n of the pairs at every step-th place
  function Matches(data: seq<nat>, step: nat, n: nat): nat {
    if n == 0 then 0
    else
      var idx := (n - 1) * step;
      Matches(data, step, n - 1) + (if idx + 1 < |data| && data[idx] == data[idx + 1] then 1 else 0)
  }

  function SampleStep(count: nat): nat { if count / SAMPLE_PAIRS > 1 then count / SAMPLE_PAIRS else 1 }

  // Equal neighbours among sixteen pairs spread over the data.
  method SampleMatches(data: seq<nat>) returns (n: nat)
    ensures n == Matches(data, SampleStep(|data|), SAMPLE_PAIRS)
  {
    var step := SampleStep(|data|);
    n := 0;
    var i, idx := 0, 0;
    while i < SAMPLE_PAIRS
      invariant 0 <= i <= SAMPLE_PAIRS && idx == i * step && n == Matches(data, step, i)
    {
      NextPlace(i, step);
      if idx + 1 < |data| && data[idx] == data[idx + 1] {
        n := n + 1;
      }
      i, idx := i + 1, idx + step;
    }
  }

  lemma NextPlace(i: nat, step: nat)
    ensures (i + 1) * step == i * step + step
  {
  }

  // no element repeats the one before it
  predicate NeighboursDiffer(data: seq<nat>) {
    forall i :: 0 <= i < |data| ==> !Repeated(data, i)
  }

  lemma {:induction false} NoMatches(data: seq<nat>, step: nat, n: nat)
    requires NeighboursDiffer(data)
    ensures Matches(data, step, n) == 0
  {
    if n > 0 {
      NoMatches(data, step, n - 1);
      var idx := (n - 1) * step;
      assert idx + 1 < |data| ==> !Repeated(data, idx + 1);
    }
  }

  // A frame behind the bytes before, whatever was in its reused index buffer.
  ghost predicate StoredAsRd(k: FloatKind, s: RdScheme, before: seq<byte>, after: seq<byte>, data: seq<nat>)
    requires s.Valid(k)
  {
    exists stale: seq<nat> :: |stale| == |data| && after == before + RdFrame(k, s, data, stale)
  }

  lemma RdCompressed(ar: Arith, s: RdScheme, before: seq<byte>, after: seq<byte>, data: seq<nat>)
    requires s.Valid(ar.kind) && AllBits(ar.kind, data) && 0 < |data| < COUNT_LIMIT
    requires StoredAsRd(ar.kind, s, before, after, data) && ExceptionsAddressable(s, data)
    ensures Compressed(ar, before, after, data)
  {
    var stale: seq<nat> :| |stale| == |data| && after == before + RdFrame(ar.kind, s, data, stale);
    AddressableRestores(ar, s, data);
    assert RestoresFrom(ar, s, data, stale);
    CompressedFrame(ar, before, RdFrame(ar.kind, s, data, stale), data);
  }

  // What is kept from chunk to chunk: which kind of block was best, with what table or
  // scheme, and whether repeats were worth a bitmap.
  datatype Decisions = Decisions(scheme: Option<Scheme>, dict: Option<DictCandidate>, rd: Option<RdScheme>, useRepeat: Option<bool>)
  {
    // the kept kinds that a chunk is stored as without looking for better ones
    predicate UsesDict(data: seq<nat>, forceDelta: bool) {
      !forceDelta && |data| > 4 && scheme == Some(Dict) && |Distinct(data)| <= MAX_DICT_ENTRIES
    }

    predicate UsesRd(data: seq<nat>, forceDelta: bool) {
      !forceDelta && |data| > 4 && scheme == Some(Rd) && (rd.Some? || |data| <= 0xFFFF)
    }

    predicate KeepsRd(data: seq<nat>, forceDelta: bool) {
      UsesRd(data, forceDelta) && rd.Some?
    }

    // A kept repeat decision is followed, unless a dictionary of one entry comes first.
    predicate UsesRepeat(data: seq<nat>, forceDelta: bool) {
      && |data| > 4 && useRepeat == Some(true)
      && !UsesDict(data, forceDelta) && !UsesRd(data, forceDelta)
      && (forceDelta || scheme == Some(Alp) || |Distinct(data)| > 1)
    }

    // differences forced or the engine's block kept: no other kind is tried
    predicate PlainOnly(forceDelta: bool) { forceDelta || scheme == Some(Alp) }

    // a kept table or scheme that does not serve is dropped
    function Forgotten(): Decisions {
      match scheme
      case Some(Dict) => this.(scheme := None, dict := None)
      case Some(Rd) => this.(scheme := None, rd := None)
      case _ => this
    }

    // ... and nothing else is tried.
    predicate OnlyRepeat(data: seq<nat>, forceDelta: bool) {
      UsesRepeat(data, forceDelta) && (forceDelta || scheme == Some(Alp))
    }
  }

  // A smaller dictionary block, then a smaller real-doubles block, replace what was stored.
  function AfterDict(k: FloatKind, data: seq<nat>, size: nat): nat {
    if |Distinct(data)| <= MAX_DICT_ENTRIES && DictSize(k, data) < size then DictSize(k, data) else size
  }

  function AfterRd(k: FloatKind, data: seq<nat>, s: RdScheme, size: nat): nat {
    if size * 5 > |data| * k.Size() * 4 && |data| <= 0xFFFF && RdSize(s, data) < size then RdSize(s, data) else size
  }

  // the kind that stays
  function BestScheme(k: FloatKind, data: seq<nat>, s: RdScheme, size: nat): Scheme {
    var dictSize := AfterDict(k, data, size);
    if AfterRd(k, data, s, dictSize) < dictSize then Rd
    else if dictSize < size then Dict
    else Alp
  }

  function Improved(k: FloatKind, data: seq<nat>, s: RdScheme, forceDelta: bool, size: nat): nat {
    if forceDelta then size else AfterRd(k, data, s, AfterDict(k, data, size))
  }

  // The bytes of a chunk stored in a kept way; s is the real-doubles scheme that is kept
  // or found, plain the engine's block of the non-repeats.
  function KeptSize(k: FloatKind, d: Decisions, data: seq<nat>, forceDelta: bool, s: RdScheme, plain: seq<byte>): nat {
    if d.UsesDict(data, forceDelta) then DictSize(k, data)
    else if d.UsesRd(data, forceDelta) then RdSize(s, data)
    else if d.OnlyRepeat(data, forceDelta) then RepeatSize(data, plain)
    else Improved(k, data, s, forceDelta, RepeatSize(data, plain))
  }

  predicate KeepsWay(d: Decisions, data: seq<nat>, forceDelta: bool) {
    d.UsesDict(data, forceDelta) || d.UsesRd(data, forceDelta) || d.UsesRepeat(data, forceDelta)
  }

  // What storing a chunk did, given the decisions that were kept. It decompresses to the
  // data, unless a kept real-doubles scheme meets exceptions it cannot address. It takes no
  // more bytes than promised if and only if no kept decision is followed or the size that
  // follows from it is no more.
  ghost predicate Stored(ar: Arith, d: Decisions, s: RdScheme, before: seq<byte>, after: seq<byte>, data: seq<nat>,
                         forceDelta: bool, plain: seq<byte>)
    requires d.rd.Some? ==> d.rd.value.Valid(ar.kind)
  {
    && (d.KeepsRd(data, forceDelta) ==> StoredAsRd(ar.kind, d.rd.value, before, after, data))
    && (!d.KeepsRd(data, forceDelta) || ExceptionsAddressable(d.rd.value, data) ==> Compressed(ar, before, after, data))
    && (d.UsesRepeat(data, forceDelta) ==> PlainBlock(ar, data, plain))
    && (KeepsWay(d, data, forceDelta) ==> |after| - |before| == KeptSize(ar.kind, d, data, forceDelta, s, plain))
    && (Within(ar.kind, before, after, data) <==>
          (KeepsWay(d, data, forceDelta) ==>
             KeptSize(ar.kind, d, data, forceDelta, s, plain) <= MaxCompressedSize(ar.kind, |data|)))
  }

  lemma StoredFree(ar: Arith, d: Decisions, s: RdScheme, before: seq<byte>, after: seq<byte>, data: seq<nat>,
                   forceDelta: bool, plain: seq<byte>)
    requires (d.rd.Some? ==> d.rd.value.Valid(ar.kind)) && !KeepsWay(d, data, forceDelta)
    requires Compressed(ar, before, after, data) && Within(ar.kind, before, after, data)
    ensures Stored(ar, d, s, before, after, data, forceDelta, plain)
  {
  }

  lemma StoredKept(ar: Arith, d: Decisions, s: RdScheme, before: seq<byte>, after: seq<byte>, data: seq<nat>,
                   forceDelta: bool, plain: seq<byte>)
    requires (d.rd.Some? ==> d.rd.value.Valid(ar.kind)) && KeepsWay(d, data, forceDelta)
    requires !d.KeepsRd(data, forceDelta) && Compressed(ar, before, after, data)
    requires d.UsesRepeat(data, forceDelta) ==> PlainBlock(ar, data, plain)
    requires |after| - |before| == KeptSize(ar.kind, d, data, forceDelta, s, plain)
    ensures Stored(ar, d, s, before, after, data, forceDelta, plain)
  {
  }

  lemma StoredScheme(ar: Arith, d: Decisions, before: seq<byte>, after: seq<byte>, data: seq<nat>, plain: seq<byte>)
    requires d.rd.Some? && d.rd.value.Valid(ar.kind) && d.KeepsRd(data, false)
    requires AllBits(ar.kind, data) && 0 < |data| < COUNT_LIMIT
    requires StoredAsRd(ar.kind, d.rd.value, before, after, data) && |after| - |before| == RdSize(d.rd.value, data)
    ensures Stored(ar, d, d.rd.value, before, after, data, false, plain)
  {
    if ExceptionsAddressable(d.rd.value, data) {
      RdCompressed(ar, d.rd.value, before, after, data);
    }
  }

  // When differences are forced no scheme is looked for.
  lemma StoredForced(ar: Arith, d: Decisions, s: RdScheme, s': RdScheme, before: seq<byte>, after: seq<byte>,
                     data: seq<nat>, forceDelta: bool, plain: seq<byte>)
    requires d.rd.Some? ==> d.rd.value.Valid(ar.kind)
    requires forceDelta || s == s'
    requires Stored(ar, d, s', before, after, data, forceDelta, plain)
    ensures Stored(ar, d, s, before, after, data, forceDelta, plain)
  {
  }

  // A kept kind that does not serve is forgotten, and the chunk is stored as if it had
  // not been kept.
  lemma StoredForgetting(ar: Arith, d: Decisions, d': Decisions, s: RdScheme, before: seq<byte>, after: seq<byte>,
                         data: seq<nat>, plain: seq<byte>)
    requires (d.rd.Some? ==> d.rd.value.Valid(ar.kind)) && (d'.rd.Some? ==> d'.rd.value.Valid(ar.kind))
    requires d'.scheme.None? && d'.useRepeat == d.useRepeat
    requires !d.UsesDict(data, false) && !d.UsesRd(data, false) && d.scheme != Some(Alp)
    requires Stored(ar, d', s, before, after, data, false, plain)
    ensures Stored(ar, d, s, before, after, data, false, plain)
  {
  }

  lemma {:induction false} SameDistinct(data: seq<nat>, v: nat)
    requires data != [] && AllSame(data, v)
    ensures Distinct(data) == [v]
  {
    var pre := data[..|data| - 1];
    if pre != [] {
      SameDistinct(pre, v);
    }
  }

  function DistinctCandidate(data: seq<nat>): DictCandidate {
    DictCandidate(Distinct(data), IndexWidth(|Distinct(data)|))
  }

  lemma DistinctValid(k: FloatKind, data: seq<nat>)
    requires AllBits(k, data) && data != [] && |Distinct(data)| <= MAX_DICT_ENTRIES
    ensures ValidDict(k, DistinctCandidate(data))
  {
    DistinctExact(data);
    DistinctBits(k, data);
  }

  // What looking for a dictionary left; it is not looked for when differences are forced.
  predicate Scanned(data: seq<nat>, forceDelta: bool, candidate: Option<DictCandidate>, indices: seq<u64>) {
    && (candidate.Some? <==> !forceDelta && |Distinct(data)| <= MAX_DICT_ENTRIES)
    && (candidate.Some? ==> candidate.value == DistinctCandidate(data) && Indexes(indices, candidate.value.dict, data))
  }

  const NothingKept := Decisions(None, None, None, None)

  // Stored by the engine whatever is known: no repeats, too many floats for a dictionary
  // and too many elements for real doubles.
  predicate Bulky(data: seq<nat>) {
    NeighboursDiffer(data) && |Distinct(data)| > MAX_DICT_ENTRIES && |data| > 0xFFFF
  }

  // What an encoder that kept nothing does with floats no parameters encode, and what it
  // keeps of it; s is the real-doubles scheme found.
  predicate RawChunk(k: FloatKind, data: seq<nat>, s: RdScheme, size: int, kept: Decisions) {
    && size == Improved(k, data, s, false, RawOrRepeat(k, data))
    && kept.scheme == Some(BestScheme(k, data, s, RawOrRepeat(k, data)))
    && kept.useRepeat == Some(Adopts(k, data))
    && kept.rd == (if kept.scheme == Some(Rd) then Some(s) else None)
  }

  // ---------- what a chunk becomes ----------

  // The engine's block of the non-repeats, made with the kept parameters and nothing else
  // known.
  ghost predicate AsideRun(ar: Arith, data: seq<nat>, forceDelta: bool, m: Memo, plain: seq<byte>, aside: Memo) {
    EngineRun(ar, RepeatlessOf(data), forceDelta, Memo(m.params, Uninit, None), plain, aside)
  }

  predicate Parses(plain: seq<byte>) {
    ReadHeader(plain).Ok? && ReadHeader(plain).value.cursor <= |plain|
  }

  // the bytes of a block behind its header
  function PayloadOf(plain: seq<byte>): seq<byte>
    requires Parses(plain)
  {
    plain[ReadHeader(plain).value.cursor..]
  }

  // The repeat block made of a block of the non-repeats.
  ghost predicate RepeatBlock(data: seq<nat>, plain: seq<byte>, frame: seq<byte>) {
    Parses(plain) && frame == RepeatFrame(data, ReadHeader(plain).value, PayloadOf(plain))
  }

  // Two of sixteen samples and a fifth of the elements repeat.
  predicate WorthTrying(data: seq<nat>) {
    && Matches(data, SampleStep(|data|), SAMPLE_PAIRS) >= 2
    && (|data| - |RepeatlessOf(data)|) * 5 >= |data|
  }

  // A plain block against the repeat block: tried when the plain one is not near the least
  // size of a repeat block, and preferred when it saves more than 32 bytes.
  ghost predicate Contest(ar: Arith, data: seq<nat>, forceDelta: bool, m: Memo, normal: seq<byte>, n: Memo,
                          frame: seq<byte>, m': Memo, useRepeat': Option<bool>) {
    if |normal| <= BitmapLen(|data|) + HeaderLen(|data|) + 32 then frame == normal && m' == n && useRepeat' == Some(false)
    else exists plain, aside :: Contested(ar, data, forceDelta, m, normal, n, plain, aside, frame, m', useRepeat')
  }

  ghost predicate Contested(ar: Arith, data: seq<nat>, forceDelta: bool, m: Memo, normal: seq<byte>, n: Memo,
                            plain: seq<byte>, aside: Memo, frame: seq<byte>, m': Memo, useRepeat': Option<bool>) {
    && AsideRun(ar, data, forceDelta, m, plain, aside) && Parses(plain)
    && if HeaderLen(|data|) + BitmapLen(|data|) + |PayloadOf(plain)| + 32 < |normal| then
         && RepeatBlock(data, plain, frame) && useRepeat' == Some(true)
         && m' == Memo(aside.params, aside.targetBw, n.useDelta)
       else frame == normal && m' == n && useRepeat' == Some(false)
  }

  // The engine's block or a repeat block, as kept or as found better, and what is kept.
  ghost predicate InnerRunOf(ar: Arith, data: seq<nat>, forceDelta: bool, m: Memo, useRepeat: Option<bool>,
                             frame: seq<byte>, m': Memo, useRepeat': Option<bool>) {
    match useRepeat
    case Some(true) =>
      useRepeat' == useRepeat && exists plain, aside :: KeptRepeat(ar, data, forceDelta, m, plain, aside, frame, m')
    case Some(false) => EngineRun(ar, data, forceDelta, m, frame, m') && useRepeat' == useRepeat
    case None =>
      if !WorthTrying(data) then EngineRun(ar, data, forceDelta, m, frame, m') && useRepeat' == Some(false)
      else exists normal, n ::
        EngineRun(ar, data, forceDelta, m, normal, n) && Contest(ar, data, forceDelta, m, normal, n, frame, m', useRepeat')
  }

  ghost predicate KeptRepeat(ar: Arith, data: seq<nat>, forceDelta: bool, m: Memo, plain: seq<byte>, aside: Memo,
                             frame: seq<byte>, m': Memo) {
    AsideRun(ar, data, forceDelta, m, plain, aside) && RepeatBlock(data, plain, frame) && m' == m.(params := aside.params)
  }

  // The same, said so that its parts stay out of proofs that only pass it on.
  ghost predicate InnerRun(ar: Arith, data: seq<nat>, forceDelta: bool, m: Memo, useRepeat: Option<bool>,
                           frame: seq<byte>, m': Memo, useRepeat': Option<bool>) {
    forall f: seq<byte> :: f == frame ==> InnerRunOf(ar, data, forceDelta, m, useRepeat, f, m', useRepeat')
  }

  lemma NeverRepeats(ar: Arith, data: seq<nat>, forceDelta: bool, m: Memo, frame: seq<byte>, m': Memo)
    ensures EngineRun(ar, data, forceDelta, m, frame, m') ==>
      InnerRun(ar, data, forceDelta, m, Some(false), frame, m', Some(false))
  {
    if EngineRun(ar, data, forceDelta, m, frame, m') {
      assert InnerRunOf(ar, data, forceDelta, m, Some(false), frame, m', Some(false));
    }
  }

  lemma NotWorth(ar: Arith, data: seq<nat>, forceDelta: bool, m: Memo, frame: seq<byte>, m': Memo)
    requires !WorthTrying(data)
    ensures EngineRun(ar, data, forceDelta, m, frame, m') ==>
      InnerRun(ar, data, forceDelta, m, None, frame, m', Some(false))
  {
    if EngineRun(ar, data, forceDelta, m, frame, m') {
      assert InnerRunOf(ar, data, forceDelta, m, None, frame, m', Some(false));
    }
  }

  lemma KeptRepeatIs(ar: Arith, data: seq<nat>, forceDelta: bool, m: Memo, plain: seq<byte>, aside: Memo,
                     frame: seq<byte>, m': Memo)
    requires RepeatBlock(data, plain, frame) && m' == m.(params := aside.params)
    ensures AsideRun(ar, data, forceDelta, m, plain, aside) ==>
      InnerRun(ar, data, forceDelta, m, Some(true), frame, m', Some(true))
  {
    if AsideRun(ar, data, forceDelta, m, plain, aside) {
      assert KeptRepeat(ar, data, forceDelta, m, plain, aside, frame, m');
      assert InnerRunOf(ar, data, forceDelta, m, Some(true), frame, m', Some(true));
    }
  }

  ghost predicate SealedContest(ar: Arith, data: seq<nat>, forceDelta: bool, m: Memo, normal: seq<byte>, n: Memo,
                                frame: seq<byte>, m': Memo, useRepeat': Option<bool>) {
    forall f: seq<byte> :: f == frame ==> Contest(ar, data, forceDelta, m, normal, n, f, m', useRepeat')
  }

  lemma ContestDecided(ar: Arith, data: seq<nat>, forceDelta: bool, m: Memo, normal: seq<byte>, n: Memo,
                       plain: seq<byte>, aside: Memo, frame: seq<byte>, m': Memo, useRepeat': Option<bool>)
    requires |normal| <= BitmapLen(|data|) + HeaderLen(|data|) + 32 ==> frame == normal && m' == n && useRepeat' == Some(false)
    requires |normal| > BitmapLen(|data|) + HeaderLen(|data|) + 32 ==>
      && Parses(plain)
      && if HeaderLen(|data|) + BitmapLen(|data|) + |PayloadOf(plain)| + 32 < |normal| then
           && RepeatBlock(data, plain, frame) && useRepeat' == Some(true)
           && m' == Memo(aside.params, aside.targetBw, n.useDelta)
         else frame == normal && m' == n && useRepeat' == Some(false)
    ensures (|normal| > BitmapLen(|data|) + HeaderLen(|data|) + 32 ==> AsideRun(ar, data, forceDelta, m, plain, aside)) ==>
      SealedContest(ar, data, forceDelta, m, normal, n, frame, m', useRepeat')
  {
    if |normal| > BitmapLen(|data|) + HeaderLen(|data|) + 32 && AsideRun(ar, data, forceDelta, m, plain, aside) {
      assert Contested(ar, data, forceDelta, m, normal, n, plain, aside, frame, m', useRepeat');
    }
  }

  lemma ContestIs(ar: Arith, data: seq<nat>, forceDelta: bool, m: Memo, normal: seq<byte>, n: Memo,
                  frame: seq<byte>, m': Memo, useRepeat': Option<bool>)
    requires WorthTrying(data)
    ensures EngineRun(ar, data, forceDelta, m, normal, n) ==>
      SealedContest(ar, data, forceDelta, m, normal, n, frame, m', useRepeat') ==>
      InnerRun(ar, data, forceDelta, m, None, frame, m', useRepeat')
  {
    if EngineRun(ar, data, forceDelta, m, normal, n) && SealedContest(ar, data, forceDelta, m, normal, n, frame, m', useRepeat') {
      assert Contest(ar, data, forceDelta, m, normal, n, frame, m', useRepeat');
      assert InnerRunOf(ar, data, forceDelta, m, None, frame, m', useRepeat');
    }
  }

  // What is kept when all ways were tried and the best one stayed.
  function BestKept(k: FloatKind, data: seq<nat>, s: RdScheme, size: nat, useRepeat: Option<bool>): Decisions {
    var scheme := BestScheme(k, data, s, size);
    Decisions(Some(scheme), if scheme == Dict then Some(DistinctCandidate(data)) else None,
              if scheme == Rd then Some(s) else None, useRepeat)
  }

  // One chunk, whatever was kept: its size in that of the engine's or repeat block, and all
  // that is kept behind it. s is the real-doubles scheme found for the chunk.
  ghost predicate ChunkRunOf(ar: Arith, data: seq<nat>, forceDelta: bool, m: Memo, d: Decisions, s: RdScheme,
                             inner: seq<byte>, size: int, m': Memo, d': Decisions) {
    if |data| <= 4 then EngineRun(ar, data, forceDelta, m, inner, m') && size == |inner| && d' == d
    else if d.UsesDict(data, forceDelta) then
      size == DictSize(ar.kind, data) && m' == m && d' == d.(dict := Some(DistinctCandidate(data)))
    else if d.UsesRd(data, forceDelta) then
      var used := if d.rd.Some? then d.rd.value else s;
      size == RdSize(used, data) && m' == m && d' == d.(rd := Some(used))
    else if d.PlainOnly(forceDelta) then
      InnerRun(ar, data, forceDelta, m, d.useRepeat, inner, m', d'.useRepeat)
        && size == Improved(ar.kind, data, s, true, |inner|) && d' == d.(useRepeat := d'.useRepeat)
    else if |Distinct(data)| <= 1 then
      size == DictSize(ar.kind, data) && m' == m
        && d' == d.Forgotten().(scheme := Some(Dict), dict := Some(DistinctCandidate(data)))
    else
      InnerRun(ar, data, forceDelta, m, d.useRepeat, inner, m', d'.useRepeat)
        && size == Improved(ar.kind, data, s, false, |inner|)
        && d' == BestKept(ar.kind, data, s, |inner|, d'.useRepeat)
  }

  // The same, said so that its parts stay out of proofs that only pass it on.
  ghost predicate ChunkRun(ar: Arith, data: seq<nat>, forceDelta: bool, m: Memo, d: Decisions, s: RdScheme,
                           inner: seq<byte>, size: int, m': Memo, d': Decisions) {
    forall n: int :: n == size ==> ChunkRunOf(ar, data, forceDelta, m, d, s, inner, n, m', d')
  }

  lemma SmallChunk(ar: Arith, data: seq<nat>, forceDelta: bool, m: Memo, d: Decisions, s: RdScheme, inner: seq<byte>, m': Memo)
    requires |data| <= 4
    ensures EngineRun(ar, data, forceDelta, m, inner, m') ==> ChunkRun(ar, data, forceDelta, m, d, s, inner, |inner|, m', d)
  {
  }

  lemma DictChunk(ar: Arith, data: seq<nat>, m: Memo, d: Decisions, s: RdScheme)
    requires d.UsesDict(data, false)
    ensures ChunkRun(ar, data, false, m, d, s, [], DictSize(ar.kind, data), m, d.(dict := Some(DistinctCandidate(data))))
  {
  }

  lemma RdChunk(ar: Arith, data: seq<nat>, m: Memo, d: Decisions, s: RdScheme, used: RdScheme)
    requires d.UsesRd(data, false) && used == (if d.rd.Some? then d.rd.value else s)
    ensures ChunkRun(ar, data, false, m, d, s, [], RdSize(used, data), m, d.(rd := Some(used)))
  {
  }

  lemma PlainChunk(ar: Arith, data: seq<nat>, forceDelta: bool, m: Memo, d: Decisions, s: RdScheme, inner: seq<byte>,
                   m': Memo, useRepeat': Option<bool>)
    requires |data| > 4 && d.PlainOnly(forceDelta)
    ensures InnerRun(ar, data, forceDelta, m, d.useRepeat, inner, m', useRepeat') ==>
      ChunkRun(ar, data, forceDelta, m, d, s, inner, |inner|, m', d.(useRepeat := useRepeat'))
  {
  }

  lemma SingleChunk(ar: Arith, data: seq<nat>, m: Memo, d: Decisions, s: RdScheme)
    requires |data| > 4 && d.scheme.None? && |Distinct(data)| <= 1
    ensures ChunkRun(ar, data, false, m, d, s, [], DictSize(ar.kind, data), m,
                     d.(scheme := Some(Dict), dict := Some(DistinctCandidate(data))))
  {
  }

  lemma BestChunk(ar: Arith, data: seq<nat>, m: Memo, d: Decisions, s: RdScheme, inner: seq<byte>, size: int,
                  m': Memo, useRepeat': Option<bool>)
    requires |data| > 4 && d.scheme.None? && |Distinct(data)| > 1 && size == Improved(ar.kind, data, s, false, |inner|)
    ensures InnerRun(ar, data, false, m, d.useRepeat, inner, m', useRepeat') ==>
      ChunkRun(ar, data, false, m, d, s, inner, size, m', BestKept(ar.kind, data, s, |inner|, useRepeat'))
  {
  }

  lemma ChunkTried(ar: Arith, data: seq<nat>, forceDelta: bool, m: Memo, d: Decisions, s: RdScheme, inner: seq<byte>,
                   size: int, m': Memo, d': Decisions)
    requires |data| > 4 && (forceDelta || (d.scheme.None? && |Distinct(data)| > 1))
    requires size == Improved(ar.kind, data, s, forceDelta, |inner|)
    requires d' == (if forceDelta then d.(useRepeat := d'.useRepeat) else BestKept(ar.kind, data, s, |inner|, d'.useRepeat))
    ensures InnerRun(ar, data, forceDelta, m, d.useRepeat, inner, m', d'.useRepeat) ==>
      ChunkRun(ar, data, forceDelta, m, d, s, inner, size, m', d')
  {
    if forceDelta {
      PlainChunk(ar, data, forceDelta, m, d, s, inner, m', d'.useRepeat);
    } else {
      BestChunk(ar, data, m, d, s, inner, size, m', d'.useRepeat);
    }
  }

  // What was forgotten plays no part.
  lemma ForgottenChunk(ar: Arith, data: seq<nat>, m: Memo, d: Decisions, s: RdScheme, inner: seq<byte>, size: int,
                       m': Memo, d': Decisions)
    requires |data| > 4 && d.scheme.Some? && d.scheme != Some(Alp) && !d.UsesDict(data, false) && !d.UsesRd(data, false)
    ensures ChunkRun(ar, data, false, m, d.Forgotten(), s, inner, size, m', d') ==>
      ChunkRun(ar, data, false, m, d, s, inner, size, m', d')
  {
    if ChunkRun(ar, data, false, m, d.Forgotten(), s, inner, size, m', d') {
      assert ChunkRunOf(ar, data, false, m, d.Forgotten(), s, inner, size, m', d');
      assert ChunkRunOf(ar, data, false, m, d, s, inner, size, m', d');
    }
  }

  class Encoder {
    const ar: Arith
    // the real-doubles scheme found for a chunk of at most 65535 elements
    const searchRd: seq<nat> -> RdScheme
    const cache: EngineCache

    var cachedParams: Option<BestParams>
    var cachedUseRepeat: Option<bool>
    var cachedScheme: Option<Scheme>
    var cachedDict: Option<DictCandidate>
    var cachedRd: Option<RdScheme>

    ghost predicate Valid()
      reads this
    {
      && ar.Valid() && KernelFaithful(ar)
      && (forall s: seq<nat> :: searchRd(s).Valid(ar.kind))
      && (cachedParams.Some? ==> ValidBest(ar.kind, cachedParams.value))
      && (cachedDict.Some? ==> ValidDict(ar.kind, cachedDict.value))
      && (cachedRd.Some? ==> cachedRd.value.Valid(ar.kind))
    }

    // what the engine is given and leaves
    ghost function Memory(): Memo
      reads this, cache
    {
      cache.State(cachedParams)
    }

    ghost function Kept(): Decisions
      reads this
    {
      Decisions(cachedScheme, cachedDict, cachedRd, cachedUseRepeat)
    }

    // the real-doubles scheme a chunk would be stored with
    ghost function RdUsed(data: seq<nat>): RdScheme
      reads this
    {
      if cachedScheme == Some(Rd) && cachedRd.Some? then cachedRd.value else searchRd(data)
    }

    constructor (ar: Arith, searchRd: seq<nat> -> RdScheme)
      requires ar.Valid() && KernelFaithful(ar) && forall s: seq<nat> :: searchRd(s).Valid(ar.kind)
      ensures Valid() && fresh(cache) && this.ar == ar && this.searchRd == searchRd
      ensures Kept() == NothingKept && Memory() == Memo(None, Uninit, None)
    {
      this.ar, this.searchRd := ar, searchRd;
      cache := new EngineCache();
      cachedParams, cachedUseRepeat, cachedScheme, cachedDict, cachedRd := None, None, None, None, None;
    }

    method Reset()
      requires Valid()
      modifies this, cache
      ensures Valid() && Kept() == NothingKept && Memory() == Memo(None, Uninit, None)
    {
      cache.Reset();
      cachedParams, cachedUseRepeat, cachedScheme, cachedDict, cachedRd := None, None, None, None, None;
    }

    // ---------- frame of reference, delta, raw, and repeats of them ----------

    method RunEngine(data: seq<nat>, forceDelta: bool, dst: ByteVec)
      requires Valid() && dst.Valid() && AllBits(ar.kind, data) && |data| < COUNT_LIMIT
      modifies `cachedParams, cache, dst, dst.buf
      ensures Valid() && dst.Valid() && (dst.buf == old(dst.buf) || fresh(dst.buf))
      ensures Compressed(ar, old(dst.Bytes()), dst.Bytes(), data)
      ensures Within(ar.kind, old(dst.Bytes()), dst.Bytes(), data)
      ensures EngineRun(ar, data, forceDelta, old(Memory()), dst.Bytes()[|old(dst.Bytes())|..], Memory())
    {
      cachedParams := NextParams(data, forceDelta, dst);
    }

    method NextParams(data: seq<nat>, forceDelta: bool, dst: ByteVec) returns (r: Option<BestParams>)
      requires Valid() && dst.Valid() && AllBits(ar.kind, data) && |data| < COUNT_LIMIT
      modifies cache, dst, dst.buf
      ensures dst.Valid() && (dst.buf == old(dst.buf) || fresh(dst.buf))
      ensures r.Some? ==> ValidBest(ar.kind, r.value)
      ensures Compressed(ar, old(dst.Bytes()), dst.Bytes(), data)
      ensures Within(ar.kind, old(dst.Bytes()), dst.Bytes(), data)
      ensures EngineRun(ar, data, forceDelta, old(Memory()), dst.Bytes()[|old(dst.Bytes())|..], cache.State(r))
    {
      r := CompressIntoEngine(ar, data, forceDelta, cachedParams, cache, dst);
      BlockCompressed(ar, old(dst.Bytes()), dst.Bytes(), data);
    }

    // The block of the data's non-repeats, in a buffer of its own.
    method EncodeNonRepeats(data: seq<nat>, forceDelta: bool)
        returns (bitmap: array<byte>, plain: seq<byte>, params: Option<BestParams>, scratch: EngineCache)
      requires Valid() && AllBits(ar.kind, data) && 0 < |data| < COUNT_LIMIT
      ensures fresh(bitmap) && bitmap[..] == Bitmap(data) && fresh(scratch)
      ensures PlainBlock(ar, data, plain)
      ensures params.Some? ==> ValidBest(ar.kind, params.value)
      ensures AsideRun(ar, data, forceDelta, Memory(), plain, scratch.State(params))
    {
      var nonRepeats;
      bitmap, nonRepeats := FillRepeatBuffers(data);
      NonRepeatsBits(ar.kind, data, |data|);
      plain, params, scratch := EncodeAside(nonRepeats, forceDelta);
    }

    method EncodeAside(slice: seq<nat>, forceDelta: bool)
        returns (plain: seq<byte>, params: Option<BestParams>, scratch: EngineCache)
      requires Valid() && AllBits(ar.kind, slice) && |slice| < COUNT_LIMIT
      ensures fresh(scratch) && EngineBlock(ar, plain, slice)
      ensures Unencodable(ar, slice) ==> IsRawBlock(ar.kind, plain, |slice|)
      ensures params.Some? ==> ValidBest(ar.kind, params.value)
      ensures EngineRun(ar, slice, forceDelta, Memo(cachedParams, Uninit, None), plain, scratch.State(params))
    {
      var scratchDst := new ByteVec();
      scratch := new EngineCache();
      params := CompressIntoEngine(ar, slice, forceDelta, cachedParams, scratch, scratchDst);
      plain := scratchDst.buf[..scratchDst.len];
      assert plain[0..] == plain;
    }

    method WriteRepeat(data: seq<nat>, bitmap: array<byte>, plain: seq<byte>, h: ParsedHeader, dst: ByteVec)
      requires dst.Valid() && bitmap != dst.buf && bitmap[..] == Bitmap(data) && 0 < |data| < COUNT_LIMIT
      requires PlainBlock(ar, data, plain) && ReadHeader(plain) == Ok(h)
      modifies dst, dst.buf
      ensures dst.Valid() && (dst.buf == old(dst.buf) || fresh(dst.buf))
      ensures Compressed(ar, old(dst.Bytes()), dst.Bytes(), data)
      ensures |dst.Bytes()| == |old(dst.Bytes())| + RepeatSize(data, plain)
      ensures h.cursor <= |plain| && dst.Bytes() == old(dst.Bytes()) + RepeatFrame(data, h, plain[h.cursor..])
      ensures RepeatSize(data, plain) <= HeaderLen(|data|) + BitmapLen(|data|) + (|plain| - h.cursor)
    {
      RepeatRestores(ar, plain, data);
      RepeatFrameSize(data, h, plain[h.cursor..]);
      CompressedFrame(ar, dst.Bytes(), RepeatFrame(data, h, plain[h.cursor..]), data);
      WriteRepeatChunk(data, bitmap, h, plain[h.cursor..], dst);
    }

    method CompressChunkInner(data: seq<nat>, dst: ByteVec, forceDelta: bool) returns (ghost plain: seq<byte>)
      requires Valid() && dst.Valid() && AllBits(ar.kind, data) && 0 < |data| < COUNT_LIMIT
      modifies `cachedParams, `cachedUseRepeat, cache, dst, dst.buf
      ensures Valid() && dst.Valid() && (dst.buf == old(dst.buf) || fresh(dst.buf))
      ensures Compressed(ar, old(dst.Bytes()), dst.Bytes(), data)
      ensures old(cachedUseRepeat) != Some(true) ==> Within(ar.kind, old(dst.Bytes()), dst.Bytes(), data)
      ensures old(cachedUseRepeat) == Some(true) ==>
        PlainBlock(ar, data, plain) && |dst.Bytes()| == |old(dst.Bytes())| + RepeatSize(data, plain)
      ensures InnerRun(ar, data, forceDelta, old(Memory()), old(cachedUseRepeat), dst.Bytes()[|old(dst.Bytes())|..],
                       Memory(), cachedUseRepeat)
    {
      plain := [];
      ghost var m, before := Memory(), dst.Bytes();
      if cachedUseRepeat == Some(false) {
        RunEngine(data, forceDelta, dst);
        NeverRepeats(ar, data, forceDelta, m, dst.Bytes()[|before|..], Memory());
        return;
      }
      if cachedUseRepeat == Some(true) {
        var done;
        done, plain := CompressAsRepeat(data, dst, forceDelta);
        if done {
          return;
        }
      }
      DecideRepeat(data, dst, forceDelta);
    }

    // Nothing is known about repeats: samples and counts them.
    method DecideRepeat(data: seq<nat>, dst: ByteVec, forceDelta: bool)
      requires Valid() && dst.Valid() && AllBits(ar.kind, data) && 0 < |data| < COUNT_LIMIT
      modifies `cachedParams, `cachedUseRepeat, cache, dst, dst.buf
      ensures Valid() && dst.Valid() && (dst.buf == old(dst.buf) || fresh(dst.buf))
      ensures Compressed(ar, old(dst.Bytes()), dst.Bytes(), data)
      ensures Within(ar.kind, old(dst.Bytes()), dst.Bytes(), data)
      ensures InnerRun(ar, data, forceDelta, old(Memory()), None, dst.Bytes()[|old(dst.Bytes())|..], Memory(),
                       cachedUseRepeat)
    {
      ghost var m, before := Memory(), dst.Bytes();
      var worth := WorthCounting(data);
      if !worth {
        cachedUseRepeat := Some(false);
        RunEngine(data, forceDelta, dst);
        NotWorth(ar, data, forceDelta, m, dst.Bytes()[|before|..], Memory());
        return;
      }
      CompressSmaller(data, dst, forceDelta);
    }

    // At least two samples and a fifth of the elements repeat.
    method WorthCounting(data: seq<nat>) returns (worth: bool)
      requires data != []
      ensures worth == WorthTrying(data)
    {
      var matches := SampleMatches(data);
      if matches < 2 {
        return false;
      }
      var repeats := CountRepeats(data);
      worth := repeats * 5 >= |data|;
    }

    // An earlier chunk was stored as a repeat block, so this one is too.
    method CompressAsRepeat(data: seq<nat>, dst: ByteVec, forceDelta: bool) returns (done: bool, ghost plain: seq<byte>)
      requires Valid() && dst.Valid() && AllBits(ar.kind, data) && 0 < |data| < COUNT_LIMIT
      modifies `cachedParams, dst, dst.buf
      ensures Valid() && dst.Valid() && (dst.buf == old(dst.buf) || fresh(dst.buf))
      ensures done && Compressed(ar, old(dst.Bytes()), dst.Bytes(), data)
      ensures PlainBlock(ar, data, plain) && |dst.Bytes()| == |old(dst.Bytes())| + RepeatSize(data, plain)
      ensures InnerRun(ar, data, forceDelta, old(Memory()), Some(true), dst.Bytes()[|old(dst.Bytes())|..], Memory(),
                       Some(true))
    {
      ghost var m, before := Memory(), dst.Bytes();
      var bitmap, block, params, scratch := EncodeNonRepeats(data, forceDelta);
      ghost var aside := scratch.State(params);
      plain, cachedParams := block, params;
      var h := ReadHeader(block);
      done := h.Ok?;
      if done {
        WriteRepeat(data, bitmap, block, h.value, dst);
        KeptRepeatIs(ar, data, forceDelta, m, block, aside, dst.Bytes()[|before|..], Memory());
      }
    }

    // Both ways are tried; the repeat block stays when it saves more than 32 bytes.
    method CompressSmaller(data: seq<nat>, dst: ByteVec, forceDelta: bool)
      requires Valid() && dst.Valid() && AllBits(ar.kind, data) && 0 < |data| < COUNT_LIMIT && WorthTrying(data)
      modifies `cachedParams, `cachedUseRepeat, cache, dst, dst.buf
      ensures Valid() && dst.Valid() && (dst.buf == old(dst.buf) || fresh(dst.buf))
      ensures Compressed(ar, old(dst.Bytes()), dst.Bytes(), data)
      ensures Within(ar.kind, old(dst.Bytes()), dst.Bytes(), data)
      ensures InnerRun(ar, data, forceDelta, old(Memory()), None, dst.Bytes()[|old(dst.Bytes())|..], Memory(),
                       cachedUseRepeat)
    {
      var startLen := dst.len;
      ghost var m, before := Memory(), dst.Bytes();
      var normalParams := NextParams(data, forceDelta, dst);
      ghost var normal, n := dst.Bytes()[|before|..], cache.State(normalParams);
      KeepSmaller(data, dst, forceDelta, startLen, normalParams, m, normal, n);
      ContestIs(ar, data, forceDelta, m, normal, n, dst.Bytes()[|before|..], Memory(), cachedUseRepeat);
    }

    method KeepSmaller(data: seq<nat>, dst: ByteVec, forceDelta: bool, start: nat, normalParams: Option<BestParams>,
                       ghost m: Memo, ghost normal: seq<byte>, ghost n: Memo)
      requires Valid() && dst.Valid() && AllBits(ar.kind, data) && 0 < |data| < COUNT_LIMIT && start <= dst.len
      requires Compressed(ar, dst.Bytes()[..start], dst.Bytes(), data)
      requires normalParams.Some? ==> ValidBest(ar.kind, normalParams.value)
      requires m.params == cachedParams && normal == dst.Bytes()[start..] && n == cache.State(normalParams)
      modifies `cachedParams, `cachedUseRepeat, cache`targetBw, dst, dst.buf
      ensures Valid() && dst.Valid() && (dst.buf == old(dst.buf) || fresh(dst.buf))
      ensures Compressed(ar, old(dst.Bytes())[..start], dst.Bytes(), data) && dst.len <= old(dst.len)
      ensures start <= dst.len
      ensures SealedContest(ar, data, forceDelta, m, normal, n, dst.Bytes()[start..], Memory(), cachedUseRepeat)
    {
      var normalSize := dst.len - start;
      var params: Option<Option<BestParams>> := None;
      ghost var plain, aside := [], m;
      if normalSize > BitmapLen(|data|) + HeaderLen(|data|) + 32 {
        params, plain, aside := AdoptRepeat(data, dst, forceDelta, start, normalSize, m);
      }
      if params.Some? {
        cachedParams, cachedUseRepeat := params.value, Some(true);
      } else {
        cachedParams, cachedUseRepeat := normalParams, Some(false);
      }
      ContestDecided(ar, data, forceDelta, m, normal, n, plain, aside, dst.Bytes()[start..], Memory(), cachedUseRepeat);
    }

    // Replaces the block written behind start when the repeat block is smaller.
    method AdoptRepeat(data: seq<nat>, dst: ByteVec, forceDelta: bool, start: nat, normalSize: nat, ghost m: Memo)
        returns (r: Option<Option<BestParams>>, ghost plain: seq<byte>, ghost aside: Memo)
      requires Valid() && dst.Valid() && AllBits(ar.kind, data) && 0 < |data| < COUNT_LIMIT && start <= dst.len
      requires m.params == cachedParams
      modifies cache`targetBw, dst, dst.buf
      ensures dst.Valid() && (dst.buf == old(dst.buf) || fresh(dst.buf))
      ensures r.Some? && r.value.Some? ==> ValidBest(ar.kind, r.value.value)
      ensures r.None? ==> dst.Bytes() == old(dst.Bytes()) && cache.targetBw == old(cache.targetBw)
      ensures r.Some? ==> Compressed(ar, old(dst.Bytes())[..start], dst.Bytes(), data)
      ensures r.Some? ==> |dst.Bytes()| + 32 < start + normalSize
      ensures AsideRun(ar, data, forceDelta, m, plain, aside) && Parses(plain)
      ensures r.Some? <==> HeaderLen(|data|) + BitmapLen(|data|) + |PayloadOf(plain)| + 32 < normalSize
      ensures r.Some? ==>
        && start <= dst.len && RepeatBlock(data, plain, dst.Bytes()[start..])
        && r.value == aside.params && cache.targetBw == aside.targetBw
    {
      var bitmap, block, params, scratch := EncodeNonRepeats(data, forceDelta);
      plain, aside := block, scratch.State(params);
      var h := ReadHeader(block);
      if h.Err? || HeaderLen(|data|) + BitmapLen(|data|) + (|block| - h.value.cursor) + 32 >= normalSize {
        return None, plain, aside;
      }
      dst.Truncate(start);
      ghost var before := dst.Bytes();
      WriteRepeat(data, bitmap, block, h.value, dst);
      assert dst.Bytes()[|before|..] == RepeatFrame(data, h.value, block[h.value.cursor..]);
      cache.targetBw := scratch.targetBw;
      r := Some(params);
    }

    // ---------- dictionary and real-doubles blocks ----------

    method WriteDict(data: seq<nat>, candidate: DictCandidate, indices: seq<u64>, dst: ByteVec)
      requires dst.Valid() && ValidDict(ar.kind, candidate) && 0 < |data| < COUNT_LIMIT
      requires Indexes(indices, candidate.dict, data)
        || (indices == [] && |candidate.dict| == 1 && AllSame(data, candidate.dict[0]))
      modifies dst, dst.buf
      ensures dst.Valid() && (dst.buf == old(dst.buf) || fresh(dst.buf))
      ensures Compressed(ar, old(dst.Bytes()), dst.Bytes(), data)
      ensures |dst.Bytes()| == |old(dst.Bytes())| + DictCompressedSize(ar.kind, |data|, |candidate.dict|, candidate.bitWidth)
    {
      var d, w := candidate.dict, candidate.bitWidth;
      IndexWidthFits(|d|);
      if indices != [] {
        IndexesBelow(indices, d, data);
      }
      DictFrameRestores(ar, data, d, indices);
      CompressedFrame(ar, dst.Bytes(), DictFrame(ar.kind, |data|, d, w, indices), data);
      WriteDictChunk(ar.kind, |data|, candidate, indices, dst);
    }

    // The data's own table.
    method WriteDistinct(data: seq<nat>, candidate: DictCandidate, indices: seq<u64>, dst: ByteVec)
      requires dst.Valid() && AllBits(ar.kind, data) && 0 < |data| < COUNT_LIMIT
      requires candidate == DistinctCandidate(data) && |candidate.dict| <= MAX_DICT_ENTRIES
      requires Indexes(indices, candidate.dict, data)
      modifies dst, dst.buf
      ensures dst.Valid() && (dst.buf == old(dst.buf) || fresh(dst.buf))
      ensures Compressed(ar, old(dst.Bytes()), dst.Bytes(), data)
      ensures |dst.Bytes()| == |old(dst.Bytes())| + DictSize(ar.kind, data)
    {
      DistinctValid(ar.kind, data);
      WriteDict(data, candidate, indices, dst);
    }

    method WriteRd(data: seq<nat>, s: RdScheme, lefts: seq<u64>, rights: seq<u64>, es: seq<RdException>,
                   ghost stale: seq<nat>, dst: ByteVec)
      requires dst.Valid() && s.Valid(ar.kind) && |stale| == |data|
      requires lefts == LeftIndices(s, data, stale) && rights == RightParts(s, data)
      requires es == RdExceptions(s, data, |data|)
      modifies dst, dst.buf
      ensures dst.Valid() && (dst.buf == old(dst.buf) || fresh(dst.buf))
      ensures StoredAsRd(ar.kind, s, old(dst.Bytes()), dst.Bytes(), data)
      ensures |dst.Bytes()| == |old(dst.Bytes())| + RdSize(s, data)
    {
      RdFrameSize(ar.kind, s, data, stale);
      WriteRdChunk(ar.kind, s, data, lefts, rights, es, stale, dst);
    }

    method EncodeRd(data: seq<nat>, s: RdScheme)
        returns (lefts: seq<u64>, rights: seq<u64>, es: seq<RdException>, ghost stale: seq<nat>)
      requires s.Valid(ar.kind)
      ensures |stale| == |data| && lefts == LeftIndices(s, data, stale) && rights == RightParts(s, data)
      ensures es == RdExceptions(s, data, |data|)
    {
      var slots := new u64[|data|];
      stale := slots[..];
      var parts;
      parts, es := EncodeRdFast(ar.kind, s, data, slots);
      PartsFitWord(ar.kind, s, data);
      lefts, rights := slots[..], parts;
    }

    // ---------- the kind of block kept from the chunk before ----------

    // The chunk is stored the way the chunk before it was.
    method CompressCached(data: seq<nat>, dst: ByteVec) returns (done: bool, ghost plain: seq<byte>, ghost inner: seq<byte>)
      requires Valid() && dst.Valid() && AllBits(ar.kind, data) && 4 < |data| < COUNT_LIMIT && cachedScheme.Some?
      modifies this, cache, dst, dst.buf
      ensures Valid() && dst.Valid() && (dst.buf == old(dst.buf) || fresh(dst.buf))
      ensures done ==>
        && Stored(ar, old(Kept()), old(RdUsed(data)), old(dst.Bytes()), dst.Bytes(), data, false, plain)
        && ChunkRun(ar, data, false, old(Memory()), old(Kept()), searchRd(data), inner,
                    |dst.Bytes()| - |old(dst.Bytes())|, Memory(), Kept())
      ensures !done ==> !old(Kept()).UsesDict(data, false) && !old(Kept()).UsesRd(data, false)
      ensures !done ==> old(cachedScheme) != Some(Alp) && cachedScheme.None? && cachedUseRepeat == old(cachedUseRepeat)
      ensures !done ==> dst.Bytes() == old(dst.Bytes()) && Memory() == old(Memory()) && Kept() == old(Kept()).Forgotten()
    {
      plain, inner := [], [];
      match cachedScheme.value {
        case Dict =>
          done := CompressCachedDict(data, dst);
        case Rd =>
          done := CompressCachedRd(data, dst);
        case Alp =>
          plain, inner := CompressAlp(data, dst);
          done := true;
      }
    }

    method CompressAlp(data: seq<nat>, dst: ByteVec) returns (ghost plain: seq<byte>, ghost inner: seq<byte>)
      requires Valid() && dst.Valid() && AllBits(ar.kind, data) && 4 < |data| < COUNT_LIMIT && cachedScheme == Some(Alp)
      modifies `cachedParams, `cachedUseRepeat, cache, dst, dst.buf
      ensures Valid() && dst.Valid() && (dst.buf == old(dst.buf) || fresh(dst.buf))
      ensures Stored(ar, old(Kept()), old(RdUsed(data)), old(dst.Bytes()), dst.Bytes(), data, false, plain)
      ensures ChunkRun(ar, data, false, old(Memory()), old(Kept()), searchRd(data), inner,
                       |dst.Bytes()| - |old(dst.Bytes())|, Memory(), Kept())
    {
      ghost var d, s, m, before := Kept(), RdUsed(data), Memory(), dst.Bytes();
      plain := CompressChunkInner(data, dst, false);
      inner := dst.Bytes()[|before|..];
      PlainChunk(ar, data, false, m, d, searchRd(data), inner, Memory(), cachedUseRepeat);
      if d.useRepeat == Some(true) {
        StoredKept(ar, d, s, old(dst.Bytes()), dst.Bytes(), data, false, plain);
      } else {
        StoredFree(ar, d, s, old(dst.Bytes()), dst.Bytes(), data, false, plain);
      }
    }

    method CompressCachedDict(data: seq<nat>, dst: ByteVec) returns (done: bool)
      requires Valid() && dst.Valid() && AllBits(ar.kind, data) && 4 < |data| < COUNT_LIMIT && cachedScheme == Some(Dict)
      modifies `cachedScheme, `cachedDict, dst, dst.buf
      ensures Valid() && dst.Valid() && (dst.buf == old(dst.buf) || fresh(dst.buf))
      ensures done <==> |Distinct(data)| <= MAX_DICT_ENTRIES
      ensures done ==>
        && Stored(ar, old(Kept()), old(RdUsed(data)), old(dst.Bytes()), dst.Bytes(), data, false, [])
        && ChunkRun(ar, data, false, old(Memory()), old(Kept()), searchRd(data), [],
                    |dst.Bytes()| - |old(dst.Bytes())|, Memory(), Kept())
      ensures !done ==> dst.Bytes() == old(dst.Bytes()) && Kept() == old(Kept()).Forgotten()
    {
      ghost var d, s := Kept(), RdUsed(data);
      done := WriteCachedDict(data, dst);
      if done {
        StoredKept(ar, d, s, old(dst.Bytes()), dst.Bytes(), data, false, []);
        DictChunk(ar, data, Memory(), d, searchRd(data));
      } else {
        cachedScheme, cachedDict := None, None;
      }
    }

    method WriteCachedDict(data: seq<nat>, dst: ByteVec) returns (done: bool)
      requires Valid() && dst.Valid() && AllBits(ar.kind, data) && 4 < |data| < COUNT_LIMIT
      modifies `cachedDict, dst, dst.buf
      ensures Valid() && dst.Valid() && (dst.buf == old(dst.buf) || fresh(dst.buf))
      ensures done <==> |Distinct(data)| <= MAX_DICT_ENTRIES
      ensures done ==> Compressed(ar, old(dst.Bytes()), dst.Bytes(), data)
      ensures done ==> |dst.Bytes()| == |old(dst.Bytes())| + DictSize(ar.kind, data)
      ensures done ==> cachedDict == Some(DistinctCandidate(data))
      ensures !done ==> dst.Bytes() == old(dst.Bytes()) && cachedDict == old(cachedDict)
    {
      if cachedDict.Some? && |cachedDict.value.dict| <= 1 {
        var d0 := cachedDict.value.dict[0];
        if data[1] == d0 && AllSame(data, d0) {
          SameDistinct(data, d0);
          assert cachedDict.value.dict == [d0];
          WriteDict(data, cachedDict.value, [], dst);
          return true;
        }
      }
      var candidate, indices := ScanDict(data);
      if candidate.None? {
        return false;
      }
      DistinctValid(ar.kind, data);
      cachedDict := candidate;
      WriteDistinct(data, candidate.value, indices, dst);
      done := true;
    }

    method CompressCachedRd(data: seq<nat>, dst: ByteVec) returns (done: bool)
      requires Valid() && dst.Valid() && AllBits(ar.kind, data) && 4 < |data| < COUNT_LIMIT && cachedScheme == Some(Rd)
      modifies `cachedScheme, `cachedRd, dst, dst.buf
      ensures Valid() && dst.Valid() && (dst.buf == old(dst.buf) || fresh(dst.buf))
      ensures done <==> old(cachedRd).Some? || |data| <= 0xFFFF
      ensures done ==>
        && Stored(ar, old(Kept()), old(RdUsed(data)), old(dst.Bytes()), dst.Bytes(), data, false, [])
        && ChunkRun(ar, data, false, old(Memory()), old(Kept()), searchRd(data), [],
                    |dst.Bytes()| - |old(dst.Bytes())|, Memory(), Kept())
      ensures !done ==> dst.Bytes() == old(dst.Bytes()) && Kept() == old(Kept()).Forgotten()
    {
      if cachedRd.Some? {
        CompressKeptRd(data, dst);
        return true;
      }
      if |data| > 0xFFFF {
        cachedScheme, cachedRd := None, None;
        return false;
      }
      CompressFoundRd(data, dst);
      done := true;
    }

    method CompressKeptRd(data: seq<nat>, dst: ByteVec)
      requires Valid() && dst.Valid() && AllBits(ar.kind, data) && 4 < |data| < COUNT_LIMIT
      requires cachedScheme == Some(Rd) && cachedRd.Some?
      modifies dst, dst.buf
      ensures Valid() && dst.Valid() && (dst.buf == old(dst.buf) || fresh(dst.buf))
      ensures Stored(ar, Kept(), RdUsed(data), old(dst.Bytes()), dst.Bytes(), data, false, [])
      ensures ChunkRun(ar, data, false, Memory(), Kept(), searchRd(data), [],
                       |dst.Bytes()| - |old(dst.Bytes())|, Memory(), Kept())
    {
      var lefts, rights, es, stale := EncodeRd(data, cachedRd.value);
      WriteRd(data, cachedRd.value, lefts, rights, es, stale, dst);
      StoredScheme(ar, Kept(), old(dst.Bytes()), dst.Bytes(), data, []);
      RdChunk(ar, data, Memory(), Kept(), searchRd(data), cachedRd.value);
    }

    method CompressFoundRd(data: seq<nat>, dst: ByteVec)
      requires Valid() && dst.Valid() && AllBits(ar.kind, data) && 4 < |data| <= 0xFFFF
      requires cachedScheme == Some(Rd) && cachedRd.None?
      modifies `cachedRd, dst, dst.buf
      ensures Valid() && dst.Valid() && (dst.buf == old(dst.buf) || fresh(dst.buf))
      ensures Stored(ar, old(Kept()), old(RdUsed(data)), old(dst.Bytes()), dst.Bytes(), data, false, [])
      ensures ChunkRun(ar, data, false, old(Memory()), old(Kept()), searchRd(data), [],
                       |dst.Bytes()| - |old(dst.Bytes())|, Memory(), Kept())
    {
      ghost var d, s := Kept(), RdUsed(data);
      cachedRd := Some(searchRd(data));
      WriteSearched(data, dst);
      StoredKept(ar, d, s, old(dst.Bytes()), dst.Bytes(), data, false, []);
      RdChunk(ar, data, Memory(), d, searchRd(data), searchRd(data));
    }

    // A real-doubles block with the scheme found for the data itself.
    method WriteSearched(data: seq<nat>, dst: ByteVec)
      requires Valid() && dst.Valid() && AllBits(ar.kind, data) && 0 < |data| <= 0xFFFF
      modifies dst, dst.buf
      ensures dst.Valid() && (dst.buf == old(dst.buf) || fresh(dst.buf))
      ensures Compressed(ar, old(dst.Bytes()), dst.Bytes(), data)
      ensures |dst.Bytes()| == |old(dst.Bytes())| + RdSize(searchRd(data), data)
    {
      var s := searchRd(data);
      var lefts, rights, es, stale := EncodeRd(data, s);
      WriteRd(data, s, lefts, rights, es, stale, dst);
      SmallBlocksAddressable(s, data);
      RdCompressed(ar, s, old(dst.Bytes()), dst.Bytes(), data);
    }

    // ---------- no kind is kept ----------

    // Nothing is known about the data: the smallest of the ways tried stays.
    method CompressFresh(data: seq<nat>, dst: ByteVec, forceDelta: bool)
        returns (ghost plain: seq<byte>, ghost inner: seq<byte>)
      requires Valid() && dst.Valid() && AllBits(ar.kind, data) && 4 < |data| < COUNT_LIMIT
      requires forceDelta || cachedScheme.None?
      modifies this, cache, dst, dst.buf
      ensures Valid() && dst.Valid() && (dst.buf == old(dst.buf) || fresh(dst.buf))
      ensures Stored(ar, old(Kept()), searchRd(data), old(dst.Bytes()), dst.Bytes(), data, forceDelta, plain)
      ensures ChunkRun(ar, data, forceDelta, old(Memory()), old(Kept()), searchRd(data), inner,
                       |dst.Bytes()| - |old(dst.Bytes())|, Memory(), Kept())
    {
      ghost var d, m := Kept(), Memory();
      var candidate: Option<DictCandidate>, indices: seq<u64> := None, [];
      plain, inner := [], [];
      if !forceDelta {
        candidate, indices := ScanDict(data);
      }
      DistinctExact(data);
      if candidate.Some? && |candidate.value.dict| <= 1 {
        WriteSingle(data, candidate.value, indices, dst);
        StoredFree(ar, d, searchRd(data), old(dst.Bytes()), dst.Bytes(), data, forceDelta, plain);
        SingleChunk(ar, data, m, d, searchRd(data));
        return;
      }
      plain, inner := CompressTried(data, candidate, indices, forceDelta, dst);
    }

    method CompressTried(data: seq<nat>, candidate: Option<DictCandidate>, indices: seq<u64>, forceDelta: bool,
                         dst: ByteVec) returns (ghost plain: seq<byte>, ghost inner: seq<byte>)
      requires Valid() && dst.Valid() && AllBits(ar.kind, data) && 4 < |data| < COUNT_LIMIT
      requires Scanned(data, forceDelta, candidate, indices)
      requires forceDelta || (cachedScheme.None? && |Distinct(data)| > 1)
      modifies this, cache, dst, dst.buf
      ensures Valid() && dst.Valid() && (dst.buf == old(dst.buf) || fresh(dst.buf))
      ensures Stored(ar, old(Kept()), searchRd(data), old(dst.Bytes()), dst.Bytes(), data, forceDelta, plain)
      ensures ChunkRun(ar, data, forceDelta, old(Memory()), old(Kept()), searchRd(data), inner,
                       |dst.Bytes()| - |old(dst.Bytes())|, Memory(), Kept())
    {
      ghost var d, m, before := Kept(), Memory(), dst.Bytes();
      plain, inner := CompressAndImprove(data, candidate, indices, forceDelta, dst);
      if d.useRepeat == Some(true) {
        StoredKept(ar, d, searchRd(data), before, dst.Bytes(), data, forceDelta, plain);
      } else {
        StoredFree(ar, d, searchRd(data), before, dst.Bytes(), data, forceDelta, plain);
      }
      ChunkTried(ar, data, forceDelta, m, d, searchRd(data), inner, |dst.Bytes()| - |before|, Memory(), Kept());
    }

    // One float only: nothing is smaller than its dictionary block.
    method WriteSingle(data: seq<nat>, candidate: DictCandidate, indices: seq<u64>, dst: ByteVec)
      requires Valid() && dst.Valid() && AllBits(ar.kind, data) && 4 < |data| < COUNT_LIMIT
      requires candidate == DistinctCandidate(data) && |candidate.dict| <= 1
      requires Indexes(indices, candidate.dict, data)
      modifies `cachedScheme, `cachedDict, dst, dst.buf
      ensures Valid() && dst.Valid() && (dst.buf == old(dst.buf) || fresh(dst.buf))
      ensures Compressed(ar, old(dst.Bytes()), dst.Bytes(), data)
      ensures Within(ar.kind, old(dst.Bytes()), dst.Bytes(), data)
      ensures cachedScheme == Some(Dict) && cachedDict == Some(DistinctCandidate(data))
      ensures |dst.Bytes()| == |old(dst.Bytes())| + DictSize(ar.kind, data)
    {
      DistinctValid(ar.kind, data);
      cachedScheme, cachedDict := Some(Dict), Some(candidate);
      WriteDistinct(data, candidate, indices, dst);
      OneEntryFits(ar.kind, |data|);
    }

    method CompressAndImprove(data: seq<nat>, candidate: Option<DictCandidate>, indices: seq<u64>, forceDelta: bool,
                              dst: ByteVec) returns (ghost plain: seq<byte>, ghost inner: seq<byte>)
      requires Valid() && dst.Valid() && AllBits(ar.kind, data) && 4 < |data| < COUNT_LIMIT
      requires Scanned(data, forceDelta, candidate, indices)
      modifies this, cache, dst, dst.buf
      ensures Valid() && dst.Valid() && (dst.buf == old(dst.buf) || fresh(dst.buf))
      ensures Compressed(ar, old(dst.Bytes()), dst.Bytes(), data)
      ensures old(cachedUseRepeat) == Some(true) ==>
        && PlainBlock(ar, data, plain)
        && |dst.Bytes()| == |old(dst.Bytes())|
             + Improved(ar.kind, data, searchRd(data), forceDelta, RepeatSize(data, plain))
      ensures old(cachedUseRepeat) != Some(true) ==> Within(ar.kind, old(dst.Bytes()), dst.Bytes(), data)
      ensures InnerRun(ar, data, forceDelta, old(Memory()), old(cachedUseRepeat), inner, Memory(), cachedUseRepeat)
      ensures |dst.Bytes()| == |old(dst.Bytes())| + Improved(ar.kind, data, searchRd(data), forceDelta, |inner|)
      ensures Kept() == (if forceDelta then old(Kept()).(useRepeat := cachedUseRepeat)
                         else BestKept(ar.kind, data, searchRd(data), |inner|, cachedUseRepeat))
    {
      var start := dst.len;
      ghost var before := dst.Bytes();
      plain := CompressChunkInner(data, dst, forceDelta);
      inner := dst.Bytes()[|before|..];
      ImproveAndRemember(data, candidate, indices, forceDelta, start, dst);
    }

    method ImproveAndRemember(data: seq<nat>, candidate: Option<DictCandidate>, indices: seq<u64>, forceDelta: bool,
                              start: nat, dst: ByteVec)
      requires Valid() && dst.Valid() && AllBits(ar.kind, data) && 0 < |data| < COUNT_LIMIT && start <= dst.len
      requires Scanned(data, forceDelta, candidate, indices)
      requires Compressed(ar, dst.Bytes()[..start], dst.Bytes(), data)
      modifies `cachedScheme, `cachedDict, `cachedRd, dst, dst.buf
      ensures Valid() && dst.Valid() && (dst.buf == old(dst.buf) || fresh(dst.buf))
      ensures Compressed(ar, old(dst.Bytes())[..start], dst.Bytes(), data)
      ensures |dst.Bytes()| == start + Improved(ar.kind, data, searchRd(data), forceDelta, old(dst.len) - start)
      ensures Kept() == (if forceDelta then old(Kept())
                         else BestKept(ar.kind, data, searchRd(data), old(dst.len) - start, cachedUseRepeat))
    {
      var chosen := Improve(data, candidate, indices, forceDelta, start, dst);
      if !forceDelta {
        Remember(chosen);
      }
    }

    method Remember(chosen: Scheme)
      requires Valid()
      modifies `cachedScheme, `cachedDict, `cachedRd
      ensures Valid() && cachedScheme == Some(chosen) && cachedUseRepeat == old(cachedUseRepeat)
      ensures cachedParams == old(cachedParams)
      ensures cachedRd == (if chosen == Rd then old(cachedRd) else None)
      ensures cachedDict == (if chosen == Dict then old(cachedDict) else None)
    {
      cachedScheme := Some(chosen);
      if chosen != Rd {
        cachedRd := None;
      }
      if chosen != Dict {
        cachedDict := None;
      }
    }

    // A dictionary block, then a real-doubles block, in place of a larger one.
    method Improve(data: seq<nat>, candidate: Option<DictCandidate>, indices: seq<u64>, forceDelta: bool, start: nat,
                   dst: ByteVec) returns (chosen: Scheme)
      requires Valid() && dst.Valid() && AllBits(ar.kind, data) && 0 < |data| < COUNT_LIMIT && start <= dst.len
      requires Scanned(data, forceDelta, candidate, indices)
      requires Compressed(ar, dst.Bytes()[..start], dst.Bytes(), data)
      modifies `cachedDict, `cachedRd, dst, dst.buf
      ensures Valid() && dst.Valid() && (dst.buf == old(dst.buf) || fresh(dst.buf))
      ensures Compressed(ar, old(dst.Bytes())[..start], dst.Bytes(), data)
      ensures |dst.Bytes()| == start + Improved(ar.kind, data, searchRd(data), forceDelta, old(dst.len) - start)
      ensures !forceDelta ==> chosen == BestScheme(ar.kind, data, searchRd(data), old(dst.len) - start)
      ensures chosen == Rd ==> cachedRd == Some(searchRd(data))
      ensures chosen == Dict ==> cachedDict == Some(DistinctCandidate(data))
      ensures forceDelta ==> cachedDict == old(cachedDict) && cachedRd == old(cachedRd)
    {
      chosen := Alp;
      if candidate.Some? {
        DistinctValid(ar.kind, data);
        var smaller := ReplaceByDict(data, candidate.value, indices, start, dst);
        if smaller {
          chosen, cachedDict := Dict, candidate;
        }
      }
      if !forceDelta {
        var smaller := ReplaceByRd(data, start, dst);
        if smaller {
          chosen, cachedRd := Rd, Some(searchRd(data));
        }
      }
    }

    method ReplaceByDict(data: seq<nat>, candidate: DictCandidate, indices: seq<u64>, start: nat, dst: ByteVec)
        returns (smaller: bool)
      requires dst.Valid() && AllBits(ar.kind, data) && 0 < |data| < COUNT_LIMIT && start <= dst.len
      requires candidate == DistinctCandidate(data) && |candidate.dict| <= MAX_DICT_ENTRIES
      requires Indexes(indices, candidate.dict, data)
      requires Compressed(ar, dst.Bytes()[..start], dst.Bytes(), data)
      modifies dst, dst.buf
      ensures dst.Valid() && (dst.buf == old(dst.buf) || fresh(dst.buf))
      ensures smaller <==> DictSize(ar.kind, data) < old(dst.len) - start
      ensures Compressed(ar, old(dst.Bytes())[..start], dst.Bytes(), data)
      ensures |dst.Bytes()| == start + AfterDict(ar.kind, data, old(dst.len) - start)
    {
      smaller := DictCompressedSize(ar.kind, |data|, |candidate.dict|, candidate.bitWidth) < dst.len - start;
      if smaller {
        dst.Truncate(start);
        WriteDistinct(data, candidate, indices, dst);
      }
    }

    method ReplaceByRd(data: seq<nat>, start: nat, dst: ByteVec) returns (smaller: bool)
      requires Valid() && dst.Valid() && AllBits(ar.kind, data) && 0 < |data| < COUNT_LIMIT && start <= dst.len
      requires Compressed(ar, dst.Bytes()[..start], dst.Bytes(), data)
      modifies dst, dst.buf
      ensures dst.Valid() && (dst.buf == old(dst.buf) || fresh(dst.buf))
      ensures Compressed(ar, old(dst.Bytes())[..start], dst.Bytes(), data)
      ensures |dst.Bytes()| == start + AfterRd(ar.kind, data, searchRd(data), old(dst.len) - start)
      ensures smaller <==> AfterRd(ar.kind, data, searchRd(data), old(dst.len) - start) < old(dst.len) - start
    {
      smaller := false;
      if (dst.len - start) * 5 > |data| * ar.kind.Size() * 4 && |data| <= 0xFFFF {
        var s := searchRd(data);
        var lefts, rights, es, stale := EncodeRd(data, s);
        smaller := RdTotalSize(s, |data|, |es|) < dst.len - start;
        if smaller {
          dst.Truncate(start);
          ghost var before := dst.Bytes();
          WriteRd(data, s, lefts, rights, es, stale, dst);
          SmallBlocksAddressable(s, data);
          RdCompressed(ar, s, before, dst.Bytes(), data);
        }
      }
    }

    // The kind kept from the chunk before, or another one when it does not serve.
    method CompressFollowing(data: seq<nat>, dst: ByteVec) returns (ghost plain: seq<byte>, ghost inner: seq<byte>)
      requires Valid() && dst.Valid() && AllBits(ar.kind, data) && 4 < |data| < COUNT_LIMIT && cachedScheme.Some?
      modifies this, cache, dst, dst.buf
      ensures Valid() && dst.Valid() && (dst.buf == old(dst.buf) || fresh(dst.buf))
      ensures Stored(ar, old(Kept()), old(RdUsed(data)), old(dst.Bytes()), dst.Bytes(), data, false, plain)
      ensures ChunkRun(ar, data, false, old(Memory()), old(Kept()), searchRd(data), inner,
                       |dst.Bytes()| - |old(dst.Bytes())|, Memory(), Kept())
    {
      ghost var d, s, m, before := Kept(), RdUsed(data), Memory(), dst.Bytes();
      var done;
      done, plain, inner := CompressCached(data, dst);
      if !done {
        ghost var d' := Kept();
        plain, inner := CompressFresh(data, dst, false);
        StoredForgetting(ar, d, d', s, before, dst.Bytes(), data, plain);
        ForgottenChunk(ar, data, m, d, searchRd(data), inner, |dst.Bytes()| - |before|, Memory(), Kept());
      }
    }

    // ---------- one chunk ----------

    // Appends one chunk, the way a kept decision says or the smallest way found.
    method CompressChunk(data: seq<nat>, dst: ByteVec, forceDelta: bool)
        returns (ghost plain: seq<byte>, ghost inner: seq<byte>)
      requires Valid() && dst.Valid() && AllBits(ar.kind, data) && |data| < COUNT_LIMIT
      modifies this, cache, dst, dst.buf
      ensures Valid() && dst.Valid() && (dst.buf == old(dst.buf) || fresh(dst.buf))
      ensures Stored(ar, old(Kept()), old(RdUsed(data)), old(dst.Bytes()), dst.Bytes(), data, forceDelta, plain)
      ensures ChunkRun(ar, data, forceDelta, old(Memory()), old(Kept()), searchRd(data), inner,
                       |dst.Bytes()| - |old(dst.Bytes())|, Memory(), Kept())
    {
      ghost var d, s, m, before := Kept(), RdUsed(data), Memory(), dst.Bytes();
      plain, inner := [], [];
      if |data| <= 4 {
        RunEngine(data, forceDelta, dst);
        inner := dst.Bytes()[|before|..];
        SmallChunk(ar, data, forceDelta, m, d, searchRd(data), inner, Memory());
        StoredFree(ar, d, s, before, dst.Bytes(), data, forceDelta, plain);
        return;
      }
      if !forceDelta && cachedScheme.Some? {
        plain, inner := CompressFollowing(data, dst);
        return;
      }
      plain, inner := CompressFresh(data, dst, forceDelta);
      StoredForced(ar, d, s, searchRd(data), before, dst.Bytes(), data, forceDelta, plain);
    }
  }

  lemma OneEntryFits(k: FloatKind, n: nat)
    requires n > 4
    ensures DictCompressedSize(k, n, 1, 0) <= MaxCompressedSize(k, n)
  {
    NothingPacked(Zeros(n), 0, []);
    if k.F64? {
      assert n * k.Size() == 8 * n;
    } else {
      assert n * k.Size() == 4 * n;
    }
  }

  // ---------- whole runs ----------

  function Flatten(frames: seq<seq<byte>>): seq<byte> {
    if frames == [] then [] else Flatten(frames[..|frames| - 1]) + frames[|frames| - 1]
  }

  ghost predicate AllPairs<A, B>(p: (A, B) -> bool, xs: seq<A>, ys: seq<B>) {
    |xs| == |ys| && forall i :: 0 <= i < |xs| ==> p(xs[i], ys[i])
  }

  ghost function Restoring(ar: Arith): (seq<byte>, seq<nat>) -> bool {
    (frame, data) => Restores(ar, frame, data)
  }

  // Frame i restores chunk i.
  ghost predicate AllRestored(ar: Arith, frames: seq<seq<byte>>, chunks: seq<seq<nat>>) {
    AllPairs(Restoring(ar), frames, chunks)
  }

  lemma OnePair<A, B>(p: (A, B) -> bool, xs: seq<A>, ys: seq<B>, x: A, y: B)
    requires AllPairs(p, xs, ys) && p(x, y)
    ensures AllPairs(p, xs + [x], ys + [y])
  {
  }

  lemma FlattenAppend(start: seq<byte>, frames: seq<seq<byte>>, frame: seq<byte>)
    ensures start + Flatten(frames) + frame == start + Flatten(frames + [frame])
  {
    assert (frames + [frame])[..|frames|] == frames;
  }

  lemma RunExtends(ar: Arith, start: seq<byte>, before: seq<byte>, after: seq<byte>, frames: seq<seq<byte>>,
                   chunks: seq<seq<nat>>, data: seq<nat>, frame: seq<byte>)
    requires AllRestored(ar, frames, chunks) && before == start + Flatten(frames)
    requires after == before + frame && Restoring(ar)(frame, data)
    ensures AllRestored(ar, frames + [frame], chunks + [data]) && after == start + Flatten(frames + [frame])
  {
    OnePair(Restoring(ar), frames, chunks, frame, data);
    FlattenAppend(start, frames, frame);
  }

  // One encoder over any run of chunks of at most 65535 elements, in any mode: every
  // frame restores its chunk, whatever the chunks before it left behind.
  method EncodeRun(enc: Encoder, chunks: seq<seq<nat>>, forceDelta: seq<bool>, dst: ByteVec)
      returns (frames: seq<seq<byte>>)
    requires enc.Valid() && dst.Valid() && |forceDelta| == |chunks|
    requires forall i :: 0 <= i < |chunks| ==> AllBits(enc.ar.kind, chunks[i]) && |chunks[i]| <= 0xFFFF
    modifies enc, enc.cache, dst, dst.buf
    ensures enc.Valid() && dst.Valid()
    ensures AllRestored(enc.ar, frames, chunks) && dst.Bytes() == old(dst.Bytes()) + Flatten(frames)
  {
    frames := [];
    ghost var start := dst.Bytes();
    var i := 0;
    while i < |chunks|
      invariant 0 <= i <= |chunks| && enc.Valid() && dst.Valid()
      invariant dst.buf == old(dst.buf) || fresh(dst.buf)
      invariant AllRestored(enc.ar, frames, chunks[..i]) && dst.Bytes() == start + Flatten(frames)
    {
      var frame := EncodeOne(enc, chunks[i], forceDelta[i], dst, start, frames, chunks[..i]);
      assert chunks[..i + 1] == chunks[..i] + [chunks[i]];
      frames := frames + [frame];
      i := i + 1;
    }
    assert chunks[..|chunks|] == chunks;
  }

  method EncodeOne(enc: Encoder, data: seq<nat>, forceDelta: bool, dst: ByteVec, ghost start: seq<byte>,
                   ghost frames: seq<seq<byte>>, ghost chunks: seq<seq<nat>>) returns (frame: seq<byte>)
    requires enc.Valid() && dst.Valid() && AllBits(enc.ar.kind, data) && |data| <= 0xFFFF
    requires AllRestored(enc.ar, frames, chunks) && dst.Bytes() == start + Flatten(frames)
    modifies enc, enc.cache, dst, dst.buf
    ensures enc.Valid() && dst.Valid() && (dst.buf == old(dst.buf) || fresh(dst.buf))
    ensures AllRestored(enc.ar, frames + [frame], chunks + [data])
    ensures dst.Bytes() == start + Flatten(frames + [frame])
  {
    ghost var before := dst.Bytes();
    var at := dst.len;
    AnySchemeAddresses(data);
    ghost var plain, inner := enc.CompressChunk(data, dst, forceDelta);
    frame := dst.buf[at..dst.len];
    assert frame == dst.Bytes()[at..] && dst.Bytes() == before + frame;
    RunExtends(enc.ar, start, before, dst.Bytes(), frames, chunks, data, frame);
  }

  lemma AnySchemeAddresses(data: seq<nat>)
    requires |data| <= 0xFFFF
    ensures forall s: RdScheme :: ExceptionsAddressable(s, data)
  {
    forall s: RdScheme ensures ExceptionsAddressable(s, data) {
      SmallBlocksAddressable(s, data);
    }
  }

  // ---------- when a kept decision keeps the bound ----------

  lemma ImprovedShrinks(k: FloatKind, data: seq<nat>, s: RdScheme, forceDelta: bool, size: nat)
    ensures Improved(k, data, s, forceDelta, size) <= size
  {
  }

  // A repeat block is the non-repeats' own block with the bitmap in it and another count.
  lemma RepeatSizeIs(ar: Arith, data: seq<nat>, plain: seq<byte>)
    requires PlainBlock(ar, data, plain)
    ensures RepeatSize(data, plain)
      == |plain| + BitmapLen(|data|) + CountBytes(|data|) - CountBytes(|RepeatlessOf(data)|)
  {
  }

  // What is above the bound is replaced by whatever is not.
  lemma ImprovedWithinIff(k: FloatKind, data: seq<nat>, s: RdScheme, size: nat)
    ensures var most := MaxCompressedSize(k, |data|);
      Improved(k, data, s, false, size) <= most <==>
        || size <= most
        || (|Distinct(data)| <= MAX_DICT_ENTRIES && DictSize(k, data) <= most)
        || (|data| <= 0xFFFF && RdSize(s, data) <= most)
  {
  }

  // The conditions in numbers that are known before the chunk is stored: table and
  // indices; indices, low parts and exceptions; or bitmap and the non-repeats' own block,
  // against the raw floats. Where a repeat block is improved on, any of the three will do.
  lemma KeptWithinIff(ar: Arith, d: Decisions, data: seq<nat>, forceDelta: bool, s: RdScheme, plain: seq<byte>)
    requires KeepsWay(d, data, forceDelta)
    requires d.UsesRepeat(data, forceDelta) ==> PlainBlock(ar, data, plain)
    ensures var n, most := |data|, MaxCompressedSize(ar.kind, |data|);
      var size, repeats := KeptSize(ar.kind, d, data, forceDelta, s, plain), n - |RepeatlessOf(data)|;
      && (d.UsesDict(data, forceDelta) ==>
            (size <= most <==>
             CountBytes(n) + |Distinct(data)| * ar.kind.Size() + PackedSize(n, IndexWidth(|Distinct(data)|))
               <= 4 + n * ar.kind.Size()))
      && (d.UsesRd(data, forceDelta) ==>
            (size <= most <==>
             CountBytes(n) + 2 * |s.dict| + LeftBytes(n, LeftWidth(|s.dict|)) + PackedSize(n, s.rightWidth)
               + 4 * |RdExceptions(s, data, n)| <= 1 + n * ar.kind.Size()))
      && (d.UsesRepeat(data, forceDelta) && BitmapLen(n) + CountBytes(n) <= 6 + repeats * ar.kind.Size() ==>
            size <= most)
      && (d.OnlyRepeat(data, forceDelta) ==>
            (size <= most <==>
             |plain| + BitmapLen(n) + CountBytes(n) - CountBytes(|RepeatlessOf(data)|) <= most))
      && (d.UsesRepeat(data, forceDelta) && !d.OnlyRepeat(data, forceDelta) ==>
            (size <= most <==>
             || |plain| + BitmapLen(n) + CountBytes(n) - CountBytes(|RepeatlessOf(data)|) <= most
             || (|Distinct(data)| <= MAX_DICT_ENTRIES && DictSize(ar.kind, data) <= most)
             || (n <= 0xFFFF && RdSize(s, data) <= most)))
      && (d.OnlyRepeat(data, forceDelta) && Unencodable(ar, RepeatlessOf(data)) ==>
            (size <= most <==> BitmapLen(n) + CountBytes(n) <= 6 + repeats * ar.kind.Size()))
  {
    if d.UsesRepeat(data, forceDelta) {
      RawRepeatWithinIff(ar.kind, |data|, |RepeatlessOf(data)|);
      RepeatWithin(ar, data, plain);
      RepeatSizeIs(ar, data, plain);
      ImprovedWithinIff(ar.kind, data, s, RepeatSize(data, plain));
      ImprovedShrinks(ar.kind, data, s, forceDelta, RepeatSize(data, plain));
    }
  }

  // ---------- what follows for some chunks ----------

  // The block that stays is the smallest of those tried: a dictionary whenever there is one,
  // real doubles when the others take more than four fifths of the floats.
  lemma ImprovedLeast(k: FloatKind, data: seq<nat>, s: RdScheme, size: nat)
    ensures var best, scheme := Improved(k, data, s, false, size), BestScheme(k, data, s, size);
      && best <= size
      && (|Distinct(data)| <= MAX_DICT_ENTRIES ==> best <= DictSize(k, data))
      && (|data| <= 0xFFFF && best * 5 > |data| * k.Size() * 4 ==> best <= RdSize(s, data))
      && best == (match scheme case Alp => size case Dict => DictSize(k, data) case Rd => RdSize(s, data))
      && (scheme == Dict ==> |Distinct(data)| <= MAX_DICT_ENTRIES && best < size)
      && (scheme == Rd ==> |data| <= 0xFFFF && best < size)
  {
  }

  // With no kept kind to follow the chunk takes the least of what is tried, in terms of the
  // engine's or repeat block's size, and that kind is kept.
  lemma BestStays(ar: Arith, data: seq<nat>, m: Memo, d: Decisions, s: RdScheme, inner: seq<byte>, size: int,
                  m': Memo, d': Decisions)
    requires ChunkRun(ar, data, false, m, d, s, inner, size, m', d')
    requires |data| > 4 && !d.UsesDict(data, false) && !d.UsesRd(data, false) && d.scheme != Some(Alp)
    requires |Distinct(data)| > 1
    ensures InnerRun(ar, data, false, m, d.useRepeat, inner, m', d'.useRepeat)
    ensures size == Improved(ar.kind, data, s, false, |inner|)
    ensures d'.scheme == Some(BestScheme(ar.kind, data, s, |inner|))
  {
    assert ChunkRunOf(ar, data, false, m, d, s, inner, size, m', d');
  }

  // With nothing to follow no chunk takes more than its dictionary block would.
  lemma NeverAboveDict(ar: Arith, data: seq<nat>, m: Memo, d: Decisions, s: RdScheme, inner: seq<byte>, size: int,
                       m': Memo, d': Decisions)
    requires ChunkRun(ar, data, false, m, d, s, inner, size, m', d')
    requires |data| > 4 && d.scheme != Some(Alp) && !d.UsesRd(data, false) && |Distinct(data)| <= MAX_DICT_ENTRIES
    ensures size <= DictSize(ar.kind, data)
  {
    assert ChunkRunOf(ar, data, false, m, d, s, inner, size, m', d');
    ImprovedLeast(ar.kind, data, s, |inner|);
  }

  lemma InnerPlain(ar: Arith, data: seq<nat>, forceDelta: bool, m: Memo, frame: seq<byte>, m': Memo, useRepeat': Option<bool>)
    requires NeighboursDiffer(data)
    ensures InnerRun(ar, data, forceDelta, m, None, frame, m', useRepeat') ==>
      EngineRun(ar, data, forceDelta, m, frame, m') && useRepeat' == Some(false)
  {
    if InnerRun(ar, data, forceDelta, m, None, frame, m', useRepeat') {
      NoMatches(data, SampleStep(|data|), SAMPLE_PAIRS);
      assert InnerRunOf(ar, data, forceDelta, m, None, frame, m', useRepeat');
    }
  }

  lemma RawPayload(ar: Arith, slice: seq<nat>, m: Memo, forceDelta: bool, plain: seq<byte>, aside: Memo)
    requires ar.Valid() && AllBits(ar.kind, slice) && 0 < |slice| < COUNT_LIMIT && Unencodable(ar, slice)
    requires EngineRun(ar, slice, forceDelta, m, plain, aside)
    ensures Parses(plain) && ReadHeader(plain).value.params.None? && |PayloadOf(plain)| == |slice| * ar.kind.Size()
    ensures |plain| == RawSize(ar.kind, |slice|)
  {
    RunIsRaw(ar, slice, forceDelta, m, plain, aside);
  }

  lemma RawRest(ar: Arith, data: seq<nat>)
    requires AllBits(ar.kind, data) && 0 < |data| < COUNT_LIMIT && Unencodable(ar, data)
    ensures var nr := RepeatlessOf(data);
      AllBits(ar.kind, nr) && 0 < |nr| < COUNT_LIMIT && Unencodable(ar, nr)
  {
    NonRepeatsBits(ar.kind, data, |data|);
    SomeNonRepeat(data);
    UnencodableRest(ar, data);
  }

  lemma RawContest(ar: Arith, data: seq<nat>, forceDelta: bool, m: Memo, normal: seq<byte>, n: Memo, frame: seq<byte>,
                   m': Memo, useRepeat': Option<bool>)
    requires ar.Valid() && AllBits(ar.kind, data) && 0 < |data| < COUNT_LIMIT && Unencodable(ar, data)
    requires |normal| == RawSize(ar.kind, |data|)
    requires Contest(ar, data, forceDelta, m, normal, n, frame, m', useRepeat')
    ensures var saves := Saves(ar.kind, |data|, |RepeatlessOf(data)|);
      && useRepeat' == Some(saves)
      && |frame| == (if saves then RawRepeatSize(ar.kind, |data|, |RepeatlessOf(data)|) else RawSize(ar.kind, |data|))
  {
    if |normal| > BitmapLen(|data|) + HeaderLen(|data|) + 32 {
      var plain, aside :| Contested(ar, data, forceDelta, m, normal, n, plain, aside, frame, m', useRepeat');
      RawRest(ar, data);
      RawPayload(ar, RepeatlessOf(data), Memo(m.params, Uninit, None), forceDelta, plain, aside);
      RepeatFrameSize(data, ReadHeader(plain).value, PayloadOf(plain));
    }
  }

  // Floats that no parameters encode: raw, or a repeat block of raw floats.
  lemma InnerRaw(ar: Arith, data: seq<nat>, forceDelta: bool, m: Memo, frame: seq<byte>, m': Memo, useRepeat': Option<bool>)
    requires ar.Valid() && AllBits(ar.kind, data) && 0 < |data| < COUNT_LIMIT && Unencodable(ar, data)
    requires InnerRunOf(ar, data, forceDelta, m, None, frame, m', useRepeat')
    ensures |frame| == RawOrRepeat(ar.kind, data) && useRepeat' == Some(Adopts(ar.kind, data))
  {
    if !WorthTrying(data) {
      RawPayload(ar, data, m, forceDelta, frame, m');
    } else {
      var normal, n :| EngineRun(ar, data, forceDelta, m, normal, n)
        && Contest(ar, data, forceDelta, m, normal, n, frame, m', useRepeat');
      RawPayload(ar, data, m, forceDelta, normal, n);
      RawContest(ar, data, forceDelta, m, normal, n, frame, m', useRepeat');
    }
  }

  // A new encoder on such floats.
  lemma RawChunks(ar: Arith, data: seq<nat>, m: Memo, s: RdScheme, inner: seq<byte>, size: int, m': Memo, d': Decisions)
    requires ar.Valid() && AllBits(ar.kind, data) && 4 < |data| < COUNT_LIMIT && Unencodable(ar, data)
    requires |Distinct(data)| > 1
    ensures ChunkRun(ar, data, false, m, NothingKept, s, inner, size, m', d') ==> RawChunk(ar.kind, data, s, size, d')
  {
    if ChunkRun(ar, data, false, m, NothingKept, s, inner, size, m', d') {
      assert ChunkRunOf(ar, data, false, m, NothingKept, s, inner, size, m', d');
      assert InnerRunOf(ar, data, false, m, None, inner, m', d'.useRepeat);
      InnerRaw(ar, data, false, m, inner, m', d'.useRepeat);
    }
  }

  // A new encoder on bulky floats: the engine's block stays.
  lemma BulkyChunk(ar: Arith, data: seq<nat>, m: Memo, s: RdScheme, inner: seq<byte>, size: int, m': Memo, d': Decisions)
    requires Bulky(data)
    ensures ChunkRun(ar, data, false, m, NothingKept, s, inner, size, m', d') ==>
      EngineRun(ar, data, false, m, inner, m') && size == |inner|
  {
    if ChunkRun(ar, data, false, m, NothingKept, s, inner, size, m', d') {
      assert ChunkRunOf(ar, data, false, m, NothingKept, s, inner, size, m', d');
      InnerPlain(ar, data, false, m, inner, m', d'.useRepeat);
    }
  }

  // One float that one integer stands for leaves its parameters and nothing else.
  lemma OneBaseChunk(ar: Arith, data: seq<nat>, forceDelta: bool, m: Memo, d: Decisions, s: RdScheme, inner: seq<byte>,
                     size: int, m': Memo, d': Decisions)
    requires ar.Valid() && KernelFaithful(ar) && AllBits(ar.kind, data) && |data| <= 4 && OneBase(ar, data)
    ensures ChunkRun(ar, data, forceDelta, m, d, s, inner, size, m', d') ==>
      d' == d && m' == m.(params := Some(BestParams(0, 0, false)))
  {
    if ChunkRun(ar, data, forceDelta, m, d, s, inner, size, m', d') {
      assert ChunkRunOf(ar, data, forceDelta, m, d, s, inner, size, m', d');
      RunForeseen(ar, data, forceDelta, m, inner, m');
    }
  }

  // A new encoder on one float repeated keeps it as a dictionary.
  lemma SingleKept(ar: Arith, data: seq<nat>, m: Memo, s: RdScheme, inner: seq<byte>, size: int, m': Memo, d': Decisions)
    requires |data| > 4 && |Distinct(data)| <= 1
    ensures ChunkRun(ar, data, false, m, NothingKept, s, inner, size, m', d') ==> d'.scheme == Some(Dict)
  {
    if ChunkRun(ar, data, false, m, NothingKept, s, inner, size, m', d') {
      assert ChunkRunOf(ar, data, false, m, NothingKept, s, inner, size, m', d');
    }
  }
}
