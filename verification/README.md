# Verified models of fastalp and wedb_embed

Two parts of the repository are modelled and proved in Dafny 4.11.

**fastalp**, the lossless float codec. An encoder turns floats into integers, sets aside
those that do not come back as exceptions, prunes outliers, backfills exception slots,
chooses between offsets and differences, packs bits with a kernel per width, and falls
back to raw, dictionary, real-doubles or repeat blocks. A decoder reverses all of it.
The main results:

- `Engine.CompressIntoEngine` and `Encoder.Encoder.CompressChunk`: for every input, cache
  state and mode the bytes appended decompress to the input bit for bit, with the one
  exception below, and are with all that is kept the ones that a plan without the steps says
  (`Plan.EngineRun`, `Encoder.ChunkRun`); `Encoder.EncodeRun` carries this over whole runs.
- `Decoder.DecompressInto`: the imperative decoder, with its word-wise unpacking, eight-way
  sum tree, blockwise joining and in-place patching, computes the reference `Decompress`.
- `BitPack.PackChunk8`, `Packers.*`, `Unpacking.BitUnpack`: all width-specialised kernels,
  with stores that overlap and repair each other, refine one little-endian bit stream.

**wedb_embed**, key space, catalog and version clock. Ordered varints, scoped keys, removal
of whole databases and namespaces, catalog iterators, id counters, the expiry cursor, the
lock-free version generator and the glob matcher.

## Layout

| files | contents |
|---|---|
| Words, Buffers, BitPack, RawWords, Packers, Unpacking | machine words, the byte vector, all packing and unpacking kernels |
| Floats, Params, Header, Exceptions, Blocks, Decoding, Lossless | block formats, the decoder as functions, when a frame is lossless |
| Kernel, Deltas, Prune, Sampler, Plan, Engine | the encoding engine, and in Plan what it is to write and keep |
| Dictionary, RealDoubles, Repeats, Encoder, Overruns | the other block kinds, the stateful encoder, and chunks on which it does less than it promises |
| Expander, Decoder, Truncation | the decoder as it runs, and on blocks cut short |
| Bytes, Varint, Keys, Composers | byte order, varints, physical keys and the builders that write them |
| Store, Catalog, Counters, Sweep, Version, Glob | partitions and removals, catalog and iterators, concurrent counters, sweep, clock, glob |

`dafny verify dfyconfig.toml` checks everything.

## Assumptions

- Float arithmetic is not computed. `Params.Arith` carries rounding, scaling and the tests
  for impossible floats as arbitrary functions on bit patterns; a valid one returns values
  of the right size. Integer products are computed with the width of each call site.
- The f32 kernel multiplies in 32 bits where the decoder multiplies in 64. Losslessness
  asks for `Params.KernelFaithful`: what the kernel accepts the decoder restores.
  `Params.KernelFaithfulIff` shows that f64 always meets it and says exactly when f32 does.
- The unpack kernels may load past their source, which is why it is followed by arbitrary
  bytes in the model: the first group of widths 33 to 63, and a single value at the start of
  a source shorter than the load. `Unpacking.StaysInside` says exactly when no load does;
  otherwise the 16 bytes behind the source are proved not to matter.
- Slices have fewer than 2^32 elements, the limit of the header's count.
- The two partitions are finite maps with ordered scans over a snapshot; a batch commits
  at once.

## Where the code does less than it promises

- A real-doubles scheme kept from an earlier chunk is applied to chunks of any length, and
  exception positions and their number are cut to 16 bits. `RealDoubles.RdLosslessIff` gives
  the exact condition for a lossless block and `Overruns.CachedRdLoses` a chunk that is
  lost; the search for a scheme (at most 65535 elements) always meets the condition.
- `max_compressed_size` is not a bound for an encoder with kept decisions: a kept dictionary,
  real-doubles scheme or repeat decision is followed whatever it costs.
  `Encoder.Encoder.CompressChunk` says exactly when the bound holds, `Encoder.KeptWithinIff`
  in numbers known before the call; `Overruns.CachedDictExceeds`, `Overruns.CachedRdExceeds`
  and `Overruns.CachedRepeatExceeds` are chunks that exceed it.
- The search for a pruning width counts in 16 bits. `Prune.CountExactIff` says when its counts
  are right; in `Overruns.PruningSpoils` it makes a block five times as large.
- `expand_repeats` reads one element past the non-repeats when the bitmap's first bit is
  set (`Expander.ReadsStoredIff`). The encoder never sets it; the model shows 0 there.
- `bitpack_u64` cuts values to the width, except at width 52, where the bits over the width
  of every first value of a pair go into the second. `RawWords.PairsLosslessIff` says exactly
  for which words this is harmless; values that fit always are, `Packers.PackSpilling` is not.
- A block of offsets or differences cut right in front of its exception table decodes without an
  error to values that are not patched; every other cut is an error (`Truncation.StandardCut`).
- A removal does not take the counters' lock: an id read before it is handed out after it
  (`Counters.RacingReset`). Opens by number do not move a counter, so an allocated database can
  be one that is open (`Catalog.AllocatedMayBeOpen`).
- Counters and version clock start over behind u64::MAX (`Counters.ExhaustedWraps`,
  `Version.GreatestWraps`).
- `decode_oppv_u64` takes codes longer than needed (`Varint.CanonicalIff`).

## Model

| member | source | states |
|---|---|---|
| `Words.UnpackPacked` | fastalp/src/bitpack/pack.rs:22-116 | Reading w bits at bit offset i*w of the packed bytes gives every value below 2^w back, for every width and length |
| `Words.PackedConcat` | fastalp/src/bitpack/pack.rs:354-366 | Chunks of eight values fill whole bytes: packing two parts one after the other is packing them together |
| `Words.OrShifted` | fastalp/src/bitpack/pack.rs:404-421 | Or-ing a shifted value above bits that are already set, on a word of n bits, is addition cut at n bits |
| `Words.AppendBits` | fastalp/src/bitpack/pack.rs:691-714 | A value appended in the middle of a byte: the bytes before stay, the overhang and the shifted value make up the rest |
| `Words.AndMask` | fastalp/src/params.rs:40-46 | Masking with (1 << w) - 1 keeps exactly the low w bits |
| `Buffers.ByteVec.ExtendFromSlice` | fastalp/src/encoder/exception.rs:34-59 | Appending leaves the bytes in use and adds the new ones behind them, reallocating or not |
| `Buffers.Store` | fastalp/src/bitpack/pack.rs:691-714 | An unaligned store of n bytes writes the low n bytes of the word and nothing around them |
| `BitPack.PackOneWord` | fastalp/src/bitpack/pack.rs:541-628 | Eight values or-ed into one word (widths up to 8) leave the little-endian stream's first w bytes |
| `BitPack.PackSubByte` | fastalp/src/bitpack/pack.rs:545-584 | Widths 1, 2 and 4: masked groups per byte give the same stream |
| `BitPack.PackLowHigh` | fastalp/src/bitpack/pack.rs:629-678 | Widths 9, 11, 13, 15: two half words spliced into one word and its overflow give the same stream |
| `BitPack.PackOverlap` | fastalp/src/bitpack/pack.rs:637-690 | Even widths from 10: the second store overwrites the bytes the first one spoiled, and the stream is right |
| `BitPack.PackPairs` | fastalp/src/bitpack/pack.rs:305-345 | Widths 20, 28, 32: stores of pairs give the same stream |
| `BitPack.PackThreeWords` | fastalp/src/bitpack/pack.rs:316-324 | Width 24: three words give the same stream |
| `BitPack.WriteShifted` | fastalp/src/bitpack/pack.rs:691-714 | A value at any bit offset, or-ed with the byte it shares and spilling into a ninth byte, extends the number already stored |
| `BitPack.Pack17To32` | fastalp/src/bitpack/pack.rs:717-735 | Widths 17 to 31: four shifted pairs give the stream |
| `BitPack.Pack33To48` | fastalp/src/bitpack/pack.rs:738-759 | Widths 33 to 48: eight shifted values give the stream |
| `BitPack.PackChunk8` | fastalp/src/bitpack/pack.rs:301-351 | Every width from 1 to 48: eight values become exactly the first w bytes of the stream; what is spoiled behind them is at most eight bytes |
| `BitPack.PushBits` | fastalp/src/bitpack/pack.rs:404-421 | One value into the accumulator: written bytes and pending bits together stay the stream so far |
| `BitPack.FlushBits` | fastalp/src/bitpack/pack.rs:426-435 | The pending bits are written byte by byte and complete the stream |
| `BitPack.PackStream` | fastalp/src/bitpack/pack.rs:514-536 | The accumulator packs any list of values below 2^w to the stream |
| `BitPack.PackChunks` | fastalp/src/bitpack/pack.rs:354-401 | Chunks of eight and the rest behind them, with overlapping stores, give the stream of all values |
| `RawWords.PackWords` | fastalp/src/bitpack/pack.rs:59-67 | Widths 56 and 64 as overlapping whole words, given any words, store the stream of their low bits: what goes over the width is overwritten or cut off |
| `RawWords.PackPairs` | fastalp/src/bitpack/pack.rs:69-87 | Width 52 in pairs of 13 bytes, given any words: the second of a pair is stored or-ed with the bits of the first that go over the width |
| `RawWords.PairSpill` | fastalp/src/bitpack/pack.rs:74-76 | The two words of a pair are those of the cut first value and the second one or-ed with what went over |
| `RawWords.PairsLosslessIff` | fastalp/src/bitpack/pack.rs:69-87 | Reading the pairs back gives the low 52 bits of every word if and only if or-ing each first word's high bits into the second changes nothing |
| `RawWords.FittingNeverSpill` | fastalp/src/bitpack/pack.rs:69-87 | Values below 2^52 never spill |
| `RawWords.SpillExample` | fastalp/src/bitpack/pack.rs:69-87 | 2^w and 0 at width w: the low bits are 0 and 0, what is read back is 0 and 1 |
| `Packers.BitpackU64` | fastalp/src/bitpack/pack.rs:22-116 | For any words appends the stream of their low w bits, except at width 52, where exactly the spilled pairs are appended; for values that fit it is always their stream |
| `Packers.PackSpilling` | fastalp/src/bitpack/pack.rs:22-116 | Packing 2^52 and 0 at width 52 appends bytes that read back as 0 and 1 |
| `Packers.BitpackEncoded` | fastalp/src/bitpack/pack.rs:120-222 | Appends the stream of the offsets from the base |
| `Packers.BitpackFusedDelta` | fastalp/src/bitpack/pack.rs:225-296 | Appends the stream of the differences' offsets from the least difference |
| `Packers.MaskAllIsLow` | fastalp/src/bitpack/pack.rs:440-442 | The masked values are the low w bits of each, so they fit the width |
| `Unpacking.FieldInWord` | fastalp/src/bitpack/unpack/kernel.rs:272-368 | A field at any bit offset lies in every loaded word around it, whatever else the word holds |
| `Unpacking.CutIsValue` | fastalp/src/bitpack/unpack/kernel.rs:436-513 | Load, shift and mask give value i, independently of the bytes behind the source |
| `Unpacking.TailValue` | fastalp/src/bitpack/unpack/kernel.rs:350-368 | A load that starts no later than the last place where it fits, or at the start, is made in one piece, any other is padded with zeros: both give value i; only at the start of a source shorter than the load is the source passed |
| `Unpacking.GroupLe16` | fastalp/src/bitpack/unpack/kernel.rs:272-350 | One 16-byte load cut into two 64-bit halves gives a group of eight values |
| `Unpacking.Group17To32` | fastalp/src/bitpack/unpack/kernel.rs:373-413 | Two overlapping 16-byte loads give a group of eight values |
| `Unpacking.Group33To63` | fastalp/src/bitpack/unpack/kernel.rs:436-495 | One load a value gives a group of eight, and says exactly when a load goes past the source |
| `Unpacking.UnpackSubByte` | fastalp/src/bitpack/unpack/kernel.rs:15-158 | Widths 1, 2, 4 give back the reference reading |
| `Unpacking.UnpackWhole` | fastalp/src/bitpack/unpack/kernel.rs:161-269 | Widths 8, 16, 32, 64 give back the reference reading |
| `Unpacking.UnpackGroups` | fastalp/src/bitpack/unpack/kernel.rs:272-513 | Groups while the guard allows and single values behind them give the reference reading; a load goes past the source if and only if the source is shorter than one load (widths up to 31, or fewer than eight values) or than the last load of the first group |
| `Unpacking.BitUnpack` | fastalp/src/bitpack/unpack/mod.rs:25-53 | For every width 0 to 64 and every length the kernels together compute the reference reading, whatever lies behind the source; all loads stay inside it exactly when `StaysInside` says so, and then nothing needs to lie behind it |
| `Floats.OffsetRoundTrip` | fastalp/src/float/f32.rs:179-186 | Adding an offset back to its base restores the integer, for every wrap-around |
| `Floats.DeltaRoundTrip` | fastalp/src/float/f32.rs:194-201 | Adding a difference back restores the integer, for every wrap-around |
| `Floats.BitsNeededIff` | fastalp/src/params.rs:33-35 | The width is at most w exactly when the value is below 2^w |
| `Floats.OffsetInRange` | fastalp/src/encoder/engine.rs:242-249 | Every integer between minimum and maximum has an offset no larger than the wrapped range |
| `Params.KernelFaithfulIff` | fastalp/src/encoder/kernel.rs:184-355 | What the kernel accepts is what the decoder restores: always for f64, and for f32 exactly when no product that wrapped in 32 bits is accepted without decoding to the same float |
| `Params.FaithfulUnlessWrapped` | fastalp/src/encoder/kernel.rs:143-179 | Outside wrapped 32-bit products, acceptance in the kernel means the decoder restores the float |
| `Params.TryEncodeFastDecodes` | fastalp/src/float/f32.rs:71-92 | A sample that try_encode_fast accepts is restored by the decoder |
| `Params.ParamsRoundTrip` | fastalp/src/params.rs:14-28 | Valid parameters survive being packed in two bytes |
| `Header.HeaderRoundTrip` | fastalp/src/header.rs:141-272 | Every header written, for every type, flag, count below 2^32 and parameters, parses back with its exact length, whatever follows |
| `Header.ReadCountAgrees` | fastalp/src/header.rs:175-227 | The quick count is the full parse's count, and fails with the same error |
| `Header.CountBytesIff` | fastalp/src/header.rs:109-122 | The count field has as few of one, two and four bytes as hold the count, and none exactly for 1024 |
| `Exceptions.WriteExceptions` | fastalp/src/encoder/exception.rs:34-59 | Appends the table: a count and one entry each, in the position width the block's length asks for, nothing without exceptions |
| `Exceptions.TableSize` | fastalp/src/encoder/exception.rs:21-31 | The predicted size is the table's length |
| `Exceptions.LargeIff` | fastalp/src/encoder/exception.rs:21-59 | Short positions and counts are used exactly when all of the block fit them |
| `Exceptions.TableRoundTrip` | fastalp/src/decoder/mod.rs:649-728 | Reading a written table back patches exactly its entries |
| `Exceptions.PatchRestores` | fastalp/src/decoder/mod.rs:700-725 | Values that are right outside the exceptions become the slice when patched |
| `Blocks.PrefixRoundTrip` | fastalp/src/decoder/delta.rs:64-102 | Prefix sums of the unpacked offsets plus the least difference restore every integer, wrapped differences included |
| `Blocks.StandardRoundTrip` | fastalp/src/decoder/standard.rs:16-57 | A frame-of-reference payload decodes to the slice its integers and exceptions stand for |
| `Blocks.DeltaRoundTripBlock` | fastalp/src/decoder/delta.rs:15-61 | A delta payload decodes to the slice its integers and exceptions stand for |
| `Blocks.EncodeStandard` | fastalp/src/encoder/standard.rs:15-43 | Appends header, base, packed offsets and exception table, in this order and nothing else |
| `Blocks.EncodeDelta` | fastalp/src/encoder/delta.rs:15-52 | Appends header, first value, least difference, packed differences and exceptions; nothing for an empty slice |
| `Blocks.WriteRawFallback` | fastalp/src/encoder/engine.rs:76-85 | Appends the raw block |
| `Deltas.ScanFour` | fastalp/src/delta/mod.rs:7-35 | The 4-way unrolled scan computes the same least and greatest difference as one step at a time |
| `Deltas.DeltaRange` | fastalp/src/delta/mod.rs:38-47 | The least difference, which occurs, and the width that is at most v exactly when no two differences are 2^v or more apart |
| `Deltas.DeltasAttained` | fastalp/src/delta/mod.rs:7-47 | Least and greatest difference are differences that occur |
| `Deltas.DeltaWidthIff` | fastalp/src/delta/mod.rs:38-47 | The width is at most v if and only if no two differences are 2^v or more apart |
| `Deltas.EvalDeltaBenefit` | fastalp/src/delta/mod.rs:50-84 | With its 16-sample early exit it answers exactly what the full scan answers: something precisely when no two differences are 2^(w-1) or more apart for the given width w, and then the least difference, which occurs, and the least width |
| `Deltas.EarlyExitSound` | fastalp/src/delta/mod.rs:60-72 | Differences of a prefix never need more bits than those of the whole |
| `Deltas.DeltaOffsetsFit` | fastalp/src/encoder/engine.rs:335-346 | Every difference's offset from the least one fits the delta width |
| `Kernel.EncodeSlice` | fastalp/src/encoder/kernel.rs:116-179 | Stored integers are the encodings, 0 in exception slots; the exceptions are exactly the floats that are not accepted, in increasing order with their bits; minimum and maximum bound the others and are attained; more than 128 exceptions exactly when that many floats are rejected |
| `Kernel.Rescan` | fastalp/src/encoder/kernel.rs:143-179 | The second pass leaves the same: exceptions recorded for exactly the floats not accepted, their slots zeroed, extremes attained |
| `Kernel.RejectedExact` | fastalp/src/encoder/kernel.rs:143-179 | The list of rejected floats is sorted, holds their bits, and names a position if and only if its float is not accepted |
| `Prune.OutliersExact` | fastalp/src/encoder/engine.rs:113-140 | The outliers are exactly the integers whose offset exceeds the target width |
| `Prune.ApplyTargetBw` | fastalp/src/encoder/engine.rs:113-140 | Afterwards every offset fits the target width, every pruned float is an exception with its own bits, positions strictly increase, and the others still decode |
| `Prune.SortDedupKeeps` | fastalp/src/encoder/engine.rs:130-139 | Sorting and de-duplicating by position keeps every position and sorts strictly |
| `Prune.Histogram` | fastalp/src/encoder/outlier.rs:61-74 | Counts how many offsets need exactly how many bits, modulo 65536 |
| `Prune.CountExactIff` | fastalp/src/encoder/outlier.rs:61-74 | The count read off the histogram is never above the number of outliers of a width, and equal to it if and only if no larger width is needed by 65536 or more offsets |
| `Prune.FindPruneWidth` | fastalp/src/encoder/outlier.rs:26-95 | The width is the cheapest candidate for the counts the search sees, or the old one |
| `Prune.WidestBelow` | fastalp/src/encoder/outlier.rs:26-60 | The first candidate tried is the widest below the current width |
| `Prune.BestCandidate` | fastalp/src/encoder/outlier.rs:76-95 | The width chosen is the cheapest one within the exception budget |
| `Prune.TryPruneOutliers` | fastalp/src/encoder/outlier.rs:17-125 | Prunes to the cheapest width for the counts seen; every wider offset becomes an exception and the rest fits; the block gets strictly cheaper when no counter behind the chosen width overflowed, whatever its length |
| `Prune.CrowdAnswer` | fastalp/src/encoder/outlier.rs:61-95 | Of 0, 2048 and 65536 integers of seven bits the 65536 are counted as none: whatever the search answers is width 0, at which 65537 floats are exceptions; more than 700000 bytes instead of fewer than 100000 |
| `Overruns.PruningSpoils` | fastalp/src/encoder/outlier.rs:17-125 | A new encoder stores one float and then the floats of those integers: they restore, in exactly the 524309 bytes of a raw block, where a block of twelve bits a float that restores them has fewer than 100100 |
| `Overruns.CrowdUnpruned` | fastalp/src/encoder/standard.rs:15-43 | That block restores the same floats |
| `Overruns.ExactArith` | fastalp/src/float/f64.rs:113-170 | An arithmetic in which the integers up to 2048 become floats and come back, as that run asks for, exists |
| `Lossless.StandardFrameRestores` | fastalp/src/encoder/standard.rs:15-43 | A frame-of-reference frame decompresses to its slice and has the predicted length |
| `Lossless.DeltaFrameRestores` | fastalp/src/encoder/delta.rs:15-52 | A delta frame decompresses to its slice and has the predicted length |
| `Lossless.RawFrameRestores` | fastalp/src/encoder/engine.rs:76-85 | A raw frame decompresses to its slice, whatever the bit patterns |
| `Lossless.EmptyFrameRestores` | fastalp/src/encoder/engine.rs:155-161 | The empty frame decompresses to nothing |
| `Engine.WidthFits` | fastalp/src/encoder/engine.rs:242-249 | Base and width taken from minimum and maximum fit every integer that is no exception |
| `Engine.PrePrune` | fastalp/src/encoder/engine.rs:252-279 | Pruning before the delta decision keeps the integers standing for the slice and only narrows the width; what becomes of integers, width, exceptions and the decision for later blocks is said exactly, up to which answer of the search is taken |
| `Engine.Backfill` | fastalp/src/encoder/engine.rs:281-298 | Every exception slot takes the value before it, the first one the base, and nothing else changes; every offset, exceptions included, then fits the width |
| `Engine.DeltaDecision` | fastalp/src/encoder/engine.rs:305-333 | A delta width is offered exactly when forced, decided by an earlier block, or narrower than offsets of at least four bits, and it is the width of all differences |
| `Engine.ChooseKind` | fastalp/src/encoder/engine.rs:300-350 | Differences are stored exactly when they are offered and forced or smaller; only an unforced block without an earlier decision leaves one |
| `Engine.WriteBlock` | fastalp/src/encoder/engine.rs:390-411 | The block takes the smaller of its predicted and the raw size; raw exactly when the prediction is not smaller |
| `Engine.LowPrune` | fastalp/src/encoder/engine.rs:352-388 | The same for narrow blocks: exactly one chance to prune, everything stays packable and restorable |
| `Engine.TryIdentical` | fastalp/src/encoder/engine.rs:163-180 | A block of one base is written if and only if all floats are the same and some exponent restores them, with the least such exponent, and decompresses to them |
| `Engine.WriteStandardBlock` | fastalp/src/encoder/engine.rs:399-410 | The bytes appended are the predicted total |
| `Engine.WriteDeltaBlock` | fastalp/src/encoder/engine.rs:399-410 | The bytes appended are the predicted total |
| `Engine.CompressIntoEngine` | fastalp/src/encoder/engine.rs:145-411 | For every slice below 2^32 elements, every cache state, cached parameters and force flag: the bytes appended form one frame that decompresses to the slice, raw or smaller than raw (a single float may take two bytes more), and raw when no parameters encode any float; they are the frame, and the memory is the one, that `Plan.EngineRun` says: one base, raw, or the smallest of offsets, differences and raw for the integers of the parameters used |
| `Engine.PickParams` | fastalp/src/encoder/engine.rs:182-187 | Kept parameters if and only if the first floats decode with them, otherwise those of an answer of the search over the active samples, the default only without any |
| `Engine.EncodeWithSalvage` | fastalp/src/encoder/engine.rs:210-230 | When there were kept parameters and too many floats are rejected, those of a sample are used; too many exceptions are left exactly when the parameters used reject too many |
| `Engine.KeepsUsed` | fastalp/src/encoder/engine.rs:182-230 | A block that leaves parameters was encoded with them: without kept parameters they are those of a sample |
| `Engine.SizeOfRun` | fastalp/src/encoder/engine.rs:390-411 | A block has the smaller of its planned and the raw size for the parameters used, and is raw only when they reject too many floats or the planned size is not smaller |
| `Engine.DecideInts` | fastalp/src/encoder/engine.rs:235-388 | Pruning, filling, the choice of offsets or differences and the last pruning happen exactly under their conditions and in this order |
| `Engine.RunIsRaw` | fastalp/src/encoder/engine.rs:232-239 | Floats that no parameters encode are stored as the raw block |
| `Engine.RunForeseen` | fastalp/src/encoder/engine.rs:352-411 | For narrow blocks with parameters kept the size follows from what the search for a pruning width answers; one base leaves its parameters and nothing else |
| `Engine.WidthLeast` | fastalp/src/encoder/engine.rs:242-249 | The width is the least that holds the offsets of all accepted floats |
| `Engine.BlockWithinMax` | fastalp/src/lib.rs:44-52 | Every such frame is within max_compressed_size |
| `Sampler.Consider` | fastalp/src/sampler.rs:144-168 | An accepted candidate's recorded cost is its exact cost over all samples and strictly below the best before it |
| `Sampler.TryExponent` | fastalp/src/sampler.rs:105-221 | After an exponent is tried, every candidate it dropped early costs at least the best cost |
| `Sampler.FindBest` | fastalp/src/sampler.rs:64-313 | The result's recorded cost is exact, and unless the search stopped at a good enough candidate no exponent is cheaper, and no factor either when some sample is decimal and the best exponent is not cheap already |
| `Sampler.FindBestParams` | fastalp/src/sampler.rs:64-313 | The parameters are valid and those of such a result |
| `Sampler.ActiveAreFirst` | fastalp/src/sampler.rs:73-92 | The samples searched are the first 32 floats that are not impossible, in order and none left out |
| `Sampler.SearchAndKernelAgree` | fastalp/src/sampler.rs:105-168 | What the search can encode the kernel accepts as the same integer and, of floats that are not impossible, nothing else, unless a 32-bit product wraps |
| `Sampler.FindIdenticalBase` | fastalp/src/sampler.rs:53-60 | The exponent and base found restore the float; nothing is found exactly when no exponent does |
| `Dictionary.Lookup` | fastalp/src/encoder/dict.rs:59-91 | Linear probing terminates and finds the key's index, or that it is absent and where it belongs |
| `Dictionary.ScanDict` | fastalp/src/encoder/dict.rs:42-104 | One pass with the hash table gives the distinct floats in order of appearance and every element's index; nothing exactly for an empty slice or more than 64 distinct floats |
| `Dictionary.DistinctExact` | fastalp/src/encoder/dict.rs:42-104 | The table's entries are pairwise distinct and are exactly the floats of the slice |
| `Dictionary.DistinctCounts` | fastalp/src/encoder/dict.rs:42-104 | The table has as many entries as the slice has different floats |
| `Dictionary.IndexWidthFits` | fastalp/src/encoder/dict.rs:93-97 | Every index fits the index width, which is at most six bits |
| `Dictionary.IndexWidthIff` | fastalp/src/encoder/dict.rs:93-97 | The index width is the least that holds every index of the table |
| `Dictionary.WriteDictChunk` | fastalp/src/encoder/dict.rs:109-126 | Appends the dictionary frame |
| `Dictionary.DictFrameRestores` | fastalp/src/decoder/mod.rs:204-276 | A dictionary frame decompresses to its slice and has the predicted size |
| `RealDoubles.EncodeRdFast` | fastalp/src/encoder/rd.rs:166-277 | Low parts, indices and exceptions of every float; index slots of exceptions keep what was in them, positions are cut to 16 bits |
| `RealDoubles.WriteRdChunk` | fastalp/src/encoder/rd.rs:282-312 | Appends the real-doubles frame |
| `RealDoubles.RdFrameSize` | fastalp/src/encoder/rd.rs:258-268 | The candidate's predicted size is the frame's length |
| `RealDoubles.JoinRestores` | fastalp/src/decoder/mod.rs:396-439 | A float is put together again from its two parts |
| `RealDoubles.LeftWidthIff` | fastalp/src/encoder/rd.rs:181-188 | The same for the table of high parts |
| `RealDoubles.RdDecodes` | fastalp/src/decoder/mod.rs:286-443 | What any real-doubles block decodes to, whatever its reused index buffer held |
| `RealDoubles.RdLosslessIff` | fastalp/src/encoder/rd.rs:166-277 | A real-doubles block restores its slice for every buffer content if and only if no exception lies behind position 65535 and there are fewer than 65536 of them |
| `RealDoubles.SmallBlocksAddressable` | fastalp/src/encoder/rd.rs:36-39 | Blocks of at most 65535 elements always meet that condition |
| `RealDoubles.LossyExample` | fastalp/src/encoder/state.rs:398-419 | The table [0], zeros, and one float above 48 bits at position 65536 or later: the block does not restore its slice |
| `Repeats.FillRepeatBuffers` | fastalp/src/encoder/state.rs:144-185 | Bit i of the bitmap says whether element i repeats the one before it, and the non-repeats are collected in order, by whole words and single bits |
| `Repeats.ExpandRestores` | fastalp/src/decoder/mod.rs:77-195 | Expanding the bitmap over the non-repeats gives the data back |
| `Repeats.OnesAreRepeats` | fastalp/src/decoder/mod.rs:55-74 | Elements minus set bits is the number of non-repeats |
| `Repeats.PayloadOnly` | fastalp/src/decoder/mod.rs:452-531 | A payload decodes to the same wherever it lies |
| `Repeats.RepeatRestores` | fastalp/src/encoder/state.rs:188-200 | Header fields and payload of a block that restores the non-repeats, with the bitmap, make a frame that restores the data |
| `Expander.CountBitmapOnes` | fastalp/src/decoder/mod.rs:55-74 | Counting by words, bytes and a masked byte gives the bits set among the first count |
| `Expander.ExpandByte` | fastalp/src/decoder/mod.rs:77-105 | A byte expanded at once is eight steps of the recurrence |
| `Expander.ExpandRepeats` | fastalp/src/decoder/mod.rs:116-195 | For every count and bitmap the word, byte and bit expander writes the recurrence and nothing behind it |
| `Expander.ReadsStoredIff` | fastalp/src/decoder/mod.rs:116-195 | The elements shown are exactly the stored non-repeats if and only if the bitmap's first bit is clear |
| `Decoder.PatchExceptionsRaw` | fastalp/src/decoder/mod.rs:649-728 | Patches in place what the reference patches, with the same errors |
| `Decoder.DecodeStandardRaw` | fastalp/src/decoder/standard.rs:16-87 | Writes what the reference decoding of the payload gives, with the same errors |
| `Decoder.DeltaConsumer.Consume8` | fastalp/src/bitpack/unpack/consumer.rs:224-262 | The tree of eight sums gives the integers of eight steps taken one by one |
| `Decoder.TreeSums` | fastalp/src/bitpack/unpack/consumer.rs:224-262 | Wrapping addition is associative, so the tree's sums are the running sums |
| `Decoder.DecodeDeltaRaw` | fastalp/src/decoder/delta.rs:15-102 | Writes what the reference decoding of the payload gives, with the same errors |
| `Decoder.DecodeDictRaw` | fastalp/src/decoder/mod.rs:204-276 | Lookups in the padded table write what the reference decoding gives, with the same errors |
| `Decoder.JoinBlocks` | fastalp/src/decoder/mod.rs:361-423 | Unpacking and joining 1024 elements at a time is unpacking and joining all at once |
| `Decoder.DecodeRdRaw` | fastalp/src/decoder/mod.rs:286-443 | Writes what the reference decoding of the payload gives, with the same errors |
| `Decoder.DecodeDirectRaw` | fastalp/src/decoder/mod.rs:452-531 | Dispatches every type byte as the reference does, with the same errors |
| `Decoder.DecompressIntoRaw` | fastalp/src/decoder/mod.rs:538-603 | Decodes one block of any kind into the destination or fails as the reference does; nothing behind the block's elements changes; a frame that restores a slice gives all of it to every destination that is long enough and the exact error to any other |
| `Lossless.CapacityIff` | fastalp/src/decoder/mod.rs:556-561 | A frame that restores a slice decodes to it if and only if the capacity is at least its length, and otherwise fails with both numbers |
| `Decoder.DecompressInto` | fastalp/src/decoder/mod.rs:615-640 | Decompression computes the function the losslessness results speak of |
| `Truncation.StandardCut` | fastalp/src/decoder/mod.rs:649-700 | A block of offsets cut anywhere fails for want of bytes, except right in front of its exceptions: then it decodes to its values without them |
| `Truncation.DeltaCut` | fastalp/src/decoder/mod.rs:649-700 | The same for a block of differences |
| `Truncation.RawCut` | fastalp/src/decoder/mod.rs:452-531 | A raw block cut anywhere fails for want of bytes |
| `Truncation.DictCut` | fastalp/src/decoder/mod.rs:204-276 | So does a dictionary block |
| `Truncation.RdCut` | fastalp/src/decoder/mod.rs:286-443 | So does a real-doubles block with fewer than 65536 exceptions |
| `Encoder.CountRepeats` | fastalp/src/encoder/state.rs:268-276 | Counts the elements that repeat the one before them |
| `Encoder.Encoder.CompressChunkInner` | fastalp/src/encoder/state.rs:202-358 | Plain or repeat, whatever was cached: the frame appended restores the data and is, with all that is kept, the one the decision leads to: the kept way, the plain block when repeats are rare, or the winner of both blocks |
| `Encoder.Encoder.AdoptRepeat` | fastalp/src/encoder/state.rs:318-357 | The repeat block replaces the plain one only when it is more than 32 bytes smaller, and restores the data |
| `Encoder.Encoder.CompressCached` | fastalp/src/encoder/state.rs:375-446 | A scheme kept from earlier is used, with the exact size of its frame, or forgotten exactly when it does not serve |
| `Encoder.Encoder.CompressFresh` | fastalp/src/encoder/state.rs:448-514 | The smallest of the ways tried stays and restores the data, in terms of the engine's or repeat block's size, and its kind is kept; it is within max_compressed_size unless a kept repeat decision was followed, and then has the stated size |
| `Encoder.Encoder.CompressChunk` | fastalp/src/encoder/state.rs:360-514 | From every encoder state: the frame restores the data, unless a kept real-doubles scheme meets exceptions it cannot address; it is within max_compressed_size if and only if no kept decision is followed or the size known from data and decisions is; its size, in that of the engine's or repeat block, and all that is kept behind it are said exactly |
| `Encoder.BestStays` | fastalp/src/encoder/state.rs:448-514 | With no kept kind to follow the chunk has the improved size of the engine's or repeat block, and the best kind is kept |
| `Encoder.ImprovedLeast` | fastalp/src/encoder/state.rs:462-500 | That size is the least of what is tried: never above the inner block or, with at most 64 different floats, the dictionary block, nor above real doubles when the others take more than four fifths of the floats; the kind kept is the one whose size it is |
| `Encoder.NeverAboveDict` | fastalp/src/encoder/state.rs:448-475 | A chunk of at most 64 different floats never takes more than its dictionary block unless another kind is followed |
| `Encoder.RawChunks` | fastalp/src/encoder/state.rs:202-514 | With nothing kept and floats that no parameters encode, size, kind and decisions left follow from the data alone |
| `Encoder.EncodeRun` | fastalp/src/encoder/state.rs:519-545 | Over every run of chunks of at most 65535 elements, in any mixture of modes, every frame restores its chunk |
| `Encoder.KeptWithinIff` | fastalp/src/encoder/state.rs:360-446 | In numbers known before the call: a kept dictionary keeps the bound if and only if table and indices take at most four bytes less the count field more than the floats, a kept real-doubles scheme if and only if table, indices, low parts and exceptions do, a kept repeat decision if and only if bitmap and the non-repeats' own block do, or, where other kinds are tried too, if and only if one of them does |
| `Encoder.RepeatSizeIs` | fastalp/src/encoder/state.rs:188-200 | A repeat block has the bytes of the non-repeats' own block, the bitmap, and the difference of the count fields |
| `Encoder.ImprovedWithinIff` | fastalp/src/encoder/state.rs:462-500 | Trying dictionary and real doubles ends within the bound if and only if one of the three kinds is |
| `Encoder.Encoder.WorthCounting` | fastalp/src/encoder/state.rs:243-283 | A repeat block is tried if and only if two of sixteen samples and a fifth of the elements repeat |
| `Encoder.RepeatSizeBound` | fastalp/src/encoder/state.rs:188-232 | A repeat block has its raw size if and only if its non-repeats are stored raw, and is smaller otherwise |
| `Encoder.RawRepeatWithinIff` | fastalp/src/encoder/state.rs:208-232 | That size is within the bound if and only if bitmap and count field take at most six bytes more than the repeats save |
| `Overruns.CachedDictExceeds` | fastalp/src/encoder/state.rs:375-397 | A new encoder stores five zeros, then 64 different floats by the kept dictionary decision: both restore, the second takes more than max_compressed_size |
| `Overruns.NaNsByScheme` | fastalp/src/encoder/state.rs:478-500 | 65 different NaNs are too many for a dictionary and smaller as real doubles than raw |
| `Overruns.CachedRdExceeds` | fastalp/src/encoder/state.rs:398-419 | A new encoder stores 65 NaNs as real doubles, then five floats that their scheme's table does not have: more than max_compressed_size |
| `Overruns.RunsAdopted` | fastalp/src/encoder/state.rs:243-357 | 65 NaNs eight times each are stored as a repeat block, whatever real-doubles scheme is found |
| `Overruns.CachedRepeatExceeds` | fastalp/src/encoder/state.rs:208-232 | A new encoder stores those, then 64 NaNs without repeats: restored, and more than max_compressed_size |
| `Overruns.CachedRdLoses` | fastalp/src/encoder/state.rs:398-419 | A new encoder stores 65 NaNs as real doubles, then 65536 NaNs and one number: the frame appended does not restore them |
| `Bytes.PastPrefix` | embed/src/wedb/iter.rs:26-28 | In lexicographic order, behind the first key without a prefix none has it any more |
| `Varint.EncodeOppvSlice` | embed/src/key_composer/oppv.rs:26-55 | Writes the code by shifts and ors, and nothing around it |
| `Varint.DecodeEncode` | embed/src/key_composer/oppv.rs:75-109 | Decoding a code gives its number and length, whatever follows |
| `Varint.CanonicalIff` | embed/src/key_composer/oppv.rs:75-109 | Decoding also takes longer codes: the bytes read are the number's own code if and only if they are as many |
| `Varint.OppvLenIff` | embed/src/key_composer/oppv.rs:9-22 | A code takes at most n bytes, n up to four, if and only if the number has at most 7n bits |
| `Varint.NonCanonicalAccepted` | embed/src/key_composer/oppv.rs:79-84 | A two-byte string decodes to 5, whose code has one byte |
| `Varint.OppvOrderIff` | embed/src/key_composer/oppv.rs:9-55 | Codes are prefix-free, and byte order is number order for all u64, whatever follows |
| `Varint.PairOrderIff` | embed/src/key_composer/ns.rs:38-55 | Two codes in a row compare like the pairs of numbers, behind any prefix and before any tails |
| `Keys.OneScope` | embed/src/key_composer/composer.rs:97-102 | A key starts with the prefix of at most one scope |
| `Keys.NsPrefixIff` | embed/src/key_composer/composer.rs:426-440 | A namespace's prefix is a prefix of exactly the keys of its own scopes |
| `Keys.CatalogOrderIff` | embed/src/key_composer/ns.rs:38-55 | Catalog keys are ordered by namespace, then database |
| `Keys.CatalogPrefixIff` | embed/src/key_composer/ns.rs:18-35 | A namespace's catalog prefix is a prefix of exactly its own entries |
| `Keys.ExtractMeta` | embed/src/key_composer/composer.rs:476-536 | The user key is recovered from every metadata key |
| `Keys.ExtractSub` | embed/src/key_composer/composer.rs:476-536 | The user key is recovered from every subkey |
| `Keys.MetaKeyInjective` | embed/src/key_composer/composer.rs:125-139 | Scope, tag and key can be told from a metadata key |
| `Keys.SubKeyInjective` | embed/src/key_composer/composer.rs:183-216 | Scope, tag, key and subkey can be told from a subkey |
| `Keys.MetaIsSubIff` | embed/src/key_composer/composer.rs:125-216 | A metadata key and a subkey coincide if and only if scope and tag agree and the one's user key is the other's framed key and subkey |
| `Keys.TagsKeepApart` | embed/src/key_composer/composer.rs:476-536 | They never do when only the second has a tag of subkeys |
| `Keys.TransformIff` | embed/src/key_composer/composer.rs:538-558 | A key can be moved exactly when it is a key of the scope, and is then one of the target |
| `Keys.TransformRoundTrip` | embed/src/key_composer/composer.rs:538-558 | Moving a key to another scope and back is the identity |
| `Keys.TransformKeepsUserKey` | embed/src/key_composer/composer.rs:538-558 | A moved key holds the same user key |
| `Keys.ParseScope` | embed/src/key_composer/composer.rs:447-459 | The scope of every composed key is parsed back with what follows |
| `Keys.ParsedScopeIff` | embed/src/key_composer/composer.rs:447-473 | A key that parses to a scope starts with that scope's prefix if and only if the parsed prefix is as long |
| `Composers.SmallKey.Push` | embed/src/key_composer/small_key.rs:49-65 | Appends a byte; the key leaves its inline buffer exactly when 55 bytes are full |
| `Composers.SmallKey.ExtendFromSlice` | embed/src/key_composer/small_key.rs:68-84 | Appends bytes; inline exactly while at most 55 |
| `Composers.SmallKey.Clear` | embed/src/key_composer/small_key.rs:100-105 | Empties the key in the form it has |
| `Composers.ComposeMetaKeyInto` | embed/src/key_composer/composer.rs:125-138 | The default-scope shortcut and the general form write the same metadata key |
| `Composers.ComposeMetaKeyStack` | embed/src/key_composer/composer.rs:141-178 | All stack and heap forms give the same metadata key, inline exactly when it has at most 55 bytes |
| `Composers.ComposePrefixInto` | embed/src/key_composer/composer.rs:183-216 | The default-scope shortcut and the general form write the same framed prefix |
| `Composers.TryComposeStackKey` | embed/src/key_composer/composer.rs:226-300 | All three forms give the framed key and its pieces, inline exactly when they fit |
| `Composers.ComposeSubkeyStack` | embed/src/key_composer/composer.rs:308-310 | Gives the subkey |
| `Composers.ComposeOppvSubkeyStack` | embed/src/key_composer/composer.rs:324-374 | Gives the subkey whose middle part is framed, in either form |
| `Composers.SubkeyComposer.ComposeSub` | embed/src/key_composer/composer.rs:34-38 | Gives prefix and subkey, whatever was composed before |
| `Store.ScanUnique` | embed/src/wedb/core.rs:40-49 | An ordered scan of a set of keys is determined by the set |
| `Store.ClearKsPrefix` | embed/src/wedb/core.rs:31-50 | Queues exactly the keys under the prefix and counts them |
| `Store.DbRm` | embed/src/wedb/core.rs:172-203 | Deletes exactly the database's data and metadata keys and its catalog entry, and returns the number of the keys |
| `Store.NamespaceRm` | embed/src/wedb/core.rs:208-241 | Deletes exactly the namespace's keys, catalog entries and database counter, and returns the number of the keys |
| `Store.DbRemovalIsolates` | embed/src/wedb/core.rs:172-203 | Keys of every other scope, every other catalog entry and all counters are untouched |
| `Store.DbRemovalFrame` | embed/src/wedb/core.rs:172-203 | A key changes in a partition if and only if it is one of the database's own keys or its catalog entry |
| `Store.DbRemovalComplete` | embed/src/wedb/core.rs:172-203 | Nothing of the database is left |
| `Store.NsRemovalIsolates` | embed/src/wedb/core.rs:208-241 | Keys, catalog entries and counters of every other namespace are untouched |
| `Store.NsRemovalComplete` | embed/src/wedb/core.rs:208-241 | Nothing of any of its databases is left |
| `Store.DbRemovalKeepsCounter` | embed/src/wedb/core.rs:208-241 | Removing a database keeps the namespace's counter, removing the namespace does not |
| `Catalog.WeDb.Ns` | embed/src/wedb/core.rs:357-370 | A numbered open changes nothing; a new namespace takes the counter's id, is catalogued with database 0, and only counter and entry change |
| `Catalog.WeDb.Db` | embed/src/wedb/namespace.rs:105-117 | The database is catalogued; only its entry and, when allocated, the counter change; while all catalogued databases lie below the counter an allocated one is new, and they stay below exactly while numbers opened are below it and ids are left |
| `Catalog.WeDb.Advance` | embed/src/wedb/core.rs:115-167 | Hands out the stored id, 1 when there is none, and stores the next |
| `Catalog.WeDb.RmDb` | embed/src/wedb/core.rs:172-203 | The state afterwards is the one with the database removed; the catalog stays well formed |
| `Catalog.WeDb.RmNamespace` | embed/src/wedb/namespace.rs:120-128 | The state afterwards is the one with the namespace removed; the catalog stays well formed |
| `Catalog.AllocateDb` | embed/src/wedb/namespace.rs:105-117 | An allocated database is new if and only if the id the counter holds is not catalogued; it is then the only one added |
| `Catalog.AllocateNs` | embed/src/wedb/core.rs:357-370 | An allocated namespace is new if and only if the one the counter holds has no database |
| `Catalog.OpenKeepsAheadIff` | embed/src/wedb/namespace.rs:105-117 | Opening by number keeps all databases below the counter if and only if the number is below it |
| `Catalog.AllocateKeepsAheadIff` | embed/src/wedb/core.rs:141-167 | Allocating keeps them below if and only if it was not the last id |
| `Catalog.AllocatedMayBeOpen` | embed/src/wedb/namespace.rs:105-117 | Opening database 1, writing to it and allocating gives the same database with what was written |
| `Catalog.NsStartIff` | embed/src/wedb/core.rs:335-352 | The scan's start key lies at or before exactly the entries of namespaces from begin on |
| `Catalog.DbStartIff` | embed/src/wedb/namespace.rs:74-95 | The same for databases of a namespace |
| `Catalog.Namespaces.Next` | embed/src/wedb/iter.rs:21-41 | Gives the catalogued namespaces from begin on, strictly ascending without repeats; None exactly when all were given, and then for ever |
| `Catalog.Dbs.Next` | embed/src/wedb/iter.rs:56-70 | Gives the catalogued databases from begin on, strictly ascending; None exactly when all were given, and then for ever |
| `Counters.StepKeepsInv` | embed/src/wedb/core.rs:115-167 | Every step of every call, and a reset without the lock, keeps the ids consecutive and the stored counter behind the last |
| `Counters.IdsIncrease` | embed/src/wedb/core.rs:115-167 | In every interleaving, from any moment without a call between reading and writing up to the next reset: the ids are the stored one (1 when absent) and those after it, they strictly increase if and only if as many are left below 2^64, and the stored counter decodes to the next |
| `Counters.FirstAfterReset` | embed/src/wedb/core.rs:115-167 | Behind a reset the first id is 1, unless a call was between reading and writing, which then hands out what it had read |
| `Counters.RacingReset` | embed/src/wedb/core.rs:208-241 | Such a run: the counter is removed while a call has read 5, which is handed out afterwards |
| `Counters.AloneHandsOutStored` | embed/src/wedb/core.rs:141-167 | A whole call on its own hands out the stored id, 1 when absent, stores the next and releases the lock |
| `Counters.ExhaustedWraps` | embed/src/wedb/core.rs:126-131 | Behind the greatest id the counter starts over: a run that hands out u64::MAX and then 0 |
| `Version.StepKeepsInv` | embed/src/meta.rs:103-118 | Every step keeps the history and the calls' results consistent, and history is only appended to |
| `Version.SwapIncreasesIff` | embed/src/meta.rs:109-116 | A swap makes the word larger if and only if it was not at u64::MAX |
| `Version.VersionsDistinct` | embed/src/meta.rs:103-118 | In every interleaving with stale loads, spurious failures and any time source, LAST_VERSION strictly increases and all versions are distinct, unless u64::MAX is overwritten |
| `Version.RealTimeOrder` | embed/src/meta.rs:103-118 | A call that finished before another started returned the smaller version |
| `Version.RunIncreasesIff` | embed/src/meta.rs:103-118 | Over a run LAST_VERSION strictly increases if and only if u64::MAX was not overwritten |
| `Version.BoundedCandidatesIncrease` | embed/src/meta.rs:103-118 | It does whenever the greatest candidate and the number of versions stay below 2^64 together |
| `Version.GreatestWraps` | embed/src/meta.rs:109-112 | From 0: a call whose candidate is u64::MAX and one more, which returns 0 |
| `Sweep.SweepKs` | embed/src/wedb/core.rs:53-80 | Visits the first keys behind the cursor, at most limit, in order, and leaves the cursor at the last or wraps |
| `Sweep.CycleCovers` | embed/src/wedb/core.rs:53-80 | From wrap to wrap, whatever positive limit each call has and whatever is inserted and deleted in between: keys are visited in strictly increasing order and every key present at all calls exactly once |
| `Glob.SingleStep` | embed/src/key_composer/slot.rs:113-181 | A token other than star takes exactly one byte of the text |
| `Glob.StarStep` | embed/src/key_composer/slot.rs:98-112 | A star takes nothing, or one byte and goes on |
| `Glob.BrokenNeverMatches` | embed/src/key_composer/slot.rs:133-136 | A class without closing bracket matches nothing, wherever it stands |
| `Glob.ScanClass` | embed/src/key_composer/slot.rs:125-156 | Reads a class with ranges and escapes up to its bracket and says whether the byte is among its items |
| `Glob.MatchStar` | embed/src/key_composer/slot.rs:98-112 | Trying the rest of the pattern at every position decides the star |
| `Glob.MatchesGlobBytes` | embed/src/key_composer/slot.rs:95-185 | Terminates on all inputs and is true exactly when the tokens the pattern is read as split the text among them |
| `Glob.ParseRender` | embed/src/key_composer/slot.rs:95-185 | Tokens written as a pattern, bytes escaped where needed and negated classes with either sign, are read back as they are |
| `Glob.ParsedIsWritable` | embed/src/key_composer/slot.rs:95-185 | Nothing else is ever read: every pattern without an unclosed class is read as tokens that can be written |
| `Glob.UnclosedIsBroken` | embed/src/key_composer/slot.rs:131-136 | A class whose items never close breaks the pattern |
| `Glob.MatchWritten` | embed/src/key_composer/slot.rs:95-185 | A pattern written from tokens matches exactly what the tokens mean, either sign negating |
| `Glob.MatchUnclosed` | embed/src/key_composer/slot.rs:131-136 | A pattern with a class left open matches no text |

## Left out

- IEEE 754 rounding and the SIMD lanes of the kernels: only the bit-exact acceptance test is modelled.
- How `try_encode_rd` searches for a scheme (in `Overruns` the one it finds for NaNs with the same upper 16 bits is named): any valid scheme is allowed for a chunk of 1 to 65535 elements, and everything is proved for all of them; a search that finds nothing better is covered by the size comparison.
- Unpacking and consuming are two passes here and one pass in the code; lookup tables for widths 1, 2 and 4 are plain calls.
- Occupancy of the dictionary's hash table is one boolean a slot, not a bit of a word.
- Capacity growth of vectors beyond what is needed, uninitialised memory, the 1024-element stack buffer of the repeat decoder, and panics of debug builds on overflow.
- Packers.BitpackEncoded: offsets that do not fit the width are not modelled; the source packs them unmasked into their neighbours, and the engine never passes any (`Engine.WidthFits`, `Engine.Backfill`, `Prune.ApplyTargetBw`).
- Packers.BitpackFusedDelta: the same for differences (`Deltas.DeltaOffsetsFit`).
- Which of equally good parameters the sampling picks: the length of an engine block is what a call gave, not a function of its input (`Encoder.KeptWithinIff` names it as that of the non-repeats' own block).
- Big-endian hosts: raw blocks and words are copied in little-endian order.
- The C API, thread locals and `profile_compress_breakdown`: call plumbing and timing.
- Scans that fail: iterators end at the first failing entry in the code; here scans succeed.
- `sweep_expired` decodes strings and cleans composite data; only the cursor is modelled, for callbacks that do not fail.
- `WeDb::rm` returns an approximate length; `Catalog.WeDb.Rm` models the cleared partitions only.
- The storage engine, its journal, compaction and statistics.
- `KeyMeta` encoding, range normalisation, hex conversion, CRC and slots, and all Redis commands: they would only add easy members.
