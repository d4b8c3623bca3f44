# J2K: verified model

J2K is a Rust JPEG and JPEG 2000 codec workspace with its measuring, release and CI
tooling. This project models the parts of it whose correctness is an argument rather
than a lookup, and proves that argument for every input, run or reachable state.
`dafny verify dfyconfig.toml` checks all of it.

**The allocation meter** (`AllocProbe*`). A lock-free protocol between one
measurement guard and any number of allocator threads over seven shared atomics.
Every atomic operation is one step of a state machine and the schedule is arbitrary.
An inductive invariant gives: snapshots equal the saturated totals of exactly the
events of their measurement, no admitted call is outstanding when one is taken, and
a drain ends once every thread has taken six steps and the guard one more. The
module comment (lines 7-10 of the source) says that a delayed call never reports
into a later measurement; the code does not keep that. A concrete run shows the
leak. An event is late exactly if no measurement was between its increment and the
end of its drain when its call re-read EPOCH, and then by one epoch; with STATE
re-read before EPOCH no event would be. `SharedMeter` is the same code over mutable
fields; driving it through any schedule is that run of the state machine.

**Baseline JPEG entropy coding** (`Huffman*`, `Bit*`, `Jpeg*`). The canonical
Huffman derivation is accepted exactly under the Kraft inequality; its codes
partition the windows below the Kraft sum, and the DECODE procedure of ITU-T T.81
(section F.2.2.3) inverts them. On top of it the decoder as it is really built (a
12-bit table, packed coefficient words, the refilling and unstuffing bit reader) is
proved equal to the plain procedures, and the encoder's separate 16-bit table
derivation is proved to give the same codes. The end result spans writer and reader
and any interleaving of up to three components, each with its own predictor. Writing
succeeds exactly when every symbol has a code and the stuffed bytes fit the cap.
What the decoder reads from them is the blocks with their DC coefficients clamped to
16 bits if and only if every DC difference and AC coefficient lies in -32767..32767,
and the very blocks if and only if, besides, every DC coefficient lies in
-32768..32767.

One comment of the bit reader (lines 100-109) says that reading past the end of the
scan always yields an invalid code. It does not: a symbol is found in bits that are
not there exactly if padding is allowed and some code is what is left of the scan,
completed by ones (`OverreadsExactly`). That happens for complete and for incomplete
codes, and for no position of any scan only if no code ends in a one.

**The coefficient midpoint** (`Midpoint`, `Reconstruction`). The closed form agrees
with a pass by pass simulation of Tier-1 decoding (ITU-T T.800, section D.3) on one
coefficient, and the value reconstructed from it is at most half a bin off. With a
region of interest the code compares twice the magnitude with the threshold: the
upper half of the background is scaled down like the region itself, where the plain
inverse and its tests leave the background as it is. When the two agree is proved
(`RoiMidpointExactly`), and what that does to the error (`RoiMidpointError`).

**Ordered, restartable publication** (`ReleaseGraph`, `RegistryState`,
`PublishHistory`, `Publisher`). Graph validation, the registry check and the
retrying publication loop, against a registry that may fail at any time or take a
crate and still report failure. Assumed: a zero exit code means published, lookups
that answer are truthful, archives are deterministic, nobody else publishes these
crates, and packaging or publishing a crate needs no more of the registry than its
release dependencies (the validator pins development dependencies, too, but orders
only the others). Over any sequence of aborted and restarted runs the registry holds
a dependency-closed prefix, and uploads happen in order and once. A run that is
permitted to go on resumes exactly behind the published crates and publishes all the
rest, in spite of three retryable failures of every publication and three passing
failures of lookups; a publication that is taken and reported as failed is none. With
more such runs than failures everything gets published.

**Smaller cores.** The comparator shims (`OutputLength`, `Interleave`, `RowShims`,
`RowDecoders`), the API snapshot (`TextLines`, `ApiSnapshot`, `SnapshotOrder`), CI
planning (`DependencyClosure`, `CiPlan`), the hashed evidence stream
(`EvidenceFraming`) and the panic-surface feature check (`PanicSurface`), which a
chain of activations passes by exactly if it enters the registry from a package the
check never looks at.

## Model

| member | source | states |
|---|---|---|
| AllocProbeInvariant.StepKeepsInv | crates/j2k-alloc-probe/src/lib.rs:199-371 | every atomic step of every thread keeps the protocol invariant: exclusive guard, exact reporter count, exact counters, sound program counters |
| AllocProbeInvariant.InvAlways | crates/j2k-alloc-probe/src/lib.rs:199-371 | the invariant holds in every state reachable under any schedule |
| AllocProbeInvariant.ReporterKeepsCount | crates/j2k-alloc-probe/src/lib.rs:239-271 | the reporter count equals the number of calls between their count and their uncount, whatever step a call takes |
| AllocProbeMeasurement.SnapshotsAreExact | crates/j2k-alloc-probe/src/lib.rs:199-219 | each snapshot returned is, capped to 64 bits, the exact total of the events logged under its epoch: how many allocations, reallocations and deallocations, and the sum of the sizes, a reallocation counting its whole new size; no two share an epoch |
| AllocProbeMeasurement.RecordedIsExact | crates/j2k-alloc-probe/src/lib.rs:359-371 | capping every size and then every sum to 64 bits is capping the sum of the sizes |
| AllocProbeMeasurement.AdmittedOnlyWhileMeasuring | crates/j2k-alloc-probe/src/lib.rs:212-219 | while any call is admitted no guard resets the counters or takes its snapshot |
| AllocProbeMeasurement.OneGuardAtATime | crates/j2k-alloc-probe/src/lib.rs:199-230 | the state is non-idle exactly when one guard is live, and there is at most one |
| AllocProbeMeasurement.WindowMissesNothing | crates/j2k-alloc-probe/src/lib.rs:239-271 | a call that begins and ends while one measurement runs throughout is admitted by it, never rejected or skipped, and its event is appended to the log with the epoch of that measurement as the one observed and the one recorded |
| AllocProbeMeasurement.DrainIsBounded | crates/j2k-alloc-probe/src/lib.rs:337-341 | while a guard drains, the steps of counted calls are bounded by a measure fixed at the start of the drain |
| AllocProbeMeasurement.DrainEndsWhenEmpty | crates/j2k-alloc-probe/src/lib.rs:337-341 | once no counted call is left the guard's next step ends the drain |
| AllocProbeMeasurement.DrainEnds | crates/j2k-alloc-probe/src/lib.rs:337-341 | under any schedule a guard has left its drain once every thread has taken six steps since it began and then the guard one |
| AllocProbeMeasurement.BudgetsJudgeExactTotals | crates/j2k-alloc-probe/src/lib.rs:126-170 | a budget accepts a measurement exactly when those totals, uncapped, satisfy it, limits at u64::MAX being no limit |
| AllocProbeEpoch.RecordedAtMostOneEpochLate | crates/j2k-alloc-probe/src/lib.rs:239-271 | every recorded event falls into the epoch its call observed or the one after it |
| AllocProbeEpoch.DelayedCallReportsIntoNextMeasurement | crates/j2k-alloc-probe/src/lib.rs:7-10 | the documented confinement fails: a run in which the second measurement returns the allocation of a call that observed the first |
| AllocProbeEpoch.LateAdmissionExactly | crates/j2k-alloc-probe/src/lib.rs:247-265 | for a call stopped between its two re-reads, some schedule admits it into another measurement than the one it observed if and only if the late window is open: its epoch is still current and no guard is between its increment and the end of its drain, or the epoch has moved on and the next guard is past its increment and not yet draining |
| AllocProbeEpoch.LateAdmissionAtReRead | crates/j2k-alloc-probe/src/lib.rs:247-265 | behind a re-read of EPOCH that finds the observed epoch current, some schedule admits the call late if and only if no guard is between its increment and the end of its drain at that moment |
| AllocProbeLateness.EntryIsLateExactly | crates/j2k-alloc-probe/src/lib.rs:247-265 | in every run each recorded event is logged by a step of some thread whose two steps before that are a re-read of EPOCH that finds the observed epoch current and a re-read of STATE while a guard runs; it is recorded in another epoch than observed exactly if no guard was between its increment and the end of its drain at that re-read of EPOCH |
| AllocProbeLateness.AdmissionIsLateExactly | crates/j2k-alloc-probe/src/lib.rs:247-265 | the same for every admission in every run from a state that keeps the invariant, whether or not an event follows |
| AllocProbeLateness.StateFirstIsConfined | crates/j2k-alloc-probe/src/lib.rs:7-10 | with the two re-reads in the other order the documented confinement holds in every run: each event is recorded in the epoch its call observed, and every snapshot is exact |
| AllocProbeAtomics.SharedMeter.AdvanceCall | crates/j2k-alloc-probe/src/lib.rs:239-313 | one step of an allocator call on the mutable atomics is the step of the state machine |
| AllocProbeAtomics.SharedMeter.AdvanceGuard | crates/j2k-alloc-probe/src/lib.rs:199-230 | one step of a measurement on the mutable atomics is the step of the state machine |
| AllocProbeAtomics.SharedMeter.SaturatingIncrement | crates/j2k-alloc-probe/src/lib.rs:359-367 | bumps exactly the counter of the event, saturating |
| AllocProbeAtomics.SharedMeter.Drive | crates/j2k-alloc-probe/src/lib.rs:199-371 | driving the mutable atomics through any schedule ends where the state machine's run ends, with the same thread positions and the same snapshots handed out |
| AllocProbeAtomics.DriveFresh | crates/j2k-alloc-probe/src/lib.rs:199-219 | a fresh meter hands out exactly the snapshots of the run, each the saturated total of its own epoch |
| HuffmanDerivation.ExpandSizes | crates/j2k-codec-math/src/jpeg.rs:69-83 | writes one length per code, or reports excess or shortage of the counts, each exactly when it is one |
| HuffmanDerivation.SkipToLength | crates/j2k-codec-math/src/jpeg.rs:89-92 | shifting to a longer length keeps the code's window and never overflows |
| HuffmanDerivation.AssignCodes | crates/j2k-codec-math/src/jpeg.rs:85-100 | succeeds exactly under the Kraft inequality, with every code at the preceding partial sum |
| HuffmanDerivation.DecodeBounds | crates/j2k-codec-math/src/jpeg.rs:102-117 | smallest and largest code and value offset of every length, the defaults elsewhere |
| HuffmanDerivation.DeriveCanonicalHuffman | crates/j2k-codec-math/src/jpeg.rs:61-127 | each error occurs exactly under its condition; otherwise the result is the canonical derivation |
| HuffmanCodes.CodesPartitionWindows | crates/j2k-codec-math/src/jpeg.rs:85-100 | a 16-bit window begins with a code exactly when it lies below the Kraft sum, and never with two |
| HuffmanCodes.CodeFits | crates/j2k-codec-math/src/jpeg.rs:93-96 | every code is below 2^size, so no cast truncates |
| HuffmanCodes.CodesOfOneLength | crates/j2k-codec-math/src/jpeg.rs:88-100 | the codes of one length are consecutive numbers |
| HuffmanScan.DecodeInvertsCodes | crates/j2k-codec-math/src/jpeg.rs:102-117 | DECODE with the derived bounds stops within 16 bits exactly below the Kraft sum and finds the unique code of the window |
| HuffmanScan.PrefixFree | crates/j2k-codec-math/src/jpeg.rs:85-100 | no code is the beginning of another |
| HuffmanTable.BuildFast | crates/j2k-jpeg/src/entropy/huffman.rs:106-120 | every 12-bit look-ahead maps to the one code of at most 12 bits it begins with, or to none |
| HuffmanTable.BuildSymbolTable | crates/j2k-jpeg/src/entropy/huffman.rs:98-120 | a table is built exactly for consistent counts under the Kraft inequality |
| HuffmanDecode.Decode | crates/j2k-jpeg/src/entropy/huffman.rs:217-244 | the decoder on the bit reader is the look-ahead function, in result and reader state |
| HuffmanDecode.DecodeFollowsWindow | crates/j2k-jpeg/src/entropy/huffman.rs:217-244 | decoding returns the value of the one code the window begins with and drops exactly its bits; it fails exactly when there is none |
| HuffmanDecode.FastTableRefinesDecode | crates/j2k-jpeg/src/entropy/huffman.rs:217-244 | the table in front of the scan changes nothing: same symbol as plain DECODE, found exactly below the Kraft sum |
| HuffmanDecode.TakesBits | crates/j2k-jpeg/src/entropy/huffman.rs:217-244 | which bits a symbol takes: that many off the scan as padded to 12 or 16 bits |
| HuffmanDecode.OverreadsExactly | crates/j2k-jpeg/src/internal/bit_reader.rs:100-109 | at any position of a scan, decoding finds a symbol that takes bits behind its end if and only if padding is allowed and some code is the bits left, completed by ones |
| HuffmanDecode.NeverOverreadsExactly | crates/j2k-jpeg/src/internal/bit_reader.rs:100-109 | no position of any scan is over-read if and only if no code ends in a one |
| HuffmanDecode.EmptyScanIsRefusedExactly | crates/j2k-jpeg/src/internal/bit_reader.rs:100-109 | with no coded bit left, decoding fails exactly when the code is incomplete |
| HuffmanDecode.IncompleteCodeOverreads | crates/j2k-jpeg/src/internal/bit_reader.rs:104-106 | the bits 1 0 before the end of a scan are read as the code 101 of an incomplete table |
| HuffmanDecode.CompleteCodeOverreads | crates/j2k-jpeg/src/internal/bit_reader.rs:104-106 | a complete table reads a symbol out of padding alone |
| HuffmanDecode.DecodeInvertsEncode | crates/j2k-jpeg/src/entropy/huffman.rs:217-244 | decoding the concatenated codes of any symbol sequence gives its values back and leaves exactly what followed |
| BitReader.BitReader.RefillOneByte | crates/j2k-jpeg/src/internal/bit_reader.rs:151-180 | refilling never changes what is left of the scan; it stops exactly at a marker or the end |
| BitReader.BitReader.EnsureBits | crates/j2k-jpeg/src/internal/bit_reader.rs:85-98 | succeeds exactly when the scan still holds that many bits |
| BitReader.BitReader.EnsureBitsPadded | crates/j2k-jpeg/src/internal/bit_reader.rs:116-141 | pads with ones exactly where the scan has ended and padding is allowed, and changes nothing else |
| BitReader.BitReader.PeekBits | crates/j2k-jpeg/src/internal/bit_reader.rs:205-217 | the next bits of the scan as a number, left in place |
| BitReader.BitReader.ConsumeBits | crates/j2k-jpeg/src/internal/bit_reader.rs:225-237 | drops exactly that many bits, real ones before padding |
| BitReader.BitReader.ReceiveExtend | crates/j2k-jpeg/src/internal/bit_reader.rs:266-279 | RECEIVE and EXTEND on what is left of the scan |
| HuffmanFastPath.BuildPacked | crates/j2k-jpeg/src/entropy/huffman.rs:121-169 | every look-ahead has the packed word of its table entry and role |
| HuffmanFastPath.WordsExactly | crates/j2k-jpeg/src/entropy/huffman.rs:121-169 | there is a packed word exactly where symbol and magnitude bits together fit 12 bits, and of the AC symbols without magnitude bits only for 0x00 and 0xF0 |
| HuffmanFastPath.BuildCoefficientTable | crates/j2k-jpeg/src/entropy/huffman.rs:98-180 | a table for its role is built exactly for consistent counts under the Kraft inequality, look-ahead, scan bounds and packed words all fitting the code |
| HuffmanFastPath.WordsUnpack | crates/j2k-jpeg/src/entropy/huffman.rs:520-566 | length, run, value and kind are read back from every packed word |
| HuffmanFastPath.DcWordIsPlain | crates/j2k-jpeg/src/entropy/huffman.rs:122-142 | a DC word says what decoding the category and receiving its bits would, for the same number of bits |
| HuffmanFastPath.AcWordIsPlain | crates/j2k-jpeg/src/entropy/huffman.rs:143-169 | an AC word says what decoding the symbol and receiving its bits would, for the same number of bits |
| HuffmanFastPath.DecodeFastDc | crates/j2k-jpeg/src/entropy/huffman.rs:255-274 | the fast DC decoder refines the plain one, in result and reader state, also at the padded end of a scan |
| HuffmanFastPath.DecodeFastAc | crates/j2k-jpeg/src/entropy/huffman.rs:285-314 | the fast AC decoder refines the plain one, in symbol and reader state |
| HuffmanFastPath.SkipFastAc | crates/j2k-jpeg/src/entropy/huffman.rs:321-351 | skipping moves the reader as decoding does and yields the same symbol but for the value |
| HuffmanEncoder.EncodeHuffmanTable | crates/j2k-jpeg/src/adapter/baseline_encode/tables.rs:62-99 | for any BITS and HUFFVAL vectors the table has the canonical number of each symbol's last occurrence, as far as 16 bits hold it, and is refused exactly for mismatched counts or when some number is all ones in 16 bits |
| HuffmanEncoder.RefusedUnderKraftExactly | crates/j2k-jpeg/src/adapter/baseline_encode/tables.rs:83-87 | of the tables the decoder accepts, the encoder refuses exactly those of a complete code with codes of 16 bits |
| HuffmanEncoder.DerivationsAgree | crates/j2k-jpeg/src/adapter/baseline_encode/tables.rs:70-91 | encoder and decoder derivations give a symbol the same bits |
| BitWriter.StuffedByte | crates/j2k-jpeg/src/baseline_entropy.rs:68-74 | a stuffed byte is read back as exactly its eight bits |
| BitWriter.ByteFormReads | crates/j2k-jpeg/src/baseline_entropy.rs:68-74 | unstuffing the stuffed bytes of whole octets gives the octets back |
| BitWriter.MarkerEndsScan | crates/j2k-jpeg/src/baseline_entropy.rs:62-66 | before any marker the written bytes read back unchanged, and padding is allowed behind them |
| BitWriter.BitWriter.PushByte | crates/j2k-jpeg/src/baseline_entropy.rs:68-74 | appends a byte with its stuffing exactly when the cap allows both |
| BitWriter.BitWriter.WriteBits | crates/j2k-jpeg/src/baseline_entropy.rs:26-38 | succeeds exactly when the stuffed bytes of everything written fit the cap, and then has appended exactly the low bits of the code |
| BitWriter.BitWriter.AlignWithOnes | crates/j2k-jpeg/src/baseline_entropy.rs:40-51 | completes the last byte by fewer than eight ones, exactly when that byte fits |
| JpegMagnitude.Magnitude | crates/j2k-jpeg/src/baseline_entropy.rs:127-145 | the category and the magnitude field of a coefficient |
| JpegMagnitude.CategoryAtMost | crates/j2k-jpeg/src/baseline_entropy.rs:127-137 | the category is the least number of bits that holds the magnitude |
| JpegMagnitude.ShortExactly | crates/j2k-jpeg/src/baseline_entropy.rs:127-137 | at most 15 bits means between -32767 and 32767 |
| JpegMagnitude.ExtendInvertsField | crates/j2k-jpeg/src/baseline_entropy.rs:138-144 | EXTEND gives the coefficient back from its field |
| JpegMagnitude.ReceiveInvertsMagnitude | crates/j2k-jpeg/src/internal/bit_reader.rs:266-279 | receiving the written magnitude bits gives the coefficient back and stops behind them |
| JpegBlockCodec.EncodeBlockTo | crates/j2k-jpeg/src/baseline_entropy.rs:77-113 | appends exactly the code of the block; runs out of space exactly when the stuffed bytes up to its end, or up to its first symbol without a code, exceed the cap, and else names that symbol if there is one |
| JpegSymbols.EncodeAcIsAcCode | crates/j2k-jpeg/src/baseline_entropy.rs:92-111 | the AC code is, for each non-zero coefficient, 0xF0 for every sixteen zeros before it, the symbol 16*run+category and the magnitude bits, and symbol 0 if zeros are left at the end |
| JpegSymbols.CoveredExactly | crates/j2k-jpeg/src/baseline_entropy.rs:77-113 | with DC codes for 0..11 and AC codes for 0x00, 0xF0 and 16*run+category with categories 1..10, and no others, a block is written without a missing code if and only if its DC difference lies in -2047..2047 and its AC coefficients in -1023..1023 |
| JpegSymbols.EndsInSymbolZero | crates/j2k-jpeg/src/baseline_entropy.rs:109-111 | the code of a block whose last coefficient is zero ends in the code of symbol 0 |
| JpegBlockCodec.WriteZeroRuns | crates/j2k-jpeg/src/baseline_entropy.rs:99-102 | runs of sixteen zeros are written until fewer remain, the code still to come is unchanged, and an error is that of the whole block |
| JpegBlockCodec.DriveAcFast | crates/j2k-jpeg/src/entropy/block.rs:400-430 | the AC loop stores exactly the decoded coefficients, fails as the specification does and stops where it does |
| JpegBlockCodec.DecodeBlockFrom | crates/j2k-jpeg/src/entropy/block.rs:253-283 | a whole block: the DC predictor wrapped to 32 bits and handed on, its clamped value stored, the AC coefficients behind it |
| JpegBlock.AcNeedsNoClamp | crates/j2k-jpeg/src/entropy/block.rs:272-282 | an AC value never needs its clamp |
| JpegBlock.AcSymbolIsOr | crates/j2k-jpeg/src/baseline_entropy.rs:103-106 | the symbol is the bitwise or of the shifted run and the category, also of categories that run into the run |
| JpegBlock.Wrap32Exactly | crates/j2k-jpeg/src/entropy/block.rs:266-267 | the predictor wraps to the one 32-bit number that differs by a multiple of 2^32 |
| JpegBlockCodec.SkipAcFast | crates/j2k-jpeg/src/entropy/block.rs:382-393 | skipping leaves the reader where decoding into any block would, with the same error |
| JpegBlock.AcRoundTrip | crates/j2k-jpeg/src/baseline_entropy.rs:92-111 | coefficients of at most 15 bits come back, whatever the runs of zeros between them |
| JpegBlock.LongNeverSurvives | crates/j2k-jpeg/src/baseline_entropy.rs:103-106 | with a longer coefficient, whose size runs into the run of its symbol, the block never comes back |
| JpegBlock.DcSurvivesExactly | crates/j2k-jpeg/src/entropy/huffman.rs:267-273 | a DC difference comes back or is refused as invalid, by its category alone |
| JpegBlock.BlockSurvivesExactly | crates/j2k-jpeg/src/entropy/block.rs:253-283 | what comes back is the block with its DC coefficient clamped, the reader stopping exactly behind it, if and only if DC difference and AC coefficients lie in -32767..32767, and the block itself if and only if also its DC coefficient lies in -32768..32767 |
| JpegScan.UnitsSurviveExactly | crates/j2k-jpeg/src/entropy/sequential/dct.rs:64-105 | the same for any interleaving of the blocks of up to three components: the scan comes back exactly when the blocks of each component, taken by themselves, do, each component with its own tables and its own predictor, which carries the unclamped DC coefficient |
| JpegScan.TablesOfComponents | crates/j2k-jpeg/src/encoder/entropy.rs:167-176 | the first component has the luma tables, the others have the chroma tables |
| JpegScan.LargeDcIsClamped | crates/j2k-jpeg/src/entropy/block.rs:266-268 | blocks with DC coefficients 30000, 60000, 30000, whose differences all fit, come back as 30000, 32767, 30000 |
| JpegScanCodec.EncodeScan | crates/j2k-jpeg/src/encoder/entropy.rs:150-189 | for blocks interleaved in any order the scan is written exactly when every symbol has a code and the stuffed bytes, filled up with ones, fit the cap; it is those bytes, and each error occurs exactly under its condition |
| JpegScan.ScanBytesHold | crates/j2k-jpeg/src/baseline_entropy.rs:53-56 | the bytes of a scan hold its code and fewer than eight ones |
| JpegScan.ScanSurvivesExactly | crates/j2k-jpeg/src/baseline_entropy.rs:53-66 | from coefficients to bytes and back: put before a marker, the bytes of an interleaved scan decode to its blocks with clamped DC coefficients, and to its blocks, exactly under the conditions of a block, component by component |
| JpegScanCodec.DecodeScan | crates/j2k-jpeg/src/entropy/sequential/dct.rs:64-105 | the reading loop over the blocks of a scan, with a predictor for each component, is the specification, in result and reader state |
| JpegScanCodec.EncodeScanWith | crates/j2k-jpeg/src/adapter/baseline_encode/tables.rs:10-26 | from BITS and HUFFVAL vectors to bytes: something is written or an error given exactly when all four tables can be built, and it is the scan outcome over tables of canonical codes, luma tables for the first component and chroma tables for the others |
| JpegScanCodec.DecodeScanWith | crates/j2k-jpeg/src/entropy/huffman.rs:98-180 | from BITS and HUFFVAL vectors and bytes to blocks: something is read exactly when all four tables have matching counts under the Kraft inequality, and it is what the specification reads |
| JpegScanCodec.EncodeThenDecode | crates/j2k-jpeg/src/encoder/entropy.rs:150-189 | encoder and decoder one after the other on the same tables: what was written is read whenever the decoder accepts the tables, and it is the blocks exactly when those of every component are baseline |
| Midpoint.MidpointIsLastCodedPosition | crates/j2k-codec-math/src/classic.rs:108-138 | on every run of the three coding passes the shortcut names the bit position at which the coefficient was last coded |
| Midpoint.MidpointDefinedExactly | crates/j2k-codec-math/src/classic.rs:113-124 | there is a midpoint exactly for a nonzero magnitude and 1 to 3*planes-2 passes |
| Midpoint.MidpointClosedForm | crates/j2k-codec-math/src/classic.rs:108-138 | for any number of planes and passes the position is the plane of the last pass, or the one above where that pass was for significance and left no bit, if it is below 64 |
| Midpoint.RunCoherent | crates/j2k-cuda-j2k-engine/src/cuda_oxide_j2k_classic_decode/simt/src/main.rs:638-836 | what every prefix of a Tier-1 run establishes: coded down to a known plane, aligned, significant exactly when nonzero |
| Midpoint.RunTruncates | crates/j2k-cuda-j2k-engine/src/cuda_oxide_j2k_classic_decode/simt/src/main.rs:638-836 | the decoded magnitude is the true one cut off below the last coded position |
| Powers.SetBitTwice | crates/j2k-native/src/j2c/bitplane/reconstruction.rs:35 | setting a bit sets it, and setting it again changes nothing |
| Reconstruction.MidpointHalvesTheError | crates/j2k-native/src/j2c/bitplane/reconstruction.rs:12-49 | after any run of passes the true magnitude lies in the bin above the decoded one, as wide as the last coded position, and the reconstructed value, of either sign, is at most half a bin from the true one, or zero where nothing but zeros was decoded |
| Reconstruction.NothingReconstructed | crates/j2k-native/src/j2c/bitplane/reconstruction.rs:18-31 | without a magnitude, a plane or a pass the value is 0.0, and behind the last pass of the planes it is the magnitude itself, whatever the shift |
| Reconstruction.RoiMidpointExactly | crates/j2k-native/src/j2c/bitplane/reconstruction.rs:12-49 | reconstructing with a shift s gives, for either sign, what the plain inverse makes of reconstructing without one if and only if s is 0, the magnitude is below 2^(s-1), or it is at least 2^s with a bin of at least 2^s |
| Reconstruction.RoiMidpointError | crates/j2k-native/src/j2c/bitplane/reconstruction.rs:33-49 | after any run of passes, with a shift s: zero stays zero; a background value, below 2^s, is within half a bin of the true one if and only if it is below 2^(s-1) or is 1; in the region of interest it exceeds the true coefficient by at most half a bin over 2^s and falls short of it by at most that and, only if the bin is finer than 2^s, by less than a half more |
| Reconstruction.BackgroundIsScaledDown | crates/j2k-native/src/j2c/bitplane/reconstruction.rs:12-49 | magnitude 127 after 40 passes over 14 planes is reconstructed as 0.5 with a shift of 7, where the plain inverse leaves the 127.5 that it is without one |
| ReleaseGraph.LoadReleaseManifest | scripts/release_manifest.py:84-114 | accepts exactly non-empty lists of distinct crates with known contracts, keeping their order |
| ReleaseGraph.CheckDependency | scripts/release_manifest.py:233-273 | a release dependency passes exactly if it is local, at its root, pinned exactly and, unless for development, earlier |
| ReleaseGraph.ValidateReleaseGraph | scripts/release_manifest.py:276-371 | accepts exactly the valid graphs; each error names what is wrong; the independent crates are those without release dependencies |
| ReleaseGraph.ReleaseGraphIsAcyclic | scripts/release_manifest.py:326-364 | no path of release dependencies of any length returns to its start |
| ReleaseGraph.PrefixesAreClosed | scripts/release_manifest.py:326-364 | every prefix of a validated manifest is closed under transitive dependencies |
| ReleaseGraph.DevelopmentCyclesAreAccepted | scripts/release_manifest.py:358-361 | a validated graph may have a cycle through a development dependency |
| RegistryState.ClassifyRegistryState | scripts/publish_release.py:240-304 | returns k exactly when the first k crates and no others are published with matching checksums and reruns are allowed if k is not 0; the other outcomes by their conditions |
| RegistryState.VerifyVersionSet | scripts/crates_io_version.py:132-190 | returns the published prefix, or an error exactly when nothing is acceptable: no crates, repeated ones, a failed lookup, published ones without permission, or the published ones behind an available one |
| RegistryState.ChecksAgree | scripts/crates_io_version.py:132-190 | on registries with matching checksums the version check and the publisher accept the same states with the same prefix |
| PublishHistory.ValidGraphsArePublishable | scripts/release_manifest.py:358-364 | in a validated graph every dependency stands before its dependent |
| PublishHistory.NeverAttemptsHeldCrate | scripts/publish_release.py:387-429 | in an orderly history no attempt is for a crate the registry holds, or for one whose dependencies it lacks |
| PublishHistory.UploadsAreDistinct | scripts/publish_release.py:387-429 | nothing is uploaded twice |
| PublishHistory.NextIsNotHeld | scripts/publish_release.py:390-394 | behind a held prefix the next crate is not held and all its release dependencies are, so the registry has no reason to refuse it |
| PublishHistory.HeldCratesHaveTheirDependencies | scripts/publish_release.py:387-429 | a registry holding a prefix is dependency-closed |
| Publisher.CratesIo.CargoPublish | scripts/publish_release.py:371-374 | one publication: refused exactly if the crate is held or a dependency is not; otherwise failed, taken, or taken and reported as failed, and only the first of these is a fault |
| Publisher.PackageChecksums | scripts/publish_release.py:193-237 | without a fault the local checksums come out, those of all published crates as the registry has them, because their dependencies are published too; an error means a fault |
| Publisher.ValidateRegistryState | scripts/publish_release.py:240-304 | over a registry that holds a prefix the check returns its length; only a failed lookup or the missing permission to go on keeps it from that, and which of them the error tells |
| Publisher.ValidateRegistryStateWithRetry | scripts/publish_release.py:338-368 | the same after up to three retries: with permission, only a permanently failed lookup or at least four transiently failed ones keep it from returning the length |
| Publisher.PublishCrate | scripts/publish_release.py:387-429 | at most four attempts, all for this crate, each but the last failed with a retryable output; giving up takes a failure that is there to stay, four failed attempts, an output that is not retryable, or four transiently failed lookups; whatever happens the registry holds the prefix before the crate or including it, and success means including it |
| Publisher.PublishRemaining | scripts/publish_release.py:377-429 | a start outside the manifest changes nothing; otherwise a prefix is left, the whole manifest unless there was such a failure, with at most four attempts per crate |
| Publisher.Run | scripts/publish_release.py:441-467 | a run resumes exactly behind the published crates, whatever state an earlier run may have left: with permission it completes the manifest in spite of three retryable failures of every publication and three transiently failed lookups; without permission it attempts nothing, and each other outcome occurs only under its condition |
| Publisher.RunRepeatedly | scripts/publish_release.py:441-467 | over any sequence of runs the registry holds a dependency-closed prefix and no attempt is ever for a crate it holds; once more runs were permitted to go on than things outside have failed, everything is published |
| OutputLength.OutputLengthsAgree | crates/j2k-compare/src/lib.rs:12-42 | the Rust, C and C++ length checks accept the same sizes with the same value on every platform of at least 32-bit words |
| OutputLength.DivisionGuards | crates/j2k-compare/src/grok_shim.c:27-36 | the guard by division refuses exactly the products that overflow |
| RowShims.SampleKeepsHighBits | crates/j2k-compare/src/openhtj2k_shim.cpp:34-43 | of a sample that fits its depth the eight highest bits are kept, counted from the least value of the depth |
| RowShims.SignOfOddDepths | crates/j2k-compare/src/openhtj2k_shim.cpp:36-38 | of depths of 0 bits or more than 31 the sign does not matter |
| Interleave.LastIndexImpliesAll | crates/j2k-compare/src/grok_shim.c:86-105 | if the last pixel's index checks out, every pixel's does, with the plain row-stride index inside the plane |
| Interleave.ComponentIndexExactly | crates/j2k-compare/src/grok_shim.c:86-105 | a sample has an index exactly inside a plane with data and a wide enough stride, as far as the index fits the word |
| Interleave.PackedAt | crates/j2k-compare/src/grok_shim.c:277-279 | every sample lies at index (row*width+col)*channels+c of the packed bytes |
| Interleave.ClampIsNearest | crates/j2k-compare/src/grok_shim.c:107-111 | a clamped sample is the byte nearest to it |
| Interleave.IndexOfSome | crates/j2k-compare/src/grok_shim.c:277-279 | every index of the packed bytes is that of a sample of the picture |
| Interleave.IndexOfOne | crates/j2k-compare/src/grok_shim.c:277-279 | no two samples have the same index |
| Interleave.WritePixel | crates/j2k-compare/src/grok_shim.c:280-323 | stores one pixel's clamped samples at its place, each where nothing has been stored, and leaves every other byte alone, replicating a single plane; it fails, storing nothing, only on an unknown sample type |
| Interleave.Buffer.Put | crates/j2k-compare/src/grok_shim.c:294-323 | a store into the output buffer is made only where nothing has been stored, and changes that byte alone |
| Interleave.InterleaveAll | crates/j2k-compare/src/grok_shim.c:277-325 | the loop fills the buffer exactly with the packed picture, every byte being stored once and in bounds |
| Interleave.GrokPack | crates/j2k-compare/src/grok_shim.c:241-331 | which decoded images are accepted, and that the bytes handed out are the packed picture of the checked length |
| RowShims.StoreRowByComponent | crates/j2k-compare/src/openjph_shim.cpp:87-104 | storing a row component by component writes exactly its packed bytes and nothing else |
| RowShims.StoreRowByPixel | crates/j2k-compare/src/openhtj2k_shim.cpp:108-120 | storing a row pixel by pixel writes the same bytes |
| RowDecoders.PullRows | crates/j2k-compare/src/openjph_shim.cpp:85-104 | fails exactly on a missing or short line; otherwise the buffer is the packed picture of all lines |
| RowDecoders.RowSink.OnRow | crates/j2k-compare/src/openhtj2k_shim.cpp:81-121 | throws exactly on missing rows, on component metadata that is missing for a channel or of different sizes, on a bad size, and on a row outside the picture or a missing line; otherwise the buffer is the picture with that row replaced |
| RowDecoders.RowSink.Finish | crates/j2k-compare/src/openhtj2k_shim.cpp:124-126 | refuses exactly if no row has come; otherwise the picture as it is |
| RowDecoders.RunCallbacks | crates/j2k-compare/src/openhtj2k_shim.cpp:46-139 | the whole decoder succeeds exactly when there are components enough and a row, metadata and size are valid and no call throws, and hands out the picture of the last delivery of every row |
| RowDecoders.UndeliveredRowIsZero | crates/j2k-compare/src/openhtj2k_shim.cpp:81-126 | a row that is never delivered comes out black |
| RowDecoders.OrderOfRowsIsIrrelevant | crates/j2k-compare/src/openhtj2k_shim.cpp:81-126 | when the calls bring the lines the other shim pulls, in any order and number, both hand out the same bytes if and only if every row that does not arrive is black |
| TextLines.LinesOfJoin | xtask/src/semver.rs:689 | splitting into lines inverts joining lines that hold no line feed and end in no carriage return |
| TextLines.FirstLine | xtask/src/semver.rs:689 | a line feed ends a line, with one carriage return right before it, and the end of the text ends the last one as it is |
| TextLines.FinalizeJoin | xtask/src/codegen_commands.rs:351-358 | finalizing drops the empty last line and nothing else |
| TextLines.FinalizedIs | xtask/src/codegen_commands.rs:351-358 | of the line feeds at the end one is left, and nothing of a text that has nothing else |
| ApiSnapshot.ParseApiSnapshot | xtask/src/semver.rs:685-741 | the line loop is the parse, and its result is described by the lines alone |
| ApiSnapshot.ParsedExactly | xtask/src/semver.rs:685-741 | the parse ends with the error of the first line that has one (heading or opening fence in a fence, fence without heading, second fence under a heading's name, closing fence outside), else with an open fence at the end or no section, else with exactly the non-empty lines between fences under each name |
| ApiSnapshot.RenderSnapshot | xtask/src/codegen_commands.rs:285-314 | renders preamble, sections in order and the closing section, and fails exactly on a missing inventory |
| SnapshotOrder.ParseInvertsRender | xtask/src/semver.rs:685-741 | parsing a rendered snapshot gives back exactly the item set of every package |
| SnapshotOrder.InventoryRenderOrder | xtask/src/codegen_commands.rs:316-349 | known headings in the order of the committed text, then the unlisted packages; an error exactly on a repeated heading |
| SnapshotOrder.OneHeadingEach | xtask/src/codegen_commands.rs:325-341 | there is an order if and only if no package has two headings in the text |
| SnapshotOrder.RenderOrderExactly | xtask/src/codegen_commands.rs:325-347 | packages with a heading come first, in the order of their headings, and the others behind them, as they are listed |
| SnapshotOrder.RenderOrderIsPermutation | xtask/src/codegen_commands.rs:316-349 | the order lists every package once and nothing else |
| SnapshotOrder.RenderOrderIsFixedPoint | xtask/src/codegen_commands.rs:316-349 | rendering again keeps the order exactly when `j2k-cli`, whose heading every public snapshot carries, is not itself a library package |
| DependencyClosure.Closure | scripts/ci_plan.py:188-199 | in whatever order it pops, the worklist ends with the least closed set around the roots, and fails exactly when there is none |
| DependencyClosure.ClosureIsReached | scripts/ci_plan.py:188-199 | the closure is what chains of dependencies from the roots reach |
| DependencyClosure.OnlyMissingRootsFail | scripts/ci_plan.py:188-199 | in a workspace graph only a missing root can fail it |
| CiPlan.OwnerIsInnermost | scripts/ci_plan.py:202-210 | a path belongs to the innermost package root that is the path or has it behind a slash, and to the first listed of those, whatever the order of the others |
| CiPlan.ClassifyPaths | scripts/ci_plan.py:221-287 | fails exactly without paths or without a closed GPU dependency set; a flag is raised exactly if some path raises it, and the plan lists the paths once each in the order of their first occurrences |
| CiPlan.FlagsOfJoinedPaths | scripts/ci_plan.py:221-287 | the flags of joined path lists are the pointwise or of each list's flags |
| CiPlan.EveryPathRaisesSomething | scripts/ci_plan.py:233-278 | no change goes without Rust or documentation jobs |
| CiPlan.PackagesRaiseExactly | scripts/ci_plan.py:15-30 | a change inside a package raises the CUDA (or Metal) flag if and only if the package is the shared one or some CUDA (or Metal) root depends on it through any number of steps |
| CiPlan.PathsRaiseExactly | scripts/ci_plan.py:233-278 | which flags any path raises, in terms of the path names alone: the tests for `crates/` and for source suffixes decide nothing |
| CiPlan.ValidateAggregate | scripts/ci_plan.py:290-328 | passes exactly when the jobs are the expected ones, every required one succeeded and no optional one failed |
| CiPlan.PlanPassesExactly | scripts/ci_plan.py:65-80 | the aggregate over a plan passes if and only if every job the plan asks for has succeeded and every other conditional one has or was skipped |
| EvidenceFraming.ArtifactStream | xtask/src/auto_routing.rs:363-395 | the updates make up the tagged stream of frames; only two versions have a tag |
| EvidenceFraming.StreamIs | xtask/src/auto_routing.rs:370-395 | the stream is the tag of the version, the two fixed files under their names and the criteria, every name and content behind its length in eight bytes |
| EvidenceFraming.ReadInvertsStream | xtask/src/auto_routing.rs:363-407 | version, evidence, manifest and all criteria with contents are read back from the stream |
| EvidenceFraming.StreamIsInjective | xtask/src/auto_routing.rs:363-407 | no two artifacts feed the hash the same bytes |
| PanicSurface.DependencyPackages | xtask/src/panic_surface.rs:217-251 | fails exactly when one key stands for two packages |
| PanicSurface.CollectProductionFeatures | xtask/src/panic_surface.rs:253-297 | passes exactly when every feature outside the registry activates only resolvable features outside it, and accounts for all features |
| PanicSurface.ActivationMeans | xtask/src/panic_surface.rs:299-321 | what the code makes of an activation is what it turns on: a feature of the dependency that goes by the name before a slash, marked or not, its rename if it has one; a feature of the package itself without a slash; none behind `dep:`; and an error exactly for an unknown name |
| PanicSurface.ParsePanicSurfaceSelection | xtask/src/panic_surface.rs:85-165 | succeeds exactly on orderly workspaces with a live registry and no direct activation into it, selecting all other features; each error names what is wrong |
| PanicSurface.OwnFeatureIsRefused | xtask/src/panic_surface.rs:285-293 | the selection fails if an unregistered feature of a library lists a registered one of the same package |
| PanicSurface.DependencyFeatureIsRefused | xtask/src/panic_surface.rs:285-293 | and if it lists a registered one of a dependency, by the name that goes by, with or without a question mark |
| PanicSurface.NoChainReachesDevOnly | xtask/src/panic_surface.rs:111-164 | after a successful selection no chain of activations of any length, through packages that are selected or pass the same check, reaches a development feature |
| PanicSurface.ChainReachesExactly | xtask/src/panic_surface.rs:111-164 | through all packages of the metadata, a chain from a selected feature reaches the registry if and only if one enters it by a package that was not selected |
| PanicSurface.ChainPassesBy | xtask/src/panic_surface.rs:132-134 | workspaces in which that happens are accepted: a library whose feature turns on, through an unpublished package, a registered feature of another library |

## Left out

- The memory orderings of the meter's atomics: every load, store and read-modify-write is one sequentially consistent step, a compare-and-swap loop its successful exchange, and the epoch an unbounded counter.
- The system allocator, raw pointers, the global allocator registration and the test hooks of the meter.
- The 64-bit accumulator of the bit reader is the sequence of its valid bits; its snapshots and restart markers are not modelled.
- Coefficients of a block are kept in zigzag order and dequantization is not modelled; the blocks of a scan are a list in the order of the scan, and where they lie in their planes is not modelled.
- The decoder is given all four tables, also for a scan of one component, and assigns them to components as the encoder does.
- Allocation failures of the encoder's buffer, which is sized to its cap at once, and restart markers between the blocks of a scan.
- The forward and inverse transforms, quantization and colour conversion of the JPEG codec.
- In the Tier-1 simulation the neighbours of the coefficient and every decoded bit are arbitrary; the MQ coder, contexts, signs and the run-length mode are not modelled.
- Reconstruction.MidpointHalvesTheError: is over exact reals, the rounding of the conversion to f32 is not modelled.
- Reconstruction.RoiMidpointError: is over exact reals, too.
- HTTP, subprocesses, JSON shapes, environment variables, sleeping and file access of the scripts; whether an error text is retryable is arbitrary.
- Crate names, version strings and paths are compared, not validated.
- A dependency's default features and the features listed on a dependency are no activations for the panic-surface gate, and none in its model.
- The component count and size checks of the OpenJPH shim before its loop.
- Allocation of the output buffers, the codec libraries behind the shims and their component formats other than those the shims read; planes are assumed to hold stride times height samples, and sample shifts not to overflow 32 bits.
- The rustdoc-hidden companion of the API snapshot, which is rendered the same way without the closing section.
- SHA-256, the checks of Criterion estimates, the DWT, Tier-1 and HTJ2K coding code, and the finite coding tables.
- Parsing of change lists and command lines, and report texts.
