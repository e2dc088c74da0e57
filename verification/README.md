# OrcSDR, verified

A Dafny 4.11 model of the parts of OrcSDR where a wrong answer would look like a right one, with proofs.

* **The JS8 reconstruction kit** recovers an unknown error-correcting code from received frames. Words are
  bit vectors of any length n (174 in the program). The central notion is the *span* of a list of words: every
  XOR of a selection of them. Rank is the base-2 logarithm of the number of words in the span, so dimension
  arguments are counting arguments.
  * `PackedBits` is the three-word storage of a 174-bit word; `Gf2`, `Elimination` and `CodeSpaces` are
    elimination, the dual space and what the result means.
  * `SparseParity` finds weight-6 checks by meeting in the middle; `Graphs` builds the compressed bipartite graph;
    `Reconstruction` chains the two tools and holds the end-to-end theorem.
  * `Labels`, `TopK`, `ToneMaps` and `FrameSearch` are the two searches over tone-label orders.
  * `CrcRegisters`, `RegisterOrder`, `CrcSearch` and `CheckerCrc` are the CRC-12 parameter search and the frame checker's CRC.
* **IMBE frame error control** (`Ecc`, `GolayCode`, `ImbeFrame`): the Golay, whitening and Hamming chain of TIA-102.BABA,
  sections 7.3 and 7.4, with the correction tables as parameters.
* **Three small pieces with claims about whole runs**: the lock-free counters (`AtomicMaximum`, `DspStats`), the dial's detent
  backlog (`DetentBacklog`) and the protobuf data message (`Protobuf`).

`std::sort` appears as a function parameter of which only its contract is used (`Sorting`): a rearrangement in which
nothing stands before something less. Ties may come out in any order, so the theorems hold for every conforming sort;
insertion sort is shown to be one for each order used (`SparseParity.EntryOrder`, `Graphs.Sorts16`, `TopK.SortsByKey`).
`std::next_permutation` appears as any list that holds each permutation of the eight labels once; the lexicographic one
is shown to be such a list.

## What the proofs say about the program

* The last failure exit of `analyze` (rank plus nullity differing from the width) cannot be taken, and `valid` always
  equals `found` in the sparse search.
* The guard of the graph generator is exact: with equal ranks the graph accepts the XORs of the input words and nothing
  else, and with unequal ranks it accepts something else as well.
* The twelve label orders the tone-map search prints always have one and the same rank. Rank cannot choose among them.
* In `js8-e2e-verify` the runner-up weight printed beside the best hit always equals the best weight, so the gap
  between the two is no evidence.
* The CRC search always finds an even number of matches, so it never identifies a single parameter set.
* The frame checker feeds 13 zeros to its division where 12 would give the search's register. On words the checker
  passes, the search reports the checker's polynomial 0xC06 (high bit first, CRC field in order) only if all the words
  have the same register; a concrete pair on which it does not is given.
* `hammingMatrix` as committed repairs an error in bits 0, 1 and 8 to 14 only. For an error in one of bits 2 to 7 it
  flips a different bit (components/mbelib/ecc_const.h:24-34); of these only bit 2 leaves the data right.

## Model

| member | source | states |
|---|---|---|
| PackedBits.Bits174.Get | tools/js8-gf2.hpp:15-17 | reading a packed bit gives the bit of the word it stands for, and false past the end |
| PackedBits.Bits174.Set | tools/js8-gf2.hpp:18-23 | writing changes that bit only, ignores positions past the end, and keeps the eighteen padding bits clear |
| PackedBits.Bits174.XorWith | tools/js8-gf2.hpp:24-26 | word-wise XOR is the XOR of the words stood for, padding still clear; a word may be XORed with itself |
| PackedBits.PackedDot | tools/js8-gf2.hpp:33-38 | the three population-count parities give the parity of the common set bits, which needs the padding to be clear |
| Gf2.SpanIsCombinations | tools/js8-gf2.hpp:59-76 | a word is in the span exactly when some selection of the rows XORs to it |
| Gf2.RankSize | tools/js8-gf2.hpp:41-42 | a list of rank r has exactly 2^r distinct XORs |
| Elimination.AddPivot | tools/js8-gf2.hpp:71-74 | storing a residual in a free column keeps echelon form and adds exactly the reduced word to the span, which it was not in |
| Elimination.OrthogonalIsSpan | tools/js8-gf2.hpp:86-96 | of two orthogonal tables on complementary columns, each spans all words orthogonal to the other |
| Elimination.ReducedUnique | tools/js8-gf2.hpp:78-84 | reduced echelon form is determined by the span |
| CodeSpaces.PivotTable.Insert | tools/js8-gf2.hpp:63-76 | one word of forward elimination: the row space grows to take the word in, the rank grows exactly when it was outside |
| CodeSpaces.PivotTable.BackSubstitute | tools/js8-gf2.hpp:78-84 | same pivots and row space, and every pivot column is now clear in all other rows |
| CodeSpaces.BuildParityBasis | tools/js8-gf2.hpp:86-97 | one parity word per free column in column order, the rest of the array zero |
| CodeSpaces.Analyze | tools/js8-gf2.hpp:59-101 | never fails, and its result is the reduced form of the words' span with its parity basis |
| CodeSpaces.Satisfies | tools/js8-gf2.hpp:103-107 | true exactly when the word is even on every parity word |
| CodeSpaces.DoubleDual | tools/js8-gf2.hpp:59-107 | a word satisfies the parity basis if and only if it is an XOR of the rows |
| CodeSpaces.ParitySpansDual | tools/js8-gf2.hpp:86-97 | the parity basis spans exactly the words orthogonal to all rows |
| CodeSpaces.RankCountsWords | tools/js8-gf2.hpp:73-98 | 2^rank XORs of the rows, 2^nullity words orthogonal to them |
| CodeSpaces.RankIsRank | tools/js8-gf2.hpp:73 | the reported rank is the number of rows that are not XORs of earlier ones |
| CodeSpaces.SpaceOfSpan | tools/js8-gf2.hpp:59-101 | two inputs give the identical code space if and only if they have the same span |
| CodeSpaces.OrderAndCopiesDoNotMatter | tools/js8-gf2.hpp:59-101 | reordering or repeating rows changes nothing |
| SparseParity.EntryOrder | tools/js8-sparse-parity.hpp:30-32 | the word-by-word comparison of signatures is a strict weak order, and a sort that conforms to it exists |
| SparseParity.SignatureLessIsWordOrder | tools/js8-sparse-parity.hpp:30-32 | one signature is less than another exactly when, at the first 64-bit word in which they differ, its number is less |
| SparseParity.BuildEntries | tools/js8-sparse-parity.hpp:57-68 | exactly the increasing column triples in lexicographic order, each with the XOR of its signatures |
| SparseParity.JoinedTriples | tools/js8-sparse-parity.hpp:83-95 | two disjoint triples join to a weight-6 word that is a check exactly when their signatures agree |
| SparseParity.SplitWeight6 | tools/js8-sparse-parity.hpp:83-95 | every weight-6 word is joined from two disjoint triples |
| SparseParity.StoreCheck | tools/js8-sparse-parity.hpp:89-104 | the joined check is stored once: appended if new, left alone if present |
| SparseParity.FoundChecksOnly | tools/js8-sparse-parity.hpp:83-106 | whatever the joining loops have come across is a check, and no check twice |
| SparseParity.JoinIsFound | tools/js8-sparse-parity.hpp:83-106 | every disjoint pair of equal signature is among what the loops come across |
| SparseParity.JoinRun | tools/js8-sparse-parity.hpp:83-106 | after a run of equal signatures the output holds the first checks come across so far, as many as fit |
| SparseParity.FindWeight6 | tools/js8-sparse-parity.hpp:51-111 | distinct checks only, all of them whenever fewer than capacity come back, and otherwise the first ones in the order of the sorted entries |
| Graphs.SortCheck | tools/js8-graph-builder.hpp:28-34 | a check passes exactly when it is not empty, repeats no variable and stays in range |
| Graphs.CollectChecks | tools/js8-graph-builder.hpp:24-41 | succeeds exactly on storable checks; the concatenation of the sorted checks and their offsets |
| Graphs.CountOffsets | tools/js8-graph-builder.hpp:43-51 | each offset is the number of edges on lower variables; no 16-bit number wraps |
| Graphs.ScatterEdges | tools/js8-graph-builder.hpp:53-61 | the scatter pass leaves each variable's edges ascending, one variable after the other; no 16-bit number wraps |
| Graphs.BuildGraph | tools/js8-graph-builder.hpp:18-65 | succeeds exactly on storable checks, and then holds the sorted checks and their transpose |
| Graphs.TransposePermutes | tools/js8-graph-builder.hpp:53-61 | the transpose lists every edge once and nothing else |
| Graphs.VariablesReadBack | tools/js8-graph-builder.hpp:43-61 | a variable's slice lists exactly the edges on it, in ascending order |
| Graphs.ChecksReadBack | tools/js8-graph-builder.hpp:27-41 | a check's slice is that check, sorted |
| Graphs.AppendGraph | tools/js8-spec/gen_ldpc_graph.py:16-26 | the list-append generator produces the arrays of the same rows |
| Graphs.BuildersAgree | tools/js8-spec/gen_ldpc_graph.py:16-26 | on strictly increasing rows both builders agree on all four arrays |
| Reconstruction.ComputeColumns | tools/js8-fec-sparse-search.cpp:15-22 | the columns handed to the search are the transposed basis rows |
| Reconstruction.ColumnCheckMeaning | tools/js8-fec-sparse-search.cpp:83-90 | a word is a check of the transposed signatures exactly when it has weight 6 and is orthogonal to the basis |
| Reconstruction.CountValid | tools/js8-fec-sparse-search.cpp:91-101 | the number of checks that are even on every word |
| Reconstruction.SparseSearch | tools/js8-fec-sparse-search.cpp:73-126 | with usable arguments always succeeds, valid equals found, the report is sound, complete when below the limit, and lists the checks in the order they are come across |
| Reconstruction.CheckRankBound | tools/js8-fec-sparse-search.cpp:103-124 | the check rank never exceeds the parity dimension |
| Reconstruction.RankGuardIsExact | tools/js8-fec-graph-gen.cpp:108-115 | checks of the words accept exactly the XORs of the words if and only if the two ranks are equal |
| Reconstruction.PrintIndices | tools/js8-fec-sparse-search.cpp:24-31 | a check line lists the set positions from the lowest |
| Reconstruction.GenerateGraph | tools/js8-fec-graph-gen.cpp:103-121 | the exit codes: no summary or checks, incomplete without permission, unstorable, or a graph |
| Reconstruction.ReportLinesBuildable | tools/js8-fec-graph-gen.cpp:117-121 | the lines of a report can always be stored |
| Reconstruction.EndToEnd | tools/js8-fec-graph-gen.cpp:108-121 | the built graph accepts exactly the XORs of the input words if and only if the two ranks are equal |
| Reconstruction.CompleteMeansDualSpanned | tools/js8-fec-sparse-search.cpp:103-124 | a report with checks is complete if and only if its checks generate every word orthogonal to the input |
| Reconstruction.CompleteBelowLimit | tools/js8-fec-sparse-search.cpp:83-124 | below the limit, complete if and only if the weight-6 words orthogonal to the input generate all orthogonal words |
| Reconstruction.WordsToGraph | tools/js8-fec-graph-gen.cpp:76-121 | both tools in sequence: every exit code has its exact condition, a graph comes out exactly when the checks found generate all words orthogonal to the input, it holds those checks, and it accepts the XORs of the words and nothing else |
| Labels.CheckLabels | tools/js8-tone-map.hpp:15-22 | accepts exactly the permutations of 0 to 7 |
| Labels.EnumerationExists | tools/js8-tone-map.cpp:69-82 | the lexicographic list visits every label order once |
| ToneMaps.TonesToBits | tools/js8-tone-map.hpp:42-54 | fails exactly on bad labels or tones, and otherwise gives three bits per tone |
| ToneMaps.MappedTone | tools/js8-tone-map.hpp:42-54 | the three bits of a tone are the 4, the 2 and the 1 of its label |
| ToneMaps.MappedRank | tools/js8-tone-map.hpp:56-78 | the cutoff rank, including what a bad frame before or after the cutoff returns |
| ToneMaps.PruningIsExact | tools/js8-tone-map.hpp:56-78 | on valid frames: the true rank up to the cutoff, one more than the cutoff above it |
| ToneMaps.BadFrameEndsRanking | tools/js8-tone-map.hpp:56-78 | a bad frame gives one more than the width, unless the frames before it already exceed the cutoff |
| ToneMaps.RelabellingKeepsRank | tools/js8-tone-map.hpp:42-78 | composing the labels with an invertible linear map on 3-bit labels leaves the rank unchanged |
| ToneMaps.SearchLabels | tools/js8-tone-map.cpp:68-82 | the pruned search keeps exactly what an exhaustive search keeps, ties and order included, and these are twelve smallest true ranks |
| ToneMaps.LateTiesAreDropped | tools/js8-tone-map.cpp:76-80 | of equal ranks the earlier label orders stay; a lesser rank takes the place of the twelfth |
| ToneMaps.KeptRanksAreEqual | tools/js8-tone-map.cpp:68-92 | the twelve kept entries always have equal rank, the least of all label orders |
| FrameSearch.PlaceInvolution | tools/js8-e2e-verify.cpp:59-67 | each of the eight layouts is its own inverse |
| FrameSearch.BitsFor | tools/js8-e2e-verify.cpp:70-86 | every code position gets the label bit its layout assigns to it |
| FrameSearch.LayoutNatural | tools/js8-e2e-verify.cpp:70-86 | layout 0 is the label bits of each tone, the highest first |
| FrameSearch.LayoutLowFirst | tools/js8-e2e-verify.cpp:72-79 | layout 1 turns the three bits of each tone around |
| FrameSearch.LayoutsMove | tools/js8-e2e-verify.cpp:73-82 | in either bit order, 2 more swaps the halves of the word, 4 more reverses it, 6 more does both |
| FrameSearch.Unsatisfied | tools/js8-e2e-verify.cpp:88-96 | the number of checks of odd parity |
| FrameSearch.Modulate | tools/js8-e2e-verify.cpp:200-219 | the tones carry the labels that the codeword's bits ask for |
| FrameSearch.DemapCarried | tools/js8-e2e-verify.cpp:70-86 | demapping modulated tones restores every word, for every label order and layout |
| FrameSearch.Search | tools/js8-e2e-verify.cpp:105-124 | keeps smallest hits of all combinations in ascending order, all of them while there is room; which of equal ones is fixed by the order of the loops and the sort |
| FrameSearch.VisitedIsEverything | tools/js8-e2e-verify.cpp:109-122 | the combinations tried are all label orders with all of the layouts 0 to 7, and no others |
| FrameSearch.LateTiesAreDropped | tools/js8-e2e-verify.cpp:112-119 | once the list is full, a hit not lighter than the last one changes nothing; a lighter one is sorted in and the last goes |
| FrameSearch.HitsAreGenuine | tools/js8-e2e-verify.cpp:110-118 | each kept weight is the number of odd checks of that combination's own demapping |
| FrameSearch.SearchFindsCodeword | tools/js8-e2e-verify.cpp:200-222 | for any checks, any word satisfying them, any label order and layout, the first hit has weight 0 |
| FrameSearch.SameStream | tools/js8-e2e-verify.cpp:69-86 | reversing the bits of every label and the bit order within a tone describes the same stream |
| FrameSearch.RunnerUpAlwaysTies | tools/js8-e2e-verify.cpp:256-259 | the runner-up weight always equals the best weight |
| FrameSearch.FirstLayoutIsToneMap | tools/js8-tone-map.hpp:42-54 | the first layout demaps as the tone-map tool does |
| FrameSearch.NoOddChecksMeansCodeword | tools/js8-e2e-verify.cpp:88-96 | with a complete reconstruction's checks, weight 0 means an XOR of the reconstructed words, and conversely |
| CrcRegisters.Crc12Msb | tools/js8-crc-reconstruct.hpp:38-46 | the low twelve bits of the high-bit-first register after 75 bits, for any 16-bit polynomial; the whole register for a 12-bit one |
| CrcRegisters.Crc12Lsb | tools/js8-crc-reconstruct.hpp:48-56 | the low twelve bits of the low-bit-first register after 75 bits, for any 16-bit polynomial; the whole register for a 12-bit one |
| CrcRegisters.Reverse12Loop | tools/js8-crc-reconstruct.hpp:58-65 | twelve turns of the loop give the reversal that the mirror lemmas are about |
| CrcRegisters.Reverse12IsMirrored | tools/js8-crc-reconstruct.hpp:58-65 | the reversal loop exchanges bit i and bit 11 - i |
| CrcRegisters.RunMirrored | tools/js8-crc-reconstruct.hpp:38-65 | the low-bit-first register under the mirrored polynomial is the mirror image of the other, for messages of any length |
| CrcRegisters.ObservedMirrored | tools/js8-crc-reconstruct.hpp:28-36 | reading the CRC field backwards mirrors its value |
| CrcRegisters.RunFromInit | tools/js8-crc-reconstruct.hpp:38-56 | a starting value adds a constant that depends on the length only |
| CrcSearch.TryParameters | tools/js8-crc-reconstruct.cpp:64-84 | valid exactly when one offset explains all words, and then that offset is the only one |
| CrcSearch.SearchCrc | tools/js8-crc-reconstruct.cpp:55-108 | lists every matching parameter set exactly once, by direction, bit order and polynomial |
| CrcSearch.MatchCountIsEven | tools/js8-crc-reconstruct.cpp:60-94 | matches come in mirror pairs, so their number is even for any word list |
| CrcSearch.GeneratorIsFound | tools/js8-crc-reconstruct.cpp:60-94 | if a 12-bit register of either direction and order produced the fields, whatever its initial value and final XOR, its parameters are matched |
| CrcSearch.OrderDoesNotMatter | tools/js8-crc-reconstruct.cpp:60-94 | the matches do not depend on the order or number of copies of the words |
| CheckerCrc.CheckerCrc | tools/js8-spec/verify_real_frames.py:37-45 | the remainder of 75 bits and 13 zeros by 0xC06, XORed with 0x02A, which is the direct register after one further zero-input step |
| CheckerCrc.ObservedIsField | tools/js8-crc-reconstruct.hpp:28-36 | the observed CRC is bits 75 to 86 of the word, the first of them highest, or the last when read backwards |
| CheckerCrc.LongDivisionIsRegister | tools/js8-spec/verify_real_frames.py:37-45 | dividing a message of any length followed by twelve zeros leaves the direct register; each further zero is one zero-input step |
| CheckerCrc.CheckerPolynomialIsMissed | tools/js8-spec/verify_real_frames.py:38-45 | on words the checker passes, the search reports the checker's parameters if and only if all words have the same register |
| CheckerCrc.CheckerPolynomialMissedExample | tools/js8-crc-reconstruct.cpp:63-92 | two words that pass the checker and on which the search misses its polynomial |
| Ecc.CheckGolayBlock | components/mbelib/ecc.c:21-47 | the data bits XOR the table entry of the syndrome |
| Ecc.Golay2312 | components/mbelib/ecc.c:49-84 | the corrected word with its parity bits as received, and the number of data bits changed; 0 when the word is corrected in place |
| Ecc.GolayTransparent | components/mbelib/ecc.c:21-84 | for any table, correcting a codeword plus an error gives the data XOR a residual of the error alone |
| GolayCode.RowsArePowers | components/mbelib/ecc_const.h:36-38 | row i of the generator is x^(22-i) reduced by x^11+x^10+x^6+x^5+x^4+x^2+1 |
| GolayCode.SyndromeIsRemainder | components/mbelib/ecc.c:28-41 | for every word the syndrome is the remainder on division by that polynomial |
| GolayCode.CodewordsAreMultiples | components/mbelib/ecc.c:28-41 | the code words are exactly its multiples |
| GolayCode.CorrectedBits | components/mbelib/ecc.c:43-72 | correction bit by bit: the table's answer to the remainder on the data bits from bit 22 down, the parity bits as received |
| Ecc.Hamming1511 | components/mbelib/ecc.c:86-128 | the corrected word, in place or not, and 1 exactly when the syndrome is not zero |
| Ecc.HammingEncodedClean | components/mbelib/ecc_const.h:24-26 | the generator's low columns are a unit matrix, so every data word has a codeword of syndrome zero |
| Ecc.HammingTransparent | components/mbelib/ecc.c:86-128 | for any table, correcting a codeword plus an error gives the data XOR a residual of the error alone |
| Ecc.CommittedHammingCorrects | components/mbelib/ecc_const.h:24-34 | with the committed table a single-bit error is repaired if and only if it is in bit 0, 1 or 8 and above, and leaves the data right if and only if it is in one of these or in bit 2 |
| Ecc.CommittedClean | components/mbelib/ecc_const.h:32-34 | the committed table answers a clean word with no change |
| ImbeFrame.EccC0 | components/mbelib/imbe7200x4400.c:89-108 | row 0 is replaced by its correction and the others are untouched |
| ImbeFrame.WhiteningSequence | components/mbelib/imbe7200x4400.c:473-491 | the bits of the congruential generator seeded by the twelve data bits of c0 |
| ImbeFrame.WhiteningBitClosed | components/mbelib/imbe7200x4400.c:482-491 | whitening bit k is set exactly when (16 * 173^k * seed + 13849 * (1 + 173 + ... + 173^(k-1))) mod 65536 is at least 32768 |
| ImbeFrame.SeedIsNumber | components/mbelib/imbe7200x4400.c:475-482 | the seed is the number in bits 22 to 11 of c0, bit 22 the highest |
| ImbeFrame.WhiteningPlaces | components/mbelib/imbe7200x4400.c:493-510 | which whitening bit falls on which bit of the frame, from row 1 bit 22 down to row 6 bit 0 |
| ImbeFrame.Demodulate | components/mbelib/imbe7200x4400.c:465-511 | rows 1 to 6 are XORed in place with the sequence from the current c0, rows 0 and 7 untouched |
| ImbeFrame.EccData | components/mbelib/imbe7200x4400.c:110-163 | the 88 data bits and the number of corrections |
| ImbeFrame.DataBitsInOrder | components/mbelib/imbe7200x4400.c:118-160 | the 88 data bits place by place: which row and bit each comes from |
| ImbeFrame.ProcessFrame | components/mbelib/imbe7200x4400.c:564-572 | c0 first, whitening from the corrected c0, then the data, and both error counts |
| ImbeFrame.FrameTransparent | components/mbelib/imbe7200x4400.c:89-163 | for any data, tables and error pattern that leaves c0 right: data XOR a residual, residual and counts functions of the error pattern alone |
| ImbeFrame.DecodesExactlyWhenResidualIsZero | components/mbelib/imbe7200x4400.c:564-572 | decoding returns the sent data if and only if the error pattern's residual is zero, whatever the data |
| ImbeFrame.CleanRoundTrip | components/mbelib/imbe7200x4400.c:564-572 | without errors decoding inverts encoding with both counts 0 |
| AtomicMaximum.StoreMaxSound | apps/orcsdr-tab5/dsp/dsp_stats.cpp:19-24 | one step of `store_max`, whatever value its relaxed load returns, keeps the windows in order and the value it saw covered; once over, its own value is covered |
| AtomicMaximum.LoadMayReturn | apps/orcsdr-tab5/dsp/dsp_stats.cpp:20 | a relaxed load may return any modification from the last one seen on |
| AtomicMaximum.TurnsOfStoreMax | apps/orcsdr-tab5/dsp/dsp_stats.cpp:21-23 | enough was seen, or the swap succeeds on the value seen, or it looks again, which may happen for no reason |
| DspStats.FinishedIsCovered | apps/orcsdr-tab5/dsp/dsp_stats.cpp:19-66 | in every interleaving, with relaxed loads, a finished call's block time and depth are bounded by a maximum still held or taken in a window from the one its thread last knew of |
| DspStats.WindowsReportMaxima | apps/orcsdr-tab5/dsp/dsp_stats.cpp:19-66 | each window reports the largest block time, and the largest depth, that a call swapped in during that very window, 0 if there was none |
| DspStats.CountersAreConserved | apps/orcsdr-tab5/dsp/dsp_stats.cpp:49-68 | all windows plus the value held equal what the calls have added, and when all calls have finished what they were passed: blocks, time, samples and backlog, modulo 2^32 |
| DspStats.CallsHoldArguments | apps/orcsdr-tab5/dsp/dsp_stats.cpp:49 | the i-th call works with the block time, samples and depth it was passed |
| DspStats.TakeTallyAlone | apps/orcsdr-tab5/dsp/dsp_stats.cpp:62-67 | taking a sum reports the value held, clears it and touches nothing else |
| DspStats.TakePeakAlone | apps/orcsdr-tab5/dsp/dsp_stats.cpp:64-66 | taking a maximum reports the value held, clears it and touches nothing else |
| DetentBacklog.Dial.Act | orcdial/src/main.cpp:163-175 | the new backlog after an action, whatever the link answers |
| DetentBacklog.RefusedTurnIsHeld | orcdial/src/main.cpp:168-173 | a refused tune, ft8_band or ft8_item turn is kept, added to its own kind, in place of another, within 1000000000 either way |
| DetentBacklog.OtherActionsHoldNothing | orcdial/src/controller.hpp:19-21 | every other action drops the amount; an accepted turn and no action leave it |
| DetentBacklog.Dial.Flush | orcdial/src/main.cpp:403-407 | what a flush offers, under the pending kind, and the backlog after the link's answer |
| DetentBacklog.FlushedAmount | orcdial/src/main.cpp:403-407 | all of a tune backlog, else no more than 20 steps either way |
| DetentBacklog.Dial.Forget | orcdial/src/main.cpp:390-391 | a dashboard change, and likewise a device activation or a pairing or disconnect command, drops the amount and keeps the kind |
| DetentBacklog.DetentsConserved | orcdial/src/main.cpp:163-175 | in every run and for tune, ft8_band and ft8_item each: asked = sent under that kind + held + given up |
| DetentBacklog.SameKindRunLosesNothing | orcdial/src/main.cpp:163-175 | turns of one kind without a clear and within the limit lose nothing, whatever the link refuses |
| DetentBacklog.BacklogBounded | orcdial/src/main.cpp:170-173 | the backlog stays within a thousand million and has a kind that can wait |
| DetentBacklog.FlushTowardZero | orcdial/src/main.cpp:403-407 | at most twenty steps of anything but tuning, toward zero and never past it |
| DetentBacklog.AcceptingLinkDrains | orcdial/src/main.cpp:403-407 | after k accepted flushes 20k steps are gone or everything is; tuning drains at once |
| Protobuf.ReadVarint | tools/decode_orciq.py:78-88 | the loop reads at most ten bytes and gives the value, the offset behind it or the error |
| Protobuf.EncodeVarint | tools/decode_orciq.py:224-230 | seven bits a byte, low bits first, high bit on all but the last |
| Protobuf.EncodedVarintMeans | tools/decode_orciq.py:224-230 | the value in seven-bit digits, lowest first, every byte but the last marked |
| Protobuf.VarintRoundTrip | tools/decode_orciq.py:78-88 | reading inverts writing for exactly the values below 2^70, whatever stands before and after |
| Protobuf.ParseDataMessage | tools/decode_orciq.py:91-124 | the loop absorbs field by field with every error case, then checks port and payload |
| Protobuf.FieldRoundTrip | tools/decode_orciq.py:96-115 | a written field of any of the four wire types is read back, with the offset behind it |
| Protobuf.FieldsUnderstood | tools/decode_orciq.py:91-124 | every list of well-formed fields is read as its last-one-wins meaning |
| Protobuf.ParsedMoved | tools/decode_orciq.py:91-124 | what is read from an offset on depends on the bytes from there on only |
| Protobuf.MessageMeaning | tools/decode_orciq.py:91-124 | for any well-formed fields: the last port, payload and request id, the last of four bytes lowest first; refused without port or payload or above port 511 |
| Protobuf.CutMessageRefused | tools/decode_orciq.py:96-113 | a message that breaks off inside a field is refused with the error of the part that is missing |
| Protobuf.OtherWiresRefused | tools/decode_orciq.py:114-115 | wire types 3, 4, 6 and 7 are refused |
| Protobuf.EncodedTags | tools/decode_orciq.py:96-115 | the tag of a field is eight times its number plus 0, 1, 2 or 5 |
| Protobuf.UnknownFieldsIgnored | tools/decode_orciq.py:116-121 | well-formed fields numbered other than 1, 2 and 6 have no effect behind any fields and before any bytes, readable or not |
| Protobuf.WriteDataMessage | tools/decode_orciq.py:233-234 | the two tagged fields that the round trip reads back |
| Protobuf.DataMessageRoundTrip | tools/decode_orciq.py:233-234 | reading a written message gives port and payload back if and only if the port is at most 511 |

## Left out

* Reading files, command lines, printing and parsing the text of check lines (`parse_check`, `parse_bits`, `parse_labels`): the tools are joined at the lists of numbers those lines carry.
* Null pointers and the capacity of caller-supplied arrays, which the methods take as requirements.
* `Bits174.any`, which none of the modelled code calls.
- PackedBits.PackedDot: the population count is modelled as the parity of the set bits; everything after `PackedBits` works on bit vectors of any length instead of packed words.
- SparseParity.FindWeight6: column numbers are not cut to 16 bits, which changes nothing for up to 174 columns.
- FrameSearch.Search: `std::next_permutation` is any list holding each label order once, not a loop that rewrites the array.
- ToneMaps.SearchLabels: starts from the 58 data tones; cutting them out of the 79-tone frame is not part of this model.
- ImbeFrame.FrameTransparent: the repository has no encoder, so the transmitter is modelled from the generator constants and the whitening that the decoder undoes.
- ImbeFrame.CleanRoundTrip: of the 2048 Golay corrections only the entry for a clean word is used; that the table corrects up to three errors is not stated.
- DspStats.FinishedIsCovered: relaxed loads may be stale, but the steps on different counters take effect in one order; each statement is about one counter. The per-stage counters and the yield counter are not modelled.
- DetentBacklog.Dial.Act: only the connected branch; the offline preview, the focus and the views are left out, and so is `change`, which no shown caller uses for tuning.
- Protobuf.DataMessageRoundTrip: the payload is taken to be shorter than 2^70 bytes.
- Protobuf.ReadVarint: the shifted OR of the source is written as a sum; the bits never overlap.
* The syndrome count, message text and callsign decoding of `verify_real_frames.py`, and decryption around the protobuf message.
* Speech synthesis, bit allocation tables and parameter decoding of the voice codec.
