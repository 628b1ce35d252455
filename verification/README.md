# Verified models of ovbase

ovbase is a C utility library. This project models five of its parts in Dafny and proves what they promise.

- **The sort engine** (`SortOrder`, `SortTable`, `SortStack`, `OvSort`, `OldOvSort`, `OvQsort`). A `Table` is a block
  of memory cut into windows of equal size, with the comparison and swap callbacks as methods. A comparator also
  receives the number of comparisons made before it, so that every run of every callback, stateful or inconsistent,
  is covered. `Sort` keeps the explicit stack of 64 entries and the loop that ends when the unsigned `level` wraps
  below zero. Its invariant gives each cell the label of the stack entry that still has to sort it: two cells that no
  entry holds together are already in order. The stack never overflows because the size of entry `i`
  times `2^i` never exceeds `n`.
- **The Unicode codecs** (`Codec`, `Utf8`, `Utf16`, `EncodingTables`, `Transcode`, `Converters`, `Streaming`). `Codec` is
  the theory of any decoder that reads back its own encoding and accepts nothing else; UTF-8 and UTF-16 are shown to be
  instances at bit level. `EncodingTables` restates both decoders as tables of integer ranges (section 4 of RFC 3629,
  sections 2.1 and 2.2 of RFC 2781). `Transcode` proves what the bounded
  converters write, `Streaming` that the byte-by-byte decoders resynchronise and agree with the batch decoders.
- **The allocation log and the aligned allocator** (`AllocLog`, `MemCore`, `AlignedAlloc`, `AlignedLog`). The log is a state machine
  whose steps are the atomic sections of `mem_core_`; runs are arbitrary interleavings of threads. The class
  `Allocator` is the code of one thread, and each call is shown to perform exactly its steps. `AlignedLog` puts the
  aligned allocator on top of the log.
- **The bit-level generators** (`Powers`, `Rand`, `Xoshiro`, `Generators`), on machine words as bit-vectors. `Binary` and
  `Binary32` read a word as the number of its binary digits, and `Mixing`, `Mixing32` and `XoshiroNumbers` state what every
  hash and generator computes in arithmetic on numbers.
- **Catalogue lookup and decimal conversion** (`CatalogueStrings`, `CatalogueFind`, `Catalogue`, `CataloguePlural`,
  `Decimal`), with unsigned wrap-around written out. `Words` holds the machine word.

Where the source and its documentation or tests differ, the models follow the source:

- `include/ovrand.h:146-149` and `include/ovrand.h:230-233` demand a non-zero seed; `NeverZero64` and `NeverZero32` show that
  no seed, zero included, leads to the all-zero state.
- The overflow test of `atou` and `atoi` (`src/num/inc/atou.inc.c:16`, `src/num/inc/atoi.inc.c:20`) misses large
  overflows: `AtouAcceptsLargeOverflow` and `AtoiAcceptsLargeOverflow` give inputs that are accepted with a wrong value.
  `AtouOnDigits` and `AtoiOnDigits` state the answer for every digit string as a function of the number alone,
  `AtouRightIff` and `AtoiRightIff` when it is right, and `AtouExactUpTo20` and `AtoiExactUpTo20` the same for up to 20
  digits without a quantifier.
- A realloc that fails leaves a live block out of the log (`src/mem.c:272-279`): `FailedReallocIsReported` shows a
  correct program that is then told of a double free, and `RunKeepsInv` that such losses are the only cause of reports.
- `find` leaves the table when the key is below the first id (`src/mo/mo.c:177-187`): `Find` states exactly that, and
  `FindLeavesTable` gives an image that is accepted and a key for which it happens. An empty table would do the same,
  but `mo_parse` rejects it: its allocation of no entries fails (`src/mo/mo.c:119`, `src/mem.c:298-300`). So an image
  without entries, although well formed, is no catalogue (`EmptyIsRejected`).
- A zero returned by a converter can mean malformed input, empty input, or a first codepoint that does not fit;
  `ConvertWrites` separates the cases.

## Model

| member | source | states |
|---|---|---|
| SortTable.WindowsDisjoint | src/ovsort.c:136-145 | the windows of two different item indices never overlap |
| SortTable.WindowsSwapped | src/ovsort.c:141-153 | exchanging two windows cell by cell exchanges exactly those two items of the table and leaves every byte behind the items alone |
| SortTable.Table.Compare | src/ovsort.c:134-139 | the comparison reads the two items at the given indices; under a total preorder its sign decides their order |
| SortTable.Table.Swap | src/ovsort.c:141-153 | the swap callback exchanges two items and nothing else, also when both indices are equal |
| SortTable.SwapCells | src/ovsort.c:147-152 | the byte loop exchanges two equal or disjoint ranges of memory |
| SortOrder.SortedUnique | src/ovsort_test.c:143-175 | under a total order a sequence has only one sorted rearrangement |
| SortOrder.SortedByKey | src/ovsort_test.c:143-175 | a comparator by a number is a total preorder, and sorted then means that the numbers ascend |
| SortOrder.TotalByKey | src/ovsort_test.c:143-175 | a comparator by a number that tells all items apart is a total order |
| SortOrder.SortedAnswers | src/ovsort.c:25-125 | in a sorted table no earlier item is answered to be larger than a later one |
| SortOrder.PermutedWhole | src/ovsort.c:60-109 | a rearrangement of a window is a rearrangement of the whole table |
| SortStack.TriangleIsHalfProduct | src/ovsort.c:16-22 | the comparisons of an insertion sort of n items sum to at most n(n-1)/2 |
| SortStack.BudgetIsQuadratic | src/ovsort.c:45-123 | the comparison budget is n(n-1)/2 + 3n in closed form |
| SortStack.BudgetSplit | src/ovsort.c:60-123 | the budgets of the two parts of a split, together with the comparisons of the split, fit the budget of the whole segment with two to spare |
| SortStack.Refine | src/ovsort.c:45-124 | if the cells of one pending segment are rearranged and relabelled so that its cells are together or in order, then all cells of the table are together or in order |
| SortStack.RoomToPush | src/ovsort.c:45-54 | a segment above the insertion threshold sits on a level below 63 and below n, so a push has room and the loop guard holds |
| SortStack.Pop | src/ovsort.c:49-58 | dropping the top entry after its segment was sorted keeps the stack invariant and releases its budget |
| SortStack.Push | src/ovsort.c:111-123 | replacing the top entry by its two parts, larger one below, keeps the stack invariant, the halving bound, and pays size + 2 comparisons from the budget |
| SortStack.Start | src/ovsort.c:42-43 | the initial stack satisfies the invariant with the whole budget |
| SortStack.AfterPop | src/ovsort.c:49-58 | one popping round keeps the loop invariant, the permutation and the comparison limit |
| SortStack.AfterPush | src/ovsort.c:60-123 | one splitting round keeps the loop invariant, the permutation and the comparison limit |
| SortStack.Finish | src/ovsort.c:45-50 | when the stack has been emptied, the table is sorted under a total preorder and the limit was kept |
| OvSort.HoleMovesDown | src/ovsort.c:18-21 | swapping a too small item with its left neighbour keeps the range ordered but for that item |
| OvSort.SinkItem | src/ovsort.c:17-21 | the inner insertion loop orders one more item with at most i - begin comparisons |
| OvSort.InsertionSortRange | src/ovsort.c:10-23 | sorts a range, for any comparator only rearranges it, with at most s(s-1)/2 comparisons |
| OvSort.SwapIfLess | src/ovsort.c:63-65 | one comparison and the swap it decides; the pair is then in order |
| OvSort.MedianToLeft | src/ovsort.c:62-72 | only three cells change, their median ends up at `left`, and exactly three comparisons are made |
| OvSort.MedianIsBetween | src/ovsort.c:62-72 | what both choices of a median mean: only the three cells may change, and under a total preorder the item at `left` lies between those at `mid` and `right` |
| OvSort.PivotToRight | src/ovsort.c:77-88 | a swap of the pivot to the right scan keeps both scanned parts on their side of the pivot |
| OvSort.PivotToLeft | src/ovsort.c:90-100 | a swap of the pivot to the left scan keeps both scanned parts on their side of the pivot |
| OvSort.Partition | src/ovsort.c:74-109 | splits a segment at its pivot item with exactly s - 1 comparisons for every comparator; the pivot index always stands on a scan boundary, so the repair swap and the two else branches are dead |
| OvSort.SplitSegment | src/ovsort.c:60-109 | median choice and partition together make exactly s + 2 comparisons and leave smaller items left, larger ones right of the pivot |
| OvSort.PushParts | src/ovsort.c:111-123 | the new top two stack entries are the two parts of the segment, the smaller one on top; the entries below are unchanged |
| OvSort.SortSmall | src/ovsort.c:49-58 | a trivial or small segment is sorted within s(s-1)/2 comparisons |
| OvSort.SortTop | src/ovsort.c:45-124 | one round of the main loop keeps the invariant and decreases the budget or the stack; popping the last entry wraps the level |
| OvSort.Sort | src/ovsort.c:25-125 | every table and comparator: terminates, permutes, makes at most n(n-1)/2 + 3n comparisons, touches only items below n; under a total preorder the result is sorted; the guard stops the loop only after the wrap |
| OldOvSort.OldMedianToLeft | src/ovsort_old.c:54-66 | the old choice with two or three comparisons moves the median of three to `left` too |
| OldOvSort.OldPartition | src/ovsort_old.c:67-84 | the old scans, which compare before they test the bounds, split the segment at its pivot item |
| OldOvSort.OldSort | src/ovsort_old.c:22-101 | the old engine terminates and permutes for every comparator, and sorts under a total preorder |
| OvQsort.Qsort | src/ovsort.c:155-172 | the items of a byte block are permuted as whole windows and sorted, and bytes behind them are untouched; a zero item size or fewer than two items change nothing |
| OvQsort.SortBoth | src/ovsort_test.c:143-175 | under a total order both engines leave identical tables |
| Codec.ParseDecomposes | src/utf/codepoint_utf8.c:26-86 | every input is the encoding of the scalars of its longest decodable prefix, followed by the rest |
| Codec.ParseEncoded | src/utf/codepoint_utf8.c:26-86 | decoding an encoded list returns that list, in front of any tail |
| Codec.EncodeAllInjective | src/utf/common.c:25-57 | two different lists of scalars have different encodings |
| Codec.BatchDelivers | src/utf/codepoint_utf8.c:26-86 | for every input and every callback: the callback gets the codepoints of the longest decodable prefix until it stops; the decoder returns the units taken, and zero only if undecodable input is reached or nothing was taken |
| Codec.WellFormedIff | src/utf/codepoint_utf8.c:26-86 | an input decodes to its end iff it is the encoding of some list of Unicode scalars |
| Codec.AcceptsExactly | src/utf/codepoint_utf8.c:26-86 | with a recording callback a non-empty input is consumed in full iff it is the encoding of scalars; then exactly those are delivered, otherwise the result is zero |
| Codec.ContinuingAccepts | src/utf/codepoint_utf8.c:77-86 | under every callback that never stops, a non-empty input is consumed in full iff it is the encoding of scalars, and otherwise the result is zero |
| Codec.StopsAt | src/utf/codepoint_utf8.c:77-83 | a callback that stops at codepoint k has k + 1 codepoints counted as taken when it finishes, k when it aborts |
| Utf8.DecodeEncode | src/utf/common.c:25-57 | the written bytes of a scalar announce their length and decode to that scalar |
| Utf8.EncodeDecode | src/utf/codepoint_utf8.c:32-76 | a byte sequence the decoder accepts is the written form of the scalar it returns: no overlong form, surrogate or value beyond 0x10ffff passes |
| Utf8.Utf8IsCodec | src/utf/codepoint_utf8.c:8-76 | UTF-8 decoding and encoding are mutual inverses on exactly the scalars |
| Utf8.DecodeAt | src/utf/codepoint_utf8.c:32-76 | one round of the loop reads the codepoint at `i` with the checks of the decoder in their order |
| Utf8.Accepts | src/utf/codepoint_utf8.c:26-86 | `ov_utf8_to_codepoint` with a continuing callback consumes a non-empty byte string in full iff it is the UTF-8 encoding of scalars, else it returns zero |
| Utf8.Delivers | src/utf/codepoint_utf8.c:26-86 | what an accepted byte string delivers are exactly the scalars that it encodes |
| Utf8.Utf8ToCodepoint | src/utf/codepoint_utf8.c:26-86 | the loop computes the batch decoding for every callback and context, and takes all of a non-empty input from a continuing callback iff that is well-formed UTF-8 |
| Utf16.DecodeEncode | src/utf/to_char16.c:29-47 | the units written for a scalar decode to that scalar in front of any tail |
| Utf16.Utf16IsCodec | src/utf/codepoint_char16.c:8-41 | UTF-16 decoding and encoding are mutual inverses on exactly the scalars |
| Utf16.AdvanceMatches | src/utf/codepoint_char16.c:32-35 | advancing by the size of the codepoint advances by the units that were read |
| Utf16.Accepts | src/utf/codepoint_char16.c:12-41 | `ov_char16_to_codepoint` with a continuing callback consumes a non-empty string in full iff it is the UTF-16 encoding of scalars, else it returns zero |
| Utf16.Delivers | src/utf/codepoint_char16.c:12-41 | what an accepted string delivers are exactly the scalars that it encodes |
| Utf16.Char16ToCodepoint | src/utf/codepoint_char16.c:12-41 | the loop computes the batch decoding for every callback and context, and takes all of a non-empty input from a continuing callback iff that is well-formed UTF-16 |
| EncodingTables.Utf8Table | src/utf/codepoint_utf8.c:8-76 | the decoder accepts exactly the byte ranges of the table in section 4 of RFC 3629, and the codepoint is the integer sum of the bytes |
| EncodingTables.Utf8AcceptsTable | src/utf/codepoint_utf8.c:26-86 | with a continuing callback a non-empty byte string is consumed in full iff it is one row of that table after another, else the result is zero |
| EncodingTables.Utf16Table | src/utf/codepoint_char16.c:8-31 | the decoder accepts exactly units outside the surrogates and surrogate pairs, with the integer pair formula |
| EncodingTables.Utf16AcceptsTable | src/utf/codepoint_char16.c:12-41 | with a continuing callback a non-empty string is consumed in full iff it consists of such units and pairs, else the result is zero |
| Transcode.FittingIsLongest | src/utf/to_char16.c:34-42 | a prefix of codepoints leaves room for the terminator iff it is not longer than the written one |
| Transcode.DeliverWrites | src/utf/to_char16.c:29-47 | a writer callback stores the longest fitting prefix, stops at the first codepoint that does not fit, and never passes the last cell |
| Transcode.ConvertWrites | src/utf/to_char16.c:49-69 | for every input and non-empty buffer: the exact buffer, return value and `*read`; the terminator is written even on failure; success is reported iff something fits and either the buffer was full or the input was well formed |
| Transcode.LengthIsExact | src/utf/to_char16.c:12-22 | a `_len` function returns the exact number of units of a well-formed input, and zero otherwise |
| Transcode.ConvertsNothing | src/utf/to_char16.c:53-55 | without input or without a buffer the result is zero, `*read` is left alone and no cell changes |
| Transcode.ChunksAreComplete | src/utf/to_char16.c:49-69 | converting chunk by chunk and resuming from `*read` always progresses, and the chunks together are the unbounded conversion |
| Transcode.ConvertWhole | src/utf/to_char16.c:49-69 | with room for all units and the terminator the conversion is complete and cells behind the terminator are unchanged |
| Converters.CallbacksMatchCodecs | src/utf/common.c:17-57 | the four counting and writing callbacks count and write the encodings of the codecs, or refuse |
| Converters.Utf8ToChar16Len | src/utf/to_char16.c:12-22 | the exact number of 16-bit units of a well-formed text, zero for empty or malformed input |
| Converters.Char16ToUtf8Len | src/utf/utf8_from_char16.c:7-17 | the exact number of bytes of a well-formed text, zero for empty or malformed input |
| Converters.Utf8ToChar16 | src/utf/to_char16.c:49-69 | the destination array, return value and `*read` are those of the specified conversion |
| Converters.Char16ToUtf8 | src/utf/utf8_from_char16.c:19-39 | the destination array, return value and `*read` are those of the specified conversion |
| Converters.Utf16RoundTrip | src/utf/utf8_from_char16.c:19-39 | UTF-16 to UTF-8 and back is the identity on every well-formed text with large enough buffers |
| Converters.Utf8RoundTrip | src/utf/to_char16.c:49-69 | UTF-8 to UTF-16 and back is the identity on every well-formed text with large enough buffers |
| Converters.LengthSuffices | src/utf/to_char16.c:5-69 | a buffer of one cell more than the length function says receives exactly that many units and the whole input |
| Converters.LengthSuffices8 | src/utf/utf8_from_char16.c:7-39 | the same towards UTF-8 |
| Converters.ResumeUtf8 | src/utf/to_char16.c:49-69 | with at least three cells every UTF-8 text is converted completely by resuming |
| Converters.ResumeUtf16 | src/utf/utf8_from_char16.c:19-39 | with at least five cells every UTF-16 text is converted completely by resuming |
| Converters.TooSmallToResume | src/utf/to_char16.c:34-37 | with fewer than three cells a codepoint outside the basic plane is never passed: the three cells are needed |
| Streaming.Utf8State.Feed | src/printf/util.h:95-119 | one byte changes the state and reports as specified; the write index stays below 4 |
| Streaming.FeedKeepsReachable | src/printf/util.h:95-119 | on every byte the state stays a proper prefix of one announced sequence, shorter than 4 bytes |
| Streaming.StreamResynchronises | src/printf/util.h:95-119 | from every state, feeding the encoding of `cps` emits `cps`, or all but the first of them if a sequence was pending, and nothing else |
| Streaming.StreamMatchesBatch | src/printf/util.h:39-119 | a non-empty byte string is fed without error to a complete end iff the batch decoder takes all of it, and both then deliver the same codepoints |
| Streaming.WcharState.Feed | src/printf/util.h:133-154 | one 16-bit unit changes the state and reports as specified |
| Streaming.UnitsResynchronise | src/printf/util.h:133-154 | from every state, feeding the UTF-16 encoding of `cps` emits `cps`, or all but the first if a high surrogate was waiting, and nothing else |
| Streaming.UnitsMatchBatch | src/printf/util.h:133-154 | the streaming and the batch UTF-16 decoder accept the same non-empty strings and deliver the same codepoints |
| Streaming.EmitMatchesEncode | src/printf/util.h:180-191 | the shifts and masks of the emitter compute the divisions of the batch encoder |
| Streaming.StreamToWchar | src/printf/util.h:95-191 | streaming well-formed UTF-8 into 16-bit output produces its UTF-16 text |
| AllocLog.CountedChange | src/mem.c:161-162 | changing one block changes the number of counted blocks by at most that one |
| AllocLog.StepKeepsInv | src/mem.c:188-289 | every atomic step of every thread keeps: the log lists exactly the settled blocks that were not lost, and the counter is the number of counted blocks |
| AllocLog.ReportIffLost | src/mem.c:205-237 | a step reports a double free or invalid pointer iff it removes a block whose log entry was lost |
| AllocLog.RunKeepsInv | src/mem.c:188-289 | over every run of every interleaving the invariant holds and the reports are exactly the removals of lost blocks |
| AllocLog.FaultlessRun | src/mem.c:188-289 | without a failed realloc and log exhaustion no run reports anything, every logged address is live, and at quiescence log and live set agree |
| AllocLog.AnyRun | src/mem.c:156-289 | with failures too, logged addresses are live, and at quiescence the counter is the number of live blocks and the log misses exactly the lost ones |
| AllocLog.FailedReallocIsReported | src/mem.c:272-279 | a run in which a failed realloc makes a later correct free be reported |
| MemCore.Allocator.MemLogAllocated | src/mem.c:188-203 | performs the log step and the counter step of an allocation |
| MemCore.Allocator.MemLogFree | src/mem.c:205-221 | performs the log step and the counter step of a free, reporting a missing entry |
| MemCore.Allocator.MemLogReallocValidate | src/mem.c:223-237 | drops the old pointer from the log before the raw realloc, reporting a missing entry |
| MemCore.Allocator.MemLogReallocUpdate | src/mem.c:239-252 | records the new pointer, reporting a table that could not grow |
| MemCore.Allocator.Perform | src/mem.c:255-289 | each call, undisturbed, performs exactly the steps of an allocation, resize, failed resize or free, with its return value and new pointer |
| MemCore.Allocator.Core | src/mem.c:255-289 | what each kind of call leaves: a free removes the block from the allocator, the log and the counter; an allocation adds a settled block, one to the counter and, unless the table is full, its address to the log; a resize moves the block; a failed one keeps it, lost from the log; the thread is idle afterwards and a quiescent state stays so |
| MemCore.FreeDone | src/mem.c:260-270 | the steps of a free end without the block, its log entry and its count |
| MemCore.AllocationDone | src/mem.c:276-288 | the steps of an allocation end with a settled, counted block that is logged unless the table is full |
| MemCore.ResizeDone | src/mem.c:272-288 | the steps of a resize end with the block at its new address, logged unless the table is full, and an unchanged count |
| MemCore.FailedResizeDone | src/mem.c:272-279 | the steps of a failed resize end with the old block, without its log entry |
| MemCore.RunAppend | src/mem.c:255-289 | runs compose, so the steps of successive calls form one run |
| AlignedAlloc.AndWithPredecessor | src/mem_aligned.c:79 | a number has no bit in common with its predecessor iff it is a power of two |
| AlignedAlloc.BitTestIsPower | src/mem_aligned.c:79 | the test accepts exactly the powers of two up to 256, of all numbers |
| AlignedAlloc.AlignedInside | src/mem_aligned.c:86-91 | the returned pointer is a multiple of its alignment, with a byte before it and its whole range inside the raw block |
| AlignedAlloc.HiddenByteIsPrivate | src/mem_aligned.c:91 | no byte of any live range is the hidden byte of any live pointer |
| AlignedAlloc.FreeRecoversBase | src/mem_aligned.c:106-108 | the address computed from the hidden byte is the base of the raw block |
| AlignedAlloc.StepKeepsInv | src/mem_aligned.c:67-111 | every allocation, write inside a live range and free keeps the invariant |
| AlignedAlloc.RunIsSafe | src/mem_aligned.c:67-111 | over every such run each live pointer is aligned, its range lies inside its raw block, and freeing it hands back that block's base |
| AlignedAlloc.AlignedHeap.Allocate | src/mem_aligned.c:67-93 | succeeds iff the arguments are valid, the caller's pointer is null and the raw allocation succeeds; failure changes nothing |
| AlignedAlloc.AlignedHeap.Store | src/mem_aligned.c:67-111 | a write of the program inside its range keeps every hidden byte |
| AlignedAlloc.AlignedHeap.Release | src/mem_aligned.c:95-111 | hands the raw free exactly the base that was given out; a null pointer is ignored |
| AlignedLog.ReleaseFindsBlock | src/mem_aligned.c:106-109 | the address that an aligned free hands to the logged free is a live, settled block of its thread |
| AlignedLog.StepKeepsInv | src/mem_aligned.c:67-111 | every step of an aligned allocator call or of any other thread keeps: the raw blocks of live aligned pointers are settled blocks of the log |
| AlignedLog.StepReports | src/mem.c:205-221 | one step: an aligned free is not reported |
| AlignedLog.AlignedFreesAreSilent | src/mem_aligned.c:67-111 | over every interleaved run in which the log had room for the aligned blocks, no aligned free is reported, even when reallocs of other blocks fail, and the log lists every live aligned block |
| AlignedLog.NothingAtStart | src/mem_aligned.c:67-111 | these invariants hold before the first call |
| Rand.Splitmix64IsBijection | include/ovrand.h:65-69 | splitmix64 has a two-sided inverse on the 64-bit words |
| Rand.Splitmix64Injective | include/ovrand.h:65-69 | different inputs have different hashes |
| Mixing.Splitmix64Number | include/ovrand.h:65-69 | splitmix64 in arithmetic: exclusive or with quotients by 2^30, 2^27 and 2^31, products modulo 2^64 |
| Mixing.Known64 | include/ovrand.h:65-69 | first values of the sequences from 0 and from 1234567 |
| Rand.WordInjective | include/ovrand.h:82 | counting in 64-bit words stays distinct for 2^64 numbers |
| Rand.HintsAreDistinct | src/ovbase.c:33-35 | any two of 2^64 consecutive hints differ, from every start value (documented in include/ovrand.h:26-29) |
| Rand.HintsRepeat | src/ovbase.c:33-35 | the bound is exact: the hint after 2^64 more calls is the same |
| Mixing.HintNumber | src/ovbase.c:33-35 | the hint number k is the integer hash of the start value plus k times 0x9e3779b97f4a7c15, modulo 2^64 |
| Rand.GlobalHint.Get | src/ovbase.c:33-35 | one call advances the counter and returns the hint of its number in the atomic order |
| Rand.Splitmix32IsNotZero | include/ovrand.h:98-104 | splitmix32 never returns zero |
| Mixing32.Splitmix32Number | include/ovrand.h:98-104 | splitmix32 in arithmetic modulo 2^32 |
| Xoshiro.RewindAdvance64 | include/ovrand.h:187-201 | a step of xoshiro256++ can be undone |
| Xoshiro.ZeroOnlyFromZero64 | include/ovrand.h:187-201 | only the all-zero state steps to the all-zero state |
| Xoshiro.NeverZero64 | include/ovrand.h:162-201 | after init with any seed and any number of steps the state is never all zero |
| Xoshiro.RunsStayApart64 | include/ovrand.h:187-201 | runs from different states never meet at the same step |
| XoshiroNumbers.Output64Number | include/ovrand.h:189 | with x = (s0 + s3) modulo 2^64, a step returns (x * 2^23 + x / 2^41 + s0) modulo 2^64 |
| XoshiroNumbers.Advance64Number | include/ovrand.h:190-198 | the four words after a step in arithmetic: exclusive ors, a product by 2^17 and a rotation by 45 |
| XoshiroNumbers.Known64 | include/ovrand.h:187-201 | the first three numbers from the state 1, 2, 3, 4 are 41943041, 58720359 and 3588806011781223 |
| Generators.Xoshiro256pp.Init | include/ovrand.h:162-169 | the four words are consecutive values of the splitmix64 sequence, as words and as integer hashes |
| Generators.Xoshiro256pp.Step | include/ovrand.h:190-198 | the in-place update computes the step function |
| Generators.Xoshiro256pp.Next | include/ovrand.h:187-201 | returns the output of the state before it, as a word and as a number, and moves the state by one step |
| Xoshiro.RewindAdvance32 | include/ovrand.h:271-285 | a step of xoshiro128++ can be undone |
| Xoshiro.ZeroOnlyFromZero32 | include/ovrand.h:271-285 | only the all-zero state steps to the all-zero state |
| Xoshiro.NeverZero32 | include/ovrand.h:246-285 | after init with any seed and any number of steps the state is never all zero |
| XoshiroNumbers.Output32Number | include/ovrand.h:273 | with x = (s0 + s3) modulo 2^32, a step returns (x * 2^7 + x / 2^25 + s0) modulo 2^32 |
| XoshiroNumbers.Advance32Number | include/ovrand.h:274-282 | the four words after a step in arithmetic: exclusive ors, a product by 2^9 and a rotation by 11 |
| XoshiroNumbers.Known32 | include/ovrand.h:271-285 | the first three numbers from the state 1, 2, 3, 4 are 641, 1573767 and 3222811527 |
| Generators.Xoshiro128pp.Init | include/ovrand.h:246-253 | the four words are consecutive values of the splitmix32 sequence, as words and as integer hashes |
| Generators.Xoshiro128pp.Step | include/ovrand.h:274-282 | the in-place update computes the step function |
| Generators.Xoshiro128pp.Next | include/ovrand.h:271-285 | returns the output of the state before it, as a word and as a number, and moves the state by one step |
| CatalogueStrings.CompareZero | src/mo/mo.c:180-183 | the comparison is zero exactly for equal strings |
| CatalogueStrings.LessTransitive | src/mo/mo.c:180-188 | the string order is transitive |
| CatalogueStrings.LessIff | src/mo/mo.c:180-188 | a string is less than another iff they agree up to a place where it ends or has the smaller byte |
| CatalogueStrings.UpToZeroIs | src/mo/mo.c:136-139 | a C string is what stands before the first zero byte |
| CatalogueStrings.StrCmpIs | src/mo/mo.c:180 | the bytewise comparison inside the image is that order on terminated ids; it reports equality for equal strings only and reads beyond the image for unterminated ones only |
| CatalogueFind.Find | src/mo/mo.c:176-191 | in any table the search ends, a hit has the key as its id, and the table is left only if it is empty or the key is below the first id; with ids in the order of the format, exactly then, and a miss means that there is no such id |
| Catalogue.MagicSwaps | src/mo/mo.c:86-95 | the magic number of the other byte order is recognised as its own bytes swapped |
| Catalogue.ReadsBytes | src/mo/mo.c:31-39 | each reader returns the word whose base-256 digits stand at the place, lowest or highest first |
| Catalogue.AcceptedHeader | src/mo/mo.c:74-124 | every accepted image has at least 28 bytes, one of the two magic byte strings, version 0, and as many entries as its third word says in that order |
| Catalogue.EntryFits | src/mo/mo.c:128-135 | an entry is accepted iff both its texts end inside the image or at its end, and then with these offsets and lengths |
| Catalogue.TablesBeginInside | src/mo/mo.c:105-111 | an image with a table that does not begin inside it is rejected |
| Catalogue.AcceptedIsDescribed | src/mo/mo.c:68-140 | the converse of `ParseRecovers`: an accepted table of 32-bit size, whose texts are all followed by a zero byte, is that of an image that describes exactly those entries |
| Catalogue.EntryMatches | src/mo/mo.c:126-140 | reading entry `i` of a well-formed image yields the positions of its two texts |
| Catalogue.ParseRecovers | src/mo/mo.c:68-140 | parsing recovers the entries of every well-formed image with at least one entry, in order, in either byte order |
| Catalogue.EmptyIsRejected | src/mo/mo.c:119-122 | every well-formed image without entries is rejected |
| Catalogue.ParsedInside | src/mo/mo.c:119-139 | every table that is accepted, of any image, has entries and points inside the image |
| Catalogue.Parse | src/mo/mo.c:68-140 | the imperative parser computes the specified table or rejection for every image |
| Catalogue.EntryAt | src/mo/mo.c:126-140 | the loop body computes the specified entry, with its 32-bit position and range checks |
| Catalogue.Gettext | src/mo/mo.c:193-203 | in any table the answer is the key or the text of an entry with that id; in an orderly one it is the translation of that id, or the key when there is none |
| Catalogue.MatchingTails | src/mo/mo.c:136-139 | the ids that the search compares and the texts that it returns are those of the catalogue, terminated |
| Catalogue.LookUpIsMapLookUp | src/mo/mo.c:68-203 | for every well-formed catalogue image lookup is map lookup with fallback to the key, and the search never leaves the table |
| Catalogue.LookUpOfKey | src/mo/mo.c:176-203 | entry by entry: a key is answered with the text of the entry that has it as its id, and with itself when none has |
| Catalogue.Translate | src/mo/mo.c:68-203 | from image and key to the answer: whatever catalogue the image describes, the answer is its translation of the key; a rejected image answers with the key |
| Catalogue.FindLeavesTable | src/mo/mo.c:176-191 | an image that is accepted, with "b" as its only id: looking up "a" always leaves the table |
| CataloguePlural.SplitJoin | src/mo/mo.c:232-248 | splitting undoes joining forms with zero bytes |
| CataloguePlural.JoinSplit | src/mo/mo.c:232-248 | joining undoes splitting |
| CataloguePlural.FindPluralForm | src/mo/mo.c:232-248 | finds form `n` if it exists and no form up to it is empty, and only then when the text is terminated |
| CataloguePlural.Form | src/mo/mo.c:262-278 | the plural rule applied to a message: no form, the whole text, or the selected form, with the fallback |
| CataloguePlural.NGettext | src/mo/mo.c:250-279 | in a table that is as the format demands, the answer is the chosen form of the entry with that id, or the singular or plural key |
| CataloguePlural.PluralLookUp | src/mo/mo.c:250-279 | under the two-form rule, for every entry of every well-formed catalogue image: `n` selects the first form iff it is 1, else the second; where that form, or the first one, is empty or missing, the answer is the key for 1 and the plural argument otherwise |
| CataloguePlural.PluralSimpleRules | src/mo/mo.c:263-278 | for a key that is present: without a rule the answer is the key iff `n` is 1, else the plural argument; under the one-form rule it is the whole text |
| CataloguePlural.PluralOfMissingKey | src/mo/mo.c:275-278 | for a key that no entry has, under every rule, the answer is the key iff `n` is 1, else the plural argument |
| Decimal.ScanDigits | src/num/inc/atou.inc.c:11-19 | the digit loop computes the wrapped value, or stops at the first wrapped decrease |
| Decimal.ParseUnsigned | src/num/inc/atou.inc.c:5-28 | the parser accepts and returns what the specification says, strict or not |
| Decimal.AtouExact | src/num/inc/atou.inc.c:13-19 | on digit strings whose value without the last digit fits, the exact answer: the value, a rejection, or a wrapped value |
| Decimal.AtouExactUpTo20 | src/num/inc/atou.inc.c:13-19 | the exact answer for every digit string of at most 20 digits |
| Decimal.AtouAcceptsBelow | src/num/inc/atou.inc.c:13-27 | every digit string with a value below 2^64 is accepted with that value |
| Decimal.AtouRejectsSlightOverflow | src/num/inc/atou.inc.c:16-18 | every digit string with value v of at least 2^64 and 9v + 9 < 10 * 2^64 is rejected |
| Decimal.AtouAcceptsLargeOverflow | src/num/inc/atou.inc.c:16-18 | 30000000000000000000 is accepted with a wrong value |
| Decimal.AtouOnDigits | src/num/inc/atou.inc.c:11-27 | every digit string with value v, of any length, is rejected iff for some j the word of v without its last j digits is smaller than without its last j + 1 digits; otherwise the answer is v modulo 2^64 |
| Decimal.AtouRightIff | src/num/inc/atou.inc.c:13-27 | the answer is right (the value, or a rejection of values from 2^64 on) iff the value fits or its overflow is noticed in that sense |
| Decimal.AtouWithTail | src/num/inc/atou.inc.c:11-27 | digits followed by anything else: rejected iff strict and the tail is neither empty nor a terminator, or the digits alone are rejected; otherwise the digits decide |
| Decimal.AtouNeedsDigit | src/num/inc/atou.inc.c:20-22 | without a digit at the front nothing is accepted, strict or not |
| Decimal.DigitsHaveValue | src/num/inc/utoa.inc.c:20-29 | the printed digits of a number are digits and have its value |
| Decimal.Figures | src/num/inc/utoa.inc.c:25-28 | digit d is the d-th of "0123456789" in printing and parsing, and no other character is a digit |
| Decimal.ValueOfFirst | src/num/inc/atou.inc.c:13-15 | the first digit of a string counts most: its value is multiplied by ten for every later digit |
| Decimal.NoLeadingZero | src/num/inc/utoa.inc.c:20-29 | a printed number starts with a zero iff it is zero |
| Decimal.DigitsOfValue | src/num/inc/utoa.inc.c:20-29 | printing is the inverse of reading on every digit string without a leading zero |
| Decimal.SignedForm | src/num/inc/itoa.inc.c:21-31 | a printed signed number has a minus iff it is negative, and no plus |
| Decimal.PrintUnsigned | src/num/inc/utoa.inc.c:5-30 | the digits and a terminator are written at the end of the buffer, in at most 21 cells; other cells are unchanged |
| Decimal.PrintDigits | src/num/inc/utoa.inc.c:20-29 | the backward loop writes exactly the digits and the terminator |
| Decimal.PrintSigned | src/num/inc/itoa.inc.c:5-33 | the sign, digits and terminator are written at the end of the buffer, in at most 21 cells, also for the least integer |
| Decimal.ParseSigned | src/num/inc/atoi.inc.c:5-35 | the parser accepts and returns what the specification says, strict or not |
| Decimal.RangeTestExact | src/num/inc/atoi.inc.c:30-33 | the range test passes iff the signed value fits, and the wrapped product is then that value |
| Decimal.AtoiOnDigits | src/num/inc/atoi.inc.c:11-34 | every digit string behind no sign, plus or minus is accepted iff its overflow is not noticed and the signed wrapped value fits, which is then the answer |
| Decimal.AtoiRightIff | src/num/inc/atoi.inc.c:11-34 | the answer is right iff the magnitude is below 2^64, its overflow is noticed, or the signed wrapped value does not fit |
| Decimal.AtoiWithTail | src/num/inc/atoi.inc.c:11-34 | the same behind no sign, a plus or a minus |
| Decimal.AtoiNeedsDigit | src/num/inc/atoi.inc.c:11-26 | a lone sign, two signs, or anything else without a digit is rejected, strict or not |
| Decimal.Extremes | src/num/inc/atoi.inc.c:30-33 | the least and the largest 64-bit integer are accepted, their neighbours outside rejected |
| Decimal.AtoiExact | src/num/inc/atoi.inc.c:11-34 | a digit string below 2^64 behind no sign, plus or minus is accepted iff its signed value fits, with that value |
| Decimal.AtoiExactUpTo20 | src/num/inc/atoi.inc.c:11-34 | the exact answer for up to 20 digits, in terms of the wrapped value and the value without the last digit |
| Decimal.AtoiAcceptsLargeOverflow | src/num/inc/atoi.inc.c:20-22 | 25000000000000000000 is accepted with a wrong value |
| Decimal.UnsignedRoundTrip | src/num/inc/utoa.inc.c:20-29 | parsing what was printed returns the number, for every 64-bit unsigned value |
| Decimal.SignedRoundTrip | src/num/inc/itoa.inc.c:20-32 | parsing what was printed returns the number, for every 64-bit signed value |

## Left out

- Null callbacks and null pointers that the C functions test for; the models have no such values, except where null is a legal argument of an allocator call.
- The callback of a batch decoder works on a context value that it returns; a converter therefore writes into a copy of its buffer and stores it at the end. Callbacks that alias the input are not captured.
- Comparators that change the items they compare.
- Streaming.WcharState.Feed: only the branch for 16-bit `wchar_t`; with 32-bit `wchar_t` each unit is checked alone.
- The hash table of the allocation log is third-party code: it is a set of addresses here, a put that runs out of memory leaves it unchanged, and file positions are not recorded. A set assumes that `am_compare` separates addresses; it cuts the pointer difference to `int` (`src/mem.c:52-59`), so two addresses that differ by a multiple of 2^32 compare as equal, which shows when their hashes collide too.
- Frees and reallocs of pointers that the thread does not own, the order of messages, `report_leaks`, locks as objects, and the hooks for other allocators.
- MemCore.Allocator.Core: one call without interference; interleavings are the subject of `AllocLog`.
- The mimalloc branch of the aligned allocator, which calls a foreign allocator.
- AlignedAlloc.AlignedHeap.Allocate: the product of count and item size, the alignment and the base must fit the address space; overflow of the product is not modelled.
- The emitter `emit_codepoint_as_utf8`, whose bytes are those of `ovutf_utf8_write`.
- Catalogue.ParseTable: stops before the header line is read, so the plural rule is a parameter of `NGettext`; running out of memory is not modelled.
- Catalogue.ParseRecovers: tables of more than 2^29 entries, whose 32-bit offsets wrap, are not well-formed images here.
- What the C code finds behind the image: reading table words there is the outcome `Outside`, reading a string there `Unterminated` or `Beyond`, leaving the table in a search `Wild` or `Undefined`.
- CataloguePlural.NGettext: for malformed tables (ids out of order, texts without a terminator) little is promised.
- AlignedLog.AlignedFreesAreSilent: the raw allocator is assumed to hand out memory that no live aligned block overlaps.
- `mo_pgettext`, the header scan and the locale queries: string assembly and operating-system calls.
- Decimal conversion of floating-point numbers, and the integer widths other than 64 bits.
- The 32-bit and wide variants of the batch codecs, near copies of the 16-bit ones, and the Shift_JIS table.
- cyrb64 and SipHash, which have no specification other than their arithmetic.
- Arrays, bit arrays, errors, formatted output, files, threads, initialisation and exit: easier claims about plumbing.
