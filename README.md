# Packed memory arrays and a deamortized vector, in Dafny

A packed memory array (PMA) keeps a sorted set of integers in an array that
has deliberate gaps. Inserting an element usually needs only a few moves.
When a region gets too dense, the elements of the smallest aligned window
around the insertion point that is still below its density threshold are
spread out evenly over that window. When no such window exists, the whole
array doubles.

The model covers three pieces of the repository:

* `impl1.cpp`, class `PackedMemoryArray`. The store is cut into segments
  (`segment_size` slots each), with `l` levels of windows above a segment.
  A value goes after its predecessor, which is found by a binary search over
  segments. A dense region is handled by `smallest_interval_in_balance` and
  `rebalance`, and a full store by `expand_PMA`. Module `SegmentedPma`, file
  `segmented_pma.dfy`.
* `pma_tests/impl2.cpp`, struct `PMA`. The store is cut into chunks of
  `1 << log2(2 log2 capacity)` slots. A value is merged into the chunk that
  `lower_bound` picks. Windows of 2^level chunks are rebalanced, and the
  store doubles through `resize`. The same file holds the iterator's
  `operator++`, `log2` and `is_sorted`. Module `ChunkedPma`, file
  `chunked_pma.dfy`.
* `tests/dvector.hpp`, `deamortized_vector<T>`. A growable array whose
  doubling copies nothing up front: every later `push_back` migrates at most
  two elements of the previous buffer. Module `DeamortizedVectors`, file
  `dvector.dfy`.

Module `Slots` (`slots.dfy`) holds the shared vocabulary:

* powers of two, `log2` and popcount;
* aligned windows;
* `Count` (occupied slots of a range) and `Present` (the values of the
  occupied slots of a range, left to right, which is what an in-order
  traversal of a PMA yields);
* sortedness, reversal and cleared flags.

Each PMA is a Dafny class with array fields. Its methods carry `modifies`
clauses and are proved against specification functions on `store[..]`
and the flag array. The properties proved are these:

* Every insertion adds exactly one element: the multiset grows by `e`.
* The elements stay sorted through every insert. In impl2 this rests on a
  second invariant: the occupied chunks form a suffix of the store. An
  escalated rebalance or a resize spreads a window that is at least a
  quarter full, over chunks of at least 4 slots, so it leaves none of its
  chunks empty; a merge lands in an occupied chunk or the last one. On such a store the chunk
  search of `lower_bound` finds the chunk the value belongs in. In impl1
  the second invariant is that every segment holds an element once the
  store has more than two segments, for the same reason (a window above
  level 0, or a doubled store, is at least a quarter full when spread, and
  such stores have segments of at least 4 slots); on such a store the
  binary search of `upper_bound` finds the predecessor.
* In impl2 an insert into such a store needs at most one restart. After a
  rebalance or a resize, the chunk the restart merges into has a free
  slot. A window within its threshold holds at most g - 1 values per chunk
  of g slots, because each chunk has more slots than lgn. Spreading that
  many values evenly leaves every chunk of the window with a free slot.
  The restart's merge target lies inside the spread window.
* A rebalanced window lists the same values as before, spread evenly.
* Every search returns what its reference definition says.
* The deamortized vector reads back, at every index, the element pushed
  there.

No bound on the density of every window at every level is claimed for
either PMA: impl1 does not keep one (see "## Left out").

## Model

| member | source | states |
|---|---|---|
| Slots.Log2 | pma_tests/impl2.cpp:16-23 | for n >= 1 the result is floor(log2 n): 2^r <= n < 2^(r+1); for n <= 1 it is 0 |
| Slots.Pow2Add | impl1.cpp:373 | `1 << (a + b)` is `(1 << a) * (1 << b)`; in particular `1 << (k + 1)` is twice `1 << k` |
| Slots.Pow2Monotone | impl1.cpp:373 | a larger shift gives a larger power: a <= b implies `1 << a` <= `1 << b` |
| Slots.Log2OfPow2 | impl1.cpp:379 | `log2(1 << k)` is k, so `l = log2n - log2(segment_size)` subtracts the shift |
| Slots.PopCount | impl1.cpp:158 | `__builtin_popcount(x)` is at most x, and for x >= 1 it lies between 1 and floor(log2 x) + 1, the bit length of x |
| Slots.PopCountAllOnes | impl1.cpp:155-166 | the popcount of 2^k - 1, which the constructor and `expand_PMA` take as log2 of a power-of-two size, is k |
| Slots.AlignDownBounds | pma_tests/impl2.cpp:126-135 | rounding i down to a multiple of w gives the start of the aligned block holding i: 0 <= b <= i < b + w |
| SegmentedPma.CapacityAt | impl1.cpp:139-142 | the window at level k has segment_size * 2^k slots, at least one |
| SegmentedPma.UpperThresholdAt | impl1.cpp:93-99 | the threshold is 1.0 at level 0, 0.5 at level l, and between the two at every level in between |
| SegmentedPma.ThresholdTimesCapacity | impl1.cpp:109-113 | threshold times capacity equals the exact rational c(2l - level)/(2l) |
| SegmentedPma.FastPathOverfills | impl1.cpp:233-238 | from the constructor's store [e, -], a value x >= e has its predecessor in slot 0, the fast path fills slot 1, and the whole store then holds 2 values where its threshold allows 1 |
| SegmentedPma.IsOutOfBalance | impl1.cpp:115-119 | a window with no element is never out of balance, and one holding more elements than its capacity always is |
| SegmentedPma.Allowed | impl1.cpp:115-119 | the element count `floor(upper_threshold_at(level) * CAPACITY_AT(level))` a window may hold lies between 0 and the window's capacity |
| SegmentedPma.OutOfBalanceExact | impl1.cpp:109-119 | a window is too full exactly when it holds more than floor(c(2l - level)/(2l)) elements; that bound never exceeds the window, is the whole segment at level 0 and half the store at level l |
| SegmentedPma.SegmentSizeFor | impl1.cpp:158-166 | the segment size for 2^log2n slots (log2n itself when a power of two, as the constructor's branch at line 165; otherwise `expand_PMA`'s rounding of line 373) is a power of two, at least log2n, and leaves at least one level above a segment |
| SegmentedPma.LevelsFor | impl1.cpp:167 | l = log2n - log2(segment_size) is at least 1, and the window at level l is the whole store of 2^log2n slots |
| SegmentedPma.SegmentGeometry | impl1.cpp:368-379 | from popcount(size - 1) the method computes exactly `SegmentSizeFor` and `LevelsFor` of a 2^k-slot store: log2n rounded up to a power of two, and l = log2n - log2(segment_size) |
| SegmentedPma.ExpandSegmentSizeAsWritten | impl1.cpp:370-379 | the segment size `expand_PMA` computes is a power of two (as-written half of a finding) |
| SegmentedPma.ExpandLevelsVanishAsWritten | impl1.cpp:370-379 | when log2n is a power of two, `expand_PMA` sets segment_size to the whole store, so l becomes 0 |
| SegmentedPma.SpreadSlot | impl1.cpp:413-420 | with m <= c elements, the j-th offset `index + (int)p - 1` lies inside the window and leaves room for the m - 1 - j elements after it; the last element takes the window's last slot |
| SegmentedPma.SpreadSlotIncreasing | impl1.cpp:413-420 | the offsets strictly increase, so no two elements share a slot |
| SegmentedPma.SpreadStart | impl1.cpp:413-420 | an empty window is the starting state of the copy-back |
| SegmentedPma.SpreadStep | impl1.cpp:413-420 | writing the j-th value at its offset fills a free slot and keeps the copy-back invariant |
| SegmentedPma.SpreadStepPlaced | impl1.cpp:413-420 | the values already placed stay where they are |
| SegmentedPma.SpreadDone | impl1.cpp:413-420 | at the end, the window holds the values evenly spread and nothing outside it changed |
| SegmentedPma.CompactStep | impl1.cpp:432-448 | one slot of the right-to-left compaction: a free slot is skipped, and an occupied one moves to `last` |
| SegmentedPma.CompactDone | impl1.cpp:432-448 | after the compaction pass, the window lists its old values packed against its right end |
| SegmentedPma.SpreadLeftStart | impl1.cpp:451-468 | the compacted window is the starting state of the left-moving spread |
| SegmentedPma.SpreadLeftSlots | impl1.cpp:451-468 | each packed value's target offset is at or left of its packed slot, with only free slots in between |
| SegmentedPma.SpreadLeftStep | impl1.cpp:451-468 | moving the j-th value left to its offset keeps the spread invariant |
| SegmentedPma.SpreadLeftMove | impl1.cpp:451-468 | the move is a legal one: an occupied slot to a free one, or no move |
| SegmentedPma.SpreadLeftStateSpreading | impl1.cpp:451-468 | every state the spread pass passes through satisfies the spread invariant |
| SegmentedPma.SpreadLeftNext | impl1.cpp:451-468 | step j of the pass moves an occupied slot to a free one, or stays put |
| SegmentedPma.SpreadLeftEnd | impl1.cpp:451-468 | the pass ends evenly spread, with nothing outside the window touched |
| SegmentedPma.WindowKept | impl1.cpp:424-469 | a window whose listing is unchanged, with the rest of the store untouched, leaves the whole listing unchanged |
| SegmentedPma.MergeFromRight | impl1.cpp:396-410 | the right-to-left merge of `rebalance(index, level, e)` is one longer than the window (its content is stated by the two lemmas below) |
| SegmentedPma.MergeFromRightMultiset | impl1.cpp:396-410 | the merge of `rebalance(index, level, e)`, which walks the window right to left and puts e just after the rightmost value smaller than e, holds exactly the window's values plus e |
| SegmentedPma.MergeFromRightSorted | impl1.cpp:396-410 | that right-to-left merge keeps a sorted window sorted |
| SegmentedPma.MergeFromLeft | impl1.cpp:342-359 | the left-to-right merge of `expand_PMA` is one longer than the values merged (its content is stated by the lemmas below) |
| SegmentedPma.MergeFromLeftMultiset | impl1.cpp:342-359 | the merge of `expand_PMA`, which walks left to right and puts e before the first value greater than e, holds exactly the values plus e |
| SegmentedPma.MergeFromLeftSorted | impl1.cpp:342-359 | that left-to-right merge keeps sorted values sorted |
| SegmentedPma.MergeFromLeftSplit | impl1.cpp:342-359 | when every value of a is at most e and b starts above e, the merge is a + [e] + b |
| SegmentedPma.CollectEmpty | impl1.cpp:396-407 | an empty slot of the collecting pass pushes nothing |
| SegmentedPma.CollectInsert | impl1.cpp:396-407 | at the first value smaller than e, the pass pushes e and then that value |
| SegmentedPma.CollectKeep | impl1.cpp:396-407 | any other occupied slot pushes its value alone |
| SegmentedPma.CollectNext | impl1.cpp:396-407 | one slot of the pass: e counts as pushed once an occupied slot holds a value below it, and the slot pushes its value plus e the first time |
| SegmentedPma.CollectPassStep | impl1.cpp:396-407 | the pass over slots i..index is one slot followed by the pass over the rest |
| SegmentedPma.CollectWhole | impl1.cpp:396-410 | the whole pass, read backwards, is the right-to-left merge of e into the window |
| SegmentedPma.CollectPassMerges | impl1.cpp:396-410 | the invariant of the pass: what is pushed, completed by the rest, is the merge |
| SegmentedPma.CollectDone | impl1.cpp:409-410 | if e was never pushed, pushing it last completes the merge |
| SegmentedPma.SortedAfterWindowMerge | impl1.cpp:386-421 | merging e into a window keeps the store sorted when the values before the window are at most e and those after it are above e |
| SegmentedPma.WindowSpliced | impl1.cpp:386-421 | when the window's new listing is the merge, the store's listing is the splice and gains one element |
| SegmentedPma.WindowRebalanced | impl1.cpp:386-421 | after the collect and the copy-back, the store lists the splice of the merged window |
| SegmentedPma.FreeSlotSplice | impl1.cpp:235-238 | filling a free slot with e splices e into the listing at that place |
| SegmentedPma.FreeSlotMultiset | impl1.cpp:235-238 | filling a free slot adds exactly e to the elements |
| SegmentedPma.FreeSlotSorted | impl1.cpp:235-238 | filling the free slot right after the predecessor of e keeps the elements sorted |
| SegmentedPma.SpliceMultiset | impl1.cpp:386-421 | splicing the merge into a window adds exactly e |
| SegmentedPma.SpliceSorted | impl1.cpp:386-421 | the splice is sorted when everything before the window is at most e and everything after it is above e |
| SegmentedPma.WindowInsert | impl1.cpp:240-249 | rebalancing a window that contains the predecessor's successor slot keeps a sorted listing sorted |
| SegmentedPma.SpliceBounds | impl1.cpp:240-249 | relative to the predecessor pos of e, the values before the window are at most e and those after it are above e |
| SegmentedPma.WindowMergeSorted | impl1.cpp:386-421 | merging e into the middle part of a sorted listing keeps it sorted under those bounds |
| SegmentedPma.LastAtMost | impl1.cpp:252-259 | reference definition of a segment scan: -1, or an occupied slot of the range holding a value at most e |
| SegmentedPma.LastAtMostCorrect | impl1.cpp:252-259 | LastAtMost is the last occupied slot of the range at most e, and the only answer that satisfies that description |
| SegmentedPma.SegmentStartProduct | impl1.cpp:255 | the first slot of segment v is v * segment_size |
| SegmentedPma.SegmentsOrdered | impl1.cpp:261-274 | segment i ends no later than a later segment j starts |
| SegmentedPma.SegmentOf | impl1.cpp:261-274 | every slot before segment k lies in one of the first k segments |
| SegmentedPma.SegmentAfter | impl1.cpp:261-274 | a slot past the end of segment m lies in a later segment |
| SegmentedPma.SegmentFlagsAt | impl1.cpp:261-274 | the m-th flag says whether segment m holds a value at most e |
| SegmentedPma.SegmentSearch | impl1.cpp:263-273 | the binary search over segment flags settles on a segment inside [lo, hi] |
| SegmentedPma.SegmentFlagsPointwise | impl1.cpp:261-274 | the flags are exactly the per-segment tests |
| SegmentedPma.FlagsOfSegmentFlags | impl1.cpp:261-274 | flags given pointwise are the segment flags |
| SegmentedPma.SegmentSearchLands | impl1.cpp:264-271 | the search result is lo, or a segment whose flag holds |
| SegmentedPma.SegmentProbe | impl1.cpp:264-271 | the scan of the middle segment decides which half still holds the result |
| SegmentedPma.SegmentSearchRightmost | impl1.cpp:264-271 | on prefix-closed flags, the search finds the last segment whose flag holds |
| SegmentedPma.ProbesAsWritten | impl1.cpp:263-271 | the binary search as written probes at least one segment, every probe lies between its bounds lo and hi, and only the last probe can fall outside the store (as-written half of a finding) |
| SegmentedPma.ProbesAsWrittenLeaveStore | impl1.cpp:263-271 | when every segment holds a value at most the key, the last probe is segment nseg, which lies past the end of the store |
| SegmentedPma.SegmentAbove | impl1.cpp:261-274 | a segment whose flag fails holds only values above e |
| SegmentedPma.LastAtMostWiden | impl1.cpp:261-274 | the last match of a range stays the last match of a wider range when the added part holds no match |
| SegmentedPma.LastFlaggedSegmentFindsPredecessor | impl1.cpp:261-274 | the scan of the last flagged segment (or of segment 0) is the last match over the whole store |
| SegmentedPma.SegmentSearchFindsPredecessor | impl1.cpp:261-274 | on prefix-closed flags, search and then scan yield the last slot of the whole store holding a value at most e |
| SegmentedPma.EarlierRangeAtMost | impl1.cpp:261-274 | in a sorted store, a range holding a value at most e makes every earlier non-empty range hold one too |
| SegmentedPma.SortedFullSegmentsPrefixClosed | impl1.cpp:261-274 | in a sorted store where every segment is occupied, the flags are prefix-closed, so the search is exact |
| SegmentedPma.SegmentSearchExact | impl1.cpp:261-274 | with one or two segments, or in a sorted store whose segments all hold an element, search and then scan yield the last slot of the whole store holding a value at most e |
| SegmentedPma.CapacityNested | impl1.cpp:282-330 | window capacities double from level to level, and the window at every level up to l tiles the store |
| SegmentedPma.CapacityBelow | impl1.cpp:282-330 | a window no larger than the store lies at a level no higher than l |
| SegmentedPma.WindowCountAsWritten | impl1.cpp:300-305 | the count as written is the count of [left, right) plus one when slot `right`, the first slot of the next window, is occupied (as-written half of a finding) |
| SegmentedPma.SmallestIntervalOvercounts | impl1.cpp:300-305 | with the inclusive bound, a two-slot segment holding 1 element is counted as 2 and judged out of balance, though it is not (as-written half of a finding) |
| SegmentedPma.TwoSlotSegmentHoldsTwo | impl1.cpp:109-119 | with segments of 2 slots and l = 1, a segment may hold 2 elements but not 3 |
| SegmentedPma.WindowGrow | impl1.cpp:285-318 | one escalation step: the aligned window twice as large contains the current one and fits in the store |
| SegmentedPma.EscalationWindow | impl1.cpp:294-320 | the next window's count is the current window's count plus the counts of the two flanking parts |
| SegmentedPma.EscalationFound | impl1.cpp:306-312 | a counted window that fits one more element is the window reported |
| SegmentedPma.EscalationCrowded | impl1.cpp:306-320 | a counted window that is crowded lets the escalation go on with one more crowded level |
| SegmentedPma.EscalationDecided | impl1.cpp:294-320 | each step either ends with the reported window or extends the crowded levels |
| SegmentedPma.FoundWindowRoom | impl1.cpp:282-330 | the reported window holds fewer elements than it has slots, so the merge of one more element fits |
| SegmentedPma.RoomBelowThreshold | impl1.cpp:109-119 | a window that is not crowded has a free slot |
| SegmentedPma.CapacitySegmented | impl1.cpp:139-142 | the window at every level is made of whole segments |
| SegmentedPma.FillKeepsSegmentsOccupied | impl1.cpp:233-238 | filling a free slot, as the fast path of `insert_element_after` does, keeps every segment occupied |
| SegmentedPma.SpreadHitsBlock | impl1.cpp:413-420 | with m values spread over c <= 4m slots, some value lands in any block of g >= 4 slots inside the window |
| SegmentedPma.SpreadFillsBlock | impl1.cpp:413-420 | a window spread evenly with at most four slots per value has an element in every block of at least four slots, and a window of one block has one in it |
| SegmentedPma.SegmentInOrOut | impl1.cpp:139-142 | a segment lies wholly before, wholly after or wholly inside an aligned window of whole segments |
| SegmentedPma.WindowKeepsSegmentsOccupied | impl1.cpp:386-421 | a rebalanced window (one segment, or at most four slots per value) with the rest of the store unchanged keeps every segment occupied |
| SegmentedPma.WindowRebalanceFilled | impl1.cpp:386-421 | rebalancing the window `smallest_interval_in_balance` reports, in a store of four-slot or larger segments that are all occupied, leaves every segment occupied |
| SegmentedPma.FoundWindowDense | impl1.cpp:282-330 | a window reported above level 0 holds, with e, more than a quarter of its slots, because the crowded window one level down is at least half full |
| SegmentedPma.CrowdedStoreDense | impl1.cpp:282-330 | when every level is crowded the store is at least half full, so its double with e added is at least a quarter full |
| SegmentedPma.WideSegments | impl1.cpp:370-379 | a store of 2^k slots in segments of `SegmentSizeFor(k)` slots has more than two segments only when each has at least four slots |
| SegmentedPma.SpreadStoreFilled | impl1.cpp:332-384 | a doubled store spread evenly with at most four slots per value has every segment occupied once it has more than two |
| SegmentedPma.CounterAsWritten | impl1.cpp:471-478 | the counter as the source keeps it never falls and grows by at most one per edit (as-written half of a finding) |
| SegmentedPma.CounterAsWrittenDrifts | impl1.cpp:471-478 | a legal run of edits (clear slot 0, fill slots 0 and 1) leaves 2 elements, but the counter as written says 3 (as-written half of a finding) |
| SegmentedPma.CounterTracksCount | impl1.cpp:193-209 | a counter that rises on every fill and falls on every clear equals the number of occupied slots after any legal run of edits |
| SegmentedPma.NewFlagsLengthAsWritten | impl1.cpp:338 | the new flag vector as written has room for the s old elements and e, and no more is promised (as-written half of a finding) |
| SegmentedPma.NewFlagsTooShort | impl1.cpp:338 | for every valid array, s + 1 is less than twice the store size, so the new flag vector stops short of the doubled store (as-written half of a finding) |
| SegmentedPma.PackedMemoryArray.Segments | impl1.cpp:263 | there is at least one segment, and the segments cover the store exactly |
| SegmentedPma.PackedMemoryArray.Elements | impl1.cpp:129-132 | the in-order listing has exactly s elements |
| SegmentedPma.PackedMemoryArray.constructor | impl1.cpp:144-174 | a 2-slot store with e in slot 0, slot 1 free and s = 1, with one-slot segments and l = 1; it is ordered (sorted, two segments) |
| SegmentedPma.PackedMemoryArray.InsertElementAt | impl1.cpp:193-209 | a free slot receives e and its flag is set; s rises by one; nothing else changes |
| SegmentedPma.PackedMemoryArray.DeleteElementAt | impl1.cpp:471-478 | an occupied slot's flag is cleared and s falls by one; the values are untouched |
| SegmentedPma.PackedMemoryArray.MoveElement | impl1.cpp:440-446 | an element moves from an occupied slot to a free one; s is unchanged |
| SegmentedPma.PackedMemoryArray.ElemAt | impl1.cpp:121-127 | the value at an occupied slot is the element whose rank is the number of occupied slots before it |
| SegmentedPma.PackedMemoryArray.Find | impl1.cpp:211-223 | a hit is an occupied slot holding e with every earlier element smaller; in a sorted array -1 means exactly that e is absent |
| SegmentedPma.PackedMemoryArray.UpperBoundInSegmentAsWritten | impl1.cpp:252-259 | returns the FIRST occupied slot of the segment holding a value at most e (as-written half of a finding) |
| SegmentedPma.PackedMemoryArray.UpperBoundInSegment | impl1.cpp:252-259 | returns the LAST occupied slot of the segment holding a value at most e, or -1; the store is unchanged |
| SegmentedPma.PackedMemoryArray.SearchedSegment | impl1.cpp:263-271 | the search settles on a segment inside the store |
| SegmentedPma.PackedMemoryArray.UpperBound | impl1.cpp:261-274 | returns -1 or an occupied slot at most e, namely the last match of the segment the search settles on; the search starts at the last segment; with at most two segments, or in a sorted store whose segments all hold an element, it is the last slot of the whole store holding a value at most e |
| SegmentedPma.PackedMemoryArray.SearchSegments | impl1.cpp:263-271 | the binary search over the segments, started at the last segment, settles on the segment `SegmentSearch` gives for the per-segment flags "holds a value at most e" |
| SegmentedPma.PackedMemoryArray.CountOccupied | impl1.cpp:300-305 | the number of occupied slots of [lo, hi) |
| SegmentedPma.PackedMemoryArray.SmallestIntervalInBalance | impl1.cpp:282-330 | 1 with the smallest aligned window around the insertion point that fits one more element, every smaller window being crowded; -1 when every level is crowded |
| SegmentedPma.PackedMemoryArray.CollectSlot | impl1.cpp:396-407 | one slot of the collecting pass: its flag is cleared, and e and the value are pushed as the merge requires |
| SegmentedPma.PackedMemoryArray.CollectWindow | impl1.cpp:396-410 | the collected list, reversed, is the right-to-left merge of e into the window; the window is cleared and nothing else changes |
| SegmentedPma.PackedMemoryArray.CollectSlots | impl1.cpp:396-407 | the loop yields what the reference pass pushes; it clears exactly the window |
| SegmentedPma.PackedMemoryArray.SpreadCopy | impl1.cpp:413-420 | the values are spread evenly over the emptied window; nothing outside it changes; s grows by their number |
| SegmentedPma.PackedMemoryArray.RebalanceInsert | impl1.cpp:386-421 | the window holds its old values merged with e, evenly spread; the store's listing is the splice; s + 1; nothing outside the window changes |
| SegmentedPma.PackedMemoryArray.CompactWindow | impl1.cpp:432-448 | the window's listing is packed against its right end and count is its length |
| SegmentedPma.PackedMemoryArray.SpreadLeft | impl1.cpp:451-468 | the packed values are moved left to their evenly spread offsets; nothing outside the window changes |
| SegmentedPma.PackedMemoryArray.SpreadLeftSlots | impl1.cpp:451-468 | the loop ends in the state the reference spread pass reaches |
| SegmentedPma.PackedMemoryArray.Rebalance | impl1.cpp:424-469 | the window lists the same values, evenly spread when it is non-empty; the elements and s are unchanged |
| SegmentedPma.PackedMemoryArray.ExpandPma | impl1.cpp:332-384 | the store doubles; the elements become the left-to-right merge of e, spread evenly over the whole store; the multiset gains e; sortedness is kept; a new store at least a quarter full has every segment occupied once it has more than two |
| SegmentedPma.PackedMemoryArray.RebalanceAll | impl1.cpp:383 | the whole store is spread evenly with the elements unchanged |
| SegmentedPma.PackedMemoryArray.Regrow | impl1.cpp:332-379 | doubles the store holding the merge of e, with `SegmentSizeFor` and `LevelsFor` of the new size as its geometry |
| SegmentedPma.PackedMemoryArray.MergedCopy | impl1.cpp:336-361 | fresh doubled arrays hold the merge of e packed at the front, with flags set on exactly that prefix |
| SegmentedPma.PackedMemoryArray.CopyAtMost | impl1.cpp:342-348 | copies every element up to the first one greater than e to the front of the new store |
| SegmentedPma.PackedMemoryArray.CopyRest | impl1.cpp:355-359 | appends the remaining elements after the ones already copied |
| SegmentedPma.PackedMemoryArray.InsertElementAfter | impl1.cpp:225-250 | s + 1; the multiset gains e; placing e after its predecessor keeps an ordered array (sorted, with its segments occupied once there are more than two) ordered; when the slot after pos is free, that slot takes e and nothing else changes |
| SegmentedPma.PackedMemoryArray.InsertIntoFreeSlot | impl1.cpp:234-238 | when the slot after pos is free, that slot takes e and nothing else changes; s + 1; the multiset gains e; an ordered array stays ordered when pos is the last slot at most e |
| SegmentedPma.PackedMemoryArray.InsertRebalancing | impl1.cpp:240-249 | when the slot after pos is taken, the rebalance or the doubling adds exactly e and keeps the array ordered |
| SegmentedPma.PackedMemoryArray.InsertInWindow | impl1.cpp:246-248 | rebalancing the window `smallest_interval_in_balance` reports, with e merged in, adds exactly e and keeps the array ordered |
| SegmentedPma.PackedMemoryArray.InsertElement | impl1.cpp:276-280 | s + 1; the multiset gains e; an ordered array (sorted, with its segments occupied once there are more than two, so that `upper_bound` finds the predecessor) stays ordered |
| ChunkedPma.FloorLog2 | pma_tests/impl2.cpp:16-23 | the halving loop computes floor(log2 n) for n >= 1 and 0 for n <= 1 |
| ChunkedPma.ChunkSizeFor | pma_tests/impl2.cpp:116-124 | the chunk size is a power of two |
| ChunkedPma.ChunkExponent | pma_tests/impl2.cpp:116-124 | for 2^k slots (k >= 1) the chunk size is 2^c with 1 <= c <= k |
| ChunkedPma.LeftIntervalBoundary | pma_tests/impl2.cpp:126-135 | the start of the aligned block of width w that contains slot i |
| ChunkedPma.InitVarsGeometry | pma_tests/impl2.cpp:116-124 | `init_vars` yields chunks of at least 2 slots, 2^nlevels chunks and lgn = log2 capacity |
| ChunkedPma.GeometryTiles | pma_tests/impl2.cpp:116-124 | the chunks tile the store: nchunks * chunk_size == capacity |
| ChunkedPma.WindowFits | pma_tests/impl2.cpp:326-341 | the aligned window of 2^level chunks around any slot lies inside the store |
| ChunkedPma.UpperThreshold | pma_tests/impl2.cpp:109-114 | 1 at the chunk level, 0.5 at level lgn, between the two in between |
| ChunkedPma.InLimit | pma_tests/impl2.cpp:162-172 | `get_interval_stats`' test q < t: a window less than half full is always in limit, and a full window never is |
| ChunkedPma.ThresholdExact | pma_tests/impl2.cpp:161-172 | the density test sz/w < threshold holds exactly when 2 lgn sz < w (2 lgn - level) |
| ChunkedPma.SpacedSlot | pma_tests/impl2.cpp:269-280 | with m <= w values, the offset `i * m` (floor(i w / m)) of each value lies inside the window |
| ChunkedPma.SpacedSlotIncreasing | pma_tests/impl2.cpp:269-280 | the offsets strictly increase |
| ChunkedPma.PlacingStart | pma_tests/impl2.cpp:269-280 | an empty window starts the placement |
| ChunkedPma.PlacingStep | pma_tests/impl2.cpp:269-280 | writing the next value at its offset fills a free slot and extends the placement |
| ChunkedPma.PresentPackedAt | pma_tests/impl2.cpp:249-252 | a window whose first |xs| slots hold xs, and whose other slots are free, lists xs |
| ChunkedPma.WindowRefilled | pma_tests/impl2.cpp:257-282 | a window whose new listing is its old one plus `extra` makes the store list the untouched prefix, the new window and the untouched suffix; the multiset grows by exactly `extra` |
| ChunkedPma.LowerBoundIndex | pma_tests/impl2.cpp:245-246 | `std::lower_bound`: every value before p is below v, and the value at p (if any) is at least v |
| ChunkedPma.InsertAtLowerBound | pma_tests/impl2.cpp:245-246 | `tmp.insert(lower_bound(..., v), v)` is one longer than the chunk's listing and holds exactly its values plus v |
| ChunkedPma.InsertAtLowerBoundKeeps | pma_tests/impl2.cpp:245-246 | inserting at the lower bound keeps a sorted chunk sorted |
| ChunkedPma.SortedInsertBetween | pma_tests/impl2.cpp:245-246 | v between a prefix below it and a suffix starting at or above it keeps the sequence sorted |
| ChunkedPma.ChunksOrdered | pma_tests/impl2.cpp:200-226 | chunk m ends before a later chunk starts |
| ChunkedPma.BoundaryIsFirstChunk | pma_tests/impl2.cpp:200-226 | in a sorted store with every chunk occupied, the search boundary is the first chunk holding a value >= v |
| ChunkedPma.EarlierChunkBelow | pma_tests/impl2.cpp:200-226 | in a sorted store, a chunk before an occupied chunk without a value >= v has none either |
| ChunkedPma.EmptySuffix | pma_tests/impl2.cpp:98-106 | a store with no occupied slot has no occupied chunk, so its occupied chunks trivially form a suffix |
| ChunkedPma.EmptyBoundary | pma_tests/impl2.cpp:190-191 | with no occupied slot, no chunk holds a value >= v, so the search boundary is past the end |
| ChunkedPma.BelowBoundary | pma_tests/impl2.cpp:200-226 | in a sorted store whose occupied chunks form a suffix, every value before the search boundary is below v |
| ChunkedPma.AboveBoundary | pma_tests/impl2.cpp:200-226 | in a sorted store, every value after a chunk holding a value >= v is >= v |
| ChunkedPma.BeforeChunkBelow | pma_tests/impl2.cpp:200-226 | the listing before the chunk `insert` merges into is below v |
| ChunkedPma.AfterChunkAbove | pma_tests/impl2.cpp:200-226 | the listing after the chunk `insert` merges into is at least v |
| ChunkedPma.BoundaryChunkOccupied | pma_tests/impl2.cpp:219-226 | the chunk where the search stops holds a value >= v, so the chunk `insert` merges into is occupied unless it is the last chunk |
| ChunkedPma.PickedChunk | pma_tests/impl2.cpp:293-303 | lower_bound's slot, moved back by one at the end of the store, lies in the chunk where the search stopped, or in the last chunk |
| ChunkedPma.PickedMergeTarget | pma_tests/impl2.cpp:293-303 | the chunk `insert` passes to `insert_merge` is the chunk at the search boundary, or the last chunk when the boundary is past the end |
| ChunkedPma.TargetBoundary | pma_tests/impl2.cpp:293-303 | a merge target starts a chunk and lies at a search boundary |
| ChunkedPma.SortedMergeBetween | pma_tests/impl2.cpp:245-246 | merging v at its lower bound into the middle part of a sorted listing keeps it sorted when the part before is below v and the part after at least v |
| ChunkedPma.ChunkMergeSorted | pma_tests/impl2.cpp:239-252 | a chunk merged with v keeps the store sorted when the values before it are below v and those after it at least v |
| ChunkedPma.MergedFront | pma_tests/impl2.cpp:249-252 | a merge occupies the first slot of its chunk and no occupancy outside it changes |
| ChunkedPma.MergeFillsChunk | pma_tests/impl2.cpp:233-255 | a merge into the chunk `insert` picks fills its first slot, changes nothing outside it, and lands in an occupied chunk or the last one |
| ChunkedPma.MergeKeepsSuffix | pma_tests/impl2.cpp:249-252 | such a merge keeps the occupied chunks a suffix |
| ChunkedPma.MergeKeepsSorted | pma_tests/impl2.cpp:233-255 | such a merge keeps a sorted store, whose occupied chunks form a suffix, sorted |
| ChunkedPma.MergeKeepsOrder | pma_tests/impl2.cpp:233-255 | the merge keeps the store sorted and its occupied chunks a suffix |
| ChunkedPma.MergeIntoKeepsOrder | pma_tests/impl2.cpp:233-255 | merging v into its merge target keeps a sorted store whose occupied chunks form a suffix so |
| ChunkedPma.SuffixAfterRefill | pma_tests/impl2.cpp:263-280 | refilling chunks [a, b) so that each is occupied, nothing else changing, keeps the occupied chunks a suffix when one of them was occupied before or they reach the end |
| ChunkedPma.SpacedHitsBlock | pma_tests/impl2.cpp:272-280 | with at most four slots per value, every block of at least 4 slots of the window receives a value at its offset floor(i w / m) |
| ChunkedPma.SpreadFillsBlock | pma_tests/impl2.cpp:272-280 | a window spread evenly with at least a quarter as many values as slots has a value in every block of 4 or more slots |
| ChunkedPma.SpreadFillsChunks | pma_tests/impl2.cpp:272-280 | so every chunk of the window is occupied |
| ChunkedPma.SpreadFillsChunk | pma_tests/impl2.cpp:272-280 | one chunk of such a window is occupied |
| ChunkedPma.WindowCountNested | pma_tests/impl2.cpp:326-341 | the window of width 2w around a slot contains the one of width w, and counts at least as many values |
| ChunkedPma.LevelBelowDense | pma_tests/impl2.cpp:326-341 | with the chunk full and no window of levels 1 to k in limit, the level-k window is at least half full |
| ChunkedPma.DoubledWindowDense | pma_tests/impl2.cpp:326-341 | a window whose inner half is at least half full is at least a quarter full |
| ChunkedPma.EscalatedWindow | pma_tests/impl2.cpp:326-342 | the window the escalation stops at holds at least a quarter of its slots |
| ChunkedPma.WindowAligned | pma_tests/impl2.cpp:338 | the window of 2^level chunks around a slot starts at a chunk and covers the slot's chunk |
| ChunkedPma.FullStoreDense | pma_tests/impl2.cpp:331-333 | when the escalation passes the last level, the store is at least half full |
| ChunkedPma.RebalanceKeepsSuffix | pma_tests/impl2.cpp:257-282 | spreading a window at least a quarter full, around an occupied chunk, keeps the occupied chunks a suffix |
| ChunkedPma.ResizeFillsChunks | pma_tests/impl2.cpp:137-159 | a store of 4 or more slots that `resize` spreads with at least a quarter as many values as slots has every chunk occupied |
| ChunkedPma.RebalanceStep | pma_tests/impl2.cpp:326-343 | one rebalance round of `insert`: any store that spreads the window the escalation stopped at evenly, and changes nothing outside it, keeps the occupied chunks a suffix, and every chunk the restart may merge v into has a free slot |
| ChunkedPma.ResizeStep | pma_tests/impl2.cpp:331-335 | one resize round of `insert` leaves every chunk of the doubled store occupied, and the chunk the restart merges v into has a free slot |
| ChunkedPma.FullTarget | pma_tests/impl2.cpp:318-322 | a full merge target means the chunks v may be merged into do not all have room |
| ChunkedPma.FirstSpacedAtLeast | pma_tests/impl2.cpp:272-273 | among m values spread over w slots, the first whose offset floor(i w / m) reaches t: all before it land below t, all from it on at t or later |
| ChunkedPma.SpacedCountAtLeast | pma_tests/impl2.cpp:272-280 | spread values whose offsets fall in [a, c) occupy at least as many slots of that range |
| ChunkedPma.SpreadLeavesRoom | pma_tests/impl2.cpp:269-280 | a window of p blocks of g slots spread evenly with at most (g - 1) p values leaves every block with a free slot |
| ChunkedPma.FewerThanBlock | pma_tests/impl2.cpp:272-273 | with at most (g - 1) p values spread over p g slots, fewer than g offsets land in one block of g slots |
| ChunkedPma.LimitLeavesRoom | pma_tests/impl2.cpp:161-172 | a window of 2^k chunks of more than lgn slots that passes the threshold test at level k holds at most g - 1 values per chunk |
| ChunkedPma.WideChunksDense | pma_tests/impl2.cpp:161-172 | for chunks of more than lgn slots, the threshold's slack at level k, k 2^k g, is at least 2 lgn (2^k - 1) |
| ChunkedPma.HalfLeavesRoom | pma_tests/impl2.cpp:137-159 | a store at most half full, with chunks of at least two slots, holds at most g - 1 values per chunk |
| ChunkedPma.TargetInWindow | pma_tests/impl2.cpp:338-343 | after the window's chunks are respread with the same values, the merge target of v in the sorted store lies in that window, as it did before |
| ChunkedPma.TargetNotBefore | pma_tests/impl2.cpp:338-343 | the new merge target is not before the respread chunks |
| ChunkedPma.TargetNotAfter | pma_tests/impl2.cpp:338-343 | the new merge target is not after the respread chunks |
| ChunkedPma.BoundaryInWindow | pma_tests/impl2.cpp:200-226 | a chunk boundary for v after the respread lies before the end of the window, when the old one lay inside it |
| ChunkedPma.RebalanceLeavesRoom | pma_tests/impl2.cpp:338-343 | after the rebalance round in a sorted store with its occupied chunks a suffix, every chunk the restart may merge v into has a free slot |
| ChunkedPma.ResizeLeavesRoom | pma_tests/impl2.cpp:333-334 | after the resize round every chunk of the doubled store, so every merge target, has a free slot |
| ChunkedPma.MergeWritten | pma_tests/impl2.cpp:233-255 | the chunk, cleared and rewritten with the merge, holds the old values plus v packed at its left end |
| ChunkedPma.WindowSpread | pma_tests/impl2.cpp:257-282 | spreading a window's own listing back leaves the store's listing unchanged |
| ChunkedPma.IteratorStepVisits | pma_tests/impl2.cpp:57-64 | one iterator step from slot i visits exactly the next value of the listing after i |
| ChunkedPma.AdjacentSorted | pma_tests/impl2.cpp:373-385 | when every adjacent pair is in order, the whole sequence is sorted |
| ChunkedPma.IsSorted | pma_tests/impl2.cpp:373-385 | the answer is true exactly when the visited values are sorted |
| ChunkedPma.Pma.Elements | pma_tests/impl2.cpp:348-351 | the listing has one value per occupied slot |
| ChunkedPma.Pma.constructor | pma_tests/impl2.cpp:98-106 | an empty store of the given capacity, with the `init_vars` geometry: chunk size `ChunkSizeFor(capacity)`, nchunks = capacity / chunk size, nlevels = log2(nchunks), lgn = log2(capacity); sorted, with no occupied chunk |
| ChunkedPma.Pma.InitVars | pma_tests/impl2.cpp:116-124 | chunk size, chunk count, levels and lgn follow the formulas of `init_vars` |
| ChunkedPma.Pma.GetIntervalStats | pma_tests/impl2.cpp:161-172 | sz is the number of occupied slots of the window, and the flag says whether that is below the level's threshold |
| ChunkedPma.Pma.LbInChunk | pma_tests/impl2.cpp:174-185 | the first occupied slot of the chunk with a value >= v, or the end of the chunk |
| ChunkedPma.Pma.LowerBound | pma_tests/impl2.cpp:187-231 | the end of the store when it is empty; otherwise a chunk start at the search boundary; the store is unchanged |
| ChunkedPma.Pma.ChunkSearch | pma_tests/impl2.cpp:200-226 | the binary search over chunks stops at a boundary: the chunk before holds no value >= v, and the chunk at it (if any) holds one |
| ChunkedPma.Pma.TakeWindow | pma_tests/impl2.cpp:239-244 | returns the window's listing and clears its flags |
| ChunkedPma.Pma.InsertMerge | pma_tests/impl2.cpp:233-255 | the chunk holds its old values with v merged in, packed left; the multiset gains v; nelems + 1; merging into the chunk `insert` picks keeps a sorted store, with its occupied chunks a suffix, so |
| ChunkedPma.Pma.MergeIntoChunk | pma_tests/impl2.cpp:239-253 | the collect, merge and write loops on one chunk produce the merged chunk, with one more occupied slot, the multiset gaining v, a sorted chunk staying sorted, and nelems + 1 |
| ChunkedPma.Pma.WritePacked | pma_tests/impl2.cpp:249-252 | the values go to the first slots of the free chunk, in order |
| ChunkedPma.Pma.RebalanceInterval | pma_tests/impl2.cpp:257-282 | the window keeps its listing and becomes evenly spread; outside it nothing changes; the elements are unchanged |
| ChunkedPma.Pma.RefillWindow | pma_tests/impl2.cpp:263-280 | the emptied window is refilled with its own values, evenly spread |
| ChunkedPma.Pma.SpreadWindow | pma_tests/impl2.cpp:269-280 | the i-th value goes to slot left + floor(i w / m) of the free window |
| ChunkedPma.Pma.SpreadInto | pma_tests/impl2.cpp:144-152 | fresh arrays of the new capacity hold the elements at their spread offsets |
| ChunkedPma.Pma.Resize | pma_tests/impl2.cpp:137-159 | the store grows to the new capacity, with the elements unchanged and evenly spread, and the geometry `init_vars(capacity)` computes: chunk size `ChunkSizeFor(capacity)`, nchunks = capacity / chunk size, nlevels = log2(nchunks), lgn = log2(capacity) |
| ChunkedPma.Pma.Insert | pma_tests/impl2.cpp:284-346 | on success, nelems + 1 and the multiset gains v; when the fuel runs out, nelems and the listing are unchanged, though a window may have been rebalanced or the store resized; a sorted store whose occupied chunks form a suffix stays so; one round succeeds when every merge target of v has room, and two rounds always succeed on a sorted store whose occupied chunks form a suffix |
| ChunkedPma.Pma.FindChunk | pma_tests/impl2.cpp:293-317 | lower_bound's slot, moved back at the end; its chunk is the merge target of v; the fill is below the chunk size exactly when the chunk has a free slot |
| ChunkedPma.Pma.ChunkFill | pma_tests/impl2.cpp:300-317 | the chunk of slot i, and whether it has a free slot; the store is unchanged |
| ChunkedPma.Pma.MakeRoom | pma_tests/impl2.cpp:326-343 | the level reached fails the threshold at every level below it; the store doubles exactly when no window of levels 1 to nlevels is within its threshold, and then holds the old elements evenly spread, with the geometry `init_vars` computes for the doubled size; otherwise the first window within its threshold is spread evenly, with the same values, and nothing outside it changes; the elements are unchanged and a sorted store with its occupied chunks a suffix stays so, with a free slot in every chunk v may then be merged into |
| ChunkedPma.Pma.DoubleStore | pma_tests/impl2.cpp:330-335 | the resize branch: the store doubles, with the geometry `init_vars` computes for the doubled size, the elements unchanged and evenly spread over it, and a sorted store with its occupied chunks a suffix stays so; every chunk v may then be merged into has a free slot |
| ChunkedPma.Pma.RebalanceAround | pma_tests/impl2.cpp:338-342 | the rebalance branch: the window holds its old values evenly spread, nothing outside it changes, the elements are unchanged, and a sorted store with its occupied chunks a suffix stays so, with a free slot in every chunk v may then be merged into |
| ChunkedPma.Pma.EscalateWindow | pma_tests/impl2.cpp:326-341 | the first level, from 1 up, whose window is below its threshold, or nlevels + 1 when none is; the store is unchanged |
| ChunkedPma.Pma.Size | pma_tests/impl2.cpp:348-351 | the number of stored values |
| ChunkedPma.PmaIterator.constructor | pma_tests/impl2.cpp:40-42 | an iterator over the given PMA at the given slot |
| ChunkedPma.PmaIterator.Next | pma_tests/impl2.cpp:57-64 | advances to the next occupied slot, or to the end; the slots skipped are free; at the end it stays |
| DeamortizedVectors.ResizeFindsMigrated | tests/dvector.hpp:26-37 | when a push resizes, the previous buffer is fully migrated, so freeing it loses nothing |
| DeamortizedVectors.ResizeReady | tests/dvector.hpp:26-42 | each opening branch of `push_back` (resize, first allocation, neither) leaves room for the new element |
| DeamortizedVectors.PushKeepsCounters | tests/dvector.hpp:44-52 | migrating up to two elements and storing the new one restores the counter invariant |
| DeamortizedVectors.DeamortizedVector.constructor | tests/dvector.hpp:18-22 | an empty vector with no buffers |
| DeamortizedVectors.DeamortizedVector.PushBack | tests/dvector.hpp:24-53 | the contents gain x at the end; a resize doubles the capacity and keeps the old buffer as `prev`; otherwise at most two elements migrate |
| DeamortizedVectors.DeamortizedVector.Store | tests/dvector.hpp:52 | x goes to slot implsz, past every slot awaiting migration |
| DeamortizedVectors.DeamortizedVector.Reserve | tests/dvector.hpp:26-42 | on a resize, a buffer of twice the capacity with nothing copied; on the first push, a buffer of 2; the contents are unchanged |
| DeamortizedVectors.DeamortizedVector.Migrate | tests/dvector.hpp:44-50 | previ advances by two, or up to prevsz, with every element still found at its index |
| DeamortizedVectors.DeamortizedVector.PushAll | tests/dvector.cpp:7-10 | a run of pushes appends xs to the contents |
| DeamortizedVectors.DeamortizedVector.ReadAll | tests/dvector.cpp:11-13 | reading every index in order yields the contents |
| DeamortizedVectors.DeamortizedVector.Size | tests/dvector.hpp:55-58 | the number of elements pushed |
| DeamortizedVectors.DeamortizedVector.Get | tests/dvector.hpp:60-69 | the i-th element pushed, from whichever buffer holds it |
| DeamortizedVectors.RoundTrip | tests/dvector.cpp:7-13 | pushing xs and reading every index back yields xs |

## Left out

- Floating point. Thresholds are kept as `real`, and every density test is proved equal to an exact integer test (`OutOfBalanceExact`, `ThresholdExact`).
- The spacing of a rebalance. impl1 accumulates `p += k` in `double` (impl1.cpp:413-420, 451-468). impl2 computes `i * m + left` with a `double` m in `rebalance_interval` (pma_tests/impl2.cpp:269-273) and truncates `d * ctr` to `int` in `resize` (pma_tests/impl2.cpp:144-148). The model places the j-th element at floor((j + 1) c / m) - 1 (impl1) or floor(i w / m) (impl2), as exact arithmetic would; floating-point rounding of those offsets is not modelled.
- Integer widths. `int` and `size_t` are unbounded, so overflow of slot indices and of `1 << k` is not modelled.
- Timers, `print`, `dprintf`, the `nmoves`/`total_moves` counters and the benchmark drivers' timing output are left out. `include/timer.hpp` and `pma.cpp` are not part of this model.
- Containers. `std::vector<bool>` becomes `array<bool>`, `std::vector<E>` becomes `array<int>`, and the element type is `int`. The `tmp` vector member of impl2 is a local sequence.
- `std::lower_bound` is specified by `LowerBoundIndex` rather than implemented.
- Buffers. A NULL buffer of the deamortized vector is an array of length 0. Memory from `malloc` holds the element type's default value, and `free` is dropping the reference.
- ChunkedPma.Pma.Insert: the source restarts by a recursive call after a rebalance or resize. The model bounds the restarts by a `fuel` parameter and reports `done == false` when the fuel runs out. Two rounds are proved to suffice on a sorted store whose occupied chunks form a suffix, the invariant every insert keeps. On a store outside that invariant, a small fuel can run out. nelems and the listing of values are then unchanged, but a window may already have been rebalanced, or the store resized and re-spread, by an earlier round.
- ChunkedPma.Pma.Resize: requires the new capacity to be a power of two larger than the store, as every caller passes.
- ChunkedPma.IsSorted is modelled over the sequence of values the iterator visits. The iterator's `begin`/`end`, copy constructor and assignment are left out; `IteratorStepVisits` ties one step to that sequence. `begin()` starts at slot 0 even when slot 0 is free (pma_tests/impl2.cpp:353-356), so `is_sorted` also reads that free slot's stale value; the model visits only occupied slots.
- SegmentedPma.PackedMemoryArray.SmallestIntervalInBalance requires the insertion slot to be occupied. The source starts its count at 1 for that slot, and the only caller reaches it after finding the slot taken.
- SegmentedPma.PackedMemoryArray.InsertElement finds the predecessor with `UpperBound`, whose search starts at the last segment and whose segment scan takes the last match (see Findings), and does not read `store[pos]`. As written, `store[-1]` is read when e is below every element; that argument is unused by `insert_element_after`.
- SegmentedPma.PackedMemoryArray.InsertElementAfter accepts pos = -1 (e goes first). With OPTIMIZE undefined, the source asserts pos != -1 at that point.
- SegmentedPma.PackedMemoryArray.Geometry states only the facts the operations need (segment size and l positive, and the window at level l equal to the store). The exact values come from the constructor and from `Regrow`.
- SegmentedPma.PackedMemoryArray.DeleteElementAt decrements `s`, the corrected counter, where the source leaves it unchanged (see Findings).
- SegmentedPma.PackedMemoryArray.ExpandPma uses `SegmentSizeFor` and `LevelsFor` for the doubled store, where the source sets segment_size = 1 << log2n when log2n is a power of two, and flags as long as the store (see Findings).
- SegmentedPma.SegmentSizeFor combines two branches of the source. When log2n is a power of two it takes log2n, as the constructor does (impl1.cpp:163-165); `expand_PMA` takes 1 << log2n there, which leaves l = 0 (see Findings). Otherwise it takes `1 << floor(log2(log2n << 1))`, as `expand_PMA` does (impl1.cpp:371-373) and as the class comment (impl1.cpp:35-36) describes. The constructor's own branch for that case (impl1.cpp:159-161) gives `floor(log2(1 << (log2n + 1)))` = log2n + 1, which is not a power of two in general. It is never taken, because the constructor starts with VAL_C = 2 slots, so log2n = 1.
- Density across levels. No lemma shows that every aligned window at every level stays within its threshold after an insert, because impl1 does not keep such a bound. The fast path of `insert_element_after` (impl1.cpp:233-238) fills a free slot with no density test, and a rebalance tests only the windows it escalates through, not those above the one it spreads. `FastPathOverfills` gives an instance: the constructor's [e, -] plus a larger value leaves the whole store with 2 values where its threshold allows 1. What impl1 does keep is weaker and is proved: once the store has more than two segments, every segment holds an element (`Filled`, part of `Ordered`), because a window reported above level 0 and a doubled store are at least a quarter full when spread, and segments have at least four slots there. For impl2 the model proves only what its escalation needs: the spread window is within its threshold and, when the store doubles, no window of levels 1 to nlevels was.
- Deletion by value, `pma.cpp`, and the driver programs other than the vector round trip are not part of this model.

## Findings

| source | as written | input that shows it | evidently intended | confidence | as-written member | corrected member |
|---|---|---|---|---|---|---|
| impl1.cpp:263 | `upper_bound` starts the search at r = store.size()/segment_size, one past the last segment | every segment holds a value at most the key: the last probe is segment nseg, whose slots lie past the end of the store | r starts at the last segment, nseg - 1 | not executed | SegmentedPma.ProbesAsWrittenLeaveStore | SegmentedPma.PackedMemoryArray.UpperBound |
| impl1.cpp:255-257 | `upper_bound_in_segment` returns the first occupied slot at most e | a four-slot segment [1, -, 2, -] with key 5: the slot of 1 is returned, so 5 goes into the free slot between 1 and 2 | the last occupied slot at most e | not executed | SegmentedPma.PackedMemoryArray.UpperBoundInSegmentAsWritten | SegmentedPma.PackedMemoryArray.UpperBoundInSegment |
| impl1.cpp:303 | the count of a window runs up to and including `right`, the first slot of the next window | two-slot segments, l = 1, flags [1, 0, 1, 0], insertion at slot 0: the segment counts 2 elements and is judged out of balance | count the slots [left, right) | not executed | SegmentedPma.SmallestIntervalOvercounts | SegmentedPma.PackedMemoryArray.SmallestIntervalInBalance |
| impl1.cpp:471-478 | `delete_element_at` clears a flag without decrementing s, and so do the direct flag clears `rebalance` uses as compiled with OPTIMIZE (impl1.cpp:441, 466), while `insert_element_at` increments it | `rebalance(0, 1, e)` (the whole 2-slot store) on [x, -] with x < e clears slot 0 and fills slots 0 and 1: 2 elements, s == 3 | s falls by one on every delete | not executed | SegmentedPma.CounterAsWrittenDrifts | SegmentedPma.CounterTracksCount |
| impl1.cpp:338 | `expand_PMA` sizes the new flag vector s + 1 | any valid array: s + 1 < 2 * store.size(), so the final `rebalance(0, l)` reads flags past the end | flags for all 2 * store.size() slots | not executed | SegmentedPma.NewFlagsTooShort | SegmentedPma.PackedMemoryArray.MergedCopy |
| impl1.cpp:370-379 | `expand_PMA` sets segment_size = 1 << log2n when log2n is a power of two | doubling the 2-slot store to 4 slots (log2n = 2): segment_size 4, l = 0, and `upper_threshold_at` divides by l | segment_size = log2n, as in the constructor's branch for a power of two (impl1.cpp:163-165), so that l stays at least 1 | not executed | SegmentedPma.ExpandLevelsVanishAsWritten | SegmentedPma.PackedMemoryArray.Regrow |
