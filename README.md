# double_ended in Dafny

This project models the two containers of the double_ended library and proves properties about them.

- **devector** is a vector with free capacity at both ends. Its elements sit in one contiguous buffer, between a front index and a back index. The buffer is either an inline small buffer or a heap buffer. A growth policy decides the next capacity.
- **batch_deque** is a deque of fixed-size segments. A map (itself a devector) holds the segment pointers in order. Two iterators, begin and end, each a (segment, index) pair, delimit the elements.

The model also covers the helpers both containers rely on:

- the construction, nand-construction and allocation guards that undo partial work when an element constructor throws;
- the constant iterator that feeds "n copies of x" to range algorithms;
- the `move_if_noexcept` loops;
- the comparison operators.

Modules:

- `SeqUtil` holds sequence vocabulary: overwrite, insert, remove, rotate, repeat and reverse.
- `SegmentGrid` lays a grid of equal-size segments out as one sequence.
- `Ordering` defines element-wise equality and lexicographic order.
- `Algorithm` models detail/algorithm.hpp.
- `Guards` and `Construction` model detail/guards.hpp and the guarded construction loops.
- `Iterators` models the constant iterator.
- `DevectorPolicy` holds the growth policy and the 32-bit size arithmetic.
- `Devector` is the devector class, over one `array` per buffer.
- `DevectorScenarios` holds call sequences built from the devector's operations.
- `DequeIterator` holds the batch_deque iterator and segment iterator, on (segment, index) pairs.
- `BatchDeque` is the batch_deque class. It has a `seq` of segment `array`s, the two iterators and a ghost grid of the segments' contents.

A devector's elements are `buffer[front..back]`. A batch_deque's elements are the slots of its segments laid out in map order, from the linear position of begin up to that of end.

Where the operation and the call sequence allow it, each container operation states its new contents in terms of the old ones. It also states which end's free capacity it keeps and when it allocates.

Element constructors that throw are modelled by a `ctorThrows` flag or by a `budget`: the number of constructions that succeed before one throws. The error paths then state the contents that remain.

## Model

| member | source | states |
|---|---|---|
| Algorithm.MoveIfNoexcept | include/boost/double_ended/detail/algorithm.hpp:18-25 | a front-to-back move whose target does not start inside the source leaves the target run equal to the old source run and every other slot unchanged |
| Algorithm.MoveIfNoexceptBackward | include/boost/double_ended/detail/algorithm.hpp:27-34 | a back-to-front move whose target end is not inside the source leaves the run ending at the target end equal to the old source run and every other slot unchanged |
| Iterators.ConstantIterator.constructor | include/boost/double_ended/detail/iterators.hpp:97-100 | the iterator holds the value and the remaining count it was given |
| Iterators.ConstantIterator.Dereference | include/boost/double_ended/detail/iterators.hpp:105-108 | every position yields the same value |
| Iterators.ConstantIterator.Equal | include/boost/double_ended/detail/iterators.hpp:110-113 | two iterators are equal exactly when the distance between them is zero |
| Iterators.ConstantIterator.Increment | include/boost/double_ended/detail/iterators.hpp:115-118 | one step forward lowers the remaining count by one |
| Iterators.ConstantIterator.Decrement | include/boost/double_ended/detail/iterators.hpp:120-123 | one step back raises the remaining count by one |
| Iterators.ConstantIterator.Advance | include/boost/double_ended/detail/iterators.hpp:125-128 | advancing by n lowers the remaining count by n |
| Iterators.ConstantIterator.DistanceTo | include/boost/double_ended/detail/iterators.hpp:130-133 | advancing by the distance to b brings the remaining count to b's |
| Iterators.CopiesOf | include/boost/double_ended/detail/iterators.hpp:86-137 | walking the pair (value, n) up to its end iterator yields exactly n copies of value |
| Guards.ConstructionGuard.Default | include/boost/double_ended/detail/guards.hpp:39 | a default guard guards no storage and no object |
| Guards.ConstructionGuard.constructor | include/boost/double_ended/detail/guards.hpp:41-45 | a new guard starts at the given slot with nothing to destroy |
| Guards.ConstructionGuard.MoveFrom | include/boost/double_ended/detail/guards.hpp:47-53 | the count moves to the new guard; the old guard is left guarding nothing |
| Guards.ConstructionGuard.Extend | include/boost/double_ended/detail/guards.hpp:68-71 | one more constructed object is guarded |
| Guards.ConstructionGuard.Release | include/boost/double_ended/detail/guards.hpp:63-66 | after a commit nothing is left to destroy |
| Guards.ConstructionGuard.Dispose | include/boost/double_ended/detail/guards.hpp:55-61 | the destructor destroys exactly the guarded run, in ascending order, each slot once, and no other slot |
| Guards.NandConstructionGuard.constructor | include/boost/double_ended/detail/guards.hpp:107-114 | a new nand guard holds two empty runs, the source and the destination |
| Guards.NandConstructionGuard.Extend | include/boost/double_ended/detail/guards.hpp:118-122 | both runs grow by one slot together |
| Guards.NandConstructionGuard.Release | include/boost/double_ended/detail/guards.hpp:124-128 | on success the destination run is kept and the source run is marked for destruction |
| Guards.NandConstructionGuard.Dispose | include/boost/double_ended/detail/guards.hpp:130-133 | the destructor destroys exactly one of the two runs: the source after a release, otherwise the destination |
| Guards.AllocationGuard.constructor | include/boost/double_ended/detail/guards.hpp:152-156 | the guard owns the given buffer of the given size |
| Guards.AllocationGuard.Release | include/boost/double_ended/detail/guards.hpp:166-169 | after a release the guard owns no buffer |
| Guards.AllocationGuard.Dispose | include/boost/double_ended/detail/guards.hpp:158-164 | the destructor deallocates the buffer exactly when the guard was never released |
| Construction.ConstructN | include/boost/double_ended/devector.hpp:2672-2689 | constructing n objects under a construction guard either constructs all n, or fails after budget objects and destroys exactly those, once each and in order, leaving the slots as they were |
| Construction.NullGuardedConstructN | include/boost/double_ended/devector.hpp:2171-2195 | under the null guard, a failure leaves the objects already constructed in place and destroys nothing |
| Construction.MoveConstructRange | include/boost/double_ended/detail/guards.hpp:94-134 | moving a run under a nand guard either keeps all copies and destroys all sources, or destroys the copies made so far and keeps every source |
| SeqUtil.InsertRemoveRoundTrip | include/boost/double_ended/devector.hpp:1920-1954 | erasing a run that was just inserted gives back the original sequence |
| SeqUtil.PermutationFacts | include/boost/double_ended/batch_deque.hpp:2185-2204 | the rotations used by insertion only rearrange, and an insertion adds exactly the inserted elements to the multiset |
| Ordering.Equal | include/boost/double_ended/devector.hpp:2908-2912 | a size check followed by an element-wise comparison holds exactly when the two sequences are equal |
| Ordering.NotEqual | include/boost/double_ended/batch_deque.hpp:2463-2466 | != is the negation of equality |
| Ordering.LexLessPrefix | include/boost/double_ended/devector.hpp:2915-2919 | a sequence compares less than itself extended by y exactly when y is non-empty, and never less than itself |
| Ordering.LexLessTransitive | include/boost/double_ended/batch_deque.hpp:2456-2460 | under a strict total order on the elements, the lexicographic order is transitive |
| Ordering.LexTrichotomy | include/boost/double_ended/batch_deque.hpp:2456-2460 | under a strict total order exactly one of x < y, x == y and y < x holds |
| Ordering.LessEqIsLessOrEqual | include/boost/double_ended/devector.hpp:2922-2946 | the derived <= and >= coincide with "less or equal" and "greater or equal" |
| DevectorPolicy.NewCapacity | include/boost/double_ended/devector.hpp:60-63 | the growth policy's proposal always fits the 32-bit size type |
| DevectorPolicy.NewCapacityGrows | include/boost/double_ended/devector.hpp:48-77 | an empty buffer grows to 16; growth is by a factor of four while that is representable; beyond that the proposal wraps below four times the capacity |
| DevectorPolicy.MaxSize | include/boost/double_ended/devector.hpp:956-961 | max_size is the smaller of the allocator's limit and the size type's limit |
| DevectorPolicy.CalculateNewCapacity | include/boost/double_ended/devector.hpp:2105-2119 | a capacity is accepted exactly when the request and the policy allow it, and it is then the request or the policy's proposal, at least the request and at most max_size; otherwise it is a length error |
| DevectorPolicy.CalculateNewCapacityWrapCounterexample | include/boost/double_ended/devector.hpp:2585-2596 | inserting 0xA000_0000 elements at capacity 0x6000_0000 with the request wrapped to the size type, as the callers compute it, is accepted with a buffer smaller than the contents; unwrapped it is a length error |
| DevectorPolicy.ReserveFrontAsWritten | include/boost/double_ended/devector.hpp:1182-1189 | as written, the reallocation asked for fits the size type and, without wrap-around, places the elements so that n fit before the back index |
| DevectorPolicy.ReserveBackAsWritten | include/boost/double_ended/devector.hpp:1207-1214 | as written, the reallocation keeps the front index and, without wrap-around, makes room for n elements after it |
| DevectorPolicy.ReserveWrapCounterexample | include/boost/double_ended/devector.hpp:1182-1214 | a request of 2^32 - 8 wraps to a capacity of 8 with the elements' indices beyond it |
| Devector.CopyRange | include/boost/double_ended/devector.hpp:2153-2169 | copying or moving a run into another buffer overwrites exactly the target run with the source run and leaves the source unchanged |
| Devector.WriteSeq | include/boost/double_ended/devector.hpp:2187-2195 | constructing a range into a buffer overwrites exactly the target run with it |
| Devector.RelocateInto | include/boost/double_ended/devector.hpp:2604-2619 | moving the old elements around a freshly constructed range leaves the range inserted before the given index |
| Devector.RelocatedRun | include/boost/double_ended/devector.hpp:2604-2619 | writing the range, then the first half before it, then the second half after it, yields the insertion |
| Devector.ShiftFrontInsert | include/boost/double_ended/devector.hpp:2365-2386 | shifting the front part one slot left and writing x in the slot freed inserts x before pos, with the run now one slot earlier |
| Devector.ShiftFrontSteps | include/boost/double_ended/devector.hpp:2374-2383 | the individual moves of the front shift compose to the insertion |
| Devector.ShiftBackInsert | include/boost/double_ended/devector.hpp:2387-2407 | shifting the back part one slot right and writing x in the slot freed inserts x before pos, with the run now one slot longer |
| Devector.ShiftBackSteps | include/boost/double_ended/devector.hpp:2396-2404 | the individual moves of the back shift compose to the insertion |
| Devector.NearFrontInsert | include/boost/double_ended/devector.hpp:2537-2558 | constructing r before the run and rotating it past the first pos elements inserts r before pos |
| Devector.NearFrontSteps | include/boost/double_ended/devector.hpp:2537-2558 | writing r and then rotating is exactly that insertion |
| Devector.NearBackInsert | include/boost/double_ended/devector.hpp:2561-2582 | constructing r after the run and rotating the elements from pos behind it inserts r before pos |
| Devector.NearBackSteps | include/boost/double_ended/devector.hpp:2561-2582 | writing r and then rotating is exactly that insertion |
| Devector.InsertInTwoParts | include/boost/double_ended/devector.hpp:2508-2534 | inserting the part of r that fits at the front and then the rest right after it inserts r |
| Devector.CloseGapFromFront | include/boost/double_ended/devector.hpp:1926-1938 | moving the front part backward over the erased run removes the run, which now starts later by its length |
| Devector.CloseGapFromFrontSteps | include/boost/double_ended/devector.hpp:1929 | the backward move and the cut at the front compose to the removal |
| Devector.CloseGapFromBack | include/boost/double_ended/devector.hpp:1940-1953 | moving the back part forward over the erased run removes the run, which now ends earlier by its length |
| Devector.CloseGapFromBackSteps | include/boost/double_ended/devector.hpp:1943 | the forward move and the cut at the back compose to the removal |
| Devector.Devector.InvariantsOk | include/boost/double_ended/devector.hpp:2848-2855 | when the invariants hold, the front free capacity, the size and the back free capacity account for the whole buffer |
| Devector.Devector.Size | include/boost/double_ended/devector.hpp:946-949 | the unsigned difference of the indices never wraps while the front index does not pass the back index, and stays within the back index |
| Devector.Devector.Empty | include/boost/double_ended/devector.hpp:936-939 | empty() is true exactly when size() is zero |
| Devector.Devector.Capacity | include/boost/double_ended/devector.hpp:968-971 | while the indices are in order within the buffer, the elements fit in the capacity |
| Devector.Devector.FrontFree | include/boost/double_ended/devector.hpp:979-982 | the free slots before the first element and the elements together reach the back index |
| Devector.Devector.BackFree | include/boost/double_ended/devector.hpp:990-993 | the back index and the back free capacity together make up the capacity |
| Devector.Devector.IsSmall | include/boost/double_ended/devector.hpp:2859-2862 | under the invariants, is_small() holds exactly when the small buffer is non-empty and the capacity equals its size |
| Devector.Devector.Default | include/boost/double_ended/devector.hpp:222-226 | a new devector is empty, uses its small buffer and has made no allocation |
| Devector.Devector.Reserved | include/boost/double_ended/devector.hpp:273-279 | the requested free capacity is present at both ends; the capacity is their sum, or the small buffer when that is larger |
| Devector.Devector.FromRange | include/boost/double_ended/devector.hpp:412-422 | the elements are the range, from index 0, in a buffer of exactly its size or the small buffer |
| Devector.Devector.Filled | include/boost/double_ended/devector.hpp:361-371 | the elements are n copies of the value, in a buffer of exactly n slots or the small buffer |
| Devector.Devector.Move | include/boost/double_ended/devector.hpp:489-517 | the new devector has the old contents, capacity and front index; a heap buffer is taken over and leaves the source empty in its small buffer |
| Devector.Devector.Get | include/boost/double_ended/devector.hpp:1266-1271 | operator[] yields the element n places after the first |
| Devector.Devector.At | include/boost/double_ended/devector.hpp:1294-1298 | at yields that element when n is below the size, and out_of_range exactly when it is not |
| Devector.Devector.Relocate | include/boost/double_ended/devector.hpp:2585-2637 | a reallocation moves the elements to a fresh buffer of the new capacity at the new front index, with r inserted, in one allocation |
| Devector.Devector.PushBack | include/boost/double_ended/devector.hpp:1553-1566 | x is appended; a length error happens exactly when there is no back room and the policy cannot grow; a throwing constructor leaves everything unchanged; only a full back reallocates, once, keeping the front free capacity |
| Devector.Devector.PushFront | include/boost/double_ended/devector.hpp:1412-1425 | x is prepended; the error cases mirror push_back; only a full front reallocates, once, keeping the back free capacity |
| Devector.Devector.EmplaceReallocating | include/boost/double_ended/devector.hpp:2415-2461 | x is inserted at idx in a buffer of the policy's capacity, with one allocation, keeping the free capacity of the chosen end; on an error nothing changes |
| Devector.Devector.PopBack | include/boost/double_ended/devector.hpp:1667-1673 | the last element is removed and the back free capacity grows by one; the buffer and the front index are kept |
| Devector.Devector.PopFront | include/boost/double_ended/devector.hpp:1526-1532 | the first element is removed and the front free capacity grows by one; the buffer and the back index are kept |
| Devector.Devector.ReallocateAt | include/boost/double_ended/devector.hpp:2463-2481 | the elements move unchanged to a fresh buffer of the given capacity, starting at the given offset |
| Devector.Devector.ReserveFront | include/boost/double_ended/devector.hpp:1182-1189 | corrected (the request computed unwrapped): afterwards n elements fit before the back index and the back free capacity is kept; it is a length error exactly when the new capacity passes the size type's maximum; one allocation happens exactly when room was missing |
| Devector.Devector.ReserveBack | include/boost/double_ended/devector.hpp:1207-1214 | corrected (the request computed unwrapped): afterwards n elements fit after the front index and the front free capacity is kept; the error and allocation cases mirror reserve_front |
| Devector.Devector.ShrinkToFit | include/boost/double_ended/devector.hpp:1232-1255 | the contents are kept; contents of a heap buffer that fit in the small buffer move there, starting at index 0; a small devector and contents that do not fit keep their buffer and indices |
| Devector.Devector.Emplace | include/boost/double_ended/devector.hpp:1695-1717 | x is inserted before pos and the result is pos; nothing reallocates while either end has room; a length error needs both ends full |
| Devector.Devector.EmplaceSlowPath | include/boost/double_ended/devector.hpp:2358-2412 | the same insertion, shifting the shorter side that has room (which loses one free slot), or reallocating when neither end has room |
| Devector.Devector.InsertByFrontShift | include/boost/double_ended/devector.hpp:2365-2386 | x is inserted before pos at the cost of one front free slot, in the same buffer |
| Devector.Devector.InsertByBackShift | include/boost/double_ended/devector.hpp:2387-2407 | x is inserted before pos at the cost of one back free slot, in the same buffer |
| Devector.Devector.UnsafePushBack | include/boost/double_ended/devector.hpp:1622-1630 | with back room, x is appended in place |
| Devector.Devector.UnsafePushFront | include/boost/double_ended/devector.hpp:1481-1489 | with front room, x is prepended in place |
| Devector.Devector.ConstructBack | include/boost/double_ended/devector.hpp:2488-2495 | a range that fits the back free capacity is appended in place |
| Devector.Devector.ConstructFront | include/boost/double_ended/devector.hpp:2216-2239 | a range that fits the front free capacity is prepended in place |
| Devector.Devector.InsertRangeNearFront | include/boost/double_ended/devector.hpp:2537-2558 | the first min(front free capacity, \|r\|) elements of r are inserted before pos in place |
| Devector.Devector.InsertRangeNearBack | include/boost/double_ended/devector.hpp:2561-2582 | the first min(back free capacity, \|r\|) elements of r are inserted before pos in place |
| Devector.Devector.InsertRange | include/boost/double_ended/devector.hpp:2484-2505 | corrected (the capacity request capacity() + n computed unwrapped): r is inserted before pos; it stays in place when both ends together have room; otherwise the policy's capacity is used and the end nearer pos keeps its free capacity; a length error leaves everything unchanged |
| Devector.Devector.InsertRangeSlowPath | include/boost/double_ended/devector.hpp:2508-2534 | corrected (the capacity request computed unwrapped): the slow path performs the same insertion with the same capacity rules |
| Devector.Devector.InsertCopies | include/boost/double_ended/devector.hpp:1778-1783 | corrected (the capacity request computed unwrapped): n copies of x are inserted before pos, in place whenever the free capacity suffices |
| Devector.Devector.Erase | include/boost/double_ended/devector.hpp:1920-1954 | the run is removed and the result is first; the shorter side moves, so that side's free capacity grows by the run's length and the other index is kept |
| Devector.Devector.EraseAt | include/boost/double_ended/devector.hpp:1871-1874 | the element at pos is removed and the result is pos |
| Devector.Devector.Clear | include/boost/double_ended/devector.hpp:2033-2037 | all elements are removed; the buffer is kept and all of it becomes back free capacity |
| Devector.Devector.ResizeBack | include/boost/double_ended/devector.hpp:2267-2311 | corrected (the capacity request sz + front free capacity computed unwrapped): the size becomes sz: copies of v are appended or the tail is cut; the front free capacity is kept; the length-error and throw cases are exact and change nothing; no allocation happens while sz fits behind the front index |
| Devector.Devector.ResizeFront | include/boost/double_ended/devector.hpp:2216-2264 | corrected (the capacity request sz + back free capacity computed unwrapped): the mirror image: copies are prepended or the head is cut; a reallocation leaves no back free capacity |
| Devector.Devector.OverwriteBuffer | include/boost/double_ended/devector.hpp:2791-2846 | the new contents occupy the current buffer from index 0 |
| Devector.Devector.AllocateAndCopyRange | include/boost/double_ended/devector.hpp:2651-2669 | the new contents occupy a fresh buffer of exactly their size, in one allocation |
| Devector.Devector.Assign | include/boost/double_ended/devector.hpp:734-748 | the elements become r from index 0; the buffer is reused when it is large enough, and otherwise replaced by one of size \|r\| |
| Devector.Devector.AssignCopies | include/boost/double_ended/devector.hpp:772-778 | the elements become n copies of u |
| Devector.Devector.CopyAssign | include/boost/double_ended/devector.hpp:559-593 | the elements become those of x; x is not changed; self-assignment changes nothing |
| Devector.Devector.MoveAssign | include/boost/double_ended/devector.hpp:615-669 | the elements become those of x; a heap buffer of x is taken over and x is left empty in its own small buffer; both devectors stay valid with separate buffers |
| Devector.Devector.MoveAssignAsWritten | include/boost/double_ended/devector.hpp:623-642 | as written, x is reset to the small buffer of the assigned-to devector |
| Devector.Devector.Swap | include/boost/double_ended/devector.hpp:1977-2019 | the swap fails exactly when the element constructions it needs exceed the budget: the elements without a partner slot when both are small, the small one's elements when one is, none otherwise; a failure leaves both elements, buffers and indices as they were; otherwise the contents, capacities and front indices are exchanged and the two footprints are exchanged as a whole; a devector swapped with itself needs no construction and keeps its contents |
| Devector.Devector.SwapSmallSmall | include/boost/double_ended/devector.hpp:2729-2757 | corrected swap range, then the indices exchanged: it fails exactly when the elements without a partner slot exceed the budget, and then nothing observable changes; otherwise the elements and front indices are exchanged |
| Devector.Devector.SwapSmallBig | include/boost/double_ended/devector.hpp:2759-2779 | the small devector's elements are constructed in the other's small buffer and the heap buffer changes hands; it fails exactly when they exceed the budget, and then both devectors are left as they were; otherwise elements, capacities and front indices are exchanged |
| Devector.Devector.SwapBigBig | include/boost/double_ended/devector.hpp:2781-2788 | two devectors that do not use their small buffers exchange buffers by pointer: elements, capacities and front indices are exchanged and the footprints stay disjoint |
| Devector.SwapFrontRun | include/boost/double_ended/devector.hpp:2691-2738 | the front run is a range (its start is not past its end); Devector.SwapSlotRoles states that it is exactly the slots one devector holds before the other's front |
| Devector.SwapBackRun | include/boost/double_ended/devector.hpp:2712-2744 | the back run is a range; Devector.SwapSlotRoles states that it is exactly the slots one devector holds after the other's back |
| Devector.SwapOverlapAsWritten | include/boost/double_ended/devector.hpp:2748-2752 | as written, both ends of the swap_ranges range lie within the first devector's back index and the end within the second's; Devector.SwapOverlapAsWrittenInverted states when the start passes the end |
| Devector.SwapSlotRoles | include/boost/double_ended/devector.hpp:2691-2752 | the front run and the back run taken from one devector are exactly its slots the other does not hold, the two runs never share a slot, and the corrected swap range is exactly the slots both hold |
| Devector.SwapOverlapAsWrittenInverted | include/boost/double_ended/devector.hpp:2748-2752 | the range handed to swap_ranges as written is inverted exactly when the first devector's elements lie wholly after the second's, and equals the corrected range otherwise |
| Devector.SwapOverlapAsWrittenCounterexample | include/boost/double_ended/devector.hpp:2748-2752 | with a = [5, 7) and b = [0, 2), both runs are copied whole and swap_ranges receives the inverted range [5, 2); the corrected range is empty |
| Devector.CopyRun | include/boost/double_ended/devector.hpp:2691-2727 | the run is constructed in the other buffer at the same indices and no other slot of either buffer changes |
| Devector.SwapRanges | include/boost/double_ended/devector.hpp:2748-2752 | the slots of the range are exchanged between the two buffers and no other slot changes |
| Devector.SwapSmallBuffers | include/boost/double_ended/devector.hpp:2729-2757 | corrected swap range: it fails exactly when the copies of elements without a partner exceed the budget, and then both devectors keep their elements; otherwise each buffer holds the other devector's elements at that devector's indices |
| Devector.SwapKeepsOwnSlots | include/boost/double_ended/devector.hpp:2729-2745 | a run copied in whole or in part, as before a throw, leaves the elements of both devectors as they were |
| Devector.SwapPlanExchanges | include/boost/double_ended/devector.hpp:2729-2757 | the front run, the back run and the exchange of the common slots, in this order, give each buffer the other devector's elements |
| DevectorScenarios.ReserveBackThenPush | include/boost/double_ended/devector.hpp:1207-1214 | reserve_back(size + \|xs\|) followed by push_back of each element of xs appends xs with at most one allocation, made by the reserve |
| DevectorScenarios.ReserveFrontThenPush | include/boost/double_ended/devector.hpp:1182-1189 | reserve_front followed by push_front of each element puts xs in reverse order before the old elements, with at most one allocation |
| DevectorScenarios.ShrinkToFitTwice | include/boost/double_ended/devector.hpp:1232-1255 | shrink_to_fit keeps the contents, and a second call changes neither the contents nor the capacity |
| DevectorScenarios.MoveAssignSharesBuffer | include/boost/double_ended/devector.hpp:639-641 | with the written move assignment, two devectors end up sharing one buffer |
| DevectorScenarios.MoveAssignKeepsBuffersApart | include/boost/double_ended/devector.hpp:615-669 | the same calls with the corrected move assignment keep the two buffers apart |
| DequeIterator.LinInjective | include/boost/double_ended/batch_deque.hpp:193-197 | two normal iterators at the same position are the same pair, so comparing the pair is comparing positions |
| DequeIterator.Increment | include/boost/double_ended/batch_deque.hpp:199-207 | increment moves exactly one position on and keeps the index inside the segment |
| DequeIterator.Decrement | include/boost/double_ended/batch_deque.hpp:209-220 | decrement moves exactly one position back and keeps the index inside the segment |
| DequeIterator.IncrementDecrementInverse | include/boost/double_ended/batch_deque.hpp:199-220 | increment and decrement undo each other |
| DequeIterator.AdvanceAsWritten | include/boost/double_ended/batch_deque.hpp:222-240 | the written advance keeps the index inside the segment |
| DequeIterator.Advance | include/boost/double_ended/batch_deque.hpp:222-240 | the corrected advance moves exactly n positions and keeps the index inside the segment |
| DequeIterator.AdvanceSplits | include/boost/double_ended/batch_deque.hpp:222-240 | the corrected advance is the written formula with both parts taken by floor division |
| DequeIterator.AdvanceAsWrittenSegment | include/boost/double_ended/batch_deque.hpp:229-233 | the segment step of the written advance is right for every segment size |
| DequeIterator.AdvanceAsWrittenPowerOfTwo | include/boost/double_ended/batch_deque.hpp:222-240 | when the segment size divides 2^64, the written advance equals the corrected one |
| DequeIterator.AdvanceAsWrittenCounterexample | include/boost/double_ended/batch_deque.hpp:236 | with three-slot segments, stepping back one from index 2 leaves the written iterator in place |
| DequeIterator.AdvanceByOne | include/boost/double_ended/batch_deque.hpp:199-240 | advancing by 1 or -1 is increment or decrement |
| DequeIterator.AdvanceCompose | include/boost/double_ended/batch_deque.hpp:222-240 | two advances compose into one by the sum |
| DequeIterator.DistanceTo | include/boost/double_ended/batch_deque.hpp:242-246 | the written segment-and-index formula is the difference of the linear positions |
| DequeIterator.DistanceAdvance | include/boost/double_ended/batch_deque.hpp:222-246 | advancing by the distance reaches the target, and the distance covered by an advance is its step |
| DequeIterator.LessIsPositiveDistance | include/boost/double_ended/batch_deque.hpp:242-246 | the iterator order used by invariants_ok is a positive distance_to |
| DequeIterator.SegmentCount | include/boost/double_ended/batch_deque.hpp:2435-2439 | segment_count is the least number of segments that hold n elements |
| DequeIterator.NewMapCapacity | include/boost/double_ended/batch_deque.hpp:2219-2223 | the map's next capacity always exceeds its size: four when empty, otherwise at least one and a half times the size plus one |
| DequeIterator.SegmentEnd | include/boost/double_ended/batch_deque.hpp:1011-1014 | segment_end starts a segment: end's segment when end starts one, otherwise the one after |
| DequeIterator.SegDecrement | include/boost/double_ended/batch_deque.hpp:316-323 | the segment iterator steps back one segment and takes the first element's index when it reaches begin's segment |
| DequeIterator.SegDecrementUndoesIncrement | include/boost/double_ended/batch_deque.hpp:310-323 | on every segment iterator a walk from segment_begin reaches, decrement undoes increment |
| DequeIterator.SegDistance | include/boost/double_ended/batch_deque.hpp:325-334 | advancing a segment iterator by the distance reaches the other segment |
| BatchDeque.BackFreeAsWritten | include/boost/double_ended/batch_deque.hpp:1082-1086 | the count as written never reports fewer slots than are free after end; BatchDeque.BackFreeAsWrittenOverReports states by how much it over-reports |
| BatchDeque.BackFreeOf | include/boost/double_ended/batch_deque.hpp:1082-1086 | the corrected back free capacity and end's linear position together make up the whole map |
| BatchDeque.BackFreeShift | include/boost/double_ended/batch_deque.hpp:2143-2162 | prepending a segment, with end keeping its entry, leaves the back free capacity unchanged |
| BatchDeque.BackFreeAsWrittenOverReports | include/boost/double_ended/batch_deque.hpp:1082-1086 | the written back_free_capacity is right when end starts a segment and one segment too high otherwise |
| BatchDeque.BackFreeAsWrittenCounterexample | include/boost/double_ended/batch_deque.hpp:1082-1086 | one element in one eight-slot segment: 15 free slots reported, 7 real |
| BatchDeque.ReserveBackAsWrittenCounterexample | include/boost/double_ended/batch_deque.hpp:1333-1351 | as written, reserve_back(16) on that deque adds no segment and leaves room for only 8 elements |
| BatchDeque.StableInsertPaddingAsWritten | include/boost/double_ended/batch_deque.hpp:1902-1903 | as written, stable_insert pads the temporary deque by a whole segment too many whenever n is not a multiple of the segment size |
| BatchDeque.ShrinkBackAsWrittenStops | include/boost/double_ended/batch_deque.hpp:1366-1370 | the written back loop stops only when the entries from end's segment on are even in number; when it stops, end's segment has been released while its entry stays in the map |
| BatchDeque.ShrinkBackAsWrittenCounterexample | include/boost/double_ended/batch_deque.hpp:1366-1370 | a cleared one-segment deque never ends the loop; a two-segment deque with one element releases the segment holding it |
| BatchDeque.AssignAsWrittenCounterexample | include/boost/double_ended/batch_deque.hpp:2308-2343 | after a reserve_front, assigning one element leaves begin after end as written |
| BatchDeque.SegmentCountSplit | include/boost/double_ended/batch_deque.hpp:2435-2439 | segment_count is the quotient, plus one when a segment is partly used |
| BatchDeque.SegmentCountStep | include/boost/double_ended/batch_deque.hpp:2435-2439 | adding a partly or fully used segment after k full ones raises segment_count from k to k + 1 |
| BatchDeque.Padding | include/boost/double_ended/batch_deque.hpp:1902-1903 | the corrected padding is less than one segment, completes the last segment, and is the corrected back free capacity of the temporary deque |
| BatchDeque.PaddingFills | include/boost/double_ended/batch_deque.hpp:1902-1903 | the padding formula is below the segment size and rounds n up to a multiple of it |
| BatchDeque.SegmentStartOf | include/boost/double_ended/batch_deque.hpp:1896-1921 | a position after begin's segment lies in a later segment, whose first slot lies after begin and less than one segment before the position |
| BatchDeque.SpliceElements | include/boost/double_ended/batch_deque.hpp:1911-1915 | putting whole segments into the map before a segment boundary inserts their slots into the elements at that boundary |
| BatchDeque.WalkStep | include/boost/double_ended/batch_deque.hpp:275-314 | each segment before segment_end holds data_size() live slots from the segment iterator's index, and the walk then stands that many positions further on |
| BatchDeque.WalkEnd | include/boost/double_ended/batch_deque.hpp:1011-1014 | at segment_end the walk has reached end |
| BatchDeque.WalkToLayout | include/boost/double_ended/batch_deque.hpp:1001-1014 | walking the segments up to segment k reads the elements from begin up to the walk's position at k |
| BatchDeque.WalkIsElements | include/boost/double_ended/batch_deque.hpp:1001-1014 | walking from segment_begin to segment_end yields exactly the elements |
| BatchDeque.WalkSegments | include/boost/double_ended/batch_deque.hpp:275-314 | the loop over the segment iterators, appending data()[0..data_size()) of each segment, computes that walk |
| BatchDeque.BuildSegments | include/boost/double_ended/batch_deque.hpp:482-518 | the range constructor allocates segment_count(\|r\|) fresh, distinct segments and lays r out from the first slot |
| BatchDeque.EraseByMovingTail | include/boost/double_ended/batch_deque.hpp:2009-2013 | moving the tail over the erased run and cutting the end removes the run |
| BatchDeque.EraseByMovingHead | include/boost/double_ended/batch_deque.hpp:2014-2018 | moving the head backward over the erased run and cutting the front removes the run |
| BatchDeque.InsertByRotation | include/boost/double_ended/batch_deque.hpp:2393-2406 | pushing r at the back and rotating it to pos inserts it at pos |
| BatchDeque.InsertByFrontRotation | include/boost/double_ended/batch_deque.hpp:2407-2421 | pushing r at the front and rotating the next pos elements before it inserts it at pos |
| BatchDeque.BackFreeGrow | include/boost/double_ended/batch_deque.hpp:1345-1348 | appending a segment to the map adds a segment's worth of back free capacity |
| BatchDeque.DropBackBounds | include/boost/double_ended/batch_deque.hpp:1366-1370 | cutting the map at or after segment_end keeps end inside it, and cutting exactly at segment_end leaves less than a segment free at the back |
| BatchDeque.ShrinkBounds | include/boost/double_ended/batch_deque.hpp:1358-1373 | keeping only begin's segment up to segment_end keeps both iterators inside the map and leaves less than a segment free at each end |
| BatchDeque.BatchDeque.Size | include/boost/double_ended/batch_deque.hpp:1038-1041 | size is the number of elements |
| BatchDeque.BatchDeque.Empty | include/boost/double_ended/batch_deque.hpp:1028-1031 | empty holds exactly when there are no elements |
| BatchDeque.BatchDeque.Capacity | include/boost/double_ended/batch_deque.hpp:1059-1062 | capacity counts every slot of every segment |
| BatchDeque.BatchDeque.FrontFree | include/boost/double_ended/batch_deque.hpp:1070-1074 | the elements are the slots that follow the front free capacity |
| BatchDeque.BatchDeque.BackFree | include/boost/double_ended/batch_deque.hpp:1082-1086 | corrected: the front free capacity, the size and the back free capacity make up the capacity |
| BatchDeque.BatchDeque.BackFreeAsWrittenDecides | include/boost/double_ended/batch_deque.hpp:1082-1086 | under the invariants, back_free_capacity() as written is positive exactly when a slot is free after the end iterator, so emplace_back's test on it picks the right path |
| BatchDeque.BatchDeque.FreeCapacitiesPartition | include/boost/double_ended/batch_deque.hpp:1059-1086 | the slots split into the front free run, the elements and the back free run |
| BatchDeque.BatchDeque.Get | include/boost/double_ended/batch_deque.hpp:1384-1389 | operator[] yields the element n places after the first |
| BatchDeque.BatchDeque.At | include/boost/double_ended/batch_deque.hpp:1412-1416 | at yields that element, and out_of_range exactly when n is not below the size |
| BatchDeque.BatchDeque.Front | include/boost/double_ended/batch_deque.hpp:1438-1443 | front is the first element |
| BatchDeque.BatchDeque.Back | include/boost/double_ended/batch_deque.hpp:1466-1472 | back is the last element |
| BatchDeque.BatchDeque.Default | include/boost/double_ended/batch_deque.hpp:362-380 | a new deque is empty and has no segments |
| BatchDeque.BatchDeque.FromRange | include/boost/double_ended/batch_deque.hpp:482-518 | the elements are the range, from the first slot, in exactly segment_count(\|r\|) segments |
| BatchDeque.BatchDeque.Filled | include/boost/double_ended/batch_deque.hpp:395-445 | the elements are n copies of the value |
| BatchDeque.BatchDeque.UnsafePushBack | include/boost/double_ended/batch_deque.hpp:1729-1737 | with back room, x is appended in place and the back free capacity drops by one |
| BatchDeque.BatchDeque.UnsafePushFront | include/boost/double_ended/batch_deque.hpp:1641-1650 | corrected (begin stepped back by decrement, not by the written advance(-1)): with front room, x is prepended in place and the front free capacity drops by one |
| BatchDeque.BatchDeque.EmplaceBackSlowPath | include/boost/double_ended/batch_deque.hpp:2165-2182 | with no back room, one fresh segment is appended and x is appended; a throwing constructor leaves the map and the elements unchanged |
| BatchDeque.BatchDeque.EmplaceFrontSlowPath | include/boost/double_ended/batch_deque.hpp:2143-2162 | with no front room, one fresh segment is prepended and its last slot holds x, the new first element; end keeps its entry; the back free capacity is unchanged |
| BatchDeque.BatchDeque.ReserveBack | include/boost/double_ended/batch_deque.hpp:1333-1351 | corrected: afterwards n elements fit from begin to the end of the map; exactly segment_count of the shortfall segments are appended, or none when nothing was missing |
| BatchDeque.BatchDeque.ReserveFront | include/boost/double_ended/batch_deque.hpp:1301-1319 | afterwards n elements fit from the start of the map to end; exactly segment_count of the shortfall segments are prepended, or none |
| BatchDeque.BatchDeque.ShrinkToFit | include/boost/double_ended/batch_deque.hpp:1358-1373 | corrected: the map keeps exactly the segments that hold elements; the elements are unchanged and less than a segment stays free at each end |
| BatchDeque.BatchDeque.DropFrontSegments | include/boost/double_ended/batch_deque.hpp:1360-1364 | releasing the segments before begin's segment keeps the elements and the back free capacity |
| BatchDeque.BatchDeque.PushBack | include/boost/double_ended/batch_deque.hpp:1535-1548 | x is appended; the path is chosen by back_free_capacity() as written; a new segment is added exactly when there was no back room and the constructor succeeded; a throw changes nothing |
| BatchDeque.BatchDeque.PushFront | include/boost/double_ended/batch_deque.hpp:1505-1519 | corrected (begin stepped back by decrement, not by the written advance(-1)): x is prepended; without front room a segment is prepended and S - 1 front slots remain free; the back free capacity is kept |
| BatchDeque.BatchDeque.EraseAtEnd | include/boost/double_ended/batch_deque.hpp:2351-2355 | the elements from position n on are destroyed |
| BatchDeque.BatchDeque.EraseAtBegin | include/boost/double_ended/batch_deque.hpp:2345-2349 | the first n elements are destroyed |
| BatchDeque.BatchDeque.Erase | include/boost/double_ended/batch_deque.hpp:2001-2023 | the run is removed and the result is first; no segment is added or released |
| BatchDeque.BatchDeque.EraseAt | include/boost/double_ended/batch_deque.hpp:1977-1980 | the element at pos is removed and the result is pos |
| BatchDeque.BatchDeque.Emplace | include/boost/double_ended/batch_deque.hpp:1565-1589 | x is inserted at pos and the result is pos; a throwing constructor leaves the elements unchanged |
| BatchDeque.BatchDeque.EmplaceSlowPath | include/boost/double_ended/batch_deque.hpp:2185-2204 | pushing x at the nearer end and rotating it into place inserts it at pos |
| BatchDeque.BatchDeque.InsertRange | include/boost/double_ended/batch_deque.hpp:2363-2422 | r is inserted at pos and the result is pos; after a throw, the elements pushed so far stay at the end where they were pushed |
| BatchDeque.BatchDeque.InsertCopies | include/boost/double_ended/batch_deque.hpp:1821-1826 | n copies of x are inserted at pos |
| BatchDeque.BatchDeque.OverwriteBuffer | include/boost/double_ended/batch_deque.hpp:2308-2343 | corrected: the elements become a prefix of r written from the start of the map, as long as r lasts or up to the old end; begin is the first slot; an empty deque is left alone |
| BatchDeque.BatchDeque.Assign | include/boost/double_ended/batch_deque.hpp:815-824 | the elements become r; a throwing constructor leaves a proper prefix of r |
| BatchDeque.BatchDeque.AssignCopies | include/boost/double_ended/batch_deque.hpp:846-849 | the elements become n copies of t, or fewer copies after a throw |
| BatchDeque.BatchDeque.FillBackFree | include/boost/double_ended/batch_deque.hpp:1903 | corrected: resize(size() + back_free_capacity()) fills exactly the free slots after the last element with copies and adds no segment |
| BatchDeque.BatchDeque.SpliceSegments | include/boost/double_ended/batch_deque.hpp:1905-1918 | the temporary deque's segments enter the map before the hint's segment, their elements are inserted at that segment's start, and no existing segment is touched |
| BatchDeque.BatchDeque.StableInsertSplice | include/boost/double_ended/batch_deque.hpp:1900-1922 | the range plus the corrected padding is inserted at the start of the hint's segment, in segment_count(\|r\|) fresh segments; a throw changes nothing |
| BatchDeque.BatchDeque.StableInsert | include/boost/double_ended/batch_deque.hpp:1890-1923 | at the end, and in begin's segment, the range is inserted by insert; elsewhere it is inserted before the hint's segment and every existing segment stays in the map with its contents, so references stay valid |
| BatchDeque.BatchDeque.SegmentWalk | include/boost/double_ended/batch_deque.hpp:1001-1014 | walking segment_begin() to segment_end() and concatenating each data()[0..data_size()) gives exactly the elements |
| BatchDeque.BatchDeque.ResizeBack | include/boost/double_ended/batch_deque.hpp:1207-1284 | the size becomes sz with copies of c at the back, or the tail is cut; a throw pops what was pushed and leaves the elements unchanged |
| BatchDeque.BatchDeque.ResizeFront | include/boost/double_ended/batch_deque.hpp:1111-1188 | the mirror image at the front |
| BatchDeque.BatchDeque.PopFront | include/boost/double_ended/batch_deque.hpp:1932-1940 | the first element is removed and one more front slot is free |
| BatchDeque.BatchDeque.PopBack | include/boost/double_ended/batch_deque.hpp:1949-1957 | the last element is removed and one more back slot is free |
| BatchDeque.BatchDeque.Clear | include/boost/double_ended/batch_deque.hpp:2063-2068 | all elements are removed; every segment is kept and all of it is back free capacity |
| BatchDeque.BatchDeque.Swap | include/boost/double_ended/batch_deque.hpp:2033-2050 | the maps, iterators and contents are exchanged and no element moves |

## Left out

- Allocators are left out: their types, rebinding, propagation on copy, move and swap, and unequal-allocator paths. Allocation is modelled by fresh arrays and an `allocations` counter.
- Exceptions other than element construction are left out, and so is the allocator running out of memory. A failing element construction is a `ctorThrows` flag or a `budget`.
- The memcpy fast paths for trivially copyable elements (devector.hpp:2157-2160, 2200-2204, 2793-2805; batch_deque.hpp:2269-2299) are left out. They produce the same contents as the element-wise loops that are modelled.
- Devector.Devector.InsertRange: a throwing element constructor is not modelled; the range is always constructed.
- BatchDeque.BatchDeque.Assign: a throw is modelled only in the push_back phase, not while overwriting slots that already exist.
- Value-initialised elements (`T()`) are passed in as a value. This covers resize, the n-element constructor and the stable_insert padding.
- The batch_deque map is a `seq` of segments, not a devector. Its own spare capacity (`_map.reserve_front/back` with new_map_capacity) is not modelled. The save/restore of iterators around it is the identity, because iterators count map entries from the start of the map.
- The batch_deque copy constructor, move constructor, copy assignment and move assignment (batch_deque.hpp:598-608, 682-699, 721-766) are not separate members. Copying is FromRange or Assign on the other deque's elements; moving takes over the map, which Swap models.
- Destructors, `deallocate_buffer` and `deallocate_segment` are left out. A released buffer or segment leaves the container's map but is not freed.
- The move guards of swap_small_small are not separate objects: their effect is that a throw leaves both devectors' elements as they were, which Devector.SwapSmallBuffers states. The copies they destroy are not tracked slot by slot, because the devector's slots hold values; the guards themselves are modelled in `Guards`.
- The devector's `size_type` is 32-bit unsigned. batch_deque's `difference_type` is 64-bit and appears only in the iterator's advance.
- Devector.Devector.ReserveFront: computes n + back free capacity unwrapped and raises a length error when it passes the size type's maximum. The source computes it in the 32-bit size type, where it wraps, and raises nothing (see Findings).
- Devector.Devector.ReserveBack: the same for n + front free capacity.
- Devector.Devector.InsertRange: the capacity request capacity() + n is computed unwrapped, so a request past the size type's maximum is a length error. The source wraps it before calculate_new_capacity (see Findings).
- Devector.Devector.InsertRangeSlowPath: the same unwrapped capacity request.
- Devector.Devector.InsertCopies: the same unwrapped capacity request, through InsertRange.
- Devector.Devector.ResizeBack: the request sz + front free capacity is computed unwrapped; the source computes it in the size type.
- Devector.Devector.ResizeFront: the request sz + back free capacity is computed unwrapped; the source computes it in the size type.
- The `Construction` module stands on its own. The containers state their element-construction failures directly on their contents, through `ctorThrows` and `budget`, not through ConstructN, NullGuardedConstructN or MoveConstructRange.
- Iterator invalidation, `data()`, reverse iterators and `get_allocator` are left out. `max_size` appears only as DevectorPolicy.MaxSize.
- DequeIterator.Advance: the corrected advance is proved for unbounded integers; the 64-bit range of n is a requirement only of the written version.
- BatchDeque.BatchDeque.StableInsert: with the hint in begin's segment it inserts at begin(), as the code does. The documentation says "before the hint".
- BatchDeque.BatchDeque.UnsafePushFront: begin steps back by one slot with DequeIterator.Decrement. The source computes `_begin - 1`, which goes through the written advance(-1) (batch_deque.hpp:222-240, 1645). The two agree exactly when the segment size divides 2^64 (DequeIterator.AdvanceAsWrittenPowerOfTwo), which holds for the power-of-two sizes the documentation recommends (batch_deque.hpp:64). For other sizes, such as 3, the source leaves begin in place and constructs the new element over the first one (DequeIterator.AdvanceAsWrittenCounterexample). The model requires only S > 1.
- BatchDeque.BatchDeque.PushFront: the same corrected step on emplace_front's fast path (batch_deque.hpp:1509). Every caller that pushes at the front inherits it: PushFrontAll, Emplace at position 0, EmplaceByFrontRotation (emplace_slow_path), InsertByFrontPushes (insert_range), ResizeFront, and StableInsert with the hint in begin's segment.
- `std::prev(_end)` in back() and emplace() (batch_deque.hpp:1470, 1572, 2194) is modelled as the iterator's decrement (DequeIterator.Decrement). libstdc++ uses the decrement for a constant step of one. A library that uses `+= -1` there, as libc++ does, goes through the written advance(-1), with the same power-of-two condition as above.
- Devector.Devector.Reserved: requires front_cap + back_cap to fit the 32-bit size type. The source forms `_storage(front_cap + back_cap)` in that type (devector.hpp:275), so a larger sum wraps. For example, front_cap = 2^32 - 1 and back_cap = 2 give a capacity of 1, with both indices set to 2^32 - 1, past the buffer (devector.hpp:277-278). This is the same wrap as in Findings row devector.hpp:1182-1214.
- Serialization, debug printing and the test suite's helpers are not part of this model.

## Findings

| source | as written | input that shows it | evidently intended | confidence | as-written member | corrected member |
|---|---|---|---|---|---|---|
| include/boost/double_ended/batch_deque.hpp:222-240 | for negative n, the new index is computed from `n % segment_size`, with n converted to the unsigned size type | segment size 3, iterator (0, 2), advance by -1: the iterator stays at (0, 2) | move back exactly one position, to (0, 1) | not executed | DequeIterator.AdvanceAsWrittenCounterexample | DequeIterator.Advance |
| include/boost/double_ended/batch_deque.hpp:1082-1086 | back_free_capacity counts end's segment in full and then its free slots again | one element in one eight-slot segment: 15 reported, 7 free | the slots after the last element (7) | not executed | BatchDeque.BackFreeAsWrittenCounterexample | BatchDeque.BatchDeque.BackFree |
| include/boost/double_ended/batch_deque.hpp:1333-1351 | reserve_back trusts the over-reported back free capacity | reserve_back(16) on that deque adds no segment; 8 elements fit | room for 16 elements | not executed | BatchDeque.ReserveBackAsWrittenCounterexample | BatchDeque.BatchDeque.ReserveBack |
| include/boost/double_ended/batch_deque.hpp:1902-1903 | stable_insert pads the temporary deque to size() + back_free_capacity() | n = 1, segment size 2: 3 padding elements are inserted instead of 1 | pad only to the end of the last segment | not executed | BatchDeque.StableInsertPaddingAsWritten | BatchDeque.Padding |
| include/boost/double_ended/batch_deque.hpp:1366-1370 | the back loop of shrink_to_fit starts at end's segment and advances while pop_back shrinks the map | a one-segment deque that was cleared never meets the map end; a two-segment deque with one element releases the segment that holds it | release only the segments after segment_end | not executed | BatchDeque.ShrinkBackAsWrittenCounterexample | BatchDeque.BatchDeque.ShrinkToFit |
| include/boost/double_ended/devector.hpp:2105-2119 | the requested capacity arrives computed in the 32-bit size type | capacity 0x6000_0000, inserting 0xA000_0000: the request wraps to 0 and 0x8000_0000 is accepted | length_error | not executed | DevectorPolicy.CalculateNewCapacityWrapCounterexample | DevectorPolicy.CalculateNewCapacity |
| include/boost/double_ended/devector.hpp:1182-1214 | reserve_front and reserve_back add the free capacity to n in the 32-bit size type | empty devector of capacity 16, reserve_front(2^32 - 8): the new capacity is 8, with the elements placed at 2^32 - 8 | length_error | not executed | DevectorPolicy.ReserveWrapCounterexample | Devector.Devector.ReserveFront |
| include/boost/double_ended/batch_deque.hpp:2308-2343 | overwrite_buffer_impl keeps begin's segment and only sets its index to 0 (its assert expects begin in the first segment) | push_back one element into an empty two-slot deque, reserve_front(4), assign one element: begin (2, 0) is after end (0, 1) | begin at the start of the map | not executed | BatchDeque.AssignAsWrittenCounterexample | BatchDeque.BatchDeque.OverwriteBuffer |
| include/boost/double_ended/devector.hpp:615-669 | move assignment resets x to `_storage.small_buffer_address()`, this devector's small buffer | move-assign a heap devector x into d, then clear d and call shrink_to_fit: d and x share one small buffer | x reset to its own small buffer | not executed | DevectorScenarios.MoveAssignSharesBuffer | Devector.Devector.MoveAssign |
| include/boost/double_ended/devector.hpp:2748-2752 | swap_small_small bounds the start of the swap_ranges range by the first devector's back index only | small buffers of 8 slots, a = [5, 7), b = [0, 2): swap_ranges is called with first = a + 5 and last = a + 2, an invalid range | swap the common slots [max of the fronts, min of the backs), an empty range when the two runs do not meet | not executed | Devector.SwapOverlapAsWrittenCounterexample | Devector.SwapSmallBuffers |
