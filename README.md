# foonathan/array, modelled in Dafny

This project models the core of the C++ container library foonathan/array:

- the block storages that own raw memory;
- the algorithms written once over any block storage;
- the dynamic `array`;
- the unordered `bag`;
- the sorted `flat_set` / `flat_multiset`;
- `flat_map` / `flat_multimap`.

The model follows the library's layers, module by module.

- `RawStorage` (raw_storage.dfy): raw memory as a row of slots, each either `Raw` or `Live(value)`.
  - It also holds the object-lifetime primitives the library is built from: construct, destroy, assign, uninitialized move/copy/fill, destructive move, and `std::move` / `std::move_backward`.
  - Each primitive demands the lifetime state C++ demands. Construction goes only into raw slots; only live objects are assigned or destroyed.
- `Growth` (growth_policy.dfy): the growth policy as two uninterpreted sizing functions. The only assumption is that neither returns less than was asked for.
- `NewStorage` (block_storage_new.dfy): `block_storage_new`, a heap storage that owns one block.
  - `operator new` may fail. Which way it goes is a nondeterministic choice, and a failure is `None`.
- `BlockAlgorithms` (block_storage.dfy): `move_to_front`, `clear_and_shrink`, `clear_and_reserve`, `assign_impl` / `assign_copy` / `assign_move`, `fill`, `move_assign` and `copy_assign`, all over the heap storage (see Left out for how its interface is bridged).
- `EmbeddedStorage` (block_storage_embedded.dfy): `block_storage_embedded`, a fixed buffer. It has the byte-level overflow check and the element-wise `swap`.
- `Arrays` (array.dfy): `array`, which is the live prefix `[0, end_)` of the storage's block. Iterators are indices.
- `Bags` (bag.dfy): `bag`. Its erase swaps the doomed elements to the end and truncates there, and the model proves the multiset effects.
- `KeyCompare` (key_compare.dfy): the three-way comparator as a total preorder, and `key_value_pair` compared by key alone.
- `SortedRange` (sorted_range.dfy): the free `lower_bound` / `upper_bound` / `equal_range`, the `std::sort` and `std::unique` that `assign` uses, and sorted insertion as value-level functions with their lemmas.
- `FlatSets` (flat_set.dfy): `flat_set`.
  - Its invariant: the elements are sorted and, in set mode, no two are equivalent.
- `FlatMaps` (flat_map.dfy): `flat_map`, a flat set of keys plus an array of values, linked by position.
  - Its invariant: equal lengths, with value i belonging to key i.
  - Read as `Entries()`, the pairs of keys and values, the entries after the corrected FlatMaps.FlatMap.TryEmplace are those of a flat set of `key_value_pair` ordered by key (FlatMaps.EntryInsert).
  - The insert result differs: the map reports `was_duplicate = false` whenever it inserted, while the set reports whether an equivalent element was already present. The as-written failure path differs as well (Findings).

## Conventions

- **Allocation failure.** Every mutator that allocates returns `ok: bool` or an `Option`. Its contract states both outcomes.
  - The contract also says when no allocation happens, and so when the operation cannot fail: "fits in the current capacity ⇒ succeeds and keeps the block".
- **Sizes.** Sizes are counted in elements (`sizeof(T) == 1`). The one exception is the embedded storage's overflow check, which is stated in bytes with an explicit `elemSize`.
- **Comparator.** The comparator is a value `(K, K) -> Ordering` stored in the set. Transparent (heterogeneous) lookup keys are collapsed to `K`.
- **Sorting.** `std::sort` is modelled as `SortBy`, which is any sorted permutation. No contract depends on which equal elements come first.
- **Erase count.** On `erase_all`, the source returns a `bool` in set mode and a count otherwise. The model returns the count, which is at most one in set mode. This agrees with the code; the doc comment says the opposite.

## Model

| member | source | states |
|---|---|---|
| RawStorage.ValuesIn | include/foonathan/array/array.hpp:415-419 | the objects read out of a live range are exactly the objects those slots hold, one per slot |
| RawStorage.HoldsUnique | include/foonathan/array/array.hpp:415-419 | two sequences held by the same slots are the same sequence |
| RawStorage.HoldsSplice | include/foonathan/array/block_storage.hpp:216-227 | overwriting part of a block that holds c splices the new objects into c at that offset |
| RawStorage.Construct | include/foonathan/array/array.hpp:251-252 | constructing into a raw slot makes exactly that slot live with the given value |
| RawStorage.Destroy | include/foonathan/array/array.hpp:355-358 | destroying a live object turns exactly that slot back into raw memory |
| RawStorage.Assign | include/foonathan/array/array.hpp:440-449 | assignment changes the value of a live object and no other slot |
| RawStorage.DestroyRange | include/foonathan/array/array.hpp:389-391 | every slot of the range becomes raw; all other slots are unchanged |
| RawStorage.RelocateWithin | include/foonathan/array/block_storage.hpp:191-197 | a destructive move to an earlier, non-overlapping place in the same block: the objects arrive in order and their old slots are raw |
| RawStorage.RelocateInto | include/foonathan/array/block_storage_new.hpp:98-106 | a destructive move into another block keeps the order and count of the objects (test/raw_storage.cpp:477-510) and leaves the source slots raw |
| RawStorage.UninitializedMoveWithin | include/foonathan/array/block_storage.hpp:200-202 | move-construction into raw slots: the destination holds the objects in order and the moved-from sources stay live |
| RawStorage.MoveForward | include/foonathan/array/array.hpp:362-369 | std::move to an earlier position: the destination range takes the source values in order, which stays correct when the ranges overlap |
| RawStorage.MoveBackward | include/foonathan/array/array.hpp:437 | std::move_backward to a later position: the destination range ending at dEnd takes the source values in order |
| RawStorage.SwapPrefixes | include/foonathan/array/block_storage_embedded.hpp:57-59 | swap_ranges: the first n objects of the two blocks change places and nothing else changes |
| RawStorage.UninitializedCopy | include/foonathan/array/block_storage.hpp:229-240 | uninitialized copy/move of a range makes the raw destination hold exactly the range and returns its end |
| RawStorage.CopyOnto | include/foonathan/array/block_storage.hpp:216-227 | std::copy / std::move onto live objects replaces exactly those values with the range |
| RawStorage.UninitializedFill | include/foonathan/array/block_storage.hpp:316-318 | n raw slots are constructed as copies of x and the end is returned |
| RawStorage.FillN | include/foonathan/array/block_storage.hpp:308 | std::fill_n assigns x to exactly n live objects and returns the end |
| NewStorage.NewBlock | include/foonathan/array/block_storage_new.hpp:19-23 | new_block either fails or yields a fresh block of exactly the requested size, all raw |
| NewStorage.BlockStorageNew.constructor | include/foonathan/array/block_storage_new.hpp:40 | default construction owns no memory (an empty block) |
| NewStorage.BlockStorageNew.Sized | include/foonathan/array/block_storage_new.hpp:42-45 | the sized constructor allocates through new_block: either the allocation throws and there is no storage (None), or a fresh storage owns a fresh raw block of exactly min_initial_capacity |
| NewStorage.BlockStorageNew.Release | include/foonathan/array/block_storage_new.hpp:50-54 | the destructor releases the block, after which the storage owns nothing |
| NewStorage.BlockStorageNew.MoveConstruct | include/foonathan/array/block_storage_new.hpp:56-63 | move_construct takes other's block and leaves other with an empty block |
| NewStorage.BlockStorageNew.Swap | include/foonathan/array/block_storage_new.hpp:65-74 | swap exchanges the two blocks, whatever the live ranges are |
| NewStorage.BlockStorageNew.Reserve | include/foonathan/array/block_storage_new.hpp:76-81 | on success the block has growth_size(old size, min_additional) slots and holds the live objects in order at its front, and the old block is left without objects; a failed allocation changes nothing, because the new block is obtained before anything moves |
| NewStorage.BlockStorageNew.ShrinkToFit | include/foonathan/array/block_storage_new.hpp:83-90 | on success the block has shrink_size(old size, live count) slots with the objects in order at its front; a failure changes nothing |
| NewStorage.BlockStorageNew.MoveElements | include/foonathan/array/block_storage_new.hpp:98-106 | the live range is relocated, in order, to the front of the adopted block, and the released block holds no live object |
| BlockAlgorithms.MoveToFront | include/foonathan/array/block_storage.hpp:181-212 | in all three offset cases the result starts at the block front, has the same length and holds the same objects in the same order; at offset 0 nothing changes |
| BlockAlgorithms.RelocateDisjoint | include/foonathan/array/block_storage.hpp:191-197 | the non-overlapping case of move_to_front: a destructive move to the block front keeps the objects in order and leaves everything after them raw |
| BlockAlgorithms.ShiftOverlapping | include/foonathan/array/block_storage.hpp:198-211 | the overlapping case of move_to_front: construct the first offset objects into the raw front, move-assign the rest down and destroy the surplus, which leaves the range at the front in order |
| BlockAlgorithms.ClearAndShrink | include/foonathan/array/block_storage.hpp:144-159 | afterwards the storage owns an empty block, and the released block holds no live object |
| BlockAlgorithms.ClearAndReserve | include/foonathan/array/block_storage.hpp:161-174 | every object is destroyed; if the new size fits, the block is kept and its start is returned, otherwise it grows by growth_size; when allocation fails the objects are already gone |
| BlockAlgorithms.AssignImpl | include/foonathan/array/block_storage.hpp:242-273 | on success the block front holds exactly the input; when the input fits the current block, it is never reallocated and cannot fail; on failure the block is unchanged and all raw |
| BlockAlgorithms.AssignWithinBlock | include/foonathan/array/block_storage.hpp:250-266 | the two cases that reuse the block (assign and destroy the surplus; assign and construct the rest) leave exactly the input at the front |
| BlockAlgorithms.AssignCopy | include/foonathan/array/block_storage.hpp:281-286 | assign_copy leaves exactly the input at the front of the block, with AssignImpl's reallocation behaviour |
| BlockAlgorithms.AssignMove | include/foonathan/array/block_storage.hpp:287-292 | assign_move leaves exactly the input at the front of the block, with AssignImpl's reallocation behaviour |
| BlockAlgorithms.Fill | include/foonathan/array/block_storage.hpp:299-327 | on success exactly n copies of x are at the block front; it does not reallocate when n fits the block |
| BlockAlgorithms.MoveAssign | include/foonathan/array/block_storage.hpp:337-355 | dest owns other's former block with the same live range, other owns nothing, and dest's old block holds no object |
| BlockAlgorithms.CopyAssign | include/foonathan/array/block_storage.hpp:374-398 | on success dest owns a fresh block of growth_size(0, count) holding a copy of other's former objects at its front, and dest's old block holds no object; on failure dest is unchanged; a distinct other is never changed; self-assignment is allowed |
| BlockAlgorithms.CopyToTemporary | include/foonathan/array/block_storage.hpp:379-385 | step 1 of copy_assign: a temporary storage with other's policy holds a copy of other's objects at the front of a fresh block of growth_size(0, count), and nothing else is touched |
| EmbeddedStorage.BlockStorageEmbedded.constructor | include/foonathan/array/block_storage_embedded.hpp:36 | the storage owns a buffer of BufferBytes, all raw |
| EmbeddedStorage.BlockStorageEmbedded.Valid | include/foonathan/array/block_storage_embedded.hpp:124-126 | the buffer is BufferBytes of aligned storage whose slots are the whole elements that fit: their bytes fit into BufferBytes, and one more element would not |
| EmbeddedStorage.BlockStorageEmbedded.Block | include/foonathan/array/block_storage_embedded.hpp:109-112 | block() is the whole buffer: BufferBytes in size, its slots being all the whole elements that fit |
| EmbeddedStorage.BlockStorageEmbedded.EmptyBlock | include/foonathan/array/block_storage_embedded.hpp:104-107 | empty_block() is block(), the whole buffer |
| EmbeddedStorage.BlockStorageEmbedded.Capacity | include/foonathan/array/block_storage_embedded.hpp:109-112 | the buffer holds exactly the whole elements that fit into BufferBytes |
| EmbeddedStorage.BlockStorageEmbedded.MaxSize | include/foonathan/array/block_storage_embedded.hpp:119-122 | max_size is the block size in bytes, which bounds the bytes of every element count that fits |
| EmbeddedStorage.BlockStorageEmbedded.Reserve | include/foonathan/array/block_storage_embedded.hpp:81-93 | the objects are moved to the front in order; the call succeeds if and only if the live bytes plus min_additional_bytes fit in BufferBytes, and otherwise raises embedded_storage_overflow; on success it returns the end of the live range |
| EmbeddedStorage.BlockStorageEmbedded.ShrinkToFit | include/foonathan/array/block_storage_embedded.hpp:95-101 | the objects are moved to the front, in order, and the end of the live range is returned |
| EmbeddedStorage.BlockStorageEmbedded.Swap | include/foonathan/array/block_storage_embedded.hpp:43-78 | lhs ends up holding rhs's former objects (rhs_size of them) and rhs holds lhs's (lhs_size), both starting at their own block front |
| EmbeddedStorage.ExchangeFronts | include/foonathan/array/block_storage_embedded.hpp:54-74 | swapping the common prefix pairwise and then moving the longer side's tail across exchanges the two live ranges completely |
| EmbeddedStorage.DivisionBounds | include/foonathan/array/block_storage_embedded.hpp:109-112 | the element count of the buffer, a truncating division, is the largest count whose bytes fit |
| Arrays.Array.Valid | include/foonathan/array/array.hpp:415-419 | the array invariant: the live objects are exactly the prefix [0, end_) of the block, and everything after it is raw memory |
| Arrays.Array.constructor | include/foonathan/array/array.hpp:45-52 | a new array is empty and owns no memory |
| Arrays.Array.MoveFrom | include/foonathan/array/array.hpp:72-84 | move construction owns other's block and elements and leaves other empty with an empty block |
| Arrays.Array.Size | include/foonathan/array/array.hpp:210-213 | size is the number of elements |
| Arrays.Array.Capacity | include/foonathan/array/array.hpp:216-220 | capacity is the block size, which is never below the size |
| Arrays.Array.Elements | include/foonathan/array/array.hpp:415-419 | the view reads back exactly the elements |
| Arrays.Array.At | include/foonathan/array/array.hpp:175-182 | operator[] yields element i |
| Arrays.Array.Set | include/foonathan/array/array.hpp:175-178 | assignment through operator[] replaces element i and nothing else |
| Arrays.Array.Exchange | include/foonathan/array/bag.hpp:203-205 | std::iter_swap exchanges elements i and j and nothing else |
| Arrays.Array.Overwrite | include/foonathan/array/block_storage.hpp:216-227 | std::copy of vs onto begin() replaces as many leading elements as vs has with vs, and keeps the rest |
| Arrays.Array.Reserve | include/foonathan/array/array.hpp:229-236 | the elements are unchanged; on success the capacity is at least n; when n is at most the capacity it is a no-op that keeps the block; otherwise the new capacity is growth_size of the old one |
| Arrays.Array.ShrinkToFit | include/foonathan/array/array.hpp:239-242 | the elements are unchanged; on success the capacity is shrink_size(capacity, size) |
| Arrays.Array.EmplaceBack | include/foonathan/array/array.hpp:247-254 | appends exactly x at the end; with spare capacity it cannot fail and does not reallocate; on failure the array is unchanged |
| Arrays.Array.MoveRange | include/foonathan/array/array.hpp:421-438 | opens a gap of to - from slots at from: the elements from there on are shifted right, in order, while the gap keeps its moved-from objects |
| Arrays.Array.ConstructAtEnd | include/foonathan/array/array.hpp:429-434 | the construction loop of move_range move-constructs each element of [from, end) past the end in turn, so the array becomes its old elements followed by a copy of that tail |
| Arrays.Array.AssignBackward | include/foonathan/array/array.hpp:436-437 | std::move_backward of [from, assign_end) onto the slots ending at the old end turns old + old[assign_end..] into old[..to] + old[from..] |
| Arrays.ShiftedUp | include/foonathan/array/array.hpp:421-438 | on the slots: if the block holds c followed by c[assign_end..] and [from, assign_end) is moved backward onto [to, end), the block holds c[..to] + c[from..] and stays constructed exactly there |
| Arrays.Array.Emplace | include/foonathan/array/array.hpp:270-301 | at index i the result is old[..i] + [x] + old[i..] and the returned index is i, including at the end; with spare capacity it cannot fail; on failure nothing changes |
| Arrays.Array.PopBack | include/foonathan/array/array.hpp:355-358 | removes exactly the last element |
| Arrays.Array.Erase | include/foonathan/array/array.hpp:362-373 | at index i the result is old[..i] + old[i+1..] and the returned index is i |
| Arrays.Array.EraseRange | include/foonathan/array/array.hpp:377-396 | removes exactly [b, e) (nothing when b == e) and returns b |
| Arrays.Array.Clear | include/foonathan/array/array.hpp:348-352 | the size becomes 0 and the capacity is unchanged |
| Arrays.Array.AppendRangeInputAsWritten | include/foonathan/array/array.hpp:451-461 | push_back of each element: a prefix of vs is appended (all of it on success); the result is the old end for an empty range and otherwise the last element, not the first appended one |
| Arrays.Array.AppendRange | include/foonathan/array/array.hpp:462-475 | after one reservation all of vs is appended or nothing is; the result is the first appended position; it cannot fail when vs fits in the capacity |
| Arrays.Array.Rotate | include/foonathan/array/array.hpp:498 | std::rotate moves [middle, last) in front of [first, middle) and leaves the rest in place |
| Arrays.Array.InsertRange | include/foonathan/array/array.hpp:490-501 | append, then rotate: vs, in order, is inserted before index i and i is returned; on failure nothing changes |
| Arrays.Array.AppendRangeInput | include/foonathan/array/array.hpp:320-327 | append_range as documented, "the same as insert_range(end(), ...)": the result is the first appended position, holding vs[0] |
| Arrays.Array.InsertRangeInputAsWritten | include/foonathan/array/array.hpp:477-489 | insert of each element after the previous one inserts a prefix of vs before index (all of it on success); the result is the array's last position |
| Arrays.Array.InsertRangeInput | include/foonathan/array/array.hpp:335-345 | insert_range as documented: the result is index, which holds vs[0] when anything was inserted |
| Arrays.Array.Swap | include/foonathan/array/array.hpp:119-127 | the two arrays exchange their elements and their blocks |
| Arrays.Array.CopyAssign | include/foonathan/array/array.hpp:93-98 | on success the array holds a copy of other's former elements in a fresh block, also when other is the array itself; on failure it is unchanged; a distinct other never changes |
| Arrays.Array.MoveAssign | include/foonathan/array/array.hpp:101-109 | the array takes over other's block and elements; other is left empty with an empty block |
| Arrays.Array.AssignView | include/foonathan/array/array.hpp:399-404 | assign(input_view) for a view that hands over its storage: the array adopts the view's block and holds the view's objects, in order, at the front; the view's storage is left empty |
| Arrays.Array.AssignRange | include/foonathan/array/array.hpp:407-412 | on success the elements are exactly vs, and when vs fits the capacity it succeeds without reallocating; on failure the array is empty and still valid |
| Arrays.Array.AssignRangeAsWritten | include/foonathan/array/array.hpp:407-412 | on failure end_ keeps its old value while every slot of the block is raw memory |
| Arrays.ValuesOfHeld | include/foonathan/array/array.hpp:415-419 | any sub-range of the live prefix reads back that slice of the elements |
| Arrays.StaleEndIsInvalid | include/foonathan/array/array.hpp:407-412 | the state a failed assign_range leaves, with a non-zero end_ over raw memory, breaks the array invariant |
| Arrays.InputRangeResultIsLast | include/foonathan/array/array.hpp:477-489 | given the postconditions of Arrays.Array.InsertRangeInputAsWritten on success, with a non-empty range inserted before an existing element: the returned position holds the old last element, not the first inserted one (which sits at the insertion index); so for [a] and [x] with a != x it holds a, not x |
| Bags.Bag.Valid | include/foonathan/array/bag.hpp:271 | the bag invariant: a valid array |
| Bags.Bag.constructor | include/foonathan/array/bag.hpp:42 | a new bag is empty |
| Bags.Bag.Emplace | include/foonathan/array/bag.hpp:156-171 | emplace / insert append a single element at the end, adding one copy of it to the multiset |
| Bags.Bag.InsertRange | include/foonathan/array/bag.hpp:179-187 | appends the elements in order and adds exactly their multiset; the result is the first inserted position, or end() when the range is empty |
| Bags.Bag.Clear | include/foonathan/array/bag.hpp:189-193 | leaves the bag empty |
| Bags.Bag.Erase | include/foonathan/array/bag.hpp:197-212 | the result is pos, and the elements are SwapRemove(old, pos) |
| Bags.Bag.EraseRange | include/foonathan/array/bag.hpp:216-255 | the result is b, and the elements are RangeErased(old, b, e) |
| Bags.Bag.PositionAtEnd | include/foonathan/array/bag.hpp:226-244 | the position_at_end lambda keeps the size and returns a position whose prefix is RangeErased(old, b, e), in all three distance cases |
| Bags.Bag.MoveTailDown | include/foonathan/array/bag.hpp:232-236 | std::move of a tail no longer than the range onto b puts the tail right after the prefix |
| Bags.Bag.MoveOneDown | include/foonathan/array/bag.hpp:235 | one step of that std::move assigns the element at e + i to b + i, extending MovedPrefix by one |
| Bags.MoveDownStep | include/foonathan/array/bag.hpp:235 | on sequences: the source position e + i is not yet overwritten, and assigning it to b + i is MovedPrefix one step further |
| Bags.MovedAll | include/foonathan/array/bag.hpp:232-236 | once the whole tail is moved, MovedPrefix is the prefix, then the tail, then what followed the moved-over slots |
| Bags.Bag.SwapWithTail | include/foonathan/array/bag.hpp:237-244 | std::swap_ranges with the last e - b elements exchanges the doomed range with the tail |
| Bags.Bag.SwapOne | include/foonathan/array/bag.hpp:242 | one step of that std::swap_ranges exchanges positions b + i and t + i, extending SwappedPrefix by one |
| Bags.SwappedPrefixStep | include/foonathan/array/bag.hpp:242 | each swap_ranges step exchanges the next pair of positions |
| Bags.SwappedPrefixDone | include/foonathan/array/bag.hpp:237-244 | once done, the range and the tail have changed places |
| Bags.SwapRemoveProperties | include/foonathan/array/bag.hpp:197-212 | erase removes exactly one copy of the element at pos (the multiset minus that element, one element fewer); if pos was not last, it now holds the former last element, and every other position is kept |
| Bags.RangeErasedProperties | include/foonathan/array/bag.hpp:216-255 | in all three placement cases: e - b elements fewer, the remaining multiset is the old one minus the elements of [b, e), and the prefix before b stays |
| Bags.TakeOutMiddle | include/foonathan/array/bag.hpp:237-244 | exchanging two trailing pieces and dropping a middle one removes exactly the middle from the multiset |
| Bags.ArrangedPrefix | include/foonathan/array/bag.hpp:226-251 | in each of the three distance cases, the arranged elements before position_at_end are RangeErased(old, b, e), which is what erasing from there to the end keeps |
| KeyCompare.EquivalentSymmetric | include/foonathan/array/flat_set.hpp:36-45 | equivalence under the comparator is symmetric |
| KeyCompare.EquivalentTransitive | include/foonathan/array/flat_set.hpp:36-45 | equivalence under the comparator is transitive |
| KeyCompare.LessNotGreater | include/foonathan/array/flat_set.hpp:36-45 | less followed by not-greater is less |
| KeyCompare.NotLessMonotone | include/foonathan/array/flat_set.hpp:467-471 | elements at or after one that is not less than the key are not less than it either |
| KeyCompare.GreaterMonotone | include/foonathan/array/flat_set.hpp:474-478 | elements at or after one that is greater than the key are greater as well |
| KeyCompare.PairCompare | include/foonathan/array/flat_set.hpp:36-45 | key_value_pairs compare as their keys, the values taking no part |
| KeyCompare.PairCompareTotalPreorder | include/foonathan/array/flat_set.hpp:36-45 | comparing key_value_pairs by key alone is again a total preorder |
| KeyCompare.PairsOrderedByKey | include/foonathan/array/flat_set.hpp:36-45 | pairs compare as their keys, whatever the values, so pairs with equal keys are equivalent |
| SortedRange.LowerBound | include/foonathan/array/flat_set.hpp:467-471 | lower_bound: every element before the result is less than the key, and the one at the result is not |
| SortedRange.UpperBound | include/foonathan/array/flat_set.hpp:474-478 | upper_bound: every element before the result is not greater than the key, and the one at the result is greater |
| SortedRange.EqualRange | include/foonathan/array/flat_set.hpp:481-485 | on a sorted range lower_bound ≤ upper_bound, and the elements equivalent to the key are exactly those between them |
| SortedRange.CountOfRun | include/foonathan/array/flat_set.hpp:459-464 | if the equivalents form exactly the run [lo, hi), their count is hi - lo |
| SortedRange.EqualRangeCount | include/foonathan/array/flat_set.hpp:459-464 | count, the length of equal_range, is the number of elements equivalent to the key |
| SortedRange.CutRun | include/foonathan/array/flat_set.hpp:348-354 | cutting out the run that holds exactly the equivalents removes exactly them and keeps the order of the rest |
| SortedRange.EraseEqualRange | include/foonathan/array/flat_set.hpp:343-357 | erasing equal_range from a sorted sequence removes exactly the elements equivalent to the key |
| SortedRange.EqualRangeMutuallyEquivalent | include/foonathan/array/flat_set.hpp:481-485 | any two elements of an equal range are equivalent to each other |
| SortedRange.SetModeCountAtMostOne | include/foonathan/array/flat_set.hpp:288 | without equivalent pairs an equal range has at most one element |
| SortedRange.InsertKeyPosition | include/foonathan/array/flat_set.hpp:273-291 | the key is present if and only if its equal range is non-empty; an insertion grows the set by one with the key at the old upper bound; otherwise the set is unchanged and the lower bound holds an equivalent element |
| SortedRange.InsertKeyProperties | include/foonathan/array/flat_set.hpp:276-283 | inserting at the end of the equal range keeps the sequence sorted, keeps it free of equivalents in set mode, adds the key to the multiset exactly when it inserts, and leaves the key represented |
| SortedRange.InsertKeyElements | include/foonathan/array/flat_set.hpp:276-290 | try_emplace adds one copy of the key to the multiset when it inserts and nothing otherwise |
| SortedRange.InsertAtSorted | include/foonathan/array/flat_set.hpp:280 | inserting after every not-greater element and before every greater one keeps a sorted sequence sorted |
| SortedRange.InsertAtNoEquivalents | include/foonathan/array/flat_set.hpp:277-283 | inserting a key that has no equivalent keeps the sequence free of equivalent pairs |
| SortedRange.InsertAllSnoc | include/foonathan/array/flat_set.hpp:502-507 | inserting one more element at the end of the input is one more try_emplace |
| SortedRange.InsertAllOrder | include/foonathan/array/flat_set.hpp:502-507 | the insert loop keeps the sequence sorted and, in set mode, free of equivalents |
| SortedRange.InsertAllElements | include/foonathan/array/flat_set.hpp:502-507 | the insert loop keeps every old element and adds only input elements; a multiset gains exactly the input |
| SortedRange.InsertAllRepresents | include/foonathan/array/flat_set.hpp:502-507 | after the insert loop every input element has an equivalent in the set |
| SortedRange.KeptRepresented | include/foonathan/array/flat_set.hpp:502-515 | an element already present stays present, representing all its equivalents, after more elements are inserted |
| SortedRange.SortBy | include/foonathan/array/flat_set.hpp:369-371 | std::sort by the comparator yields a sorted permutation of its input |
| SortedRange.UniqueAfter | include/foonathan/array/flat_set.hpp:375-380 | std::unique past an already kept element: no longer than its input, and no kept element is equivalent to the one kept before it |
| SortedRange.Unique | include/foonathan/array/flat_set.hpp:375-380 | std::unique with the equivalence of the comparator: no longer than its input, empty exactly when the input is, keeps the first element, and no two adjacent kept elements are equivalent |
| SortedRange.UniqueAfterOrder | include/foonathan/array/flat_set.hpp:373-381 | std::unique on a sorted range, after the kept element last, yields a sorted sequence without equivalents, all above last |
| SortedRange.UniqueAfterDrawn | include/foonathan/array/flat_set.hpp:373-381 | std::unique keeps only elements drawn from its input, and no more of them |
| SortedRange.UniqueAfterCovers | include/foonathan/array/flat_set.hpp:373-381 | every element dropped by std::unique on a sorted range is equivalent to one kept |
| SortedRange.KeptHeadCovers | include/foonathan/array/flat_set.hpp:373-381 | with the first element kept, every element of the sorted range has an equivalent in the result |
| SortedRange.UniqueOfSorted | include/foonathan/array/flat_set.hpp:373-381 | sort then unique: sorted, no two equivalent, drawn from the input, and covering every input element |
| SortedRange.RemoveRangeKeepsOrder | include/foonathan/array/flat_set.hpp:326-338 | erasing a range keeps a sorted sequence sorted and a sequence free of equivalents free of them |
| FlatSets.FlatSet.Valid | include/foonathan/array/flat_set.hpp:517 | the set invariant: sorted and, unless duplicates are allowed, no two equivalent elements |
| FlatSets.FlatSet.constructor | include/foonathan/array/flat_set.hpp:517 | a new set is empty |
| FlatSets.FlatSet.Min | include/foonathan/array/flat_set.hpp:185-189 | min is the first element, and no element is below it |
| FlatSets.FlatSet.Max | include/foonathan/array/flat_set.hpp:191-195 | max is the last element, and no element is above it |
| FlatSets.FlatSet.LowerBound | include/foonathan/array/flat_set.hpp:467-471 | every element before the result is less than the key, and none from it on is |
| FlatSets.FlatSet.UpperBound | include/foonathan/array/flat_set.hpp:474-478 | every element before the result is not greater than the key, and every one from it on is greater |
| FlatSets.FlatSet.EqualRange | include/foonathan/array/flat_set.hpp:481-485 | an element is equivalent to the key if and only if it lies in the returned range |
| FlatSets.FlatSet.Find | include/foonathan/array/flat_set.hpp:445-455 | find yields the first equivalent element's position, and end() if and only if no element is equivalent |
| FlatSets.FlatSet.Contains | include/foonathan/array/flat_set.hpp:416-420 | contains holds if and only if some element is equivalent to the key |
| FlatSets.FlatSet.Count | include/foonathan/array/flat_set.hpp:459-464 | count is the number of equivalent elements; it is positive if and only if the key is present, and at most one in set mode |
| FlatSets.FlatSet.Lookup | include/foonathan/array/flat_set.hpp:424-430 | for a key that is present (the source asserts it), lookup yields an element of the set equivalent to it |
| FlatSets.FlatSet.TryLookup | include/foonathan/array/flat_set.hpp:434-442 | try_lookup is null if and only if no element is equivalent, and otherwise yields an equivalent element of the set |
| FlatSets.FlatSet.TryEmplace | include/foonathan/array/flat_set.hpp:273-291 | the set becomes InsertKey(old, key); was_duplicate holds if and only if the equal range was non-empty before; was_inserted holds if and only if a key was inserted; the returned position holds an equivalent element, and it is the old upper bound when inserted (after existing equivalents); a set that sees a duplicate, or a failed allocation, leaves the elements unchanged; with spare capacity the call cannot fail |
| FlatSets.FlatSet.InsertRangeInput | include/foonathan/array/flat_set.hpp:502-507 | the input-iterator insert_range inserts the elements one by one, and a failure leaves a prefix of them inserted |
| FlatSets.FlatSet.InsertNext | include/foonathan/array/flat_set.hpp:505-506 | one loop step inserts the next element; when it fails the loop stops, which can only happen without reserved room |
| FlatSets.FlatSet.InsertRange | include/foonathan/array/flat_set.hpp:508-515 | after reserving room for all, the range is inserted entirely or not at all; then every input element is represented and the multiset grows by at most the input |
| FlatSets.FlatSet.Reserve | include/foonathan/array/flat_set.hpp:222-226 | the elements stay, the capacity becomes at least n, and when n fits nothing is reallocated |
| FlatSets.FlatSet.Clear | include/foonathan/array/flat_set.hpp:319-322 | no element is left |
| FlatSets.FlatSet.Erase | include/foonathan/array/flat_set.hpp:326-329 | removes exactly the element at pos, keeps the invariant and returns pos |
| FlatSets.FlatSet.EraseRange | include/foonathan/array/flat_set.hpp:333-338 | removes exactly [b, e), keeps the invariant and returns b |
| FlatSets.FlatSet.EraseAll | include/foonathan/array/flat_set.hpp:343-357 | exactly the elements equivalent to the key are removed, none is left, and their number is returned (at most one in set mode) |
| FlatSets.FlatSet.SortAndUnify | include/foonathan/array/flat_set.hpp:369-381 | sorting, then in set mode std::unique and erase of the tail, makes the set valid and assigned from the old elements |
| FlatSets.FlatSet.AssignStealing | include/foonathan/array/flat_set.hpp:362-382 | the steal-memory assign leaves the view's elements sorted, as a permutation for a multiset and collapsed to one element per equivalence class for a set |
| FlatSets.FlatSet.AssignCopying | include/foonathan/array/flat_set.hpp:383-401 | clear, reserve, then insert each element: the result is the one-by-one insertion of the input, which assigns it |
| FlatSets.FlatSet.AssignRangeAsWritten | include/foonathan/array/flat_set.hpp:406-412 | assign and sort leave a sorted permutation of the input, which is a valid set only when duplicates are allowed |
| FlatSets.FlatSet.AssignRange | include/foonathan/array/flat_set.hpp:402-412 | assign_range as documented: a valid set assigned from the input; on failure it is empty |
| FlatSets.WasInserted | include/foonathan/array/flat_set.hpp:252-257 | was_inserted always holds in a multiset, and in a set holds exactly when there was no duplicate |
| FlatSets.EraseLeavesNone | include/foonathan/array/flat_set.hpp:343-357 | after the run of equivalents is erased, no equivalent element is left |
| FlatSets.InsertAllAssigns | include/foonathan/array/flat_set.hpp:383-401 | inserting the input one by one into an empty set assigns it |
| FlatSets.SortUnifyAssigns | include/foonathan/array/flat_set.hpp:362-382 | a sorted permutation, made unique in set mode, assigns the input |
| FlatSets.AssignRangeKeepsDuplicates | include/foonathan/array/flat_set.hpp:406-412 | whatever order it is in, a range holding one key twice keeps two equivalent elements after assign and sort |
| FlatMaps.Zip | include/foonathan/array/flat_map.hpp:917-918 | the entries pair key i with value i |
| FlatMaps.Paired | include/foonathan/array/flat_map.hpp:670-675 | the pairs insert_range reads stop at the shorter of the two ranges |
| FlatMaps.FlatMap.Valid | include/foonathan/array/flat_map.hpp:917-918 | the map invariant: a valid key set and as many values as keys |
| FlatMaps.FlatMap.constructor | include/foonathan/array/flat_map.hpp:917-918 | a new map has no entries |
| FlatMaps.FlatMap.Capacity | include/foonathan/array/flat_map.hpp:501-504 | capacity is the smaller of the key and value capacities |
| FlatMaps.FlatMap.Reserve | include/foonathan/array/flat_map.hpp:513-517 | keys and values are unchanged; on success both capacities are at least n |
| FlatMaps.FlatMap.TryEmplaceAsWritten | include/foonathan/array/flat_map.hpp:572-586 | on success the value goes to the new key's index, and is untouched when no key is inserted; was_duplicate holds exactly when nothing was inserted (so never in a multimap); when the value allocation fails the key stays, one more key than values; in particular, when the key array had spare room and the call fails, the key is inserted, the values are not, and the map invariant is broken |
| FlatMaps.FlatMap.TryEmplace | include/foonathan/array/flat_map.hpp:566-586 | as TryEmplaceAsWritten on success, and the returned position holds an equivalent key (holding v when inserted); a failure leaves keys and values unchanged; with spare capacity it cannot fail |
| FlatMaps.FlatMap.EmplaceValueOrUndo | include/foonathan/array/flat_map.hpp:575-580 | the corrected value step (see Findings): the value is emplaced at the key's index; if that fails the new key is erased again, so keys and values are what they were before the insertion; with spare value capacity it cannot fail |
| FlatMaps.FlatMap.EmplaceOrAssign | include/foonathan/array/flat_map.hpp:594-608 | on a new key it inserts the pair; on an existing key it keeps the keys and overwrites exactly that key's value, so exactly that entry changes; either way the result's value is v; a failure leaves the map unchanged |
| FlatMaps.FlatMap.InsertRange | include/foonathan/array/flat_map.hpp:656-676 | the entries are those of inserting the pairs one at a time, stopping at the shorter range, all of them or none |
| FlatMaps.FlatMap.InsertEach | include/foonathan/array/flat_map.hpp:670-675 | the insert_range loop, with room reserved, inserts every pair in turn |
| FlatMaps.FlatMap.InsertNext | include/foonathan/array/flat_map.hpp:672 | one loop step inserts the next pair and keeps room for the rest |
| FlatMaps.FlatMap.Clear | include/foonathan/array/flat_map.hpp:690-694 | no key and no value is left |
| FlatMaps.FlatMap.Erase | include/foonathan/array/flat_map.hpp:698-703 | the same index goes from keys and values, so the pair at pos is removed; it returns pos |
| FlatMaps.FlatMap.EraseRange | include/foonathan/array/flat_map.hpp:707-715 | the same range of indices goes from keys and values; it returns b |
| FlatMaps.FlatMap.EraseAll | include/foonathan/array/flat_map.hpp:720-734 | every key equivalent to the argument is removed together with its value, none is left, and the count is returned (at most one without duplicates) |
| FlatMaps.FlatMap.Find | include/foonathan/array/flat_map.hpp:808-818 | find is the first position with an equivalent key, and end() if and only if there is none |
| FlatMaps.FlatMap.Count | include/foonathan/array/flat_map.hpp:822-826 | count is the number of equivalent keys; at most one without duplicates |
| FlatMaps.FlatMap.TryLookup | include/foonathan/array/flat_map.hpp:785-804 | try_lookup is null if and only if the key is absent, and otherwise yields the value at the key's index |
| FlatMaps.FlatMap.Lookup | include/foonathan/array/flat_map.hpp:766-781 | for a key that is present, lookup yields the value at the index of its equivalent key |
| FlatMaps.FlatMap.AssignRange | include/foonathan/array/flat_map.hpp:737-744 | clear, then insert_range: on success the entries are a fresh map built from the pairs, sorted by key, holding exactly the pairs for a multimap and one pair per key otherwise; on failure the map is empty |
| FlatMaps.ZipBounds | include/foonathan/array/flat_map.hpp:830-854 | the bounds of a pair among the entries are the bounds of its key among the keys |
| FlatMaps.ZipOrder | include/foonathan/array/flat_map.hpp:917-918 | the entries are sorted, or free of equivalents, if and only if the keys are |
| FlatMaps.ZipInsert | include/foonathan/array/flat_map.hpp:575-581 | inserting a key and its value at the same index inserts the pair there |
| FlatMaps.ZipRemove | include/foonathan/array/flat_map.hpp:698-715 | removing the same range from keys and values removes those pairs |
| FlatMaps.ZipUpdate | include/foonathan/array/flat_map.hpp:893-903 | assigning value i replaces the value of pair i only |
| FlatMaps.RemoveInserted | include/foonathan/array/flat_map.hpp:575-581 | erasing the element just inserted at h gives back the old sequence |
| FlatMaps.EntryInsert | include/foonathan/array/flat_map.hpp:572-586 | a map's try_emplace is a set's try_emplace of the key_value_pair among the entries |
| FlatMaps.InsertRangeStep | include/foonathan/array/flat_map.hpp:670-675 | one insert_range step advances the entries by one pair insertion |

## Left out

- Iterators, `pointer_iterator`, `contiguous_iterator`, `flat_map_iterator` and `key_value_ref` are modelled as indices. `block_view` is an index pair over a block.
- The EBO argument storage and `block_storage_args_t` are compile-time plumbing with no runtime effect. `noexcept`, alignment, `sizeof` and byte arithmetic are dropped: sizes are element counts, except for the embedded overflow check.
- Arrays.Array.AssignView: it models only a view that hands over its storage. For a view that does not, `input_view::release` copies the objects into the array's own storage; that branch lives in input_view.hpp and is not modelled.
- raw_storage.hpp, memory_block.hpp, input_view.hpp, the free `lower_bound` / `upper_bound` / `equal_range` and the growth policies are not part of this model.
  - They are represented by the slot primitives in RawStorage, by SortedRange and by an uninterpreted `Policy`.
- Exceptions from element constructors and assignments are not modelled, so no element operation fails. The only failure is allocation, plus the embedded overflow.
  - This includes `std::sort` throwing inside `assign`, which the source itself leaves open.
- Arrays.Array: the array is modelled over the heap storage only. The embedded storage is modelled on its own, and no array is instantiated with it.
- EmbeddedStorage.BlockStorageEmbedded.Swap: it requires both live ranges to start at the buffer front. The source discards the results of its two `move_to_front` calls, so only such ranges are swapped correctly, and `array` always passes them.
  - It also requires two distinct buffers, so swapping a storage with itself is not modelled: `std::swap_ranges` forbids overlapping ranges.
- NewStorage.BlockStorageNew.Reserve: `min_additional` is in elements. The source multiplies the byte count `array::reserve` passes by `sizeof(T)` once more, and with `sizeof(T) == 1` the extra factor disappears.
- The trivial accessors are not modelled separately: `empty`, `front` / `back`, `begin` / `end`, `max_size` of the array and sets, and the conversions to views.
  - The same goes for push_back / insert overloads that forward to a modelled operation, and for the bag's `assign` and `shrink_to_fit`, which forward to the array.
- flat_set `swap`, `shrink_to_fit` and `capacity`, and flat_map `swap` and `shrink_to_fit`, forward to Arrays.Array.Swap, Arrays.Array.ShrinkToFit and Arrays.Array.Capacity on each array, and are not restated.
- flat_map `min` / `max`, `contains`, `lower_bound` / `upper_bound` / `equal_range` and `index_of` are the key set's operations applied to the keys, or index arithmetic. The model reads them through `keys`.
  - `insert_pair`, `insert_or_assign`, `insert_pair_range` and `assign_pair_range` are try_emplace / emplace_or_assign / insert_range over pairs and are not given members of their own.
- FlatMaps.FlatMap.InsertRange models forward ranges, where room is reserved for the shorter range. For input-iterator ranges the source's `range_size` is 0, so the reservation is skipped and a failure can stop part-way, as in FlatSets.FlatSet.InsertRangeInput.
- FlatSets.FlatSet.AssignRange: the documented behaviour is the same as building a set by insert_range. The corrected member is stated by the common property AssignedFrom:
  - sorted;
  - for multisets, the same multiset as the input;
  - for sets, no equivalents, drawn from the input and covering it.
  
  Which element of an equivalence class survives is not fixed, because `std::sort` is not stable.
- FlatSets.FlatSet.InsertRangeInput: `m`, the number of elements processed, is ghost. The source reports nothing, and the lost elements stay unknown to the caller.
- The interface between the algorithms and the heap storage is bridged.
  - block_storage.hpp and array.hpp call a static `BlockStorage::swap(s, view, o, view)`, a `reserve(bytes, view)` and `other.arguments()`. block_storage_new.hpp instead has a member `swap` over pointers, a `reserve(size, T*, T*)` and no `arguments()`.
  - The model gives NewStorage.BlockStorageNew the operations the callers use: Swap exchanges blocks, Reserve takes the live range, and the policy stands for the arguments.
- Arrays.Array.EmplaceBack, Arrays.Array.Emplace, Bags.Bag.Emplace, FlatSets.FlatSet.TryEmplace and FlatMaps.FlatMap.TryEmplace: the new element is a value, so an argument that refers into the container itself is not modelled.
  - In the source, emplace_back reserves before it constructs, and emplace runs move_range before it assigns. So `push_back(a[0])` on a full array, or `insert(pos, a[k])` with k at or after pos, reads an object that has already been moved.
- Arrays.Array.MoveAssign, Arrays.Array.Swap and BlockAlgorithms.MoveAssign: each requires two distinct arrays (block storages for BlockAlgorithms.MoveAssign). Self move-assignment leaves an unspecified state, and self-swap is the identity, so neither case is modelled. Arrays.Array.CopyAssign and BlockAlgorithms.CopyAssign do allow self-assignment.
- Bags.Bag.InsertRange: only forward ranges are modelled, with one reservation and all-or-nothing behaviour.
  - bag::insert_range also accepts input iterators. That path goes through the array's input-iterator append_range: it can stop part-way, and it returns the last element rather than the first (Findings).
  - Arrays.Array.AppendRangeInputAsWritten and Arrays.Array.AppendRangeInput model that path on the array itself.
- FlatMaps.FlatMap.EmplaceOrAssign: it is modelled over the corrected FlatMaps.FlatMap.TryEmplace, so a failed call leaves the map unchanged. In the source, emplace_or_assign (flat_map.hpp:594-608) calls the try_emplace as written. There, a failed value emplace leaves the new key without a value, as FlatMaps.FlatMap.TryEmplaceAsWritten shows (Findings).
- FlatSets.FlatSet.AssignRangeAsWritten: it models only the missing std::unique. It assigns through the corrected Arrays.Array.AssignRange, so on allocation failure it promises empty keys rather than the stale end_ of Arrays.Array.AssignRangeAsWritten.

## Findings

| source | as written | input that shows it | evidently intended | confidence | as-written member | corrected member |
|---|---|---|---|---|---|---|
| include/foonathan/array/flat_set.hpp:402-412 | `assign_range` assigns and sorts, but never removes equivalent elements | a set (no duplicates) and `assign_range` over `[x, x]`: the set holds x twice | the documented "same as building a set by insert_range", so in set mode no two elements are equivalent | high, not executed | FlatSets.FlatSet.AssignRangeAsWritten, FlatSets.AssignRangeKeepsDuplicates | FlatSets.FlatSet.AssignRange |
| include/foonathan/array/array.hpp:407-412 | `end_` is assigned only after `assign_copy` returns, but `assign_copy` has already destroyed the elements when its reallocation throws | an array of 2 elements at capacity 2, `assign_range` of 3 elements, the allocation throws: `end_` still covers 2 destroyed objects, which the destructor destroys again | `end_` reset to the block start once the old elements are destroyed, leaving an empty array | high, not executed | Arrays.Array.AssignRangeAsWritten, Arrays.StaleEndIsInvalid | Arrays.Array.AssignRange |
| include/foonathan/array/flat_map.hpp:572-586 | the key is inserted into `keys_` first, and if `values_.emplace` then throws, the key stays | a map whose key array has spare room and whose value array is full, `try_emplace(k, v)` of a new key where the value array's reallocation throws: one more key than values | a failing insertion leaves the map unchanged (the key erased again) | high, not executed | FlatMaps.FlatMap.TryEmplaceAsWritten | FlatMaps.FlatMap.TryEmplace, FlatMaps.FlatMap.EmplaceOrAssign |
| include/foonathan/array/array.hpp:451-461, 477-489 | the input-iterator `append_range` / `insert_range` return the array's last element | `insert_range(begin(), [x])` on the array `[a]` returns position 1, holding a; `append_range([x, y])` on an empty array returns position 1 | as documented at array.hpp:320, 335-337 and bag.hpp:179-180: the first inserted element, or `pos` when the range is empty | high, not executed | Arrays.Array.InsertRangeInputAsWritten, Arrays.Array.AppendRangeInputAsWritten, Arrays.InputRangeResultIsLast | Arrays.Array.InsertRangeInput, Arrays.Array.AppendRangeInput |
