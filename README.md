# s21 containers in Dafny

This project models the core of the s21 container library (`s21::list`,
`s21::vector`, `s21::stack`, `s21::queue`) and proves properties of that model.

- **list** (`list.dfy`, `list_nodes.dfy`, `list_spec.dfy`). `s21::list` is a
  doubly linked list with `head_`, `tail_` and `size_` fields.
  - The model keeps this form. A `List` is a class with those fields. Its
    nodes live in a node store `cells`, a sequence of cells indexed by
    address. A `Node *` is `Null` or `Ref(addr)`.
  - The ghost fields `Addrs`, `Contents` and `Pos` say which nodes make up
    the list and in what order. `Valid()` says the links form a correct chain
    holding `Contents`.
  - Every operation works on the pointers step by step, as the source does:
    `Extract`, `InsertBetween`, `InsertBefore`, `Insert`, `Divide`, the
    `reverse` walk, and the `merge`, `splice` and `unique` loops. Each one is
    proved against a sequence-level specification in module `ListSpec`:
    - `merge` is proved against `MergeWalk`, an exact model of the source's
      cursor walk;
    - `sort` is proved against `MergeSort`;
    - `unique` is proved against `Dedup`;
    - `reverse` is proved against `Reversed`.

    `ListSpec` then proves what these specifications mean: permutation,
    sortedness, stability, idempotence, and agreement with independent
    reference definitions.
  - The list iterator is the datatype `Iterator(owner, current)`. Null means
    past-the-end.
- **vector** (`vector.dfy`). `s21::vector` keeps a buffer `arr_` of
  `capacity_` elements, of which the first `size_` are in use.
  - The model is a class over a Dafny `array`. An iterator is an index into
    the buffer.
  - The growth policy of `expandArray` is the function `ExpandedCapacity`:
    - no change when there is strictly more room than needed;
    - otherwise a baseline of 8 for an empty buffer;
    - then repeated `increaseCapacity` steps until the new elements fit.
  - `insert` and `erase` carry the source's element-swapping loops, with
    pointwise invariants.
- **stack** and **queue** (`stack.dfy`, `queue.dfy`). These are adapters over
  a `List`, modelled as classes that hold a list and delegate to it. Example
  methods state the behaviour the library's tests expect: last-in-first-out,
  first-in-first-out, copies independent of the original.

The element order used by `merge` and `sort` is the element type's
`operator>`. Here it is a key function: `x > y` is `key(x) > key(y)`. Elements
with equal keys can still differ, so stability is a real property: `KeyFilter`
keeps the elements with one key, and their order must be preserved.

`Divide` follows the code. The slow/fast walk stops when `fast->next` or
`fast->next->next` is null, so the first part keeps ceil(n/2) elements
(`FirstHalfLength(n) == (n + 1) / 2`). Rounding down would be the other
reading.

## Model

| member | source | states |
|---|---|---|
| Lists.Iterator.Deref | containers/s21_list.h:589-593 | the value under the iterator is the list's element at the iterator's index |
| Lists.Iterator.Increment | containers/s21_list.h:595-600 | following `next` moves from index i to index i + 1 (past-the-end after the tail) |
| Lists.Iterator.Decrement | containers/s21_list.h:610-622 | following `prev` moves from index i to i - 1; past-the-end steps onto the tail, and the head steps onto past-the-end |
| Lists.Iterator.Equals | containers/s21_list.h:632-637 | on one list, two iterators are equal exactly when they are at the same index (both directions) |
| Lists.Iterator.NotEquals | containers/s21_list.h:639-644 | `!=` is the negation of `==` |
| Lists.Iterator.InsertBefore | containers/s21_list.h:646-657 | the node is linked between the iterator's predecessor (the tail when past-the-end) and the iterator's node; every other cell is unchanged |
| Lists.List.ValidShape | containers/s21_list.h:684-697 | a valid list is empty iff head is null iff tail is null; the head has no prev and the tail no next; i `next` steps from the head and size-1-i `prev` steps from the tail reach the same i-th node; size steps run off both ends; nodes are distinct |
| Lists.List.PositionAt | containers/s21_list.h:551-587 | every index 0..size names an iterator position (past-the-end for size) |
| Lists.List.IndexOfPosition | containers/s21_list.h:551-587 | every iterator position is the pointer at its index |
| Lists.List.PositionAfterInsert | containers/s21_list.h:646-657 | inserting a node at index k moves an iterator at index m >= k to m + 1 |
| Lists.List.PositionAfterRemove | containers/s21_list.h:456-485 | removing the node at index k < m moves an iterator at index m to m - 1 |
| Lists.List.constructor | containers/s21_list.h:81-82 | a new list is empty |
| Lists.List.OfSize | containers/s21_list.h:84-92 | list(n) holds n copies of the default value |
| Lists.List.FromSeq | containers/s21_list.h:94-102 | the list holds the initializer items in order |
| Lists.List.Copy | containers/s21_list.h:104-111 | the copy holds the same elements as `l` |
| Lists.List.Move | containers/s21_list.h:113-123 | the new list holds `l`'s elements, and `l` is left valid and empty |
| Lists.List.Adopt | containers/s21_list.h:537-546 | the list built from a cut-off chain is valid and holds that chain's elements |
| Lists.List.AppendAll | containers/s21_list.h:106-110 | walking `l` with an iterator and pushing each element back appends `l`'s elements |
| Lists.List.CopyAssign | containers/s21_list.h:131-145 | after assignment, the list holds `l`'s elements, self-assignment included |
| Lists.List.MoveAssign | containers/s21_list.h:147-165 | the list holds `l`'s old elements, and `l` is empty unless it is the same list |
| Lists.List.AssignSeq | containers/s21_list.h:167-176 | after assignment, the list holds the items |
| Lists.List.Swap | containers/s21_list.h:306-310 | the two lists' contents are exchanged |
| Lists.List.Front | containers/s21_list.h:178-182 | front is the first element |
| Lists.List.Back | containers/s21_list.h:184-188 | back is the last element |
| Lists.List.Empty | containers/s21_list.h:214-218 | empty iff there are no elements |
| Lists.List.Size | containers/s21_list.h:220-224 | size is the number of elements |
| Lists.List.Begin | containers/s21_list.h:190-194 | begin is the position at index 0 |
| Lists.List.End | containers/s21_list.h:202-206 | end is the position at index size |
| Lists.List.InsertBetween | containers/s21_list.h:713-726 | the node's links become (prev, next), prev's next and next's prev point at the node, and every other cell is unchanged |
| Lists.List.Extract | containers/s21_list.h:456-485 | the node at index k leaves the list detached with its value; the rest keep their order and the list stays valid (head, tail and size repaired) |
| Lists.List.EraseNode | containers/s21_list.h:486-492 | the element at the node's index is removed, the rest keep their order |
| Lists.List.LinkBefore | containers/s21_list.h:248-261 | in a non-empty list, the value lands at the iterator's index k; the result points at it, and the iterator now stands at k + 1 |
| Lists.List.InsertNode | containers/s21_list.h:494-518 | a detached node is placed at the iterator's index k, the empty list included; the result points at it, and the iterator stands at k + 1 |
| Lists.List.Insert | containers/s21_list.h:238-262 | the value is inserted at the iterator's index k; the result points at it, and the iterator stands at k + 1 |
| Lists.List.Erase | containers/s21_list.h:264-268 | the element under the iterator is removed |
| Lists.List.Clear | containers/s21_list.h:431-447 | the list is valid and empty afterwards, and its node store is emptied |
| Lists.List.Merge | containers/s21_list.h:312-334 | the result is MergeWalk of the two lists, `other` is left empty, and the multiset of elements is the sum; when both lists are sorted the result is the stable textbook merge and is sorted; merging a list into itself changes nothing |
| Lists.List.MergeStep | containers/s21_list.h:324-332 | one pass of merge's loop leaves the outcome of the rest of the walk (MergeWalk from the cursor on) unchanged, and shrinks either `other` or the part after the cursor |
| Lists.List.TakeFront | containers/s21_list.h:324-328 | the head of `other` moves in before the iterator's index k; `other` loses its first element; the result is at k and the iterator at k + 1 |
| Lists.List.Splice | containers/s21_list.h:336-345 | `other`'s elements are inserted, in order, at the iterator's index, and `other` is left empty |
| Lists.List.Reverse | containers/s21_list.h:347-357 | the list holds its old elements in reverse order |
| Lists.List.Unique | containers/s21_list.h:359-380 | the list holds Dedup of its old elements, i.e. each run of adjacent equal elements collapsed to one |
| Lists.List.UniqueStep | containers/s21_list.h:367-379 | one pass of unique's loop (erase the previous node when it equals the current one, then advance) turns "the first j elements deduplicated, the rest untouched" into the same for j + 1, with the cursor at the end of the deduplicated part |
| Lists.List.EraseEqualPrevious | containers/s21_list.h:369-378 | when the element before the iterator equals the one under it, the earlier one is erased and the iterator's index drops by one; otherwise nothing changes |
| Lists.List.Sort | containers/s21_list.h:382-396 | the list holds MergeSort of its old elements, which is sorted, a permutation, and stable (every key's elements keep their order) |
| Lists.List.Divide | containers/s21_list.h:520-548 | for n > 1 the list keeps its first ceil(n/2) elements and the fresh list returned holds the rest; otherwise the list is unchanged and the result is empty |
| Lists.List.Middle | containers/s21_list.h:526-536 | the slow/fast walk stops on the node at index ceil(n/2) - 1, and the counter is ceil(n/2) |
| Lists.List.InsertMany | containers/s21_list.h:398-415 | the items are inserted in order at the iterator's index, and the result points at the first of them (or at the old position when there are none) |
| Lists.List.InsertManyBack | containers/s21_list.h:417-422 | the items are appended in order |
| Lists.List.InsertManyFront | containers/s21_list.h:424-429 | the items are prepended in order |
| Lists.List.PushBack | containers/s21_list.h:270-280 | the value is appended in a new node at a fresh address |
| Lists.List.PushFront | containers/s21_list.h:288-298 | the value is prepended in a new node at a fresh address |
| Lists.List.PopBack | containers/s21_list.h:282-286 | the last element is removed |
| Lists.List.PopFront | containers/s21_list.h:300-304 | the first element is removed |
| ListNodes.ChainDistinct | containers/s21_list.h:684-697 | the nodes of a chain are pairwise distinct |
| ListNodes.WalkNext | containers/s21_list.h:594-599 | n `next` steps along a chain from index i reach index i + n, or null past the end |
| ListNodes.WalkPrev | containers/s21_list.h:609-621 | n `prev` steps along a chain from index i reach index i - n, or null before the head |
| ListNodes.ChainGrow | containers/s21_list.h:270-280 | allocating a new cell keeps every chain of the store intact |
| ListNodes.ChainRemove | containers/s21_list.h:456-485 | joining the neighbours of node k (and detaching it) leaves a chain of the other nodes in order |
| ListNodes.ChainInsert | containers/s21_list.h:713-726 | linking a new node between indices k-1 and k gives a chain with the node at index k |
| ListNodes.ChainReverse | containers/s21_list.h:347-357 | swapping prev and next in every node of a chain gives the chain read backwards |
| ListNodes.ChainSplit | containers/s21_list.h:537-546 | cutting the links between indices h-1 and h gives two chains, the prefix and the suffix |
| ListNodes.LinkedRemove | containers/s21_list.h:456-485 | the same for the list fields: head and tail move off a removed end node, and size drops by one |
| ListNodes.LinkedInsert | containers/s21_list.h:494-518 | head or tail moves onto a node inserted at an end, and size grows by one |
| ListNodes.LinkedReverse | containers/s21_list.h:347-357 | after the reverse walk, swapping head and tail gives the reversed list |
| ListNodes.LinkedSplit | containers/s21_list.h:520-548 | after the split, the first list ends at node h-1 with size h, and the second starts at node h with size n - h |
| ListSpec.FirstHalfLength | containers/s21_list.h:520-548 | the kept part is at most one longer than the rest and, for n >= 2, both parts are non-empty |
| ListSpec.MergeWalkPermutation | containers/s21_list.h:312-334 | the merge walk's result is a permutation of both inputs together |
| ListSpec.MergeWalkIsMerge | containers/s21_list.h:312-334 | when the list merged in is sorted, the walk equals the textbook stable merge |
| ListSpec.MergeWalkMoveStep | containers/s21_list.h:324-328 | moving the head of `other` in before the cursor preserves the walk's outcome |
| ListSpec.MergeWalkSkipStep | containers/s21_list.h:329-332 | advancing the cursor preserves the walk's outcome |
| ListSpec.MergeWalkUnsortedOther | containers/s21_list.h:312-334 | with an unsorted `other` the walk ([5] with [3, 1] gives [1, 3, 5]) differs from a textbook merge ([3, 1, 5]) |
| ListSpec.MergePermutation | containers/s21_list.h:312-334 | the textbook merge is a permutation of both inputs together |
| ListSpec.SortedCons | containers/s21_list.h:382-396 | an element no greater than a sorted sequence's first element can be put in front of it, and the result stays sorted |
| ListSpec.MergeSorted | containers/s21_list.h:312-334 | merging two sorted sequences gives a sorted sequence, starting with the smaller head (the first list's on a tie) |
| ListSpec.KeyFilterConcat | containers/s21_list.h:382-396 | the elements with one key, taken from a concatenation, are those of each part in turn |
| ListSpec.KeyFilterAbove | containers/s21_list.h:382-396 | a sequence whose keys are all above k has no elements with key k |
| ListSpec.MergeStable | containers/s21_list.h:312-334 | merge is stable: for each key, the elements of the first list come before those of the second, each in its own order |
| ListSpec.MergeOfSortedLists | containers/s21_list.h:312-334 | for two sorted lists the walk is the textbook merge: sorted, a permutation, and stable |
| ListSpec.MergeSortPermutation | containers/s21_list.h:382-396 | sort is a permutation |
| ListSpec.MergeSortSorted | containers/s21_list.h:382-396 | sort gives a sorted sequence, and each merge it performs is a textbook merge |
| ListSpec.MergeSortStable | containers/s21_list.h:382-396 | sort is stable: for every key, the elements keep their relative order |
| ListSpec.SortedParts | containers/s21_list.h:520-548 | both parts of a sorted sequence are sorted |
| ListSpec.MergeSortOfSorted | containers/s21_list.h:382-396 | sorting a sorted sequence leaves it unchanged |
| ListSpec.MergeOfOrderedHalves | containers/s21_list.h:312-334 | merging two parts that are already in order concatenates them |
| ListSpec.DedupLast | containers/s21_list.h:359-380 | unique keeps the last element |
| ListSpec.DedupStep | containers/s21_list.h:369-378 | one more element either extends the deduplicated prefix or, when it equals its predecessor, leaves it as it was |
| ListSpec.UniqueWalkStep | containers/s21_list.h:367-379 | one iteration of unique's loop at index j (erase the previous element when equal) carries the loop invariant "deduplicated prefix plus untouched rest" from j to j + 1 |
| ListSpec.DedupNoAdjacentDuplicates | containers/s21_list.h:359-380 | after unique, no two adjacent elements are equal |
| ListSpec.DedupFixpoint | containers/s21_list.h:359-380 | unique changes nothing exactly when there are no adjacent duplicates (both directions), so it is idempotent |
| ListSpec.DedupLength | containers/s21_list.h:359-380 | unique never lengthens the list and keeps the first element |
| ListSpec.DedupSameValues | containers/s21_list.h:359-380 | a value occurs after unique exactly when it occurred before |
| ListSpec.CollapseRunsSnoc | containers/s21_list.h:359-380 | collapsing runs from the front, one more element at the back extends the result unless it repeats the last element |
| ListSpec.DedupIsCollapseRuns | containers/s21_list.h:359-380 | unique (erasing from the back of each run) equals collapsing runs from the front |
| ListSpec.DedupExample | containers/s21_list.h:359-380 | [1, 1, 2, 2, 2, 3, 1] becomes [1, 2, 3, 1] |
| ListSpec.ReversedTwice | containers/s21_list.h:347-357 | reversing twice restores the list |
| Vectors.NextCapacity | containers/s21_vector.h:391-397 | each increaseCapacity step strictly increases the capacity |
| Vectors.GrowTo | containers/s21_vector.h:380-383 | the growth loop ends at a capacity of at least what is needed, and changes nothing when there is already enough |
| Vectors.ExpandedCapacityBounds | containers/s21_vector.h:365-389 | expandArray(k) never shrinks, always leaves room for k more elements, starts at 8 from an empty buffer, gives exactly 8 for up to 8 elements there, and leaves an exactly-full non-empty buffer's capacity as it was |
| Vectors.Vector.constructor | containers/s21_vector.h:80-81 | a new vector is empty with capacity 0 |
| Vectors.Vector.OfSize | containers/s21_vector.h:83-85 | vector(n) holds n default values with capacity n |
| Vectors.Vector.FromSeq | containers/s21_vector.h:87-94 | the vector holds the items, and its capacity is their number |
| Vectors.Vector.Copy | containers/s21_vector.h:96-103 | the copy holds the same elements with the same capacity |
| Vectors.Vector.Move | containers/s21_vector.h:105-115 | the buffer, size and capacity are taken over, and `v` is left empty with capacity 0 |
| Vectors.Vector.CopyAssign | containers/s21_vector.h:123-135 | the vector holds `v`'s elements; capacity grows to `v`'s size if needed, and self-assignment changes nothing |
| Vectors.Vector.MoveAssign | containers/s21_vector.h:137-154 | the buffer, size and capacity of `v` are taken over, and `v` is emptied unless it is the same vector |
| Vectors.Vector.AssignSeq | containers/s21_vector.h:156-164 | the vector holds the items; capacity grows to their number if needed |
| Vectors.Vector.Swap | containers/s21_vector.h:359-363 | buffers, sizes and capacities are exchanged |
| Vectors.Vector.At | containers/s21_vector.h:167-175 | out_of_range exactly when pos >= size; otherwise the element at pos |
| Vectors.Vector.Get | containers/s21_vector.h:177-181 | operator[] is the element at pos |
| Vectors.Vector.Front | containers/s21_vector.h:183-187 | front is the first element |
| Vectors.Vector.Back | containers/s21_vector.h:189-193 | back is the last element |
| Vectors.Vector.Empty | containers/s21_vector.h:227-231 | empty iff there are no elements |
| Vectors.Vector.Size | containers/s21_vector.h:233-237 | size is the number of elements |
| Vectors.Vector.Reserve | containers/s21_vector.h:245-257 | the elements are unchanged; the capacity becomes n in a new buffer when n exceeds it, and otherwise nothing changes |
| Vectors.Vector.ShrinkToFit | containers/s21_vector.h:265-269 | the capacity becomes the size, and the elements are unchanged |
| Vectors.Vector.Clear | containers/s21_vector.h:272-276 | there are no elements, and buffer and capacity stay |
| Vectors.Vector.Insert | containers/s21_vector.h:278-306 | the value lands at pos with the later elements shifted right; the result is pos; the capacity is expandArray(1)'s, and the buffer is replaced exactly when expandArray(1) reallocates |
| Vectors.Vector.ShiftIn | containers/s21_vector.h:292-303 | the evicted-item loop puts the value at pos and moves every later element one place right, in a buffer with room for one more |
| Vectors.Vector.InsertManyInBuffer | containers/s21_vector.h:308-323 | the items land in order at pos; the capacity is expandArray(n)'s; the result lies in the buffer made by the first step, and that buffer is still the vector's exactly unless the first step left exactly size + n room for n > 0 items |
| Vectors.Vector.InsertMany | containers/s21_vector.h:308-323 | the items land in order at pos, the result indexes the first of them in the current buffer, and the capacity is expandArray(n)'s |
| Vectors.Vector.InsertManyBack | containers/s21_vector.h:325-331 | the items are appended in order, and the capacity stays what expandArray(n) made it |
| Vectors.Vector.Erase | containers/s21_vector.h:333-344 | the element at pos is removed, the rest keep their order, and buffer and capacity stay |
| Vectors.Vector.PushBack | containers/s21_vector.h:346-351 | the value is appended, the capacity is expandArray(1)'s, and the buffer is replaced exactly when expandArray(1) reallocates |
| Vectors.Vector.PopBack | containers/s21_vector.h:353-357 | the last element is removed, and the capacity stays |
| Vectors.Vector.ExpandArray | containers/s21_vector.h:365-389 | the elements are unchanged, the capacity is ExpandedCapacity, the buffer stays when there is strictly more room than needed, and a new one is made otherwise |
| Vectors.Vector.ReallocateArray | containers/s21_vector.h:399-411 | a new buffer of exactly c holds the first min(size, c) elements, and the size is cut to c |
| Vectors.Vector.CopyToArray | containers/s21_vector.h:413-420 | the first min(n, size) slots of the destination receive the elements, and the rest are untouched |
| Vectors.Vector.CopyFromArray | containers/s21_vector.h:422-435 | the vector holds exactly the source elements, and the capacity grows to their number when too small |
| Vectors.InsertManyResultDangles | containers/s21_vector.h:308-323 | inserting eight items into an empty vector leaves insert_many's result in a buffer the vector no longer holds |
| Stacks.Stack.constructor | containers/s21_stack.h:19 | a new stack is empty |
| Stacks.Stack.Copy | containers/s21_stack.h:20 | the copy holds the same elements in a list of its own |
| Stacks.Stack.Move | containers/s21_stack.h:21 | the new stack holds `q`'s elements, and `q` is left empty |
| Stacks.Stack.FromSeq | containers/s21_stack.h:27 | the stack holds the items, the last on top |
| Stacks.Stack.MoveAssign | containers/s21_stack.h:22-26 | the two stacks' contents are exchanged |
| Stacks.Stack.Top | containers/s21_stack.h:31 | top is the last element pushed |
| Stacks.Stack.Empty | containers/s21_stack.h:34 | empty iff there are no elements |
| Stacks.Stack.Size | containers/s21_stack.h:35 | size is the number of elements |
| Stacks.Stack.Push | containers/s21_stack.h:38 | the value is appended and becomes the top |
| Stacks.Stack.Pop | containers/s21_stack.h:39 | the top element is removed |
| Stacks.Stack.Swap | containers/s21_stack.h:40 | the two stacks' contents are exchanged |
| Stacks.Stack.InsertManyFront | containers/s21_stack.h:42-46 | the items go on top in order, and the last of them is the new top |
| Stacks.PopOrder | tests/s21_stack_test.cc:47-60 | a stack of 1, 2, 3 shows 3, 2, 1 on top as it is popped and is then empty |
| Stacks.CopyIsIndependent | tests/s21_stack_test.cc:14-23 | popping a copy leaves the original's size and top |
| Queues.Queue.constructor | containers/s21_queue.h:19 | a new queue is empty |
| Queues.Queue.Copy | containers/s21_queue.h:20 | the copy holds the same elements in a list of its own |
| Queues.Queue.Move | containers/s21_queue.h:21 | the new queue holds `q`'s elements, and `q` is left empty |
| Queues.Queue.FromSeq | containers/s21_queue.h:27 | the queue holds the items, the first at the front |
| Queues.Queue.MoveAssign | containers/s21_queue.h:22-26 | the two queues' contents are exchanged |
| Queues.Queue.Front | containers/s21_queue.h:31 | front is the first element |
| Queues.Queue.Back | containers/s21_queue.h:32 | back is the last element |
| Queues.Queue.Empty | containers/s21_queue.h:35 | empty iff there are no elements |
| Queues.Queue.Size | containers/s21_queue.h:36 | size is the number of elements |
| Queues.Queue.Push | containers/s21_queue.h:39 | the value joins at the back |
| Queues.Queue.Pop | containers/s21_queue.h:40 | the front element is removed |
| Queues.Queue.Swap | containers/s21_queue.h:41 | the two queues' contents are exchanged |
| Queues.Queue.InsertManyBack | containers/s21_queue.h:43-47 | the items join at the back in order |
| Queues.PopOrder | tests/s21_queue_test.cc:47-55 | a queue of 1, 2, 3 shows 1, 2, 3 at the front as it is popped and is then empty |
| Queues.InsertManyOrder | tests/s21_queue_test.cc:157-165 | insert_many_back(1, 2, 3) on an empty queue gives front 1, back 3, size 3 |
| Queues.CopyIsIndependent | tests/s21_queue_test.cc:14-23 | popping a copy leaves the original's size and front |

## Left out

- Memory is a node store per list. `new Node` appends a cell. A deleted node stays as an unreachable cell: freeing memory is not modelled, except that `clear` empties the store.
- Nodes moved between lists are copied. `merge`, `splice` and `sort`'s merge copy each moved node into the receiving list's store at a fresh address. `Divide` gives the second list a copy of the store, so its nodes keep their addresses. Node identity across two lists is therefore not modelled.
- The move constructor and move assignment of the list take over the other list's store and leave its cells in place; only its pointers and size are cleared, as in the source.
- Lists.List.Splice: requires the two lists to be different. In the source, splicing a non-empty list into itself never ends, because each step extracts and re-inserts a node of the same list.
- The element type's default value `T()` (in `list(n)` and `vector(n)`) is an `init` parameter. A vector's element type must have a default value (`T(0)`), which stands in for the zero-initialised `new value_type[n]()`.
- `max_size` of both containers is left out: it depends on `SIZE_MAX` and `sizeof`. `size_t` overflow is not modelled either: sizes and capacities are unbounded naturals.
- Vectors.NextCapacity: `increaseCapacity` computes `1 + (size_t)(1.618 * (double)c)` in floating point. The model takes the product in exact decimal arithmetic, 1 + c * 1618 / 1000, and the capacity clauses of ExpandArray, PushBack, Insert, InsertMany and InsertManyBack fix exact capacities through this formula. It agrees with the floating-point step for every realistic capacity, but can differ by one from about 10^13 on, where the double product is no longer exact.
- The const iterators and `cbegin`/`cend` are the same as the mutable ones here. The vector's `data`, `begin` and `end` are left out: a vector iterator is an index.
- Variadic argument packs (`insert_many*`) and initializer lists are sequences.
- `copyFromArray` takes a sequence for the raw pointer and length.
- Vectors.Vector.Move: the moved-from vector gets an empty buffer rather than a null pointer.
- The library's `operator>` and `operator==` on elements become a key function and Dafny equality respectively.
- Undefined behaviour in the source, such as `front`, `back`, `top` or `pop` on an empty container, or `erase` at end, is excluded by preconditions.
- Lists.List.Clear and the destructor: the deletions themselves are not modelled, only the walk over the nodes and the emptied fields.

## Findings

| source | as written | input that shows it | evidently intended | confidence | as-written member | corrected member |
|---|---|---|---|---|---|---|
| containers/s21_vector.h:308-323 | `insert_many` takes `return_pos` in the buffer made by `expandArray(n)`, then each `insert` calls `expandArray(1)`, which reallocates when capacity is not strictly above `size + 1`; when `expandArray(n)` left exactly `size + n`, the last insert frees that buffer and the returned iterator dangles | eight items inserted at `begin()` of an empty vector: capacity 8, and the eighth insert reallocates | the result points at the first inserted item in the vector's current buffer | not executed | Vectors.Vector.InsertManyInBuffer, Vectors.InsertManyResultDangles | Vectors.Vector.InsertMany |
