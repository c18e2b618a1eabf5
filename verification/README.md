# Sorted-aware linked list and chunked vector, in Dafny

This project models the two container components of the `basics/` library:

- **`SimpleList<T>`** (`basics/simple_list.h`) is a singly-linked list. It keeps a node count, a handle on the last node and a conservative *sorted ascending* flag. Every mutation updates the flag in one of four ways:
  - conjunctively: `push_front`, `push_back`;
  - recomputed exactly from the result: `keep_if`, `transform`, and `reverse` of two or more nodes;
  - forced: `sort` and `unique` raise it, the splicing `merge` lowers it;
  - left alone: `pop_front`.

  The flag guards `insert_sorted` and selects between the two-pointer and the splicing `merge`.
- **`ChunkedVector<T>`** (`basics/chunked_vector.h`) is an append-only vector stored as a sequence of chunks. `operator[]` finds element `i` by the arithmetic `i / chunk_size`, `i % chunk_size`. `pack` joins all chunks into one.

Both are modelled with `T = int` as immutable values. The operations are pure functions, except the three scans `contains`, `count_if` and `count`, which are methods with the source's iterator loop.

- **List:** a `List` holds the sequence of node values, head first, together with the stored count, the tail handle and the flag. The tail handle is modelled by the value of the node it designates.
  - `SimpleList.Valid` is the class invariant. The count is the chain length. The tail is null exactly when the chain is empty and otherwise holds the last value. A raised flag implies the chain is non-decreasing.
  - Every operation takes and returns a valid list.
  - Every C++ loop of a mutator is a recursive "walk" function with the loop's own state (`previous`, `current`, `found_unsorted_pair`, …). The iterator loops of the scans stay `while` loops over the modelled iterator.
  - Exceptions become `Result` values carrying the exception kind and message.
  - A mutator that also touches `other` (move, `merge`) returns the pair of lists. `a.merge(a)`, where `other` is the list itself, is modelled separately.
- **Chunked vector:** a `Vector` is a chunk size and a sequence of chunks.
  - `ChunkedVector.Valid` is the layout `operator[]` relies on: every chunk but the last exactly full, and the last at most full.

The module `Seqs` holds reference definitions that are independent of the containers: ordering predicates, filter, map, reverse, ordered insertion and the two-pointer merge. The container operations are proved equal to these definitions.

Modules and files:

| module | file | contents |
|---|---|---|
| `Outcomes` | `outcomes.dfy` | `Option`, `Result`, and the two exception kinds |
| `Seqs` | `seqs.dfy` | reference definitions and their lemmas |
| `SimpleList` | `simple_list.dfy` | the list, its invariant, every operation, the iterator and the scans |
| `SimpleListProps` | `simple_list_props.dfy` | properties across operations and concrete scenarios |
| `ChunkedVector` | `chunked_vector.dfy` | the vector, its layout invariant, the operations and the index arithmetic |
| `ChunkedVectorProps` | `chunked_vector_props.dfy` | properties across operations, the test scenarios of `basics/chunked_vector_test.cc`, the zero chunk size |

Two consequences of the code worth stating:

- `pop_front` never touches the flag, so a list drained by `pop_front` can be empty with its flag down (`SimpleListProps.PopFrontKeepsFlagDown`). `SimpleList.Valid` therefore does not say that an empty list has its flag up.
- `insert_sorted` of 4, 3 and 5 builds `[3, 4, 5]`, so splicing it after `[2, 1]` (built with `push_front`) reads `2, 1, 3, 4, 5` (`SimpleListProps.ThreeFourFive`, `SimpleListProps.MergeSpliceScenario`).

## Model

| member | source | states |
|---|---|---|
| SimpleList.Empty | basics/simple_list.h:128-132 | a default-constructed list is empty with count 0, no tail and the flag up, and satisfies the class invariant `SimpleList.Valid` (count = chain length, tail = last node or null, flag up implies non-decreasing), which every operation's contract keeps |
| SimpleList.Clear | basics/simple_list.h:210-218 | `clear` yields the empty list with the flag up, whatever the list held before |
| SimpleList.MoveFrom | basics/simple_list.h:43-57 | moving transfers the chain and the flag to the destination and leaves the source empty with its flag up; both satisfy the invariant |
| SimpleList.Length | basics/simple_list.h:118 | `count()` equals the number of values in the chain |
| SimpleList.IsEmpty | basics/simple_list.h:122 | `empty()`, decided on the count, holds exactly when the chain is empty |
| SimpleList.PushFront | basics/simple_list.h:157-171 | the chain becomes `[v] + s` and the count grows by one; the flag becomes `old && v <= old head`, unchanged on an empty list; the flag is up exactly when it was up and the new chain is non-decreasing |
| SimpleList.PushBack | basics/simple_list.h:173-186 | the chain becomes `s + [v]` and the count grows by one; the flag becomes `old && old tail <= v`; on an empty list this is `push_front` |
| SimpleList.Front | basics/simple_list.h:188-197 | `out_of_range("List is empty")` exactly on an empty list, otherwise the head value |
| SimpleList.Back | basics/simple_list.h:199-208 | `out_of_range("List is empty")` exactly on an empty list, otherwise the last value of the chain, read through the tail handle |
| SimpleList.PopFront | basics/simple_list.h:385-404 | `out_of_range` exactly on an empty list; otherwise it returns the head, the rest of the chain and a count one lower, nulls the tail when the chain empties, and never changes the flag |
| SimpleList.ReverseWalk | basics/simple_list.h:229-252 | the reversal loop builds the reversed chain, and `found_unsorted_pair` ends true exactly when some value is strictly above the one before it |
| SimpleList.ReverseList | basics/simple_list.h:220-257 | the chain is reversed with the count kept; at most one node: nothing changes, flag included; otherwise the flag is up exactly when the original chain was non-increasing |
| SimpleList.InsertionIndex | basics/simple_list.h:272-276 | the scan stops at the first later node whose value is at least `v` (or at the end), all nodes passed being below `v` |
| SimpleList.InsertSorted | basics/simple_list.h:259-283 | `logic_error("List is not sorted")` exactly when the flag is down; otherwise `v` goes before the first value at least `v`, the count grows by one, the values gain one `v`, and the flag stays up |
| SimpleList.InsertAll | basics/simple_list.h:293-299 | the loop of `sort` re-inserts every old value into a list flagged sorted, which never throws, giving a sorted list holding the old values and the inserted ones |
| SimpleList.Sort | basics/simple_list.h:285-300 | the result is a non-decreasing permutation of the chain with the count kept and the flag up; a list already flagged sorted is returned unchanged |
| SimpleList.DedupWalk | basics/simple_list.h:445-458 | the unlinking loop keeps the first node and its value set, unlinks as many nodes as the chain shrinks by, ends on the last survivor, and on a sorted chain leaves it strictly increasing |
| SimpleList.Unique | basics/simple_list.h:436-459 | at most one node: unchanged; otherwise strictly increasing with the flag up; in every case the same set of values, a count no larger, and a tail on the last survivor |
| SimpleList.TrimHead | basics/simple_list.h:306-311 | the head loop drops a prefix of rejected values, decrementing the count once per node, and loses no value the filter keeps |
| SimpleList.KeepWalk | basics/simple_list.h:324-343 | the filtering loop keeps exactly the accepted values in order, counts the unlinked ones, ends on the last kept value, and computes the flag from the kept values |
| SimpleList.KeepAfterTrim | basics/simple_list.h:312-348 | after the head loop: no survivor gives the empty list with the flag up; one survivor is the old tail with the flag up; otherwise the kept values with the flag recomputed |
| SimpleList.KeepIf | basics/simple_list.h:302-349 | exactly the values satisfying `p` remain, in their original order, with the count and tail following them, and the flag is up exactly when they are non-decreasing |
| SimpleList.RemoveIf | basics/simple_list.h:351-356 | the values not satisfying `p` remain in order; each value satisfying `p` loses every occurrence and every other value keeps all of them; the flag is recomputed |
| SimpleList.Remove | basics/simple_list.h:358-363 | the values other than `v` remain in order; no `v` is left and every other value keeps its multiplicity |
| SimpleList.TransformWalk | basics/simple_list.h:369-381 | the rewriting loop maps every value and lowers the flag exactly when some mapped value is below the mapped value before it |
| SimpleList.Transform | basics/simple_list.h:365-383 | every value is mapped by `f` in place, the count is kept, the tail node is the rewritten last node, and the flag is up exactly when the mapped chain is non-decreasing |
| SimpleList.PushBackStep | basics/simple_list.h:182 | the conjunctive flag update of one `push_back`, followed by more pushes, yields the flag a single check of the whole result would give |
| SimpleList.PushAll | basics/simple_list.h:527-538 | the tail-draining loops of `_merge_sorted` append the rest of a chain, and the flag is up exactly when it was up and the result is non-decreasing |
| SimpleList.MergeWalk | basics/simple_list.h:511-538 | the two-pointer loop followed by the draining loops appends exactly the reference two-pointer merge of the two chains, ties taking `other`'s value first |
| SimpleList.MergeSorted | basics/simple_list.h:493-540 | with both flags up: an empty `other` changes nothing; otherwise this list becomes the merge of the two chains, sorted with its flag up, and `other` is cleared (empty, flag up) |
| SimpleList.Merge | basics/simple_list.h:461-491 | both flags up: the sorted two-pointer merge with the flag up, and `other` ends with its flag up; otherwise, `other` non-empty: `this ++ other` with the flag down; `other` empty: nothing changes. Counts add up, values are preserved, `other` ends empty |
| SimpleList.MergeIntoItself | basics/simple_list.h:461-540 | `a.merge(a)`: an empty list is unchanged; a non-empty one, on either path, ends empty with count 0, null tail and the flag up, because clearing `other` clears the list itself |
| SimpleList.Begin | basics/simple_list.h:84-87 | `begin()` is on the head value and equals `end()` exactly for an empty list |
| SimpleList.AdvanceSuffix | basics/simple_list.h:69-73 | `n` increments of an iterator move it to the chain that starts `n` nodes later |
| SimpleList.TraversalOrder | basics/simple_list.h:62-92 | iterating from `begin()` with `operator++` (`SimpleList.Next`, repeated by `SimpleList.Advance`) and reading with `operator*` (`SimpleList.Deref`) yields the values head to tail, and reaches `end()` (`SimpleList.End`) exactly after as many steps as there are nodes |
| SimpleList.Contains | basics/simple_list.h:406-411 | the `std::find` loop finds `v` exactly when `v` is in the chain |
| SimpleList.CountIf | basics/simple_list.h:413-426 | the range-for counts exactly the values satisfying `p` |
| SimpleList.Count | basics/simple_list.h:428-434 | the count of `v` is its multiplicity in the chain |
| Seqs.InsertPosition | basics/simple_list.h:267-281 | ordered insertion places `v` after a prefix of values below it and before the first value at least `v` |
| Seqs.InsertKeepsOrder | basics/simple_list.h:259-283 | ordered insertion into a non-decreasing chain keeps it non-decreasing |
| Seqs.InsertMultiset | basics/simple_list.h:277 | ordered insertion adds exactly one occurrence of `v` |
| Seqs.ReverseOrder | basics/simple_list.h:241-256 | a reversed chain is non-decreasing exactly when the original is non-increasing |
| Seqs.FilterMultiset | basics/simple_list.h:328-343 | filtering keeps every occurrence of an accepted value and none of a rejected one |
| Seqs.FilterEqualsCount | basics/simple_list.h:432-433 | counting the values equal to `v` gives the multiplicity of `v` |
| Seqs.MergeMultiset | basics/simple_list.h:514-538 | the two-pointer merge loses and invents no value |
| Seqs.MergeKeepsOrder | basics/simple_list.h:514-526 | the two-pointer merge of two non-decreasing chains is non-decreasing |
| Seqs.MergeSeparated | basics/simple_list.h:514-538 | when every value of the first chain is below every value of the second, the merge is their concatenation |
| SimpleListProps.PushThenPeek | basics/simple_list.h:157-208 | after a push the pushed value is at that end, and the other end is unchanged on a non-empty list |
| SimpleListProps.PopUndoesPush | basics/simple_list.h:385-404 | `pop_front` after `push_front(v)` returns `v` and restores the chain and the count |
| SimpleListProps.SortIdempotent | basics/simple_list.h:285-300 | sorting twice equals sorting once |
| SimpleListProps.ReverseTwice | basics/simple_list.h:220-257 | reversing twice restores the chain, and for two or more nodes the flag then says whether the original was non-decreasing |
| SimpleListProps.UniqueHasNoAdjacentDuplicates | basics/simple_list.h:436-459 | after `unique` of two or more nodes, no two adjacent values are equal |
| SimpleListProps.KeepAndRemovePartition | basics/simple_list.h:302-356 | `keep_if(p)` and `remove_if(p)` split the values of the list between them |
| SimpleListProps.SortedMergeSameValues | basics/simple_list.h:461-540 | merging two lists flagged sorted in either order gives the same values, sorted |
| SimpleListProps.MergeIntoItselfDropsValues | basics/simple_list.h:461-540 | merging a non-empty list with a distinct list of the same values doubles the values, while merging it into itself leaves it empty |
| SimpleListProps.TwoOne | basics/simple_list.h:157-171 | pushing 1 then 2 at the front gives `[2, 1]` with the flag down |
| SimpleListProps.PopFrontKeepsFlagDown | basics/simple_list.h:385-404 | popping `[2, 1]` to one node and then to none keeps the flag down, so an empty list can carry a lowered flag |
| SimpleListProps.InsertSortedRejectsUnsorted | basics/simple_list.h:263-266 | `insert_sorted` on `[2, 1]` throws `logic_error("List is not sorted")` |
| SimpleListProps.ThreeFourFive | basics/simple_list.h:259-283 | `insert_sorted` of 4, 3 and 5 builds `[3, 4, 5]` with the flag up |
| SimpleListProps.OneTwo | basics/simple_list.h:259-283 | `insert_sorted` of 2 and 1 builds `[1, 2]` with the flag up |
| SimpleListProps.MergeSortedScenario | basics/simple_list.h:493-540 | merging `[1, 2]` and `[3, 4, 5]`, both flagged sorted, gives `[1, 2, 3, 4, 5]` flagged sorted and empties `other` |
| SimpleListProps.MergeSpliceScenario | basics/simple_list.h:471-490 | merging `[2, 1]` (flag down) with `[3, 4, 5]` splices to `[2, 1, 3, 4, 5]` of count 5, flag down, `other` empty |
| SimpleListProps.MergeTieTakesOtherFirst | basics/simple_list.h:516-525 | on equal heads the two-pointer merge takes `other`'s value first |
| SimpleListProps.RemoveIfScenario | basics/simple_list.h:351-356 | `remove_if(x == 2)` on `[3, 2, 1]` leaves `[3, 1]` of count 2 |
| ChunkedVector.NewAsWritten | basics/chunked_vector.h:13-18 | the constructor, for any chunk size including 0, holds one empty chunk and no element |
| ChunkedVector.New | basics/chunked_vector.h:13-18 | the constructor with a positive chunk size satisfies the layout invariant and holds no element |
| ChunkedVector.TotalSize | basics/chunked_vector.h:35-38 | the summing loop gives the number of elements of the flattened contents |
| ChunkedVector.PushBack | basics/chunked_vector.h:20-31 | the contents become `old ++ [x]`; a chunk is opened exactly when the last one was full; the layout invariant is preserved |
| ChunkedVector.Index | basics/chunked_vector.h:33-47 | `out_of_range("Index out of bounds")` exactly when `i` is at least the element count; otherwise the `i`-th element of the flattened contents |
| ChunkedVector.Locate | basics/chunked_vector.h:44-46 | under the layout invariant, chunk `i / chunk_size` at position `i % chunk_size` exists and holds the `i`-th element |
| ChunkedVector.Set | basics/chunked_vector.h:33-47 | a write through the reference `operator[]` returns: `out_of_range` exactly when `i` is at least the element count; otherwise the contents change at index `i` only, to `x`, and the layout and chunk size are kept |
| ChunkedVector.LocateUpdate | basics/chunked_vector.h:44-46 | under the layout invariant, overwriting position `i % chunk_size` of chunk `i / chunk_size` overwrites index `i` of the contents and nothing else |
| ChunkedVector.AppendChunks | basics/chunked_vector.h:63-70 | the copy loop of `pack` appends every chunk from the second on to the first, in order |
| ChunkedVector.Pack | basics/chunked_vector.h:49-77 | contents and order are preserved; a non-empty vector ends with one chunk and the chunk size set to the total, satisfying the layout; an empty vector is unchanged |
| ChunkedVectorProps.ZeroChunkSizeBreaksLayout | basics/chunked_vector.h:13-31 | with chunk size 0, `pushBack(7)` opens a second chunk; index 0 then passes the range check but the layout is broken and the index arithmetic divides by zero |
| ChunkedVectorProps.PushAll | basics/chunked_vector_test.cc:33-35 | any run of appends keeps the layout and appends the values, the chunk size unchanged |
| ChunkedVectorProps.PushBackAfterPack | basics/chunked_vector_test.cc:98-118 | an append after `pack` keeps the layout, appends the value, and every old and new index reads its element |
| ChunkedVectorProps.PackIdempotent | basics/chunked_vector.h:49-77 | packing twice equals packing once |
| ChunkedVectorProps.IndexAfterPushes | basics/chunked_vector_test.cc:17-45 | after appending `xs` to a new vector of any positive chunk size, index `i` reads `xs[i]` and the first index past the end is out of range |
| ChunkedVectorProps.IndexAfterPackAndPushes | basics/chunked_vector_test.cc:76-118 | after `pack` and further appends, every index reads the packed contents followed by the appended values |
| ChunkedVectorProps.SetThenIndex | basics/chunked_vector.h:33-47 | after `v[i] = x`, index `i` reads `x` and every other index reads what it read before |
| ChunkedVectorProps.PackEmptyIsNoOp | basics/chunked_vector_test.cc:93-96 | `pack` on an empty vector changes nothing |

## Left out

- The single-owner-thread guard `_check_thread_safety` (`basics/simple_list.h:136-154`): a debug-only misuse detector. It is taken to be a no-op.
- `shared_ptr` ownership, node aliasing and destruction: the chain is a sequence of values.
- Iterator pointer identity (`basics/simple_list.h:75-78`): an iterator is modelled by the chain it points into. It compares equal to `end()` exactly at the end of the chain.
- Self-move-assignment (`basics/simple_list.h:49-57`), which would clear the list: `SimpleList.MoveFrom` models the move between two distinct lists.
- SimpleList.Merge: models `merge` between two distinct lists. When `other` is the list itself the source closes the chain into a cycle (splice path) and then clears the list; that case is `SimpleList.MergeIntoItself`, which keeps only the resulting empty list, not the leaked cycle.
- The `int` count of the list and the `size_t` arithmetic of the vector are unbounded integers. Overflow past 2^31 nodes or 2^64 elements is not modelled.
- Capacity: `reserve` and `shrink_to_fit` (`basics/chunked_vector.h:17`, `basics/chunked_vector.h:69`) are allocator details with no effect on contents.
- `split`, called at `basics/chunked_vector_test.cc:125`, is not defined in `basics/chunked_vector.h`.
- `basics/simple_list_test.cc` and `basics/simple_list_benchmark.cc` call methods (`add`, `get`, `get_size`, `pushFront`, `keepIf`, `popFront`) that the list does not declare, so they are not part of this model.
- The standard-library smoke tests, the `add`/`greet` demo programs and the empty `formats/` stubs have no behaviour of the containers to model.
- Values are `int`. Any `T` with a total order behaves the same; the element type of the string test of the vector is not modelled separately.
- `SimpleList.Valid` does not include "an empty list has its flag up". `pop_front` breaks it (see `SimpleListProps.PopFrontKeepsFlagDown`).

## Findings

| source | as written | input that shows it | evidently intended | confidence | as-written member | corrected member |
|---|---|---|---|---|---|---|
| basics/chunked_vector.h:13 | the constructor accepts a chunk size of 0; `pushBack` then treats the empty chunk as full and opens a new one, and `operator[]` divides by the chunk size at line 44 | `ChunkedVector<int> v(0); v.pushBack(7); v[0];`: index 0 passes the range check (total 1) and then computes `0 / 0` | the chunk size is positive, so that the layout `operator[]` relies on holds | high, not executed | ChunkedVectorProps.ZeroChunkSizeBreaksLayout | ChunkedVector.New |
