# cstl list, modelled in Dafny

This project models the doubly-linked list that `cstl/list.h` generates
with the `CSTL_DECL_NEW_LIST_TYPE(type)` macro. In the model the element
type is a Dafny type parameter `T(0)`. The `0` stands for `calloc`, which
zero-fills every node, the two sentinels included.

A list owns a head sentinel `first` and a tail sentinel `last`, with the
user nodes strictly between them. The model keeps three ghost fields:

- `Nodes`: the whole chain, from head to tail;
- `Contents`: the user payloads, in order;
- `Repr`: the footprint, meaning the list object and every node it has
  owned. A removed node stays in `Repr`; it is no longer in `Nodes`.

`List.Valid()` is the invariant stated in `include/cstl/list.h` and set up
by `new_cstl_list`:

- `first.prev` and `last.next` are null;
- every `n.next.prev == n`;
- no node appears twice in the chain;
- `size` counts the nodes between the sentinels;
- `Contents` lists their payloads.

Modules:

- `CstlList` (`list.dfy`) holds the node and list classes and these operations:
  - construction, `add` and `remove`;
  - the accessors `first`, `last`, `front`, `back`, `size`, `empty` and `node_data`;
  - `clone`, `copy` and `equals`.

  The operations that rewire links or walk the chain are methods with loop
  invariants. The accessors are functions.
- `MergeSortSpec` (`sort_spec.dfy`) gives the merge sort of the source as a
  function on sequences: `MergeBy` and `MergeSortBy`, with the comparator as
  a parameter. It proves that the result is a permutation of the input. It
  also proves that the result is sorted when the comparator is a strict
  weak order, and that on `int` with `<` the result is the unique ascending
  arrangement.
- `CstlSort` (`sort.dfy`) holds the in-place sorts `cstl_list_customsort`
  and `cstl_list_sort`:
  - the two copying loops copy the payloads into two fresh lists;
  - each half is sorted recursively;
  - the merging loop then writes the payloads back into the original nodes.

  The methods are proved to write exactly `MergeSortBy` of the old
  contents into an unchanged node chain.
- `CstlScenarios` (`scenarios.dfy`) holds small client programs, each with
  its outcome pinned down:
  - sorting a concrete list;
  - adding then removing a node;
  - copying, then adding to the source;
  - cloning, then adding to the clone;
  - sorting twice by key, which does not give a fixed point.

Where the documentation in `cstl/list.h` and its code disagree, the model
follows the code:

- `cstl_list_first` returns the first user node, not the head sentinel.
- `cstl_list_last` also returns the FIRST user node (line 167), not the
  last node. `LastIsNotBack` shows that it differs from `back` once there
  are two elements.
- `cstl_list_empty` returns true exactly when the list is non-null and has
  elements.
- The merge takes from the first half only when `n1->data < n2->data` or
  `pred(n1->data, n2->data)` holds. Ties therefore go to the second half,
  so the sort is not stable: `MergeSortSwapsTies` proves this. A
  consequence is that `customsort` is not idempotent even under a strict
  weak order: sorting twice puts two elements with equal keys back where
  they were (`SortTwiceRestoresTies`, `CustomSortNotIdempotentExample`).
  Only the `int` sort is idempotent (`SortIdempotent`).
- `cstl_list_copy` frees `dest` and then assigns the clone only to its own
  parameter (line 318). The caller is left holding a freed list, and the
  clone leaks. The model implements the in-place replacement that the
  function's documentation promises instead (lines 50-55): `dest` itself
  is emptied and then receives a copy of `src`. The model therefore fixes
  line 318.

Both sort functions in the source have the same body and differ only in
the comparison. The algorithm is therefore written once, as
`CustomSort(list, pred)`, and `Sort` runs it with `Less`, that is `<` on
`int`.

## Model

| member | source | states |
|---|---|---|
| CstlList.Node.constructor | cstl/list.h:122-125 | a new node has null `prev` and `next` links |
| CstlList.List.Valid | include/cstl/list.h:5-10 | the list invariant: the chain `Nodes` runs from the head sentinel `first` (no predecessor) to the tail sentinel `last` (no successor), every `n.next.prev == n`, no node repeats, `size` counts the nodes between the sentinels and `Contents` lists their payloads; a valid list is in its own footprint |
| CstlList.List.constructor | cstl/list.h:127-134 | the new list is valid and empty (`size == 0`), its two sentinels are fresh and linked to each other (`first.next == last`, `last.prev == first`) |
| CstlList.List.Reset | cstl/list.h:127-134 | the list object is re-initialised in place: valid, empty, new sentinels, the old nodes dropped |
| CstlList.List.Add | cstl/list.h:136-145 | the list stays valid and gets `Contents + [value]` and `size + 1`; the node chain gains exactly one fresh node, just before the unchanged tail sentinel; that node holds `value` and has `next == last`; `back` now returns it; no other node's data changes |
| CstlList.List.Remove | cstl/list.h:147-156 | removing the user node at index `i` keeps the list valid, removes exactly element `i`, keeps the order and values of the other elements, and gives `size - 1`; it returns the removed node's old successor `Nodes[i+2]` (`Nodes[i+1]` is the removed node itself), which is the tail sentinel when `i` was the last element |
| CstlList.First | cstl/list.h:158-162 | null for a null or empty list, otherwise the first user node |
| CstlList.Last | cstl/list.h:164-168 | null for a null or empty list, otherwise the first user node (not the last one) |
| CstlList.Front | cstl/list.h:170-174 | null for a null or empty list, otherwise the first user node, whose payload is the first element |
| CstlList.Back | cstl/list.h:175-179 | null for a null or empty list, otherwise the last user node, whose payload is the last element |
| CstlList.Size | cstl/list.h:181-184 | 0 for a null list, otherwise the number of elements |
| CstlList.Empty | cstl/list.h:186-190 | true if and only if the list is non-null and has at least one element |
| CstlList.NodeData | cstl/list.h:192-194 | the payload field of the node; `NodeDataIsElement` states what that payload is |
| CstlList.NodeDataIsElement | cstl/list.h:192-194 | the payload that `node_data` reads from user node `i` is element `i` of the list |
| CstlList.LastIsNotBack | cstl/list.h:164-179 | on a list with two or more elements, `last` returns the same node as `first` and a different node from `back` |
| CstlList.AppendAll | cstl/list.h:306-312 | the clone loop appends every element of the source, in order, to the destination; it writes only the destination and nodes it allocates |
| CstlList.Clone | cstl/list.h:302-314 | null if and only if the source is null; otherwise a valid list made only of fresh objects, with the same contents as the source; nothing that existed before is modified, so the source is unchanged and no node is shared |
| CstlList.Copy | cstl/list.h:316-319 | `dest` becomes a valid list made of fresh nodes, holding the contents of `src`, or empty when `src` is null (the intended in-place replacement; see "Left out") |
| CstlList.Equals | cstl/list.h:321-337 | true when both arguments are the same list; false when the sizes differ; otherwise true if and only if the contents agree element by element under `==` |
| CstlSort.CopyRange | cstl/list.h:207-217 | one copying loop: a fresh valid list holding elements `from..to` of the list, and the cursor left on the node of element `to`; nothing that existed before is modified |
| CstlSort.Split | cstl/list.h:207-217 | two fresh, disjoint lists, disjoint from the list too: the first holds the first `size / 2` elements and the second the rest |
| CstlSort.MergeChoice | cstl/list.h:224-246 | one pass of the merging loop consumes exactly one element, from the first half if and only if `pred(a, b)` when both halves have elements; the consumed element is the next element of `MergeBy`; a cursor becomes null only at its half's tail sentinel, so a sentinel's payload is never read as data |
| CstlSort.MergeStep | cstl/list.h:224-247 | one pass writes the next element of `MergeBy` into the current node and consumes one element, without changing either half |
| CstlSort.MergeInto | cstl/list.h:220-248 | after the `size` passes of the merging loop, user node `j` of the list holds element `j` of `MergeBy(l1, l2)` |
| CstlSort.MergeBack | cstl/list.h:220-248 | after the merge the list is valid, its contents are `MergeBy(l1, l2)`, and only the payloads have been written |
| CstlSort.CustomSort | cstl/list.h:253-300 | the list stays valid, with the same node chain and the same size; its contents become `MergeSortBy(old contents, pred)` |
| CstlSort.Sort | cstl/list.h:204-251 | the list stays valid, with the same node chain and size; a list of fewer than two elements is unchanged; the new contents are a permutation of the old ones and are non-decreasing |
| MergeSortSpec.MergeBy | cstl/list.h:269-297 | the merging loop as a function on sequences: the first half's head is taken when the second half is used up or `lt(a[0], b[0])`, otherwise the second half's head (ties go to the second half); its length is the sum of the halves' lengths |
| MergeSortSpec.MergeSortBy | cstl/list.h:253-300 | the whole sort as a function on sequences: below two elements the input, otherwise the merge of the sorted first `|s| / 2` elements and the sorted rest; its length is the input's |
| MergeSortSpec.MergeTakesFirst | cstl/list.h:230-240 | when the second half is used up, or `lt(a[k1], b[k2])` holds, the next merged element is `a[k1]` |
| MergeSortSpec.MergeTakesSecond | cstl/list.h:224-229 | when the first half is used up, or `lt(a[k1], b[k2])` does not hold, the next merged element is `b[k2]` |
| MergeSortSpec.MergeHead | cstl/list.h:285-295 | the merge starts with the first half's head if and only if the second half is empty or `lt(a[0], b[0])` holds |
| MergeSortSpec.MergePermutes | cstl/list.h:272-297 | the merge loses and duplicates nothing: its multiset is the union of the halves' multisets |
| MergeSortSpec.MergeSortPermutes | cstl/list.h:253-300 | for any comparator, the sort's result is a permutation of its input |
| MergeSortSpec.MergeSorted | cstl/list.h:272-297 | merging two sorted halves under an asymmetric comparator gives a sorted sequence |
| MergeSortSpec.MergeSortSorted | cstl/list.h:253-300 | with an asymmetric comparator, no adjacent pair `x, y` of the result has `pred(y, x)` |
| MergeSortSpec.StrictWeakOrderIsAsymmetric | cstl/list.h:253 | a strict weak order `pred` is asymmetric |
| MergeSortSpec.NegativelyTransitive | cstl/list.h:253 | under a strict weak order, `!pred(x, y)` and `!pred(y, z)` give `!pred(x, z)` |
| MergeSortSpec.SortedAllPairs | cstl/list.h:253-300 | under a strict weak order, a sequence with no adjacent pair out of order has no pair at all out of order |
| MergeSortSpec.MergeSortOrdered | cstl/list.h:253-300 | with a strict weak order, no pair `i < j` of the result has `pred(r[j], r[i])` |
| MergeSortSpec.MergeSortSwapsTies | cstl/list.h:236-246 | the sort is not stable: when `!pred(x, y)`, sorting `[x, y]` gives `[y, x]`, so two equal elements swap |
| MergeSortSpec.SortTwiceRestoresTies | cstl/list.h:285-295 | when neither of `x`, `y` is below the other, sorting `[x, y]` gives `[y, x]` and sorting that again gives `[x, y]`: the sort is not idempotent |
| MergeSortSpec.LessIsStrictWeakOrder | cstl/list.h:236 | the `<` of `cstl_list_sort` is a strict weak order |
| MergeSortSpec.AscendingHeadIsLeast | cstl/list.h:204-251 | the head of an ascending `int` sequence is its least element |
| MergeSortSpec.AscendingSameHead | cstl/list.h:204-251 | two ascending `int` sequences with the same multiset start with the same element |
| MergeSortSpec.TailMultiset | cstl/list.h:204-251 | dropping the head of a sequence removes exactly one copy of it from the multiset |
| MergeSortSpec.AscendingUnique | cstl/list.h:204-251 | two ascending `int` sequences with the same multiset are equal |
| MergeSortSpec.SortIsAscendingPermutation | cstl/list.h:204-251 | `cstl_list_sort` returns exactly the ascending permutation of its input |
| MergeSortSpec.SortIdempotent | cstl/list.h:204-251 | sorting the result of `cstl_list_sort` again changes nothing |
| CstlScenarios.MergeLeft | cstl/list.h:236-240 | on `int`, a merge step whose first-half head is smaller, or whose second half is used up, emits the first-half head |
| CstlScenarios.MergeRight | cstl/list.h:241-246 | on `int`, a merge step whose first-half head is not smaller, or whose first half is used up, emits the second-half head |
| CstlScenarios.SortTwoAscending | cstl/list.h:204-251 | sorting two ascending `int`s leaves them in place |
| CstlScenarios.MergeExample | cstl/list.h:220-248 | merging `[13, 13, 14, 15]` with `[13, 13, 19, 22]` gives `[13, 13, 13, 13, 14, 15, 19, 22]` |
| CstlScenarios.SortFirstHalfExample | cstl/list.h:204-251 | sorting `[13, 14, 13, 15]` gives `[13, 13, 14, 15]` |
| CstlScenarios.SortSecondHalfExample | cstl/list.h:204-251 | sorting `[13, 22, 13, 19]` gives `[13, 13, 19, 22]` |
| CstlScenarios.SortExample | cstl/list.h:204-251 | sorting `[13, 14, 13, 15, 13, 22, 13, 19]` gives `[13, 13, 13, 13, 14, 15, 19, 22]` |
| CstlScenarios.Ends | cstl/list.h:170-179 | on a valid non-empty list, `front` and `back` read the first and the last element |
| CstlScenarios.SortScenario | cstl/list.h:204-251 | after sorting that list, the front holds 13 and the back holds 22 |
| CstlScenarios.AddThenRemove | cstl/list.h:136-156 | adding one value to a new list and removing its node leaves the list empty, and the node returned is the tail sentinel |
| CstlScenarios.FromSeq | cstl/list.h:127-145 | repeated `add` on a new list builds a valid list with exactly the given contents |
| CstlScenarios.CopiedPair | cstl/list.h:316-319 | building a list and copying it gives two valid lists with the same contents that share no storage |
| CstlScenarios.CopyThenAdd | cstl/list.h:316-337 | a copy equals its source; after an add to the source, the copy keeps its size and contents and the two are no longer equal |
| CstlScenarios.CloneThenAdd | cstl/list.h:302-337 | a clone equals its source; after an add to the clone, the source keeps its size and the two are no longer equal |
| CstlScenarios.CustomSortNotIdempotentExample | cstl/list.h:253-300 | with payloads compared by key (a strict weak order), sorting `[Keyed(1, 0), Keyed(1, 1)]` swaps them and sorting again swaps them back |

## Left out

- Memory management is not modelled: `calloc` failure, `free` in `remove`, and `free_cstl_list` (cstl/list.h:196-202). Dafny is garbage-collected. The freeing is not observable in the list's logic.
- The `CSTL_DECL_NEW_LIST_TYPE` token pasting (cstl/list.h:109-120) is code generation. It becomes the type parameter `T`.
- The `foreach` macro (cstl/list.h:339-340) is syntactic sugar for a walk from `first->next` to `last`. It is not modelled.
- The `int` loop counters compared against `size_t` are not modelled (cstl/list.h:210, 214, 223, 259, 263, 272). Sizes are unbounded naturals, so overflow beyond `INT_MAX` elements is out of scope.
- Misuse that is undefined behaviour in the source is excluded by preconditions:
  - removing a node that is not a user node of the list;
  - `equals` with exactly one null argument;
  - `copy` into a null `dest`, or into a `dest` that is part of `src`.
- CstlList.Copy: models the documented in-place replacement, not the code as written. Line 318 rebinds only the local `dest`, so the caller's list is left freed and the clone leaks. A freed list cannot be represented in the model.
- CstlList.Node.constructor: does not state that the new node's payload is zero-filled, because a generic `T` has no zero value to compare with. The payload of a sentinel is never read.
- CstlSort.CustomSort: the contract states the result as `MergeSortBy(old contents, pred)`. The lemmas `MergeSortPermutes`, `MergeSortSorted` and `MergeSortOrdered` then give the permutation and sortedness, and `Sort` states them outright for `int`.
- CstlSort.Split: the source creates both sub-lists before either copying loop runs. The model creates the second one just before its loop. Both are fresh, so no caller can observe the difference.
- CstlSort.MergeStep: the source writes each payload in the same branch that advances the cursor. The model chooses first (`MergeChoice`) and then writes. This is equivalent because the node written belongs to neither half.
- The sub-lists that the sort releases at the end (cstl/list.h:249-250, 298-299) are simply dropped.
