# SingleLinkedList in Dafny

A model of `SingleLinkedList<Type>`, a singly linked list of owned nodes.
The nodes hang off a sentinel `head_` node, and a cached count `size_`
sits next to it. Around that chain the class provides:

- forward iterators, including `before_begin()` on the sentinel;
- push and pop at both ends;
- `InsertAfter` and `EraseAfter` relative to an iterator;
- `Clear` and a constant-time `swap`;
- copy construction, copy assignment and construction from an initializer list;
- free relational operators built on `std::equal` and `std::lexicographical_compare`.

## Layout

- `wrappers.dfy`, module `Wrappers`: `Option`.
- `nodes.dfy`, module `Nodes`: the node chain.
  - `Chain<T>` is one `next_node` link: `Nil` is the null pointer.
  - Each pointer walk of the class is a recursive function.
  - Each walk states its effect on `Elems`, the values in traversal order.
- `single_linked_list.dfy`, module `SingleLinkedLists`: the class.
  - A list is `SingleLinkedList(first, size)`, where `first` is `head_.next_node` and `size` is `size_`.
  - `Valid` is the class invariant: `size_` equals the number of reachable nodes. Every mutator keeps it.
  - `Elements` is the abstract state.
  - An `Iterator` is `BeforeBegin` (the sentinel), `At(i)` (the i-th value node) or `End` (null).
  - `Position` maps an iterator to -1, `i` or the length.
  - Mutators are functions from the old list to the new one. `InsertAfter` and `EraseAfter` return a pair (list, iterator).
  - Constructors, copy assignment and `Clear` are methods with loops, written like the source's loops.
- `comparisons.dfy`, module `Comparisons`: the free operators.
  - They are modelled as written, next to a declarative lexicographic order `LexLess`.
  - Where the written operator is wrong, a corrected companion follows.
- `operation_sequences.dfy`, module `OperationSequences`: runs any sequence of pushes and pops.
  - After any such run the list still holds what a plain sequence semantics says.
  - Its size is the net number of values added.

Where the source dereferences null or trips an `assert`, the operation has a
`requires` that excludes that input:

- `PopBack` needs at least two elements.
- `InsertAfter` must not be given `end()`.
- `EraseAfter` needs a node after the position.
- `==`, `!=`, `<=` and `>=` need `std::equal` to stay inside `rhs`. It steps through `rhs` in step with `lhs` and stops at the first mismatch. It only reads past `rhs`'s end when `lhs` is longer and its first `|rhs|` values equal `rhs`. The predicate `Comparable` excludes exactly that case.

The class reports no errors:

- `PopBack` on a list of fewer than two values dereferences null (see Findings).
- `PopFront` on an empty list does nothing.
- There are no error values, so every failure case is a precondition.

## Model

| member | source | states |
|---|---|---|
| Nodes.Elems | single-linked-list/single-linked-list.h:16-24 | the values met by following `next_node` links are exactly as many as the nodes |
| Nodes.ElemsInjective | single-linked-list/single-linked-list.h:16-24 | two node chains that hold the same values are the same chain |
| Nodes.ValueAt | single-linked-list/single-linked-list.h:76-79 | reading the node reached after `i` links yields the `i`-th value |
| Nodes.AppendNode | single-linked-list/single-linked-list.h:187-200 | walking to the node whose `next_node` is null and linking a new node there appends the value |
| Nodes.InsertAfterNode | single-linked-list/single-linked-list.h:245-247 | splicing a node after node `i` puts the value at index `i + 1` and keeps the others in order |
| Nodes.EraseAfterNode | single-linked-list/single-linked-list.h:261-263 | unlinking the node after node `i` removes exactly the value at index `i + 1` |
| Nodes.EraseAfterNodeUndoesInsertAfterNode | single-linked-list/single-linked-list.h:238-268 | unlinking the node after `i` restores the chain that existed before a node was spliced in there |
| Nodes.PopBackWalk | single-linked-list/single-linked-list.h:209-221 | when the walk of `PopBack` completes, it has cut off exactly the last value |
| Nodes.PopBackWalkFaultsIff | single-linked-list/single-linked-list.h:210-211 | the walk reading `current->next_node->next_node` dereferences null exactly when the list has fewer than two nodes |
| Nodes.DropLastNode | single-linked-list/single-linked-list.h:209-221 | the corrected walk removes the last value of any non-empty chain |
| SingleLinkedLists.Empty | single-linked-list/single-linked-list.h:92-93 | the default constructor builds an empty list that satisfies the invariant |
| SingleLinkedLists.FromValues | single-linked-list/single-linked-list.h:99-103 | pushing the initializer values at the front from last to first yields them in the given order, with that size |
| SingleLinkedLists.CopyOf | single-linked-list/single-linked-list.h:105-113 | the copy built by iterating `other` and pushing back, then swapped in, holds the same values and size |
| SingleLinkedLists.Assign | single-linked-list/single-linked-list.h:115-125 | after assignment, whether from itself or from another list, the list holds `rhs`'s values and size |
| SingleLinkedLists.Swap | single-linked-list/single-linked-list.h:128-131 | `swap` exchanges the two lists' contents and sizes and keeps both invariants |
| SingleLinkedLists.SwapInvolutive | single-linked-list/single-linked-list.h:286-289 | swapping twice restores both lists |
| SingleLinkedLists.GetSize | single-linked-list/single-linked-list.h:177-179 | the cached count equals the number of stored values |
| SingleLinkedLists.IsEmpty | single-linked-list/single-linked-list.h:182-184 | the test on the cached count holds exactly when no value is stored |
| SingleLinkedLists.BeforeBeginOf | single-linked-list/single-linked-list.h:164-166 | `before_begin()` is the position before the first element |
| SingleLinkedLists.EndOf | single-linked-list/single-linked-list.h:144-146 | `end()` is the position one past the last element |
| SingleLinkedLists.Begin | single-linked-list/single-linked-list.h:140-142 | `begin()` is position 0, and it equals `end()` exactly when the list is empty |
| SingleLinkedLists.Next | single-linked-list/single-linked-list.h:64-68 | `operator++` advances any iterator other than `end()` by exactly one position, from the sentinel to `begin()` and from the last node to `end()` |
| SingleLinkedLists.Deref | single-linked-list/single-linked-list.h:76-79 | `operator*` yields the value at the iterator's position |
| SingleLinkedLists.PushFront | single-linked-list/single-linked-list.h:203-206 | the value is prepended, the others keep their order, and the size grows by one |
| SingleLinkedLists.PushBack | single-linked-list/single-linked-list.h:187-200 | the value is appended, the others keep their order, and the size grows by one |
| SingleLinkedLists.PopFront | single-linked-list/single-linked-list.h:224-235 | an empty list is left unchanged; otherwise exactly the first value goes and the size drops by one |
| SingleLinkedLists.PopBack | single-linked-list/single-linked-list.h:209-221 | on a list of at least two values, exactly the last value goes and the size drops by one |
| SingleLinkedLists.PopBackCorrected | single-linked-list/single-linked-list.h:209-221 | any non-empty list loses exactly its last value; an empty one is left unchanged |
| SingleLinkedLists.PopBackCorrectedAgrees | single-linked-list/single-linked-list.h:209-221 | wherever the written `PopBack` runs, the corrected one gives the same list |
| SingleLinkedLists.PopBackFaultsOnSingleton | single-linked-list/single-linked-list.h:210-211 | on a one-element list the written walk dereferences null, while the corrected pop empties the list |
| SingleLinkedLists.InsertAfter | single-linked-list/single-linked-list.h:238-250 | the value lands right after the position, the size grows by one, and the returned iterator points at the new value |
| SingleLinkedLists.InsertAfterBeforeBeginIsPushFront | single-linked-list/single-linked-list.h:240-243 | inserting after `before_begin()` gives the same list as `PushFront` and returns `begin()` |
| SingleLinkedLists.InsertAfterLastIsPushBack | single-linked-list/single-linked-list.h:238-250 | inserting after the last node gives the same list as `PushBack` |
| SingleLinkedLists.EraseAfter | single-linked-list/single-linked-list.h:253-268 | exactly the value after the position goes, the size drops by one, and the returned iterator points at the value that followed the erased one, or is `end()` |
| SingleLinkedLists.EraseAfterBeforeBeginIsPopFront | single-linked-list/single-linked-list.h:256-259 | erasing after `before_begin()` gives the same list as `PopFront` and returns `begin()` |
| SingleLinkedLists.EraseAfterNextToLastIsPopBack | single-linked-list/single-linked-list.h:253-268 | erasing after the next-to-last node gives the same list as `PopBack` and returns `end()` |
| SingleLinkedLists.EraseAfterUndoesInsertAfter | single-linked-list/single-linked-list.h:238-268 | `EraseAfter(pos)` right after `InsertAfter(pos, v)` gives back the original list |
| SingleLinkedLists.PopFrontUndoesPushFront | single-linked-list/single-linked-list.h:203-235 | `PopFront` after `PushFront` gives back the original list |
| SingleLinkedLists.PopBackUndoesPushBack | single-linked-list/single-linked-list.h:187-221 | `PopBack` after `PushBack` on a non-empty list gives back the original list |
| SingleLinkedLists.Clear | single-linked-list/single-linked-list.h:271-279 | the list ends empty, with size 0 and `begin() == end()`, and clearing an already empty list changes nothing |
| SingleLinkedLists.ListExtensionality | single-linked-list/single-linked-list.h:282-283 | a list that satisfies the invariant is determined by its values |
| SingleLinkedLists.PushPopScenario | single-linked-list/single-linked-list.h:187-235 | push back 1 and 2, push front 0, then pop back and pop front: the lists are [0,1,2], [0,1] and [1], with sizes 3, 2 and 1 |
| Comparisons.StdEqual | single-linked-list/single-linked-list.h:293 | wherever three-iterator `std::equal` stays inside `b`, which includes a longer `a` that differs from `b` early, it holds exactly when `a` is no longer than `b` and is a prefix of it |
| Comparisons.LexicographicalCompare | single-linked-list/single-linked-list.h:301-304 | the walk of `std::lexicographical_compare`, as called by `<`, `<=`, `>` and `>=`, holds exactly when `a` is lexicographically smaller than `b` |
| Comparisons.LexTrichotomy | single-linked-list/single-linked-list.h:301-304 | any two sequences are equal, or exactly one is lexicographically smaller |
| Comparisons.Equal | single-linked-list/single-linked-list.h:291-294 | `==` holds exactly when `lhs` is no longer than `rhs` and is a prefix of it; a longer `lhs` that differs early compares unequal |
| Comparisons.NotEqual | single-linked-list/single-linked-list.h:296-299 | `!=` holds exactly when `lhs` is not a prefix of `rhs` (in particular, whenever a longer `lhs` differs early) |
| Comparisons.Less | single-linked-list/single-linked-list.h:301-304 | `<` is lexicographic order on the values |
| Comparisons.LessEq | single-linked-list/single-linked-list.h:306-314 | `<=` holds exactly when the lists are equal or `lhs` is lexicographically smaller |
| Comparisons.Greater | single-linked-list/single-linked-list.h:316-319 | `>` holds exactly when `lhs` is not lexicographically smaller |
| Comparisons.GreaterEq | single-linked-list/single-linked-list.h:321-329 | `>=` holds exactly when `lhs` is a prefix of `rhs` or is not lexicographically smaller |
| Comparisons.EqualAcceptsProperPrefix | single-linked-list/single-linked-list.h:291-299 | a list compares `==`, and not `!=`, to every longer list it is a prefix of |
| Comparisons.GreaterHoldsOnEqualLists | single-linked-list/single-linked-list.h:316-319 | every list compares `>` to itself |
| Comparisons.GreaterEqAcceptsProperPrefix | single-linked-list/single-linked-list.h:321-329 | a proper prefix compares both `>=` and `<` to the longer list |
| Comparisons.EqualCorrected | single-linked-list/single-linked-list.h:291-294 | the corrected `==` holds exactly when both lists hold the same values, at any lengths |
| Comparisons.EqualCorrectedAgreesOnSameLength | single-linked-list/single-linked-list.h:291-294 | on lists of the same length the written and corrected `==` agree |
| Comparisons.GreaterCorrected | single-linked-list/single-linked-list.h:316-319 | the corrected `>` holds exactly when `rhs` is lexicographically smaller |
| Comparisons.GreaterEqCorrected | single-linked-list/single-linked-list.h:321-329 | the corrected `>=` holds exactly when the lists are equal or `rhs` is lexicographically smaller |
| Comparisons.CorrectedTrichotomy | single-linked-list/single-linked-list.h:291-329 | any two lists are related by exactly one of the corrected `==`, `<` and the corrected `>` |
| Comparisons.GreaterEqCorrectedIsConverseOfLessEq | single-linked-list/single-linked-list.h:306-329 | the corrected `>=` is the written `<=` with the operands exchanged |
| Comparisons.ComparisonExamples | single-linked-list/single-linked-list.h:291-329 | [1,2] < [1,3], [1,2] < [1,2,3] and [1,2,3] <= [1,2,3]; the written `==` accepts [1,2] against [1,2,3] but the corrected one does not; the written `>` holds for [1,2,3] against itself but the corrected one does not; the longer [1,2,3] compares `!=` and `<=`, not `>=`, to [1,3] |
| OperationSequences.Apply | single-linked-list/single-linked-list.h:187-235 | each push and pop, with the corrected `PopBack`, keeps the invariant that `size_` counts the reachable nodes |
| OperationSequences.RunRefinesSeq | single-linked-list/single-linked-list.h:187-235 | after any sequence of pushes and pops, with the corrected `PopBack`, the list holds what the same operations do to a plain sequence |
| OperationSequences.SizeAfterRun | single-linked-list/single-linked-list.h:282-283 | after any sequence of pushes and pops, with the corrected `PopBack`, the size is the starting size plus the pushes minus the pops that removed a value |

## Findings

| source | as written | input that shows it | evidently intended | confidence | as-written member | corrected member |
|---|---|---|---|---|---|---|
| single-linked-list/single-linked-list.h:209-221 | `PopBack` starts at the first node and reads `current->next_node->next_node` | a list holding one value | the only value is removed and the list becomes empty | not executed; high | SingleLinkedLists.PopBack, shown by SingleLinkedLists.PopBackFaultsOnSingleton | SingleLinkedLists.PopBackCorrected |
| single-linked-list/single-linked-list.h:291-299 | `==` is `std::equal(lhs.begin(), lhs.end(), rhs.begin())`, and `!=` is its negation; lengths are never compared | {1, 2} == {1, 2, 3} is true | lists of different lengths compare unequal | not executed; high | Comparisons.Equal, shown by Comparisons.EqualAcceptsProperPrefix | Comparisons.EqualCorrected |
| single-linked-list/single-linked-list.h:316-319 | `>` is `!(lhs < rhs)` | {1} > {1} is true | `rhs < lhs` | not executed; high | Comparisons.Greater, shown by Comparisons.GreaterHoldsOnEqualLists | Comparisons.GreaterCorrected |
| single-linked-list/single-linked-list.h:321-329 | `>=` first asks the prefix test of `==` | {1, 2} >= {1, 2, 3} is true | `!(lhs < rhs)` | not executed; high | Comparisons.GreaterEq, shown by Comparisons.GreaterEqAcceptsProperPrefix | Comparisons.GreaterEqCorrected |

`OperationSequences` and `Comparisons.CorrectedTrichotomy` are built on the corrected members.

## Left out

- The const/non-const iterator plumbing is not modelled, because it has no behaviour of its own:
  - `cbegin`, `cend`, `cbefore_begin` and its `const_cast`;
  - the converting iterator constructor and the duplicate iterator `==`/`!=` overloads;
  - `operator->`.
  Iterator equality is equality of the `Iterator` values. Within one list state that matches the source's comparison of node pointers.
- Iterator stability: an `Iterator` is a position within one list state, not a node pointer. How a source iterator keeps pointing at its node across `PushFront`, `InsertAfter` or `EraseAfter` elsewhere in the list is not modelled. Nor is the invalidation of an iterator to an erased node.
- Postfix `operator++`: it is prefix `++` that also returns the old iterator, so `Next` covers it.
- The destructor: it is `Clear`, and `delete` has no counterpart among immutable values, so freeing and leaks are not modelled.
- Object identity: `Assign` receives "rhs is this very list" as the parameter `sameObject`.
- The `assert` in copy assignment: it compares the two `head_.next_node` links, so it also fires when one empty list is assigned to another, distinct empty list. That is a debug-build artefact and is not modelled; `Assign` accepts every input.
- The `assert(this != nullptr)` checks in the iterator: they can never fail, so they are not modelled.
- The other `assert`s (`pos != end()`, `size_ != 0`) are modelled as preconditions.
- `FromValues`: the initializer-list loop forms the pointers `values.end() - 1` and one before `values.begin()`. That is undefined in C++. The model walks the values from last to first, which is what the loop does on a flat address space.
- Copy independence (changing a copy never affects the original) has no separate lemma. Lists are immutable values here, so it holds by construction.
- `size_t` wrap-around of `size_`: the count is a `nat`, because a list cannot hold 2^64 nodes.
- Element types: the ordering operators are stated for lists of `int`, because Dafny has no generic `operator<`. Equality is generic.
- Allocation failure (`new` throwing) is not modelled: it has no counterpart here.
- Printing and includes: there is no behaviour to model.
