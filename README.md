# Random contraction and inversion counting, in Dafny

This project models two sequential algorithm headers of the `algos` library and proves what they compute.

**`random-contraction.h` (module `RandomContraction`, file `random_contraction.dfy`).**
A graph is an `AdjacencyList`: a map from `int` vertex numbers to lists of `Edge{begin, end, weight}`.
- `Edge` is a value: the datatype `Edge`, with `ReplaceVertices` returning the renamed copy.
- The map is the field `lists: map<int, seq<Edge>>` of the class `AdjacencyList`.
- `Contraction_` is the method `AdjacencyList.Contraction`, which changes `lists` in place.
  - It is proved equal to the function `Contracted` of the old map.
  - Its final nested loop over every list is the method `AdjacencyList.RenameEverywhere`.
- `erase` of the contracted vertex is the method `AdjacencyList.Erase`.
- `RandomContraction` is a method with the source's `while` loop. It works on a fresh copy of the non-empty lists (`NonEmpty`) and a snapshot vector of all stored edges (`CollectEdges`).
- The model follows the code as written:
  - the snapshot is never rewritten;
  - only the chosen entry is erased;
  - `operator[]` creates missing keys.

  For these reasons it does not claim that the key count falls on every turn. It states the per-turn facts instead:
  - `src` is gone;
  - the key count drops by one when both endpoints were keys;
  - the number of stored edges (`EdgeCount`, the size of the multiset `AllEdges`) never grows;
  - well-formedness is kept.

**`count-inversions.h` (module `CountInversions`, file `count_inversions.dfy`).**
- `CountInversionsSplit_` is the method `CountInversionsSplit`. It is a two-pointer merge into an array buffer, followed by the copy of the remaining side (`CopyRest`, `CopyTail`).
  - It is proved equal to the recursive function `MergeCount`.
  - Its loop invariants go through the index form `MergeFrom`.
- `CountInversions_` is the recursive function `CountInversionsRec`, and `CountInversions` is the wrapper.
- Three independent reference counts are defined:
  - `Inversions`, by recursion on the last element;
  - `InvertedPairs`, the set of index pairs;
  - `CrossInversions` / `CrossPairs`, for the merge.
- The lemmas tie the merge-sort count to these reference counts. They also prove that the result is a sorted permutation of the input.

The module `Sequences` (file `sequences.dfy`) holds one fact about sequences that both modules use.

## Model

| member | source | states |
|---|---|---|
| RandomContraction.Edge.ReplaceVertices | random-contraction.h:19-22 | exactly the endpoints equal to `old_v` become `new_v`; the weight never changes; with `old_v != new_v` no endpoint `old_v` is left; an edge that is not a self-loop and does not join `old_v` to `new_v` does not become one |
| RandomContraction.ReplaceVerticesIdempotent | random-contraction.h:19-22 | renaming a second time changes nothing |
| RandomContraction.Without | random-contraction.h:42-49 | `remove_if` + `erase`: the kept edges are exactly those not touching the vertex; the list never grows |
| RandomContraction.WithoutCounts | random-contraction.h:42-49 | every edge not touching the vertex is kept as often as it occurs (parallel edges stay apart), every edge touching it is dropped |
| RandomContraction.WithoutAppend | random-contraction.h:42-49 | the kept edges stay in their order: filtering a concatenation is concatenating the filtered parts |
| RandomContraction.WithoutUntouched | random-contraction.h:42-49 | a list with no edge touching the vertex comes back unchanged |
| RandomContraction.Renamed | random-contraction.h:52-54 | the inner loop over one list: same length, each edge renamed at its own position |
| RandomContraction.RenameAll | random-contraction.h:51-55 | the outer loop: same keys, every list renamed |
| RandomContraction.Contracted | random-contraction.h:39-56 | the key set after `Contraction_` is the old key set plus `{src, dst}` (`operator[]` inserts) |
| RandomContraction.AdjacencyList.Contraction | random-contraction.h:39-56 | the in-place update leaves exactly `Contracted(old map, src, dst)` |
| RandomContraction.AdjacencyList.Erase | random-contraction.h:76 | `erase` leaves exactly the old map without the key and its list |
| RandomContraction.AdjacencyList.RenameEverywhere | random-contraction.h:51-55 | the nested loop leaves exactly every list of the old map renamed |
| RandomContraction.ContractedLists | random-contraction.h:42-55 | `dst`'s new list is the old `dst` list without edges touching `src`, followed by the old `src` list without edges touching `dst`, renamed; `src`'s list is filtered and renamed, not cleared |
| RandomContraction.RenamedAppend | random-contraction.h:50-55 | renaming after the append is renaming each part |
| RandomContraction.RenamedUntouched | random-contraction.h:42-45 | any list with no edge touching the renamed vertex is left unchanged by the renaming (the filtered `dst` list is one) |
| RandomContraction.ContractedOtherList | random-contraction.h:51-55 | every other key keeps its list length and order; only endpoints equal to `src` change, to `dst` |
| RandomContraction.ContractedForgetsSrc | random-contraction.h:46-55 | with `src != dst` no stored edge touches `src` afterwards |
| RandomContraction.ContractedWellFormed | random-contraction.h:42-55 | on a well-formed map without self-loops, every key except `src` stays well-formed and free of self-loops |
| RandomContraction.ContractedEdge | random-contraction.h:42-55 | the same for one stored edge under one key other than `src`: it touches its key and is not a self-loop |
| RandomContraction.StepKeys | random-contraction.h:75-76 | after one turn `src` is not a key, `dst` is, and when both were keys the key count drops by exactly one |
| RandomContraction.StepEdgeCount | random-contraction.h:75-76 | one turn never increases the total number of stored edges |
| RandomContraction.ContractedLengths | random-contraction.h:45-55 | apart from `src`, the contracted map has the keys and list lengths of the map with the two filtered lists appended |
| RandomContraction.StepPreserves | random-contraction.h:69-77 | each turn keeps the keys among the original vertices, the edge count bounded, and well-formedness |
| RandomContraction.NonEmpty | random-contraction.h:60-64 | the working copy has exactly the keys with non-empty lists, with their lists |
| RandomContraction.NonEmptyAllEdges | random-contraction.h:60-64 | dropping the empty lists drops no edge: the same multiset of stored edges, so the same edge count |
| RandomContraction.AllEdgesRemove | random-contraction.h:65-68 | the collected edges do not depend on the order the map yields its keys |
| RandomContraction.EdgeCountSameLengths | random-contraction.h:51-55 | two maps with the same keys and the same list length under each key store the same number of edges (so renaming keeps the count) |
| RandomContraction.CollectEdges | random-contraction.h:65-68 | the pool holds every stored edge as often as it is stored, and nothing else |
| RandomContraction.PoolEdges | random-contraction.h:65-73 | every pool entry joins two vertices of the input; when the input has no self-loops, no pool entry is one |
| RandomContraction.SnapshotOfCopy | random-contraction.h:60-68 | the snapshot taken from the non-empty copy holds every edge of the input as often as it is stored, so it has one entry per stored edge, each joining vertices of the input and none a self-loop |
| RandomContraction.EraseAt | random-contraction.h:74 | erasing the chosen entry shortens the pool by one and keeps the other entries in order |
| RandomContraction.Run | random-contraction.h:69-77 | the loop as a function of the lists, the pool and the turn: it runs at most one turn per pool entry and stops with the pool used up or at most two keys left |
| RandomContraction.RunStep | random-contraction.h:70-76 | while the loop condition holds, one turn erases the entry at `rand(t)` modulo the pool size, contracts its `begin` into its `end` and erases the key `begin` |
| RandomContraction.RunStop | random-contraction.h:69 | once the pool is empty or at most two keys are left, the lists are returned as they are |
| RandomContraction.RunPreserves | random-contraction.h:69-77 | over the whole loop the keys stay among the input's vertices, the edge count never exceeds the input's, and a well-formed input stays well-formed without self-loops |
| RandomContraction.RunFromCopy | random-contraction.h:60-79 | a run from the non-empty copy and a full snapshot returns the copy untouched when at most two lists are non-empty or there is no edge; otherwise its keys are vertices of the input, it takes at most one turn per stored edge and all of them unless at most two keys are left, it stores no more edges than the input, and it keeps a well-formed input well-formed without self-loops |
| RandomContraction.RandomContraction | random-contraction.h:58-79 | the input is not modified; the pool is a snapshot of every stored edge; the result and the number of turns are exactly those of `Run` from the non-empty lists and that pool; with at most two non-empty lists or no edge the result is the copy and no turn is taken; the result's keys are vertices of the input; at most one turn per stored edge, ending with the pool empty or at most two keys; the edge count never grows; a well-formed input gives a well-formed result without self-loops |
| CountInversions.MergeCount | count-inversions.h:24-38 | the merge is as long as `arr1` and `arr2` together |
| CountInversions.MergeCountPerm | count-inversions.h:24-38 | the merge is a permutation of `arr1 ++ arr2` |
| CountInversions.MergeCountTakeLeft | count-inversions.h:25-26 | when the head of `arr1` is not greater than the head of `arr2` (ties included) it is taken and nothing is counted |
| CountInversions.MergeCountTakeRight | count-inversions.h:28-30 | otherwise the head of `arr2` is taken and the count grows by the number of elements left in `arr1` |
| CountInversions.CountInversionsSplit | count-inversions.h:16-40 | the buffer loop computes `MergeCount`; for sorted inputs the output is sorted and the count is the number of pairs with `arr1[i] > arr2[j]` |
| CountInversions.MergeFromStep | count-inversions.h:24-32 | one turn of the loop writes the smaller head (the left one on a tie) and adds what is left of `arr1` when it takes from `arr2` |
| CountInversions.MergeFromIsMerge | count-inversions.h:24-38 | the loop's position-based merge equals `MergeCount` on the suffixes |
| CountInversions.CopyTail | count-inversions.h:34 | `std::copy` writes the rest of one side after what is already in the buffer |
| CountInversions.CopyRest | count-inversions.h:33-38 | after the loop the buffer holds the whole merge |
| CountInversions.MergeFromFacts | count-inversions.h:24-38 | what the loop computes is the merge; for sorted inputs it is sorted and counts the cross pairs |
| CountInversions.MergeSorted | count-inversions.h:24-38 | merging two sorted sequences gives a sorted sequence |
| CountInversions.MergeOrderedIsConcat | count-inversions.h:25-26 | when every left element is at most every right element (ties included) the merge is the concatenation and counts nothing |
| CountInversions.MergeCountsCross | count-inversions.h:24-32 | for sorted inputs the merge count equals `CrossInversions` |
| CountInversions.CrossInversionsArePairs | count-inversions.h:30 | `CrossInversions` is the size of `{(i, j) : arr1[i] > arr2[j]}` |
| CountInversions.CountInversionsRec | count-inversions.h:42-57 | size < 2 gives a copy with 0 inversions; otherwise the result is a sorted permutation of the input and its count is `Inversions` of the input |
| CountInversions.MergeHalves | count-inversions.h:51-55 | the left count plus the right count plus the split count of the sorted halves is the count of the whole |
| CountInversions.ShortFacts | count-inversions.h:47-50 | a range of size < 2 is sorted and has no inversion |
| CountInversions.CountInversions | count-inversions.h:59-66 | the result is the size of `{(i, j) : i < j, s[i] > s[j]}`, at most `n(n-1)/2`, and 0 on sorted input |
| CountInversions.InversionsAppend | count-inversions.h:55 | the inversions of a concatenation are those of each part plus the cross pairs |
| CountInversions.InversionsArePairs | count-inversions.h:59-66 | `Inversions` is the number of inverted index pairs |
| CountInversions.InversionsBound | count-inversions.h:59-66 | at most `n(n-1)/2` inversions |
| CountInversions.InversionsOfSorted | count-inversions.h:59-66 | a sorted sequence has no inversion |
| CountInversions.CountGreaterPerm | count-inversions.h:53-55 | how many elements exceed a value does not depend on their order, so sorting a half keeps its counts |
| CountInversions.CrossPermLeft | count-inversions.h:53-55 | reordering the left half keeps the cross count |
| CountInversions.CrossPermRight | count-inversions.h:53-55 | reordering the right half keeps the cross count |

## Left out

- `PrintAdjecencyList_` (random-contraction.h:29-36): console output only.
- `std::rand()` and its process-wide seed: `RandomContraction` takes a `rand: nat -> nat` parameter instead. `rand(t)` is the value the `t`-th call returns, and the chosen index is `rand(t)` modulo the pool size, as in the source.
- The Karger success probability, and any outer repeat-and-take-minimum driver: neither is a property of a single run.
- `unordered_map` iteration order: `CollectEdges` and `RenameEverywhere` take the keys in an arbitrary order. The pool is specified by its multiset and length.
- Edge weights are `int` and only copied; no property depends on them.
- `TVertex` and `TWeight` are `int`, and `T` is `int`. The iterator ranges are sequences.
- `RandomContraction.AdjacencyList.Contraction`: `src == dst` is excluded by its `requires`. With that aliasing, the two list references name the same list.
- `RandomContraction.RandomContraction`: requires an input without self-loops, so that no pool entry has `begin == end`. For a self-loop `(v, v)` under a well-formed key `v`, the source calls `Contraction_(v, v)`. Both list references then name `v`'s list, and filtering removes every edge of it, since every edge there touches `v`. The copy appends nothing and the renaming is the identity. The caller then erases key `v`, while the other endpoints' lists keep their edges to `v`. When `v`'s list holds an edge that does not touch `v` (a map that is not well-formed), the filtered list stays non-empty, and `std::copy` through a `back_inserter` appends that list onto itself, a copy that never ends. The model therefore keeps the exclusion rather than give that step a result.
- `RandomContraction.AdjacencyList.Contraction`: `std::list` is modelled as a `seq`. The two list references are read into locals and written back after the append, which is equivalent because nothing else touches the map in between.
- `CountInversions.CountInversionsResult`: `n_inversions` is a `size_t`. The model uses an unbounded `nat`, so wrap-around on more than 2^64 inversions is not modelled.
- The `O(n log n)` complexity claim (count-inversions.h:61): not a functional property.
- `CountInversions.CountInversionsRec`: the source copies the range into a fresh vector, and the model returns the sequence. Iterator arithmetic and `back_inserter` are not modelled.
