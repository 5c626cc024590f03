# ezdb in-memory store, modelled in Dafny

ezdb is a small Go key-value store for documents of any type `T`. This
project models its in-memory engine. That engine has three parts:

- `MemoryCollection`: a map from string keys to documents. It has an open
  flag and may sit on an optional nested collection. Writes go through to
  the nested collection. `Open` reloads from it.
- `MemoryIterator`: a cursor over a key list and a value map. It keeps a
  link to the iterator it was derived from, and supports `Filter`, `Sort`
  and `SortKeys`.
- The sort adapters of `sort.go` that feed Go's `sort.Stable`.

It also covers key validation (`ValidateKey`) and the four error sentinels:
`Closed`, `InvalidKey`, `NotFound` and `Released`.

The model uses value semantics. Every Go method that changes its receiver is
a function that returns the changed receiver. This covers `Filter`,
`GetAll` and `GetAllKeys`, which walk the source cursor, and `SortKeys`,
which sorts the source's key list in place.

Three things the Go code depends on but does not decide become parameters, and one library routine is replaced:

- The order in which a `range` over a map lists its keys is a parameter
  `order`, required to list every key exactly once.
- Go's zero value of `T` is a parameter `zero`.
- A nested collection is represented by its contents. Each of its answers
  to `Open`, `Close`, `Put`, `Delete` and `Iter().GetAll()` is a parameter
  `reply`, so the model covers every answer, success or failure.
- Go's `sort.Stable` is replaced by a verified insertion sort
  (`StableSort.Sort`). Under a strict weak order,
  `StableSort.StableSortUnique` proves that any stable sort gives the same
  result, so the choice of algorithm does not matter there. For other
  comparators Go's algorithm and the insertion sort may order the keys
  differently, and the model promises only a rearrangement.

Modules, following the source files:

| module | file | models |
|---|---|---|
| `Wrappers` | wrappers.dfy | `Option` |
| `Errors` | errors.dfy | errors.go, plus `Foreign` for errors passed on from a nested collection |
| `Keys` | keys.dfy | key.go |
| `Sequences` | sequences.dfy | facts about sequences without repetitions |
| `GoMaps` | go_maps.dfy | Go map indexing and `range` |
| `StableSort` | stable_sort.dfy | what `sort.Stable` promises |
| `SortAdapters` | sort_adapters.dfy | sort.go |
| `MemoryIter` | memory_iter.dfy | memory_iter.go |
| `MemoryStore` | memory.dfy | memory.go |
| `Scenarios` | scenarios.dfy | the shared collection test, for every map order |

## Model

| member | source | states |
|---|---|---|
| Keys.ValidateKey | key.go:4-10 | A key is accepted exactly when it is non-empty. Every rejection is `InvalidKey`. |
| GoMaps.Lookup | memory.go:39 | Indexing a Go map gives the stored value for a present key and the zero value for an absent one. |
| GoMaps.Enumerate | memory_iter.go:181-183 | A `range` over a map yields a key list that contains every key of the map exactly once. |
| GoMaps.EnumerationLength | memory_iter.go:15-17 | Such a key list is exactly as long as the map, so `Count` of a fresh iterator is the number of documents. |
| GoMaps.EnumerationsArePermutations | memory_iter.go:181-183 | Any two `range` orders of the same map are rearrangements of each other. |
| GoMaps.PermutationKeepsEnumeration | memory_iter.go:154 | Rearranging a key list that lists every key once still lists every key once. |
| StableSort.Sort | memory_iter.go:139 | The sorted list is a rearrangement of the input: same length, same multiset. |
| StableSort.SortIsStable | memory_iter.go:139 | Under a strict weak order, the result is sorted, and elements the order cannot tell apart keep their input order. |
| StableSort.StableSortUnique | memory_iter.go:154 | Any sorted, stable rearrangement of the input equals `Sort`'s result, so every stable sort agrees with this one. |
| StableSort.SortedRearrangementUnique | collection_test.go:176-178 | Under an order that tells all distinct keys apart, any sorted rearrangement of a repetition-free list is the stable sort. |
| SortAdapters.SwapAt | sort.go:25-30 | `Swap` exchanges the two positions and changes no other position. The contents stay the same as a multiset. |
| SortAdapters.SwapsPermute | sort.go:56-61 | However many `Swap` calls `sort.Stable` makes, the result is a rearrangement of the input. |
| SortAdapters.KeySort.Stable | sort.go:8-30 | Sorting a key list keeps its length and multiset. Under a strict weak order on keys, the result is a stable sort of the input. |
| SortAdapters.ByValueOrder | sort.go:41-46 | Comparing pairs by value alone inherits a strict weak order from the value comparison. Pairs with equal values are never ordered by their keys. |
| SortAdapters.ValueSort.Stable | sort.go:32-61 | Sorting the pairs keeps their length and multiset. Under a strict weak order on values, the result is a stable sort by value. |
| SortAdapters.Keys | sort.go:48-54 | `Result` lists the pairs' keys position by position. |
| SortAdapters.MakeSortable | sort.go:63-69 | Gives one pair per map entry, holding that entry's value, with no key repeated. |
| SortAdapters.MakeSortableKeys | sort.go:63-69 | The pairs' keys are exactly the `range` order they were built in, so `Result` inverts `makeSortable`. |
| SortAdapters.SortedPairsEnumerate | sort.go:48-54 | The keys `valueSort` returns list every map key once. Rebuilding the pairs in that order gives back the sorted pairs. |
| SortAdapters.PermutedPairsEnumerate | sort.go:48-69 | After any rearrangement of the pairs, the keys still list every map key once, each with its own value. |
| MemoryIter.NewMemoryIterator | memory_iter.go:169-187 | A non-empty key list is used as given. An empty one is replaced by every map key. The cursor starts before the first key and the link is kept. |
| MemoryIter.First | memory_iter.go:37-43 | A live iterator moves to position 0 and reports true, even when it has no keys. A released one reports false and does not move. |
| MemoryIter.Last | memory_iter.go:88-94 | A live iterator moves to position `Count - 1` and reports true, even when it has no keys. A released one reports false and does not move. |
| MemoryIter.Next | memory_iter.go:96-106 | As written, the cursor advances while `pos + 1 <= Count`, so it can land one past the last key. |
| MemoryIter.Prev | memory_iter.go:108-118 | As written, when `pos > 0` the cursor stays put and the result is true. Otherwise it steps back, also below -1, and the result is false. |
| MemoryIter.Key | memory_iter.go:81-86 | Inside the list this is the current key. Before the list, past `Count` or after release it is the empty key. At exactly `Count` the index is out of range. |
| MemoryIter.Value | memory_iter.go:160-163 | This is the map value of the current key and never an error. It panics exactly where `Key` does. |
| MemoryIter.Get | memory_iter.go:45-52 | On a released iterator this gives `Released` with the empty key. Otherwise it gives the current key and its value, and panics exactly where `Key` does. |
| MemoryIter.Release | memory_iter.go:120-128 | Every iterator down the chain ends up released and empty. The chain keeps its length. |
| MemoryIter.ReleasedIsInert | memory_iter.go:37-118 | On a released iterator, navigation reports false and moves nothing, `Key` is empty, `Count` is 0, and `Get` reports `Released`. |
| MemoryIter.NavigationKeepsShape | memory_iter.go:37-118 | Navigation keeps the key list, map and chain intact, and a live cursor never passes `Count`. |
| MemoryIter.FirstLastOnEmpty | memory_iter.go:37-43 | On an empty live iterator `First` and `Last` report true, unlike the interface's promise at interfaces.go:32-33, and `Key` after `First` is out of range. |
| MemoryIter.LoopReachesOutOfRange | memory_iter.go:81-106 | For every live iterator, the loop `for i.Next()` runs its body `Count + 1` times, and on the last run `Key` is out of range. |
| MemoryIter.NextChecked | memory_iter.go:96-106 | The intended `Next` advances exactly when a next key exists. |
| MemoryIter.PrevChecked | memory_iter.go:108-118 | The intended `Prev` steps back exactly when a previous key exists. |
| MemoryIter.PrevDoesNotUndoNext | memory_iter.go:108-118 | As written, `Next` followed by `Prev` leaves the cursor on the following key. |
| MemoryIter.PrevPassesStart | memory_iter.go:108-118 | As written, `Prev` before the first key moves the cursor to -2 and reports false. |
| MemoryIter.PrevCheckedUndoesNext | interfaces.go:35 | The intended `Prev` exactly undoes a `Next` from one key onto the following key. |
| MemoryIter.PrevCheckedKeepsBounds | interfaces.go:35 | The intended `Prev` keeps the cursor within -1 .. `Count`. |
| MemoryIter.GetAll | memory_iter.go:54-66 | A released iterator gives an empty map and `Released`. Otherwise the result is exactly the iterator's documents, whatever the cursor was. |
| MemoryIter.GetAllKeys | memory_iter.go:68-79 | A released iterator gives no keys. Otherwise the result is exactly the key list, in order, whatever the cursor was. |
| MemoryIter.Select | memory_iter.go:27-33 | A key is kept exactly when it is in the input and its pair passes the filter. |
| MemoryIter.SelectIsSubsequence | memory_iter.go:27-33 | The kept keys appear in the same order as in the source. |
| MemoryIter.SelectDistinct | memory_iter.go:27-33 | A key list without repetitions stays without repetitions after filtering. |
| MemoryIter.FilterLoop | memory_iter.go:24-33 | The loop leaves the cursor on the last key. It collects exactly the passing keys in source order, each with its map value. |
| MemoryIter.Filter | memory_iter.go:19-35 | A released iterator is returned as is. Otherwise the new iterator holds the passing keys in source order and the map restricted to them, and links to the source. |
| MemoryIter.Sort | memory_iter.go:130-143 | The new iterator shares the source's map, lists every key once, and links to the source. Under a strict weak order, its pairs are a stable sort of the map's pairs by value. |
| MemoryIter.SortOrdersValues | memory_iter.go:130-143 | After `Sort`, no later key's value is less than an earlier key's value. |
| MemoryIter.SortKeys | memory_iter.go:145-158 | As written, the source's own key list becomes a stable sort of itself. The new iterator shares that list and the map, and links to the changed source. |
| MemoryIter.SortKeysChangesSource | interfaces.go:50 | The interface says the source is not affected, but on keys ["bb", "a"] sorted by length `SortKeys` changes the source. |
| MemoryIter.SortKeysCopy | interfaces.go:50 | The intended `SortKeys` links to the unchanged source, and gives the new iterator a stable sort of the keys. |
| MemoryStore.Memory | memory.go:111-116 | A new collection is closed and empty, over the given nested collection. |
| MemoryStore.Open | memory.go:67-84 | Without a nested collection, this opens empty. With one, it succeeds exactly when that collection opens and lists its documents, and then mirrors them. On failure nothing changes and the nested error is passed on. A failed nested `Open` wins, because `GetAll` is then never called. |
| MemoryStore.Close | memory.go:10-19 | With a nested collection, only that one's answer is returned and this one stays open with its map. Without one, the map is dropped and the collection closes. |
| MemoryStore.Put | memory.go:86-104 | This succeeds exactly when the collection is open, the key is non-empty and the nested collection accepts. It then stores the value in both. The checks run in order `Closed`, `InvalidKey`, nested error, and any failure changes nothing. |
| MemoryStore.Delete | memory.go:21-35 | This succeeds exactly when the collection is open and the nested collection accepts. It then removes the key from both, present or not. Any failure changes nothing. |
| MemoryStore.Get | memory.go:37-47 | This succeeds exactly when the collection is open and the key is stored, giving its value. Otherwise it returns `Closed` or `NotFound` with the value of the empty key. |
| MemoryStore.Has | memory.go:49-57 | This is true exactly when the collection is open and the key is stored. The error is `Closed` exactly when the collection is closed. |
| MemoryStore.Iter | memory.go:59-65 | On an open collection this gives a live iterator over every stored key and value, with no predecessor. On a closed one it gives a released, empty iterator. |
| MemoryStore.ClosedRefusesAll | memory.go:21-57 | A closed collection refuses `Put`, `Delete`, `Get` and `Has` with `Closed` and stays as it is. |
| MemoryStore.PutThenRead | memory.go:86-104 | After a successful `Put`, `Get` and `Has` see the value written. |
| MemoryStore.PutLeavesOtherKeys | memory.go:101 | A `Put`, successful or not, changes what no other key reads. |
| MemoryStore.PutEmptyKeyRefused | memory.go:91-93 | The empty key is refused with `InvalidKey` whatever the nested collection would say, and it stays absent. |
| MemoryStore.DeleteThenRead | memory.go:32 | After a successful `Delete`, `Has` is false and `Get` reports `NotFound`. |
| MemoryStore.DeleteLeavesOtherKeys | memory.go:32 | Deleting a non-empty key changes what no other key reads. |
| MemoryStore.WriteThroughKeepsSynced | memory.go:95-101 | Once the map mirrors the nested collection, `Put`, `Delete`, `Close` and `Open` keep it mirrored, whatever the nested collection answers. |
| MemoryStore.CloseWithBackendStaysOpen | memory.go:11-13 | With a nested collection, a successful `Close` leaves this one open and still answering reads. |
| MemoryStore.ReopenWithoutBackendIsEmpty | memory.go:15-16 | Without a nested collection, closing and reopening loses every document. |
| Scenarios.LexLessIsTotalOrder | collection_test.go:176-178 | The test's `a < b` on strings is a strict weak order that tells every two distinct keys apart. |
| Scenarios.SortStudentKeys | collection_test.go:176-178 | Sorting the three students' keys with `a < b` yields annie, ben, clive, whatever the map order. |
| Scenarios.SortKeysScenario | collection_test.go:159-227 | Over the three students, `Iter().SortKeys(a < b)` counts 3. `First` lands on "annie" with annie's document and `Last` lands on "clive", whatever the map order. |
| Scenarios.FilterScenario | collection_test.go:26-31 | With the test's students and ages, keeping those aged at least 30 from the alphabetically sorted keys yields annie, then ben. The test data is cited; the filter itself is an example of `Filter`'s selection. |
| Scenarios.SharedTestFlow | collection_test.go:56-146 | On a collection with no nested one: open, put the three students, refuse the empty key, `Has` is false for "nonexistent", `Get` finds ben, and deleting annie removes her while ben stays. |

## Where the code and its documentation disagree

The model follows the code in each case.

- `First`/`Last` (memory_iter.go:37-43, 88-94): the interface
  (interfaces.go:32-33) says they report false when there is no such
  document. The code reports true on any live iterator
  (`MemoryIter.FirstLastOnEmpty`).
- `SortFunc` (interfaces.go:54): the comment says the function "returns
  false if a is less than b". The code hands it to `sort.Stable` as `Less`,
  and the shared test passes `a < b` (collection_test.go:176-178). The
  model reads it as a less-than.
- `Close` with a nested collection (memory.go:11-13): only the nested
  collection is closed. This collection keeps its map and stays open
  (`MemoryStore.CloseWithBackendStaysOpen`).
- `Iter` (memory.go:60) calls `newMemoryIterator` with two arguments. The
  function takes three (memory_iter.go:169), so the file does not compile as
  written. The model reads the call as an empty key list with no
  predecessor.
- `Filter`, `Sort` and `SortKeys` (interfaces.go:48-50) promise that the
  previous iterator is not affected. `Filter` walks its cursor, and
  `SortKeys` sorts its key list (see Findings).

## Left out

- leveldb.go, leveldb_iter.go, leveldb_options.go, json.go and bytes.go are not part of this model. They are the disk engine and the document marshalers, outside the in-memory core.
- The insides of Go's `sort.Stable` are replaced by an insertion sort with the same contract. Under a strict weak order, `StableSort.StableSortUnique` shows that its result is the only possible one. For a comparator that is not a strict weak order, the order the model's `MemoryIter.Sort` and `MemoryIter.SortKeys` compute need not be the one Go produces; only the rearrangement is promised.
- Pointer aliasing is not modelled. `Iter` shares the collection's live map, `Sort` and `SortKeys` share the source's map, `SortKeys` also shares the source's key slice (memory_iter.go:150-155), and pointer documents are shared by every reader. With value semantics, later writes through one alias are not seen through another: in Go a later in-place `SortKeys` through either iterator re-sorts both.
- Releasing an iterator does not release a copy of it held elsewhere. The model releases the chain the value holds.
- The iterator that `Open` obtains from the nested collection (memory.go:72) is never released in the source. The model does not track it.
- The nested collection's own open/closed state is not tracked. Its answers are parameters.
- A predecessor that is not a `MemoryIterator` (a leveldb iterator) is not modelled. The chain holds only in-memory iterators.
- Go's runtime panics are modelled as `None` (`Key`, `Value`, `Get`). Nothing after a panic is modelled.
- MemoryIter.GetAll: models the loop as evidently intended (positions 0 .. Count-1, ending on the last key). As written, it panics on the final pass (see Findings and `MemoryIter.LoopReachesOutOfRange`).
- MemoryIter.GetAllKeys: models the loop as evidently intended, for the same reason as `GetAll`.
- MemoryIter.FilterLoop: models the loop of `Filter` as evidently intended (positions 0 .. Count-1, ending on the last key), for the same reason as `GetAll`.
- MemoryIter.Filter: is built on `MemoryIter.FilterLoop`, so it inherits that loop's intended reading.
- MemoryIter.Sort: the stable-sort property is stated only under a strict weak order. `sort.Stable` promises nothing for other comparators, so the model then states only that every key is still listed once.
- MemoryIter.SortKeys: the stable-sort property is stated only under a strict weak order, for the same reason.
- `Count`, `Reset`, the adapters' `Len`/`Less`/`Swap`/`Result` and the error sentinels are plain definitions without a contract of their own. They are covered through the members that use them.

## Findings

| source | as written | input that shows it | evidently intended | confidence | as-written member | corrected member |
|---|---|---|---|---|---|---|
| memory_iter.go:81-106 | `Next` advances while `pos + 1 <= Count`, and `Key` lets `pos == Count` through to the slice index. The loops `for i.Next()` in `Filter`, `GetAll` and `GetAllKeys` therefore index one past the end. | any live iterator, the empty one included: the `Count + 1`-th `Next` reports true with `pos == Count` | the loops visit positions 0 .. Count-1 and stop | high; not executed | MemoryIter.LoopReachesOutOfRange | MemoryIter.GetAllKeys |
| memory_iter.go:108-118 | `Prev` stays put and reports true when `pos > 0`, and steps back only at or before the first key | pos 1: `Prev` reports true and pos stays 1. pos -1: pos becomes -2 | step back onto the previous key when there is one, and report false otherwise | high; not executed | MemoryIter.PrevDoesNotUndoNext | MemoryIter.PrevCheckedUndoesNext |
| memory_iter.go:150-155 | `SortKeys` hands the source's own key slice to `sort.Stable`, which sorts it in place | keys ["bb", "a"], shorter-first comparator: the source's list becomes ["a", "bb"] | the source is not affected (interfaces.go:50) | high; not executed | MemoryIter.SortKeysChangesSource | MemoryIter.SortKeysCopy |
