# Sorted slice maps of gomap, modelled in Dafny

gomap is a small Go library of key/value maps. Every map implements the same six
operations: `Store` (upsert), `Load`, `LoadAndDelete`, `Delete`, `Contain` and `Clear`.
This project models the sorted-slice maps, which come in four near-identical copies:

- `sortedSliceMap`, with ordered keys;
- `intSortedSliceMap`, with integer keys and a Bloom-filter pre-check;
- `threadSafeSortedSliceMap` and `threadSafeIntSortedSliceMap`, the same two behind a
  reader/writer lock.

It also models `pureMap`, the map over Go's built-in dictionary, as the reference
behaviour that the other four are proved to refine.

Each sorted map keeps a slice `store` of `(k, v)` items, strictly ascending by key.
`binarySearch` returns a key's index, or on a miss the insertion point. `Store`
overwrites in place, or appends, shifts the tail one slot right and writes the new item.
`Delete` shifts the tail one slot left and cuts the slice by one.

How the model is laid out:

- `SortedSlice` (sorted_slice.dfy) holds the entry type `Item` and the three slice
  algorithms the four Go copies share. `Search` is the binary-search loop, `AppendShift`
  is `append` plus the right-shifting `copy`, and `ShiftOut` is the left-shifting `copy`
  plus the re-slice. Each is proved against a specification on sequences. The
  specifications `Upserted` and `Removed` are proved to keep the slice strictly sorted
  and to act on the abstract map `AsMap` as a map update and a map removal.
- Each Go struct is a Dafny class with the same fields. The `store` slice is a
  `seq<Item<V>>` field that the methods reassign. `Valid()` is the object invariant and
  `Model()` is the abstract map. Each method's contract states the new slice and the new
  abstract map, in the same terms as `PureMap`'s contract on its dictionary.
- The Bloom filter (bloom_filter.dfy) is a value with a hashing function `probe` (an
  arbitrary function chosen at construction) and the set of bits switched on.
  `MayExist(k)` holds when all of `k`'s bits are on. Bits are only ever added, so a key
  that was added is never reported absent. The integer maps keep a ghost set `added` of
  the keys given to the filter. Their invariant is that every stored key is in `added`
  and every key in `added` passes `MayExist`. Under it, `Load` and `Contain` agree
  exactly with the abstract map, even though `Delete` and `Clear` leave the filter stale.
- `Lockstep` (lockstep.dfy) drives a sorted map and a `PureMap` with the same operation,
  or with any sequence of operations. It proves that they keep the same abstract map and
  give the same answers. It also proves that each thread-safe map, with its locks
  erased, keeps exactly the same slice and filter as its non-thread-safe counterpart.
- `Scenarios` (scenarios.dfy) replays the binary-search doc examples and the call
  sequences of the Go tests as client code, with the expected answers asserted.

Go's zero value of `V`, which a missed lookup returns, is the constant `zero`, given to
each constructor. Keys are `int` throughout.

## Model

| member | source | states |
|---|---|---|
| SortedSlice.Search | sorted_slice_map.go:31-57 | on a strictly sorted slice, the result is an index in `0..len`. The keys below it are exactly the keys smaller than the target, so it equals the count of smaller keys. `found` holds iff the entry there holds the key, iff the key is bound in the abstract map; an empty slice gives (0, false) |
| SortedSlice.CountLessAt | sorted_slice_map.go:55-56 | when the entries with smaller keys form a prefix of length p, the number of smaller keys is p (the final `left` is the insertion point) |
| SortedSlice.CountLessSplits | sorted_slice_map.go:55-56 | in a strictly sorted slice, the entries with keys below the target are exactly the first `CountLess` entries |
| SortedSlice.KeyAtSearchPosition | sorted_slice_map.go:46-47 | a key is in the abstract map exactly when the entry at its search position holds it |
| SortedSlice.AsMapHas | sorted_slice_map.go:71-78 | every entry of a strictly sorted slice is bound in the abstract map to its own value |
| SortedSlice.AsMapLacks | sorted_slice_map.go:74-75 | a key held by no entry is not in the abstract map |
| SortedSlice.AppendShift | sorted_slice_map.go:64-65 | `append` then the right-shifting `copy`: one slot longer, entries before `idx` unchanged, entries from `idx` one slot later, slot `idx` still holding its old entry (or the appended item at the end) |
| SortedSlice.ShiftOut | sorted_slice_map.go:93 | the left-shifting `copy` then the re-slice to the copied length yields the slice without entry `idx`, the rest in order |
| SortedSlice.InsertKeepsOrder | sorted_slice_map.go:62-68 | inserting at the search position of a new key keeps the keys strictly ascending |
| SortedSlice.InsertedBinding | sorted_slice_map.go:62-68 | inserting a new key binds it in the abstract map and leaves every other binding unchanged |
| SortedSlice.OverwrittenBinding | sorted_slice_map.go:67-68 | overwriting the value of an existing entry rebinds only that key |
| SortedSlice.CutKeepsOrder | sorted_slice_map.go:89-95 | removing one entry keeps the keys strictly ascending |
| SortedSlice.CutBinding | sorted_slice_map.go:89-95 | removing the entry of a key unbinds that key and leaves every other binding unchanged |
| SortedSlice.UpsertedIsMapUpdate | sorted_slice_map.go:59-69 | an upsert keeps the slice strictly sorted and is `m[key := val]` on the abstract map. The length is unchanged for an existing key and grows by exactly one for a new key |
| SortedSlice.RemovedIsMapRemoval | sorted_slice_map.go:89-95 | a removal keeps the slice strictly sorted and is `m - {key}` on the abstract map. The length shrinks by one when the key was present; the slice is left as it was when the key is absent |
| BloomFilters.BloomFilter.Add | sorted_int_slice_map.go:74 | after `Add(k)`, `k` may exist, and every key that may have existed before still may (the filter is insert-only) |
| BloomFilters.Empty | sorted_int_slice_map.go:31 | the filter a map starts with admits only keys that set no bit |
| SortedSliceMaps.SortedSliceMap.constructor | sorted_slice_map.go:19-29 | a new map has an empty, valid slice and an empty abstract map |
| SortedSliceMaps.SortedSliceMap.BinarySearch | sorted_slice_map.go:39-57 | found index or insertion point (the count of smaller keys) of the map's own slice; found iff the key is in the abstract map |
| SortedSliceMaps.SortedSliceMap.Store | sorted_slice_map.go:59-69 | keeps the slice strictly sorted; the new slice is the overwrite or the shifting insert at the search position; the abstract map becomes `old[key := val]` |
| SortedSliceMaps.SortedSliceMap.Load | sorted_slice_map.go:71-78 | (value, true) exactly when the key is in the abstract map, with its bound value; (zero, false) otherwise |
| SortedSliceMaps.SortedSliceMap.LoadAndDelete | sorted_slice_map.go:80-87 | returns what `Load` returned on the old state and leaves what `Delete` leaves; on an absent key, found is false and the slice is unchanged |
| SortedSliceMaps.SortedSliceMap.Delete | sorted_slice_map.go:89-95 | keeps the slice strictly sorted; removes exactly the key's entry (abstract map `old - {key}`); no change for an absent key |
| SortedSliceMaps.SortedSliceMap.Contain | sorted_slice_map.go:97-100 | true exactly when the key is in the abstract map |
| SortedSliceMaps.SortedSliceMap.Clear | sorted_slice_map.go:102-104 | the slice and the abstract map are empty, so every later lookup misses |
| IntSortedSliceMaps.IntSortedSliceMap.constructor | sorted_int_slice_map.go:23-34 | a new map has an empty slice, an empty filter and an empty `added` set |
| IntSortedSliceMaps.IntSortedSliceMap.BinarySearch | sorted_int_slice_map.go:36-62 | the same found-index / insertion-point contract as the generic map |
| IntSortedSliceMaps.IntSortedSliceMap.Store | sorted_int_slice_map.go:64-75 | the sorted upsert (abstract map `old[key := val]`), then `Add(key)` on both paths; `added` grows by the key; the filter invariant is kept |
| IntSortedSliceMaps.IntSortedSliceMap.Load | sorted_int_slice_map.go:77-87 | not found when the filter rules the key out; under the filter invariant, (value, true) exactly when the key is stored with that value, (zero, false) otherwise |
| IntSortedSliceMaps.IntSortedSliceMap.LoadAndDelete | sorted_int_slice_map.go:89-97 | returns the old lookup and removes only that key; on an absent key the slice is unchanged; the filter and `added` are never touched |
| IntSortedSliceMaps.IntSortedSliceMap.Delete | sorted_int_slice_map.go:99-105 | removes only the matching entry, no change for an absent key; the filter is not touched and its invariant still holds |
| IntSortedSliceMaps.IntSortedSliceMap.Contain | sorted_int_slice_map.go:107-113 | false when the filter rules the key out; under the filter invariant, true exactly for stored keys |
| IntSortedSliceMaps.IntSortedSliceMap.Clear | sorted_int_slice_map.go:115-117 | the slice is empty and the filter is left as it was (stale but sound) |
| ThreadSafeSortedSliceMaps.ThreadSafeSortedSliceMap.constructor | thread_safe_sorted_slice_map.go:17-27 | a new map has an empty, valid slice |
| ThreadSafeSortedSliceMaps.ThreadSafeSortedSliceMap.BinarySearch | thread_safe_sorted_slice_map.go:29-48 | the same found-index / insertion-point contract |
| ThreadSafeSortedSliceMaps.ThreadSafeSortedSliceMap.Store | thread_safe_sorted_slice_map.go:50-63 | with the lock erased: a sorted upsert; the length grows by one only for a new key |
| ThreadSafeSortedSliceMaps.ThreadSafeSortedSliceMap.Load | thread_safe_sorted_slice_map.go:65-75 | the stored value and true for a present key, otherwise (zero, false) |
| ThreadSafeSortedSliceMaps.ThreadSafeSortedSliceMap.LoadAndDelete | thread_safe_sorted_slice_map.go:77-84 | with the locks erased: `Load` then `Delete`; on an absent key, found is false and the slice is unchanged |
| ThreadSafeSortedSliceMaps.ThreadSafeSortedSliceMap.Delete | thread_safe_sorted_slice_map.go:86-95 | removes only the matching entry; no change for an absent key |
| ThreadSafeSortedSliceMaps.ThreadSafeSortedSliceMap.Contain | thread_safe_sorted_slice_map.go:97-103 | true exactly when the key is stored |
| ThreadSafeSortedSliceMaps.ThreadSafeSortedSliceMap.Clear | thread_safe_sorted_slice_map.go:105-110 | the slice is empty |
| ThreadSafeIntSortedSliceMaps.ThreadSafeIntSortedSliceMap.constructor | thread_safe_sorted_int_slice_map.go:18-29 | a new map has an empty slice, an empty filter and an empty `added` set |
| ThreadSafeIntSortedSliceMaps.ThreadSafeIntSortedSliceMap.BinarySearch | thread_safe_sorted_int_slice_map.go:32-50 | the same found-index / insertion-point contract |
| ThreadSafeIntSortedSliceMaps.ThreadSafeIntSortedSliceMap.Store | thread_safe_sorted_int_slice_map.go:52-66 | a sorted upsert followed by `Add(key)`; the filter invariant is kept |
| ThreadSafeIntSortedSliceMaps.ThreadSafeIntSortedSliceMap.Load | thread_safe_sorted_int_slice_map.go:68-81 | not found when `MayExist` is false; otherwise the search result, which under the invariant is exactly the abstract lookup |
| ThreadSafeIntSortedSliceMaps.ThreadSafeIntSortedSliceMap.LoadAndDelete | thread_safe_sorted_int_slice_map.go:83-92 | with the locks erased: returns the value and removes the key when present; not found and no change when absent, an empty map included |
| ThreadSafeIntSortedSliceMaps.ThreadSafeIntSortedSliceMap.Delete | thread_safe_sorted_int_slice_map.go:94-103 | removes only the matching entry; no change for an absent key; the filter is not touched |
| ThreadSafeIntSortedSliceMaps.ThreadSafeIntSortedSliceMap.Contain | thread_safe_sorted_int_slice_map.go:105-114 | under the filter invariant, true exactly when the key is stored |
| ThreadSafeIntSortedSliceMaps.ThreadSafeIntSortedSliceMap.Clear | thread_safe_sorted_int_slice_map.go:116-121 | the slice is empty and the filter is not reset |
| PureMaps.PureMap.constructor | pure_map.go:9-13 | a new map is empty |
| PureMaps.PureMap.Store | pure_map.go:16-18 | binds the key to the value, replacing any earlier value; no other key changes |
| PureMaps.PureMap.Load | pure_map.go:21-24 | (value, true) for a bound key, (zero, false) for an absent one |
| PureMaps.PureMap.LoadAndDelete | pure_map.go:27-33 | returns the old lookup and removes the binding; no change for an absent key |
| PureMaps.PureMap.Delete | pure_map.go:36-38 | removes the key's binding, leaving the others; no-op for an absent key |
| PureMaps.PureMap.Contain | pure_map.go:41-44 | true exactly when the key is bound |
| PureMaps.PureMap.Clear | pure_map.go:47-49 | the map is empty |
| Lockstep.SortedSliceMapRefinesPureMap | sorted_slice_map.go:59-104 | one call of any operation keeps the sorted map's abstract map equal to the reference map's, with equal answers |
| Lockstep.SortedSliceMapRunsLikePureMap | sorted_slice_map_test.go:7-88 | any sequence of calls keeps the slice strictly sorted and in step with the reference map, answer by answer |
| Lockstep.IntSortedSliceMapRefinesPureMap | sorted_int_slice_map.go:64-117 | one call of any operation keeps the filter invariant and the abstract map equal to the reference map, with equal answers; `added` only grows |
| Lockstep.IntSortedSliceMapRunsLikePureMap | sorted_int_slice_map_test.go:79-133 | any sequence of calls does the same, although `Delete` and `Clear` never shrink the filter |
| Lockstep.ThreadSafeSortedSliceMapMatchesSortedSliceMap | thread_safe_sorted_slice_map.go:50-110 | with locks erased, every operation has the same effect on the slice, and the same answer, as its `sortedSliceMap` counterpart |
| Lockstep.ThreadSafeIntSortedSliceMapMatchesIntSortedSliceMap | thread_safe_sorted_int_slice_map.go:52-121 | with locks erased, every operation has the same effect on the slice, the filter and `added`, and the same answer, as its `intSortedSliceMap` counterpart |

## Left out

- The `sync.RWMutex` of the thread-safe maps. Lock and unlock calls are erased, and each
  method's sequential effect is modelled.
- The race window in the thread-safe `LoadAndDelete`. It is built from two separately
  locked calls, `Load` then `Delete`, so another writer can run between them. This is a
  linearizability question that a sequential model cannot express.
- Ordered keys other than integers. `constraints.Ordered` admits strings and floats, and
  NaN breaks the total order. All four sorted maps use `int` keys.
- The fixed width of Go integer keys. Keys are unbounded `int`. The maps only compare
  keys, so no wrap-around can arise. The `mid` computation cannot overflow for any slice
  length, and `right - left` is never negative inside the loop, so Go's truncating
  division agrees with Dafny's.
- Go slice mechanics: capacity, reallocation by `append`, aliasing of backing arrays, and
  the O(log n) and O(n) cost claims. The slice is a value (`seq`) that the methods
  reassign.
- The internals of the Bloom filter library: hash functions, bit-array width and the
  false-positive rate. Hashing is the `probe` function passed to the integer maps'
  constructors, and only no-false-negatives is proved.
- The `Map` interface and the `Option`/`WithCap` mechanism in gomap.go. The interface has
  no behaviour of its own; its six operations are the `Op` datatype of `Lockstep`. The
  options are never read by any constructor.
- thread_safe_pure_map.go and sync_map.go are not part of this model. The first adds only
  a lock to `pureMap`. The second wraps Go's concurrent `sync.Map`, whose code is not
  visible.
- The Go zero value of `V` is not computed. It is the `zero` constant given to each
  constructor.
- Resetting the Bloom filter. `Clear` empties the slice and leaves the filter as it was;
  the model follows the code.
