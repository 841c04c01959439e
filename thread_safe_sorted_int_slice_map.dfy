/** The thread-safe integer-keyed sorted slice map: the same slice, filter and
    algorithms as `IntSortedSliceMap`, with every public method run under one
    reader/writer lock covering both the slice and the filter. The lock calls
    are erased here: what is modelled and proved is each method's sequential
    effect, which is that of its `IntSortedSliceMap` counterpart. The ghost set
    `added` records the keys the filter has been given. */
module ThreadSafeIntSortedSliceMaps {
  import opened SortedSlice
  import opened BloomFilters

  class ThreadSafeIntSortedSliceMap<V> {
    /** The value a lookup returns for a missing key (the value type's zero value). */
    const zero: V
    var store: seq<Item<V>>
    var bloomFilter: BloomFilter
    /** Every key ever added to `bloomFilter`. */
    ghost var added: set<int>

    /** The slice is strictly sorted, every stored key was added to the filter,
        and the filter admits every added key (no false negatives). */
    ghost predicate Valid()
      reads this
    {
      && StrictlySorted(store)
      && AsMap(store).Keys <= added
      && (forall k :: k in added ==> bloomFilter.MayExist(k))
    }

    /** The map this slice stands for. */
    ghost function Model(): map<int, V>
      reads this
    {
      AsMap(store)
    }

    /** An empty map with an empty filter; `probe` is the filter's hashing. */
    constructor (zero: V, probe: int -> set<nat>)
      ensures Valid() && this.zero == zero
      ensures store == [] && Model() == map[]
      ensures bloomFilter == Empty(probe) && added == {}
    {
      this.zero := zero;
      store := [];
      bloomFilter := Empty(probe);
      added := {};
    }

    /** The index of `key` and true, or the insertion point (the number of
        smaller keys) and false. */
    method BinarySearch(key: int) returns (idx: int, exist: bool)
      requires Valid()
      ensures 0 <= idx <= |store|
      ensures forall i :: 0 <= i < |store| ==> (store[i].k < key <==> i < idx)
      ensures idx == CountLess(store, key)
      ensures exist <==> idx < |store| && store[idx].k == key
      ensures exist <==> key in Model()
    {
      idx, exist := Search(store, key);
    }

    /** Upsert into the slice, then add `key` to the filter on both paths. */
    method Store(key: int, val: V)
      requires Valid()
      modifies this
      ensures Valid()
      ensures store == Upserted(old(store), key, val)
      ensures Model() == old(Model())[key := val]
      ensures |store| == if key in old(Model()) then old(|store|) else old(|store|) + 1
      ensures bloomFilter == old(bloomFilter).Add(key)
      ensures added == old(added) + {key}
    {
      UpsertedIsMapUpdate(store, key, val);
      var idx, exist := BinarySearch(key);
      ghost var s := store;
      if !exist {
        store := AppendShift(store, idx, Item(key, val));
      }
      store := store[idx := Item(key, val)];
      assert store == Upserted(s, key, val);
      bloomFilter := bloomFilter.Add(key);
      added := added + {key};
    }

    /** Not found without searching when the filter rules `key` out; otherwise
        the value of `key` and true, or the zero value and false. Under the
        filter invariant the answer is exactly the abstract lookup. */
    method Load(key: int) returns (v: V, exist: bool)
      requires Valid()
      ensures !bloomFilter.MayExist(key) ==> !exist
      ensures exist <==> key in Model()
      ensures v == if exist then Model()[key] else zero
    {
      if !bloomFilter.MayExist(key) {
        return zero, false;
      }
      var idx;
      idx, exist := BinarySearch(key);
      if !exist {
        return zero, exist;
      }
      AsMapHas(store, idx);
      return store[idx].v, exist;
    }

    /** `Load` followed by `Delete` when the key was found; the filter is not
        touched. Each of the two calls takes the lock on its own, so another
        writer may run between them; that window is a concurrency matter this
        sequential model does not express. */
    method LoadAndDelete(key: int) returns (v: V, exist: bool)
      requires Valid()
      modifies this
      ensures Valid()
      ensures exist <==> key in old(Model())
      ensures v == if exist then old(Model())[key] else zero
      ensures store == Removed(old(store), key)
      ensures Model() == old(Model()) - {key}
      ensures !exist ==> store == old(store)
      ensures bloomFilter == old(bloomFilter) && added == old(added)
    {
      RemovedIsMapRemoval(store, key);
      v, exist := Load(key);
      if !exist {
        return zero, exist;
      }
      Delete(key);
      return v, exist;
    }

    /** Removes the entry of `key`, moving later entries one slot earlier;
        nothing changes when the key is absent. The filter keeps `key`. */
    method Delete(key: int)
      requires Valid()
      modifies this
      ensures Valid()
      ensures store == Removed(old(store), key)
      ensures Model() == old(Model()) - {key}
      ensures key !in old(Model()) ==> store == old(store)
      ensures bloomFilter == old(bloomFilter) && added == old(added)
    {
      RemovedIsMapRemoval(store, key);
      var idx, found := BinarySearch(key);
      if found {
        store := ShiftOut(store, idx);
      }
    }

    /** False without searching when the filter rules `key` out; under the
        filter invariant, true exactly for stored keys. */
    method Contain(key: int) returns (exist: bool)
      requires Valid()
      ensures !bloomFilter.MayExist(key) ==> !exist
      ensures exist <==> key in Model()
    {
      if !bloomFilter.MayExist(key) {
        return false;
      }
      var _, found := BinarySearch(key);
      exist := found;
    }

    /** Empties the slice; the filter is left as it is. */
    method Clear()
      requires Valid()
      modifies this
      ensures Valid()
      ensures store == [] && Model() == map[]
      ensures bloomFilter == old(bloomFilter) && added == old(added)
    {
      store := [];
    }
  }
}
