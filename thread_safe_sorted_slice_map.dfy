/** The thread-safe sorted slice map: the same slice and algorithms as
    `SortedSliceMap`, with every public method run under a reader/writer lock
    (exclusive for Store, Delete and Clear, shared for Load and Contain). The
    lock calls are erased here: what is modelled and proved is each method's
    sequential effect, which is that of its `SortedSliceMap` counterpart. */
module ThreadSafeSortedSliceMaps {
  import opened SortedSlice

  class ThreadSafeSortedSliceMap<V> {
    /** The value a lookup returns for a missing key (the value type's zero value). */
    const zero: V
    var store: seq<Item<V>>

    ghost predicate Valid()
      reads this
    {
      StrictlySorted(store)
    }

    /** The map this slice stands for. */
    ghost function Model(): map<int, V>
      reads this
    {
      AsMap(store)
    }

    constructor (zero: V)
      ensures Valid() && this.zero == zero
      ensures store == [] && Model() == map[]
    {
      this.zero := zero;
      store := [];
    }

    /** The index of `key` and true, or the insertion point (the number of
        smaller keys) and false. */
    method BinarySearch(key: int) returns (idx: int, exist: bool)
      requires Valid()
      ensures 0 <= idx <= |store|
      ensures forall i :: 0 <= i < |store| ==> (store[i].k < key <==> i < idx)
      ensures idx == CountLess(store, key)
      ensures exist <==> idx < |store| && store[idx].k == key
      ensures exist <==> key in Model()
    {
      idx, exist := Search(store, key);
    }

    /** Upsert: overwrite the entry of `key` in place, or open a slot at the
        search position and write the new entry there. */
    method Store(key: int, val: V)
      requires Valid()
      modifies this
      ensures Valid()
      ensures store == Upserted(old(store), key, val)
      ensures Model() == old(Model())[key := val]
      ensures |store| == if key in old(Model()) then old(|store|) else old(|store|) + 1
    {
      UpsertedIsMapUpdate(store, key, val);
      var idx, exist := BinarySearch(key);
      ghost var s := store;
      if !exist {
        store := AppendShift(store, idx, Item(key, val));
      }
      store := store[idx := Item(key, val)];
      assert store == Upserted(s, key, val);
    }

    /** The value of `key` and true, or the zero value and false. */
    method Load(key: int) returns (v: V, exist: bool)
      requires Valid()
      ensures exist <==> key in Model()
      ensures v == if exist then Model()[key] else zero
    {
      var idx;
      idx, exist := BinarySearch(key);
      if !exist {
        return zero, exist;
      }
      AsMapHas(store, idx);
      return store[idx].v, exist;
    }

    /** `Load` followed by `Delete` when the key was found. Each of the two
        calls takes the lock on its own, so another writer may run between
        them; that window is a concurrency matter this sequential model does
        not express. */
    method LoadAndDelete(key: int) returns (v: V, exist: bool)
      requires Valid()
      modifies this
      ensures Valid()
      ensures exist <==> key in old(Model())
      ensures v == if exist then old(Model())[key] else zero
      ensures store == Removed(old(store), key)
      ensures Model() == old(Model()) - {key}
      ensures !exist ==> store == old(store)
    {
      RemovedIsMapRemoval(store, key);
      v, exist := Load(key);
      if !exist {
        return v, exist;
      }
      Delete(key);
      return v, exist;
    }

    /** Removes the entry of `key`, moving later entries one slot earlier;
        nothing changes when the key is absent. */
    method Delete(key: int)
      requires Valid()
      modifies this
      ensures Valid()
      ensures store == Removed(old(store), key)
      ensures Model() == old(Model()) - {key}
      ensures key !in old(Model()) ==> store == old(store)
    {
      RemovedIsMapRemoval(store, key);
      var idx, found := BinarySearch(key);
      if found {
        store := ShiftOut(store, idx);
      }
    }

    method Contain(key: int) returns (exist: bool)
      requires Valid()
      ensures exist <==> key in Model()
    {
      var _, found := BinarySearch(key);
      exist := found;
    }

    method Clear()
      modifies this
      ensures Valid()
      ensures store == [] && Model() == map[]
    {
      store := [];
    }
  }
}
