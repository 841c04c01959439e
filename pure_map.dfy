/** The map over the host language's built-in dictionary. It is the reference
    behaviour of the six-operation map interface: every sorted variant is
    proved to act on its abstract map exactly as these methods act on `store`. */
module PureMaps {

  class PureMap<K(==), V> {
    /** The value a lookup returns for a missing key (the value type's zero value). */
    const zero: V
    var store: map<K, V>

    constructor (zero: V)
      ensures this.zero == zero && store == map[]
    {
      this.zero := zero;
      store := map[];
    }

    /** Binds `key` to `val`, replacing any earlier value; no other key changes. */
    method Store(key: K, val: V)
      modifies this
      ensures store == old(store)[key := val]
    {
      store := store[key := val];
    }

    /** The value bound to `key` and true, or the zero value and false. */
    method Load(key: K) returns (val: V, ok: bool)
      ensures ok <==> key in store
      ensures val == if ok then store[key] else zero
    {
      ok := key in store;
      val := if ok then store[key] else zero;
    }

    /** Like `Load`, and removes the binding when there was one. */
    method LoadAndDelete(key: K) returns (val: V, ok: bool)
      modifies this
      ensures ok <==> key in old(store)
      ensures val == if ok then old(store)[key] else zero
      ensures store == old(store) - {key}
      ensures !ok ==> store == old(store)
    {
      ok := key in store;
      val := if ok then store[key] else zero;
      if ok {
        store := store - {key};
      }
    }

    /** Removes the binding of `key`; nothing changes when there is none. */
    method Delete(key: K)
      modifies this
      ensures store == old(store) - {key}
    {
      store := store - {key};
    }

    method Contain(key: K) returns (ok: bool)
      ensures ok <==> key in store
    {
      ok := key in store;
    }

    method Clear()
      modifies this
      ensures store == map[]
    {
      store := map[];
    }
  }
}
