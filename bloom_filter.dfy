/** The membership pre-filter used by the integer-keyed sorted maps. The
    filter library itself is not part of this model: its hashing is abstracted
    as `probe`, an arbitrary function from a key to the bit positions that key
    sets, and the filter state as the set of bits set so far. Nothing about the
    false-positive rate is modelled; what matters to the maps is that a key
    once added is never reported absent. */
module BloomFilters {

  datatype BloomFilter = BloomFilter(probe: int -> set<nat>, bits: set<nat>) {

    /** False only when some bit of `key` is unset, which cannot happen for a
        key that was added (it may be true for keys that never were). */
    predicate MayExist(key: int) {
      probe(key) <= bits
    }

    /** Records `key`. Insert-only: every key that may exist before still may. */
    function Add(key: int): (f: BloomFilter)
      ensures f.MayExist(key)
      ensures forall k :: MayExist(k) ==> f.MayExist(k)
      ensures f.probe == probe
    {
      BloomFilter(probe, bits + probe(key))
    }
  }

  /** The filter a map starts with: no bit set, so it admits only the keys that
      set no bit at all. */
  function Empty(probe: int -> set<nat>): (f: BloomFilter)
    ensures f.probe == probe
    ensures forall k :: f.MayExist(k) <==> probe(k) == {}
  {
    BloomFilter(probe, {})
  }
}
