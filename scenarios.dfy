/** Client code that the contracts alone must carry: the documented binary
    search examples and the call sequences of the repository's tests, with
    the expected answers asserted. */
module Scenarios {
  import opened SortedSlice
  import opened BloomFilters
  import opened PureMaps
  import opened SortedSliceMaps
  import opened IntSortedSliceMaps
  import opened ThreadSafeSortedSliceMaps
  import opened ThreadSafeIntSortedSliceMaps

  /** The search examples over the keys [1, 3]. */
  method SearchExamples() {
    var s := [Item(1, "one"), Item(3, "three")];
    var i, f := Search(s, 0);
    assert (i, f) == (0, false);
    i, f := Search(s, 1);
    assert (i, f) == (0, true);
    i, f := Search(s, 2);
    assert (i, f) == (1, false);
    i, f := Search(s, 3);
    assert (i, f) == (1, true);
    i, f := Search(s, 4);
    assert (i, f) == (2, false);
  }

  /** Out-of-order stores load back, as the sorted map's test expects. */
  method SortedSliceMapOutOfOrder() {
    var m := new SortedSliceMap<string>("");
    m.Store(3, "three");
    m.Store(1, "one");
    m.Store(2, "two");
    assert m.Model() == map[3 := "three", 1 := "one", 2 := "two"];
    var v, ok := m.Load(1);
    assert ok && v == "one";
    v, ok := m.Load(2);
    assert ok && v == "two";
    v, ok := m.Load(3);
    assert ok && v == "three";
  }

  /** LoadAndDelete returns the value and removes it; on a missing key it
      finds nothing. */
  method SortedSliceMapLoadAndDelete() {
    var m := new SortedSliceMap<string>("");
    m.Store(1, "one");
    m.Store(2, "two");
    var v, ok := m.LoadAndDelete(2);
    assert ok && v == "two";
    v, ok := m.Load(2);
    assert !ok;
    v, ok := m.LoadAndDelete(5);
    assert !ok && v == "";
  }

  /** Delete removes a key; a stored key is contained and a missing one is not. */
  method SortedSliceMapDeleteContain() {
    var m := new SortedSliceMap<string>("");
    m.Store(1, "one");
    m.Store(4, "four");
    m.Delete(4);
    var v, ok := m.Load(4);
    assert !ok;
    ok := m.Contain(1);
    assert ok;
    ok := m.Contain(5);
    assert !ok;
  }

  /** After Clear nothing is found. */
  method SortedSliceMapClear() {
    var m := new SortedSliceMap<string>("");
    m.Store(1, "one");
    m.Store(3, "three");
    m.Clear();
    var v, ok := m.Load(1);
    assert !ok;
    v, ok := m.Load(3);
    assert !ok;
  }

  /** Keys stored out of order as 5, 2, 4, 1 all load back; LoadAndDelete
      of 2 returns its value and removes it; after Clear nothing is found,
      although the filter still admits the keys stored before. */
  method IntSortedSliceMapAdditional(probe: int -> set<nat>) {
    var m := new IntSortedSliceMap<string>("", probe);
    m.Store(5, "five");
    m.Store(2, "two");
    m.Store(4, "four");
    m.Store(1, "one");
    assert m.Model() == map[5 := "five", 2 := "two", 4 := "four", 1 := "one"];
    var v, ok := m.Load(1);
    assert ok && v == "one";
    v, ok := m.Load(2);
    assert ok && v == "two";
    v, ok := m.Load(4);
    assert ok && v == "four";
    v, ok := m.Load(5);
    assert ok && v == "five";
    v, ok := m.LoadAndDelete(2);
    assert ok && v == "two";
    v, ok := m.Load(2);
    assert !ok;
    m.Clear();
    v, ok := m.Load(1);
    assert !ok;
    v, ok := m.Load(4);
    assert !ok;
    assert m.bloomFilter.MayExist(4);
  }

  /** The slice itself: a key smaller than all others is inserted at the
      front, one between two keys in the middle. */
  method IntSortedSliceMapSlice(probe: int -> set<nat>) {
    var m := new IntSortedSliceMap<string>("", probe);
    m.Store(5, "five");
    m.Store(2, "two");
    assert m.store == [Item(2, "two"), Item(5, "five")] by {
      assert CountLess([Item(5, "five")], 2) == 0;
    }
    m.Store(4, "four");
    assert m.store == [Item(2, "two"), Item(4, "four"), Item(5, "five")] by {
      assert CountLess([Item(2, "two"), Item(5, "five")], 4) == 1;
    }
    m.Delete(2);
    assert m.store == [Item(4, "four"), Item(5, "five")] by {
      assert CountLess([Item(2, "two"), Item(4, "four"), Item(5, "five")], 2) == 0;
    }
  }

  /** On an empty map: Load and LoadAndDelete find nothing and Delete of a
      missing key changes nothing. */
  method ThreadSafeIntSortedSliceMapEmpty(probe: int -> set<nat>) {
    var m := new ThreadSafeIntSortedSliceMap<string>("", probe);
    var v, ok := m.Load(1);
    assert !ok && v == "";
    v, ok := m.LoadAndDelete(2);
    assert !ok && m.store == [];
    m.Delete(3);
    assert m.store == [];
  }

  /** Out-of-order stores through the thread-safe integer map load back, and
      the slice is in ascending order. */
  method ThreadSafeIntSortedSliceMapOutOfOrder(probe: int -> set<nat>) {
    var m := new ThreadSafeIntSortedSliceMap<string>("", probe);
    m.Store(3, "three");
    m.Store(1, "one");
    assert m.store == [Item(1, "one"), Item(3, "three")] by {
      assert CountLess([Item(3, "three")], 1) == 0;
    }
    m.Store(2, "two");
    assert m.store == [Item(1, "one"), Item(2, "two"), Item(3, "three")] by {
      assert CountLess([Item(1, "one"), Item(3, "three")], 2) == 1;
    }
    var v, ok := m.Load(1);
    assert ok && v == "one";
    v, ok := m.Load(2);
    assert ok && v == "two";
    v, ok := m.Load(3);
    assert ok && v == "three";
  }

  /** The thread-safe generic map with locks erased: a stored key is
      contained, and a deleted one is not. */
  method ThreadSafeSortedSliceMapContain() {
    var m := new ThreadSafeSortedSliceMap<string>("");
    m.Store(5, "five");
    var ok := m.Contain(5);
    assert ok;
    m.Delete(5);
    ok := m.Contain(5);
    assert !ok;
  }

  /** Store then Load round-trips, a later Store overwrites, and removal
      leaves nothing behind in the reference map. */
  method PureMapTest() {
    var p := new PureMap<int, string>("");
    p.Store(1, "one");
    var v, ok := p.Load(1);
    assert ok && v == "one";
    p.Store(1, "uno");
    v, ok := p.Load(1);
    assert ok && v == "uno";
    v, ok := p.LoadAndDelete(1);
    assert ok && v == "uno";
    v, ok := p.Load(1);
    assert !ok && v == "";
    p.Store(3, "three");
    p.Clear();
    ok := p.Contain(3);
    assert !ok;
  }
}
