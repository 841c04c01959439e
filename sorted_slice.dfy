/** The entries of a sorted slice map and the slice algorithms that every
    sorted variant runs on its `store`: the binary search that finds a key or
    its insertion point, the append-and-shift that opens a slot, and the
    shift-and-cut that closes one. Each algorithm is proved against a
    specification on sequences; the specifications (`Upserted`, `Removed`) are
    in turn proved to be updates of the abstract map `AsMap`. */
module SortedSlice {

  /** One (key, value) entry of a sorted slice map. */
  datatype Item<V> = Item(k: int, v: V)

  /** Keys strictly ascending: no duplicate keys and no inversions. */
  ghost predicate StrictlySorted<V>(s: seq<Item<V>>) {
    forall i, j :: 0 <= i < j < |s| ==> s[i].k < s[j].k
  }

  /** The abstract map a slice stands for: each entry binds its key to its
      value (in a strictly sorted slice no key occurs twice). */
  ghost function AsMap<V>(s: seq<Item<V>>): (m: map<int, V>) {
    if s == [] then map[] else AsMap(s[1..])[s[0].k := s[0].v]
  }

  /** The number of entries whose key is smaller than `key`. */
  function CountLess<V>(s: seq<Item<V>>, key: int): (n: nat)
    ensures n <= |s|
  {
    if s == [] then 0 else (if s[0].k < key then 1 else 0) + CountLess(s[1..], key)
  }

  /** The slice after upserting (key, val): the entry at the search position is
      overwritten when it holds `key`, otherwise a new entry is inserted there. */
  function Upserted<V>(s: seq<Item<V>>, key: int, val: V): (t: seq<Item<V>>) {
    var i := CountLess(s, key);
    if i < |s| && s[i].k == key then s[i := Item(key, val)]
    else s[..i] + [Item(key, val)] + s[i..]
  }

  /** The slice after removing `key`: the entry at the search position is cut
      out when it holds `key`, otherwise nothing changes. */
  function Removed<V>(s: seq<Item<V>>, key: int): (t: seq<Item<V>>) {
    var i := CountLess(s, key);
    if i < |s| && s[i].k == key then s[..i] + s[i + 1..] else s
  }

  /** `CountLess` is the split point whenever the keys below `key` form a prefix. */
  lemma {:induction false} CountLessAt<V>(s: seq<Item<V>>, key: int, p: int)
    requires 0 <= p <= |s|
    requires forall i :: 0 <= i < |s| ==> (s[i].k < key <==> i < p)
    ensures CountLess(s, key) == p
  {
    if s != [] {
      var t, q := s[1..], if p > 0 then p - 1 else 0;
      forall i | 0 <= i < |t| ensures t[i].k < key <==> i < q {
        assert t[i] == s[i + 1];
      }
      CountLessAt(t, key, q);
    }
  }

  /** In a strictly sorted slice the keys below `key` are exactly the first
      `CountLess(s, key)` entries. */
  lemma {:induction false} CountLessSplits<V>(s: seq<Item<V>>, key: int)
    requires StrictlySorted(s)
    ensures forall i :: 0 <= i < |s| ==> (s[i].k < key <==> i < CountLess(s, key))
  {
    if s != [] {
      var t := s[1..];
      assert StrictlySorted(t) by {
        forall i, j | 0 <= i < j < |t| ensures t[i].k < t[j].k {
          assert t[i] == s[i + 1] && t[j] == s[j + 1];
        }
      }
      CountLessSplits(t, key);
      if s[0].k < key {
        forall i | 0 < i < |s| ensures s[i].k < key <==> i < CountLess(s, key) {
          assert s[i] == t[i - 1];
        }
      } else {
        assert CountLess(t, key) == 0 by {
          if |t| > 0 { assert t[0] == s[1] && s[0].k < s[1].k; }
        }
        forall i | 0 < i < |s| ensures key <= s[i].k {
          assert s[0].k < s[i].k;
        }
      }
    }
  }

  /** Every entry of a strictly sorted slice is bound to its own value. */
  lemma {:induction false} AsMapHas<V>(s: seq<Item<V>>, i: int)
    requires StrictlySorted(s) && 0 <= i < |s|
    ensures s[i].k in AsMap(s) && AsMap(s)[s[i].k] == s[i].v
  {
    if i > 0 {
      var t := s[1..];
      assert StrictlySorted(t) by {
        forall a, b | 0 <= a < b < |t| ensures t[a].k < t[b].k {
          assert t[a] == s[a + 1] && t[b] == s[b + 1];
        }
      }
      assert t[i - 1] == s[i] && s[0].k < s[i].k;
      AsMapHas(t, i - 1);
    }
  }

  /** A key that no entry holds is unbound. */
  lemma {:induction false} AsMapLacks<V>(s: seq<Item<V>>, key: int)
    requires forall j :: 0 <= j < |s| ==> s[j].k != key
    ensures key !in AsMap(s)
  {
    if s != [] {
      var t := s[1..];
      forall j | 0 <= j < |t| ensures t[j].k != key {
        assert t[j] == s[j + 1];
      }
      AsMapLacks(t, key);
    }
  }

  /** A key is in the abstract map exactly when the entry at its search
      position holds it. */
  lemma KeyAtSearchPosition<V>(s: seq<Item<V>>, key: int)
    requires StrictlySorted(s)
    ensures var i := CountLess(s, key);
      key in AsMap(s) <==> i < |s| && s[i].k == key
  {
    CountLessSplits(s, key);
    var i := CountLess(s, key);
    if i < |s| && s[i].k == key {
      AsMapHas(s, i);
    } else {
      forall j | 0 <= j < |s| ensures s[j].k != key {
        if i < j { assert s[i].k < s[j].k; }
      }
      AsMapLacks(s, key);
    }
  }

  /** Inserting an entry between the keys below and the keys above it keeps
      the slice strictly sorted (Dafny needs no hint; stated apart so that
      `UpsertedIsMapUpdate` reasons about order and bindings separately). */
  lemma InsertKeepsOrder<V>(s: seq<Item<V>>, i: int, x: Item<V>)
    requires StrictlySorted(s) && 0 <= i <= |s|
    requires forall j :: 0 <= j < |s| ==> (s[j].k < x.k <==> j < i)
    requires i < |s| ==> s[i].k != x.k
    ensures StrictlySorted(s[..i] + [x] + s[i..])
  {
  }

  /** Inserting an entry whose key no earlier entry holds binds that key. */
  lemma {:induction false} InsertedBinding<V>(s: seq<Item<V>>, i: int, x: Item<V>)
    requires 0 <= i <= |s|
    requires forall j :: 0 <= j < i ==> s[j].k != x.k
    ensures AsMap(s[..i] + [x] + s[i..]) == AsMap(s)[x.k := x.v]
  {
    var t := s[..i] + [x] + s[i..];
    if i == 0 {
      assert t == [x] + s && t[1..] == s;
    } else {
      var u := s[1..];
      forall j | 0 <= j < i - 1 ensures u[j].k != x.k {
        assert u[j] == s[j + 1];
      }
      InsertedBinding(u, i - 1, x);
      assert t[0] == s[0] && t[1..] == u[..i - 1] + [x] + u[i - 1..];
      assert s[0].k != x.k;
    }
  }

  /** Overwriting the value of an entry whose key no earlier entry holds
      rebinds that key. */
  lemma {:induction false} OverwrittenBinding<V>(s: seq<Item<V>>, i: int, v: V)
    requires 0 <= i < |s|
    requires forall j :: 0 <= j < i ==> s[j].k != s[i].k
    ensures AsMap(s[i := Item(s[i].k, v)]) == AsMap(s)[s[i].k := v]
  {
    var t := s[i := Item(s[i].k, v)];
    if i == 0 {
      assert t[1..] == s[1..];
    } else {
      var u := s[1..];
      assert u[i - 1] == s[i];
      forall j | 0 <= j < i - 1 ensures u[j].k != u[i - 1].k {
        assert u[j] == s[j + 1];
      }
      OverwrittenBinding(u, i - 1, v);
      assert t[0] == s[0] && t[1..] == u[i - 1 := Item(s[i].k, v)];
      assert s[0].k != s[i].k;
    }
  }

  /** Cutting out the entry at `i` keeps the slice strictly sorted (Dafny
      needs no hint; stated apart as for insertion). */
  lemma CutKeepsOrder<V>(s: seq<Item<V>>, i: int)
    requires StrictlySorted(s) && 0 <= i < |s|
    ensures StrictlySorted(s[..i] + s[i + 1..])
  {
  }

  /** Cutting out an entry whose key no other entry holds unbinds that key. */
  lemma {:induction false} CutBinding<V>(s: seq<Item<V>>, i: int)
    requires 0 <= i < |s|
    requires forall j :: 0 <= j < |s| && j != i ==> s[j].k != s[i].k
    ensures AsMap(s[..i] + s[i + 1..]) == AsMap(s) - {s[i].k}
  {
    var t := s[..i] + s[i + 1..];
    var u := s[1..];
    if i == 0 {
      forall j | 0 <= j < |u| ensures u[j].k != s[0].k {
        assert u[j] == s[j + 1];
      }
      AsMapLacks(u, s[0].k);
      assert t == u;
    } else {
      assert u[i - 1] == s[i];
      forall j | 0 <= j < |u| && j != i - 1 ensures u[j].k != u[i - 1].k {
        assert u[j] == s[j + 1];
      }
      CutBinding(u, i - 1);
      assert t[0] == s[0] && t[1..] == u[..i - 1] + u[i..];
      assert s[0].k != s[i].k;
    }
  }

  /** An upsert keeps the slice strictly sorted, binds `key` to `val` in the
      abstract map and leaves every other binding alone; the slice grows by
      one entry exactly when `key` was new. */
  lemma UpsertedIsMapUpdate<V>(s: seq<Item<V>>, key: int, val: V)
    requires StrictlySorted(s)
    ensures StrictlySorted(Upserted(s, key, val))
    ensures AsMap(Upserted(s, key, val)) == AsMap(s)[key := val]
    ensures |Upserted(s, key, val)| == if key in AsMap(s) then |s| else |s| + 1
  {
    CountLessSplits(s, key);
    KeyAtSearchPosition(s, key);
    var i := CountLess(s, key);
    if i < |s| && s[i].k == key {
      assert forall j :: 0 <= j < i ==> s[j].k < key;
      OverwrittenBinding(s, i, val);
      AsMapHas(s, i);
    } else {
      assert forall j :: 0 <= j < i ==> s[j].k < key;
      InsertKeepsOrder(s, i, Item(key, val));
      InsertedBinding(s, i, Item(key, val));
    }
  }

  /** A removal keeps the slice strictly sorted and drops exactly the binding of
      `key` from the abstract map; the slice shrinks by one entry exactly when
      `key` was present, and is left as it was otherwise. */
  lemma RemovedIsMapRemoval<V>(s: seq<Item<V>>, key: int)
    requires StrictlySorted(s)
    ensures StrictlySorted(Removed(s, key))
    ensures AsMap(Removed(s, key)) == AsMap(s) - {key}
    ensures key in AsMap(s) ==> |Removed(s, key)| == |s| - 1
    ensures key !in AsMap(s) ==> Removed(s, key) == s
  {
    KeyAtSearchPosition(s, key);
    var i := CountLess(s, key);
    if i < |s| && s[i].k == key {
      forall j | 0 <= j < |s| && j != i ensures s[j].k != s[i].k {
        if j < i { assert s[j].k < s[i].k; } else { assert s[i].k < s[j].k; }
      }
      CutKeepsOrder(s, i);
      CutBinding(s, i);
    } else {
      assert AsMap(s) - {key} == AsMap(s);
    }
  }

  /** Binary search for `key` (the `binarySearch` loop shared by every sorted
      variant). It returns the index of `key` when present; otherwise the
      insertion point, the number of keys smaller than `key`. */
  method Search<V>(s: seq<Item<V>>, key: int) returns (idx: int, found: bool)
    requires StrictlySorted(s)
    ensures 0 <= idx <= |s|
    ensures forall i :: 0 <= i < |s| ==> (s[i].k < key <==> i < idx)
    ensures idx == CountLess(s, key)
    ensures found <==> idx < |s| && s[idx].k == key
    ensures found <==> key in AsMap(s)
  {
    var left, right := 0, |s| - 1;
    while left <= right
      invariant 0 <= left <= right + 1 <= |s|
      invariant forall i :: 0 <= i < left ==> s[i].k < key
      invariant forall i :: right < i < |s| ==> key < s[i].k
      decreases right - left
    {
      // right - left >= 0 here, so Go's truncating division agrees with Dafny's
      var mid := left + (right - left) / 2;
      if s[mid].k == key {
        assert forall i :: 0 <= i < |s| ==> (s[i].k < key <==> i < mid) by {
          forall i | 0 <= i < |s| ensures s[i].k < key <==> i < mid {
            if i < mid { assert s[i].k < s[mid].k; }
            if mid < i { assert s[mid].k < s[i].k; }
          }
        }
        CountLessAt(s, key, mid);
        KeyAtSearchPosition(s, key);
        return mid, true;
      } else if s[mid].k < key {
        forall i | 0 <= i <= mid ensures s[i].k < key {
          if i < mid { assert s[i].k < s[mid].k; }
        }
        left := mid + 1;
      } else {
        forall i | mid <= i < |s| ensures key < s[i].k {
          if mid < i { assert s[mid].k < s[i].k; }
        }
        right := mid - 1;
      }
    }
    CountLessAt(s, key, left);
    KeyAtSearchPosition(s, key);
    return left, false;
  }

  /** Go's `append(s, item)` followed by `copy(s[idx+1:], s[idx:len(s)-1])`:
      the slice grows by one, the entries from `idx` on move one slot later,
      and slot `idx` still holds its old entry (or `item`, when `idx` is the end). */
  method AppendShift<V>(s: seq<Item<V>>, idx: int, item: Item<V>) returns (t: seq<Item<V>>)
    requires 0 <= idx <= |s|
    ensures |t| == |s| + 1
    ensures t[..idx] == s[..idx] && t[idx + 1..] == s[idx..]
    ensures t[idx] == if idx < |s| then s[idx] else item
  {
    t := s + [item];
    var j := |s|;
    while j > idx
      invariant idx <= j <= |s|
      invariant |t| == |s| + 1
      invariant forall i :: 0 <= i <= j ==> t[i] == (s + [item])[i]
      invariant forall i :: j < i <= |s| ==> t[i] == s[i - 1]
    {
      t := t[j := t[j - 1]];
      j := j - 1;
    }
    assert t[idx + 1..] == s[idx..] by {
      forall i | 0 <= i < |s| - idx ensures t[idx + 1..][i] == s[idx..][i] {
        assert t[idx + 1 + i] == s[idx + i];
      }
    }
  }

  /** Go's `s[:idx+copy(s[idx:], s[idx+1:])]`: the entries after `idx` move one
      slot earlier, then the slice is cut to the copied length. */
  method ShiftOut<V>(s: seq<Item<V>>, idx: int) returns (t: seq<Item<V>>)
    requires 0 <= idx < |s|
    ensures t == s[..idx] + s[idx + 1..]
  {
    t := s;
    var j := idx;
    while j < |s| - 1
      invariant idx <= j <= |s| - 1
      invariant |t| == |s|
      invariant forall i :: 0 <= i < idx ==> t[i] == s[i]
      invariant forall i :: idx <= i < j ==> t[i] == s[i + 1]
      invariant forall i :: j <= i < |s| ==> t[i] == s[i]
    {
      t := t[j := t[j + 1]];
      j := j + 1;
    }
    // `copy` reports how many entries it moved
    var copied := |s| - (idx + 1);
    t := t[..idx + copied];
    assert t == s[..idx] + s[idx + 1..] by {
      forall i | 0 <= i < |t| ensures t[i] == (s[..idx] + s[idx + 1..])[i] {
        if i < idx {} else { assert (s[..idx] + s[idx + 1..])[i] == s[i + 1]; }
      }
    }
  }
}
