/** Refinement, operation by operation. Driven by the same operation as the
    reference `PureMap`, each sorted variant keeps the same abstract map and
    gives the same answer; driven by the same operation as its non-thread-safe
    counterpart, each thread-safe variant (locks erased) keeps the very same
    slice and filter and gives the same answer. */
module Lockstep {
  import opened SortedSlice
  import opened BloomFilters
  import opened PureMaps
  import opened SortedSliceMaps
  import opened IntSortedSliceMaps
  import opened ThreadSafeSortedSliceMaps
  import opened ThreadSafeIntSortedSliceMaps

  /** One call of the six-operation map interface. */
  datatype Op<V> =
    | StoreOp(key: int, val: V)
    | LoadOp(key: int)
    | LoadAndDeleteOp(key: int)
    | DeleteOp(key: int)
    | ContainOp(key: int)
    | ClearOp

  /** What a call answers: nothing, a (value, found) pair, or found alone. */
  datatype Reply<V> = NoReply | ValueReply(v: V, found: bool) | FoundReply(found: bool)

  method SortedSliceMapRefinesPureMap<V>(m: SortedSliceMap<V>, p: PureMap<int, V>, op: Op<V>)
    returns (rm: Reply<V>, rp: Reply<V>)
    requires m.Valid() && m.Model() == p.store && m.zero == p.zero
    modifies m, p
    ensures m.Valid() && m.Model() == p.store && rm == rp
  {
    match op
    case StoreOp(k, v) =>
      m.Store(k, v);
      p.Store(k, v);
      rm, rp := NoReply, NoReply;
    case LoadOp(k) =>
      var v1, f1 := m.Load(k);
      var v2, f2 := p.Load(k);
      rm, rp := ValueReply(v1, f1), ValueReply(v2, f2);
    case LoadAndDeleteOp(k) =>
      var v1, f1 := m.LoadAndDelete(k);
      var v2, f2 := p.LoadAndDelete(k);
      rm, rp := ValueReply(v1, f1), ValueReply(v2, f2);
    case DeleteOp(k) =>
      m.Delete(k);
      p.Delete(k);
      rm, rp := NoReply, NoReply;
    case ContainOp(k) =>
      var f1 := m.Contain(k);
      var f2 := p.Contain(k);
      rm, rp := FoundReply(f1), FoundReply(f2);
    case ClearOp =>
      m.Clear();
      p.Clear();
      rm, rp := NoReply, NoReply;
  }

  /** Any sequence of calls keeps the slice strictly sorted and in step with
      the reference map, answer by answer. */
  method SortedSliceMapRunsLikePureMap<V>(m: SortedSliceMap<V>, p: PureMap<int, V>, ops: seq<Op<V>>)
    returns (rms: seq<Reply<V>>, rps: seq<Reply<V>>)
    requires m.Valid() && m.Model() == p.store && m.zero == p.zero
    modifies m, p
    ensures m.Valid() && m.Model() == p.store && rms == rps && |rms| == |ops|
  {
    rms, rps := [], [];
    for n := 0 to |ops|
      invariant m.Valid() && m.Model() == p.store && rms == rps && |rms| == n
    {
      var rm, rp := SortedSliceMapRefinesPureMap(m, p, ops[n]);
      rms, rps := rms + [rm], rps + [rp];
    }
  }

  method IntSortedSliceMapRefinesPureMap<V>(m: IntSortedSliceMap<V>, p: PureMap<int, V>, op: Op<V>)
    returns (rm: Reply<V>, rp: Reply<V>)
    requires m.Valid() && m.Model() == p.store && m.zero == p.zero
    modifies m, p
    ensures m.Valid() && m.Model() == p.store && rm == rp
    ensures old(m.added) <= m.added
  {
    match op
    case StoreOp(k, v) =>
      m.Store(k, v);
      p.Store(k, v);
      rm, rp := NoReply, NoReply;
    case LoadOp(k) =>
      var v1, f1 := m.Load(k);
      var v2, f2 := p.Load(k);
      rm, rp := ValueReply(v1, f1), ValueReply(v2, f2);
    case LoadAndDeleteOp(k) =>
      var v1, f1 := m.LoadAndDelete(k);
      var v2, f2 := p.LoadAndDelete(k);
      rm, rp := ValueReply(v1, f1), ValueReply(v2, f2);
    case DeleteOp(k) =>
      m.Delete(k);
      p.Delete(k);
      rm, rp := NoReply, NoReply;
    case ContainOp(k) =>
      var f1 := m.Contain(k);
      var f2 := p.Contain(k);
      rm, rp := FoundReply(f1), FoundReply(f2);
    case ClearOp =>
      m.Clear();
      p.Clear();
      rm, rp := NoReply, NoReply;
  }

  /** Any sequence of calls keeps the filter invariant and the slice in step
      with the reference map, answer by answer, although the filter only grows. */
  method IntSortedSliceMapRunsLikePureMap<V>(m: IntSortedSliceMap<V>, p: PureMap<int, V>, ops: seq<Op<V>>)
    returns (rms: seq<Reply<V>>, rps: seq<Reply<V>>)
    requires m.Valid() && m.Model() == p.store && m.zero == p.zero
    modifies m, p
    ensures m.Valid() && m.Model() == p.store && rms == rps && |rms| == |ops|
    ensures old(m.added) <= m.added
  {
    rms, rps := [], [];
    for n := 0 to |ops|
      invariant m.Valid() && m.Model() == p.store && rms == rps && |rms| == n
      invariant old(m.added) <= m.added
    {
      var rm, rp := IntSortedSliceMapRefinesPureMap(m, p, ops[n]);
      rms, rps := rms + [rm], rps + [rp];
    }
  }

  method ThreadSafeSortedSliceMapMatchesSortedSliceMap<V>(
    a: ThreadSafeSortedSliceMap<V>, b: SortedSliceMap<V>, op: Op<V>)
    returns (ra: Reply<V>, rb: Reply<V>)
    requires a.Valid() && b.Valid() && a.store == b.store && a.zero == b.zero
    modifies a, b
    ensures a.Valid() && b.Valid() && a.store == b.store && ra == rb
  {
    match op
    case StoreOp(k, v) =>
      a.Store(k, v);
      b.Store(k, v);
      ra, rb := NoReply, NoReply;
    case LoadOp(k) =>
      var v1, f1 := a.Load(k);
      var v2, f2 := b.Load(k);
      ra, rb := ValueReply(v1, f1), ValueReply(v2, f2);
    case LoadAndDeleteOp(k) =>
      var v1, f1 := a.LoadAndDelete(k);
      var v2, f2 := b.LoadAndDelete(k);
      ra, rb := ValueReply(v1, f1), ValueReply(v2, f2);
    case DeleteOp(k) =>
      a.Delete(k);
      b.Delete(k);
      ra, rb := NoReply, NoReply;
    case ContainOp(k) =>
      var f1 := a.Contain(k);
      var f2 := b.Contain(k);
      ra, rb := FoundReply(f1), FoundReply(f2);
    case ClearOp =>
      a.Clear();
      b.Clear();
      ra, rb := NoReply, NoReply;
  }

  method ThreadSafeIntSortedSliceMapMatchesIntSortedSliceMap<V>(
    a: ThreadSafeIntSortedSliceMap<V>, b: IntSortedSliceMap<V>, op: Op<V>)
    returns (ra: Reply<V>, rb: Reply<V>)
    requires a.Valid() && b.Valid() && a.zero == b.zero
    requires a.store == b.store && a.bloomFilter == b.bloomFilter && a.added == b.added
    modifies a, b
    ensures a.Valid() && b.Valid() && ra == rb
    ensures a.store == b.store && a.bloomFilter == b.bloomFilter && a.added == b.added
  {
    match op
    case StoreOp(k, v) =>
      a.Store(k, v);
      b.Store(k, v);
      ra, rb := NoReply, NoReply;
    case LoadOp(k) =>
      var v1, f1 := a.Load(k);
      var v2, f2 := b.Load(k);
      ra, rb := ValueReply(v1, f1), ValueReply(v2, f2);
    case LoadAndDeleteOp(k) =>
      var v1, f1 := a.LoadAndDelete(k);
      var v2, f2 := b.LoadAndDelete(k);
      ra, rb := ValueReply(v1, f1), ValueReply(v2, f2);
    case DeleteOp(k) =>
      a.Delete(k);
      b.Delete(k);
      ra, rb := NoReply, NoReply;
    case ContainOp(k) =>
      var f1 := a.Contain(k);
      var f2 := b.Contain(k);
      ra, rb := FoundReply(f1), FoundReply(f2);
    case ClearOp =>
      a.Clear();
      b.Clear();
      ra, rb := NoReply, NoReply;
  }
}
