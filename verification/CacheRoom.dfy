/** Caches that never expire, as the listen index and the device index use them: when no `get` loses
    anything, whichever rehash is in use. */
module CacheRoom {
  import opened Words
  import opened CacheTable
  import opened CacheRefinement
  import opened CacheRuns

  ghost predicate Sound<N, V>(t: Table<N, V>) {
    Inv(t) && Tight(t) && Load(t)
  }

  /** Room for `ids` without a growing rehash, entries that `count` still counts after they were lost
      included; a rehash that stores heads needs none. */
  ghost predicate Room<N, V>(cfg: Config, t: Table<N, V>, ids: set<nat>)
    requires |t.buckets| > 0
  {
    cfg.headStored || |IndexOf(t).cells.Keys + ids| + Missing(t) <= |t.buckets|
  }

  lemma RoomIsNoLoss<N, V>(cfg: Config, t: Table<N, V>, id: nat, check: nat, stamp: nat, node: N)
    requires Sound(t) && cfg.cleanupPeriod == NEVER && Room(cfg, t, {id})
    ensures !GetLoses(cfg, t, id, check)
    ensures Sound(Get(cfg, t, id, check, stamp, node))
    ensures IndexOf(Get(cfg, t, id, check, stamp, node)) == IndexObtain(IndexOf(t), id, stamp, node)
    ensures !cfg.headStored ==> |Get(cfg, t, id, check, stamp, node).buckets| == |t.buckets|
  {
    if !cfg.headStored {
      SizeOfIndex(t);
      LookupIsIndex(t, id);
      if id !in IndexOf(t).cells {
        assert |IndexOf(t).cells.Keys + {id}| == t.count + 1;
      }
    }
    GetRefines(cfg, t, id, check, stamp, node);
    StepLoad(cfg, t, OpGet(id, check, stamp, node));
  }

  lemma FindIsSound<N, V>(cfg: Config, t: Table<N, V>, id: nat, check: nat, stamp: nat)
    requires Sound(t) && cfg.cleanupPeriod == NEVER
    ensures Sound(Find(cfg, t, id, check, stamp)) && |Find(cfg, t, id, check, stamp).buckets| == |t.buckets|
    ensures IndexOf(Find(cfg, t, id, check, stamp)) == IndexFind(cfg, IndexOf(t), id, check, stamp)
  {
    FindRefines(cfg, t, id, check, stamp);
  }

  /** Room for more ids is room for fewer. */
  lemma RoomForLess<N, V>(cfg: Config, t: Table<N, V>, few: set<nat>, many: set<nat>)
    requires |t.buckets| > 0 && few <= many && Room(cfg, t, many)
    ensures Room(cfg, t, few)
  {
    SubsetSize(IndexOf(t).cells.Keys + few, IndexOf(t).cells.Keys + many);
  }

  lemma RoomForNone<N, V>(cfg: Config, t: Table<N, V>)
    requires Sound(t)
    ensures Room(cfg, t, {})
  {
    SizeOfIndex(t);
    assert IndexOf(t).cells.Keys + {} == IndexOf(t).cells.Keys;
  }

  lemma Absorbed(ids: set<nat>, id: nat)
    ensures id in ids ==> ids + {id} == ids
  {
  }

  /** One `get` keeps `count` true exactly when there was room for its id. */
  lemma RoomExact<N, V>(cfg: Config, t: Table<N, V>, id: nat, check: nat, stamp: nat, node: N)
    requires Sound(t) && cfg.cleanupPeriod == NEVER
    ensures Inv(Get(cfg, t, id, check, stamp, node))
    ensures Tight(Get(cfg, t, id, check, stamp, node)) <==> Room(cfg, t, {id})
    ensures Missing(Get(cfg, t, id, check, stamp, node)) >= Missing(t)
  {
    GetRefines(cfg, t, id, check, stamp, node);
    GetMissing(cfg, t, id, check, stamp, node);
    if Room(cfg, t, {id}) {
      RoomIsNoLoss(cfg, t, id, check, stamp, node);
    } else {
      SizeOfIndex(t);
      LookupIsIndex(t, id);
      Absorbed(IndexOf(t).cells.Keys, id);
    }
  }

  /** Room for some ids and more is room for the first and then for the others. */
  lemma RoomSplits<N, V>(cfg: Config, t: Table<N, V>, r: Table<N, V>, first: set<nat>, rest: set<nat>)
    requires |t.buckets| > 0 && |r.buckets| > 0 && (cfg.headStored || |r.buckets| == |t.buckets|)
    requires Missing(r) == Missing(t)
    requires IndexOf(r).cells.Keys == IndexOf(t).cells.Keys + first
    ensures Room(cfg, t, first + rest) <==> Room(cfg, r, rest)
  {
    assert IndexOf(r).cells.Keys + rest == IndexOf(t).cells.Keys + (first + rest);
  }

  /** A table that may have lost entries, but never the last one. */
  ghost predicate Housed<N, V>(t: Table<N, V>) {
    Inv(t) && Load(t) && (t.count > 0 ==> Linked(t.buckets) > 0)
  }

  /** The same whatever was lost before: a `get` loses nothing exactly when there is room for its id, and
      otherwise leaves its new entry alone. */
  lemma HousedExact<N, V>(cfg: Config, t: Table<N, V>, id: nat, check: nat, stamp: nat, node: N)
    requires Housed(t) && cfg.cleanupPeriod == NEVER
    ensures var g := Get(cfg, t, id, check, stamp, node);
            && Housed(g) && Missing(g) >= Missing(t) && (Missing(g) == Missing(t) <==> Room(cfg, t, {id}))
            && (Missing(g) == Missing(t) ==>
                  IndexOf(g) == IndexObtain(IndexOf(t), id, stamp, node) && (cfg.headStored || |g.buckets| == |t.buckets|))
            && (Missing(g) > Missing(t) ==>
                  id !in IndexOf(t).cells && IndexOf(g).cells == map[id := Cell(node, id, stamp, None)])
  {
    var op := OpGet(id, check, stamp, node);
    var g := Get(cfg, t, id, check, stamp, node);
    StepRefines(cfg, t, op);
    StepLoad(cfg, t, op);
    assert g == Step(cfg, t, op);
    LookupIsIndex(t, id);
    SizeOfIndex(t);
    SizeOfIndex(g);
    Absorbed(IndexOf(t).cells.Keys, id);
    if Loses(cfg, t, op) {
      LosingStep(cfg, t, op);
    } else {
      ObtainRefines(cfg, t, id, stamp, node);
    }
  }

  /** A full table that never expires, with the rehash as written: one more id is all that is left. */
  lemma OverflowForgets<N, V>(cfg: Config, t: Table<N, V>, id: nat, check: nat, stamp: nat, node: N)
    requires Sound(t) && cfg.cleanupPeriod == NEVER && !cfg.headStored
    requires t.count == |t.buckets| && id !in IndexOf(t).cells
    ensures Inv(Get(cfg, t, id, check, stamp, node))
    ensures IndexOf(Get(cfg, t, id, check, stamp, node)).cells == map[id := Cell(node, id, stamp, None)]
  {
    GetRefines(cfg, t, id, check, stamp, node);
    LookupIsIndex(t, id);
    ObtainRefines(cfg, t, id, stamp, node);
  }

  /** The first `n` ids. */
  function Below(n: nat): (r: set<nat>)
    ensures |r| == n && forall p: nat :: p in r <==> p < n
  {
    if n == 0 then {} else Below(n - 1) + {n - 1}
  }

  /** A table that keeps the entry of every id keeps every pointer good. */
  ghost predicate KeepsEntries<N, V>(t: Table<N, V>, r: Table<N, V>)
    requires |t.buckets| > 0 && |r.buckets| > 0
  {
    forall id: nat :: Lookup(t.buckets, id).Some? ==>
      Lookup(r.buckets, id).Some? && Lookup(r.buckets, id).value.node == Lookup(t.buckets, id).value.node
  }

  lemma StillOwned<N, V>(t: Table<N, V>, r: Table<N, V>)
    requires Inv(t) && Inv(r)
    requires forall id: nat :: id in IndexOf(t).cells ==>
               id in IndexOf(r).cells && IndexOf(r).cells[id].node == IndexOf(t).cells[id].node
    ensures KeepsEntries(t, r)
  {
    forall id: nat | Lookup(t.buckets, id).Some?
      ensures Lookup(r.buckets, id).Some? && Lookup(r.buckets, id).value.node == Lookup(t.buckets, id).value.node
    {
      LookupIsIndex(t, id);
      LookupIsIndex(r, id);
    }
  }
}
