/**
  The hash table refines a finite map. `Index` forgets buckets, chain order, sizes and rehashes;
  every operation of the table is an operation of the index, under an exact condition on rehash.
 */
module CacheRefinement {
  import opened Words
  import opened CacheTable

  datatype Index<N, V> = Index(cells: map<nat, Cell<N, V>>, lastCleanup: nat)

  ghost function ChainIds<N, V>(cs: Chain<N, V>): (r: set<nat>)
    ensures forall id: nat :: id in r <==> FindIn(cs, id).Some?
  {
    if cs == [] then {} else {cs[0].id} + ChainIds(cs[1..])
  }

  ghost function Ids<N, V>(bs: Buckets<N, V>): (r: set<nat>)
    ensures forall id: nat :: id in r <==> FindAny(bs, id).Some?
  {
    if bs == [] then {} else ChainIds(bs[0]) + Ids(bs[1..])
  }

  /** Search that does not know where an id belongs. */
  ghost function FindAny<N, V>(bs: Buckets<N, V>, id: nat): (r: Option<Cell<N, V>>)
  {
    if bs == [] then None
    else if FindIn(bs[0], id).Some? then FindIn(bs[0], id)
    else FindAny(bs[1..], id)
  }

  ghost function IndexOf<N, V>(t: Table<N, V>): Index<N, V>
    requires |t.buckets| > 0
  {
    Index(map id | id in Ids(t.buckets) :: FindAny(t.buckets, id).value,
          t.lastCleanup)
  }

  // ---------------------------------------------------------------- the simple map

  ghost function IndexCleanup<N, V>(cfg: Config, a: Index<N, V>, now: nat): Index<N, V> {
    if CleanupDue(cfg, a.lastCleanup, now)
    then Index(map id | id in a.cells && Alive(cfg, a.cells[id], now) :: a.cells[id], now)
    else a
  }

  ghost function IndexObtain<N, V>(a: Index<N, V>, id: nat, stamp: nat, node: N): Index<N, V> {
    a.(cells := a.cells[id := if id in a.cells then a.cells[id].(access := stamp) else Cell(node, id, stamp, None)])
  }

  ghost function IndexGet<N, V>(cfg: Config, a: Index<N, V>, id: nat, check: nat, stamp: nat, node: N): Index<N, V> {
    IndexObtain(IndexCleanup(cfg, a, check), id, stamp, node)
  }

  ghost function IndexFind<N, V>(cfg: Config, a: Index<N, V>, id: nat, check: nat, stamp: nat): Index<N, V> {
    var c := IndexCleanup(cfg, a, check);
    if id in c.cells then c.(cells := c.cells[id := c.cells[id].(access := stamp)]) else c
  }

  ghost function IndexStore<N, V>(a: Index<N, V>, id: nat, v: V): Index<N, V> {
    if id in a.cells then a.(cells := a.cells[id := a.cells[id].(value := Some(v))]) else a
  }

  // ---------------------------------------------------------------- lookups

  lemma {:induction false} FoundOnce<N, V>(cs: Chain<N, V>, c: Cell<N, V>)
    requires DistinctIds(cs) && c in cs
    ensures FindIn(cs, c.id) == Some(c)
  {
    if cs[0] != c {
      assert DistinctIds(cs[1..]);
      FoundOnce(cs[1..], c);
    }
  }

  lemma LookupMember<N, V>(bs: Buckets<N, V>, b: nat, c: Cell<N, V>)
    requires WellPlaced(bs) && b < |bs| && c in bs[b]
    ensures c.id % |bs| == b && Lookup(bs, c.id) == Some(c)
  {
    FoundOnce(bs[b], c);
  }

  /** No id occurs twice, in one chain or in two. */
  ghost predicate AllDistinct<N, V>(bs: Buckets<N, V>) {
    bs != [] ==>
      && DistinctIds(bs[0])
      && (forall id: nat :: FindIn(bs[0], id).Some? ==> FindAny(bs[1..], id).None?)
      && AllDistinct(bs[1..])
  }

  lemma {:induction false} PlacedTail<N, V>(bs: Buckets<N, V>, k: nat)
    requires WellPlaced(bs) && k <= |bs|
    ensures AllDistinct(bs[k..])
    ensures forall id: nat :: FindAny(bs[k..], id) == if id % |bs| >= k then Lookup(bs, id) else None
    decreases |bs| - k
  {
    if k < |bs| {
      PlacedTail(bs, k + 1);
      assert bs[k..][0] == bs[k] && bs[k..][1..] == bs[k + 1..];
      forall id: nat ensures FindIn(bs[k], id).Some? ==> id % |bs| == k {
        var r := FindIn(bs[k], id);
        if r.Some? {
          LookupMember(bs, k, r.value);
        }
      }
    }
  }

  /** In a well placed table the bucket of an id is the only place to look. */
  lemma PlacedLookup<N, V>(bs: Buckets<N, V>)
    requires WellPlaced(bs)
    ensures AllDistinct(bs)
    ensures forall id: nat :: FindAny(bs, id) == Lookup(bs, id)
  {
    PlacedTail(bs, 0);
    assert bs[0..] == bs;
  }

  /** Two descriptions of the same index: the table's lookups and a map. */
  ghost predicate Agrees<N, V>(t: Table<N, V>, a: Index<N, V>)
    requires |t.buckets| > 0
  {
    && t.lastCleanup == a.lastCleanup
    && forall id: nat :: Lookup(t.buckets, id) == if id in a.cells then Some(a.cells[id]) else None
  }

  lemma AgreesIsIndexOf<N, V>(t: Table<N, V>, a: Index<N, V>)
    requires WellPlaced(t.buckets)
    ensures Agrees(t, a) <==> IndexOf(t) == a
  {
    PlacedLookup(t.buckets);
    forall id: nat ensures Lookup(t.buckets, id)
                        == if id in IndexOf(t).cells then Some(IndexOf(t).cells[id]) else None
    {
      assert id in Ids(t.buckets) <==> FindAny(t.buckets, id).Some?;
    }
    if Agrees(t, a) {
      assert forall id: nat :: id in IndexOf(t).cells <==> id in a.cells;
      assert IndexOf(t).cells == a.cells;
    }
  }

  // ---------------------------------------------------------------- counting

  lemma {:induction false} LinkedUpdate<N, V>(bs: Buckets<N, V>, b: nat, cs: Chain<N, V>)
    requires b < |bs|
    ensures Linked(bs[b := cs]) == Linked(bs) - |bs[b]| + |cs|
  {
    if b == 0 {
      assert bs[b := cs][1..] == bs[1..];
    } else {
      assert bs[b := cs][1..] == bs[1..][b - 1 := cs];
      LinkedUpdate(bs[1..], b - 1, cs);
    }
  }

  lemma {:induction false} LinkedEmpty<N, V>(bs: Buckets<N, V>)
    requires forall b :: 0 <= b < |bs| ==> bs[b] == []
    ensures Linked(bs) == 0
  {
    if bs != [] {
      LinkedEmpty(bs[1..]);
    }
  }

  lemma {:induction false} ChainIdsSize<N, V>(cs: Chain<N, V>)
    requires DistinctIds(cs)
    ensures |ChainIds(cs)| == |cs|
  {
    if cs != [] {
      ChainIdsSize(cs[1..]);
      assert FindIn(cs[1..], cs[0].id).None?;
    }
  }

  lemma {:induction false} IdsSize<N, V>(bs: Buckets<N, V>)
    requires AllDistinct(bs)
    ensures |Ids(bs)| == Linked(bs)
  {
    if bs != [] {
      ChainIdsSize(bs[0]);
      IdsSize(bs[1..]);
      assert ChainIds(bs[0]) !! Ids(bs[1..]);
    }
  }

  /** `count` equals the linked entries exactly when it is the size of the map. */
  lemma SizeOfIndex<N, V>(t: Table<N, V>)
    requires WellPlaced(t.buckets)
    ensures |IndexOf(t).cells| == Linked(t.buckets)
    ensures Tight(t) <==> |IndexOf(t).cells| == t.count
  {
    PlacedLookup(t.buckets);
    IdsSize(t.buckets);
    assert IndexOf(t).cells.Keys == Ids(t.buckets);
  }

  // ---------------------------------------------------------------- rehash

  lemma PushFrontLookup<N, V>(c: Cell<N, V>, nb: Buckets<N, V>)
    requires WellPlaced(nb) && Lookup(nb, c.id).None?
    ensures WellPlaced(PushFront(c, nb))
    ensures Linked(PushFront(c, nb)) == Linked(nb) + 1
    ensures forall id: nat :: Lookup(PushFront(c, nb), id) == if id == c.id then Some(c) else Lookup(nb, id)
  {
    var b := c.id % |nb|;
    var cs := [c] + nb[b];
    var r: Buckets<N, V> := nb[b := cs];
    LinkedUpdate(nb, b, cs);
    assert DistinctIds(cs) by {
      forall i, j | 0 <= i < j < |cs| ensures cs[i].id != cs[j].id {
        if i == 0 {
          assert cs[j] in nb[b];
        } else {
          assert nb[b][i - 1].id != nb[b][j - 1].id;
        }
      }
    }
    forall d, j | 0 <= d < |r| && 0 <= j < |r[d]| ensures r[d][j].id % |r| == d {
      if d == b && j > 0 {
        assert r[d][j] == nb[b][j - 1];
      }
    }
    forall id: nat ensures Lookup(r, id) == if id == c.id then Some(c) else Lookup(nb, id) {
      if id % |nb| == b {
        assert cs[1..] == nb[b];
      }
    }
  }

  lemma {:induction false} RelinkLookup<N, V>(cs: Chain<N, V>, nb: Buckets<N, V>)
    requires WellPlaced(nb) && DistinctIds(cs)
    requires forall c :: c in cs ==> Lookup(nb, c.id).None?
    ensures WellPlaced(Relink(cs, nb, true))
    ensures Linked(Relink(cs, nb, true)) == Linked(nb) + |cs|
    ensures forall id: nat :: Lookup(Relink(cs, nb, true), id)
                           == if FindIn(cs, id).Some? then FindIn(cs, id) else Lookup(nb, id)
  {
    if cs != [] {
      PushFrontLookup(cs[0], nb);
      var nb' := PushFront(cs[0], nb);
      forall c | c in cs[1..] ensures Lookup(nb', c.id).None? {
        var j :| 0 <= j < |cs[1..]| && cs[1..][j] == c;
        assert cs[j + 1] == c && cs[0].id != cs[j + 1].id;
      }
      RelinkLookup(cs[1..], nb');
    }
  }

  lemma {:induction false} RelinkLiteral<N, V>(bs: Buckets<N, V>, nb: Buckets<N, V>)
    requires |nb| > 0
    ensures RelinkAll(bs, nb, false) == nb
  {
    if bs != [] {
      RelinkChainLiteral(bs[0], nb);
      RelinkLiteral(bs[1..], nb);
    }
  }

  lemma {:induction false} RelinkChainLiteral<N, V>(cs: Chain<N, V>, nb: Buckets<N, V>)
    requires |nb| > 0
    ensures Relink(cs, nb, false) == nb
  {
    if cs != [] {
      RelinkChainLiteral(cs[1..], nb);
    }
  }

  lemma {:induction false} RelinkAllLookup<N, V>(bs: Buckets<N, V>, nb: Buckets<N, V>)
    requires AllDistinct(bs) && WellPlaced(nb)
    requires forall id: nat :: FindAny(bs, id).Some? ==> Lookup(nb, id).None?
    ensures WellPlaced(RelinkAll(bs, nb, true))
    ensures Linked(RelinkAll(bs, nb, true)) == Linked(nb) + Linked(bs)
    ensures forall id: nat :: Lookup(RelinkAll(bs, nb, true), id)
                           == if FindAny(bs, id).Some? then FindAny(bs, id) else Lookup(nb, id)
  {
    if bs != [] {
      forall c | c in bs[0] ensures Lookup(nb, c.id).None? {
        FoundOnce(bs[0], c);
      }
      RelinkLookup(bs[0], nb);
      RelinkAllLookup(bs[1..], Relink(bs[0], nb, true));
    }
  }

  /** Rehash with the head stored keeps every cell, whatever the new size; as written it keeps none. */
  lemma RehashKeeps<N, V>(cfg: Config, t: Table<N, V>)
    requires WellPlaced(t.buckets)
    ensures WellPlaced(Rehash(cfg, t).buckets)
    ensures Linked(Rehash(cfg, t).buckets) == if cfg.headStored then Linked(t.buckets) else 0
    ensures forall id: nat :: Lookup(Rehash(cfg, t).buckets, id)
                           == if cfg.headStored then Lookup(t.buckets, id) else None
  {
    var nb: Buckets<N, V> := EmptyBuckets(t.count * 2 + 1);
    LinkedEmpty(nb);
    if cfg.headStored {
      PlacedLookup(t.buckets);
      RelinkAllLookup(t.buckets, nb);
    } else {
      RelinkLiteral(t.buckets, nb);
    }
  }

  // ---------------------------------------------------------------- cleanup

  lemma {:induction false} SurvivorsLookup<N, V>(cfg: Config, cs: Chain<N, V>, now: nat)
    requires DistinctIds(cs)
    ensures DistinctIds(Survivors(cfg, cs, now))
    ensures forall id: nat :: FindIn(Survivors(cfg, cs, now), id)
                           == if FindIn(cs, id).Some? && Alive(cfg, FindIn(cs, id).value, now)
                              then FindIn(cs, id) else None
  {
    if cs != [] {
      var rest := Survivors(cfg, cs[1..], now);
      SurvivorsLookup(cfg, cs[1..], now);
      var r := Survivors(cfg, cs, now);
      forall c | c in rest ensures c.id != cs[0].id {
        var j :| 0 <= j < |cs[1..]| && cs[1..][j] == c;
        assert cs[j + 1] == c;
      }
      assert FindIn(rest, cs[0].id).None?;
      if Alive(cfg, cs[0], now) {
        assert r[1..] == rest && r[0] == cs[0];
        forall i, j | 0 <= i < j < |r| ensures r[i].id != r[j].id {
          assert r[j] == rest[j - 1];
          if i > 0 {
            assert r[i] == rest[i - 1];
          }
        }
      } else {
        assert r == rest;
      }
    }
  }

  lemma SweptLookup<N, V>(cfg: Config, t: Table<N, V>, now: nat)
    requires Inv(t)
    ensures var s := Swept(cfg, t, now);
            && Inv(s) && (Tight(t) ==> Tight(s))
            && t.count - s.count == Linked(t.buckets) - Linked(s.buckets)
            && forall id: nat :: Lookup(s.buckets, id)
                 == if Lookup(t.buckets, id).Some? && Alive(cfg, Lookup(t.buckets, id).value, now)
                    then Lookup(t.buckets, id) else None
  {
    var s := Swept(cfg, t, now);
    var n := |t.buckets|;
    forall b | 0 <= b < n
      ensures DistinctIds(s.buckets[b])
      ensures forall id: nat :: FindIn(s.buckets[b], id)
                == if FindIn(t.buckets[b], id).Some? && Alive(cfg, FindIn(t.buckets[b], id).value, now)
                   then FindIn(t.buckets[b], id) else None
    {
      SurvivorsLookup(cfg, t.buckets[b], now);
    }
    forall b, j | 0 <= b < n && 0 <= j < |s.buckets[b]| ensures s.buckets[b][j].id % n == b {
      var c := s.buckets[b][j];
      assert c in t.buckets[b];
      LookupMember(t.buckets, b, c);
    }
  }

  lemma EmptyIndex<N, V>(t: Table<N, V>)
    requires WellPlaced(t.buckets)
    ensures Linked(t.buckets) == 0 <==> IndexOf(t).cells == map[]
  {
    SizeOfIndex(t);
    assert |IndexOf(t).cells| == 0 <==> IndexOf(t).cells == map[];
  }

  lemma LookupIsIndex<N, V>(t: Table<N, V>, id: nat)
    requires WellPlaced(t.buckets)
    ensures Lookup(t.buckets, id) == if id in IndexOf(t).cells then Some(IndexOf(t).cells[id]) else None
  {
    AgreesIsIndexOf(t, IndexOf(t));
  }

  lemma RehashRefines<N, V>(cfg: Config, t: Table<N, V>)
    requires Inv(t)
    ensures Inv(Rehash(cfg, t))
    ensures Linked(Rehash(cfg, t).buckets) == if cfg.headStored then Linked(t.buckets) else 0
    ensures IndexOf(Rehash(cfg, t)) == if cfg.headStored then IndexOf(t) else IndexOf(t).(cells := map[])
  {
    RehashKeeps(cfg, t);
    AgreesIsIndexOf(t, IndexOf(t));
    AgreesIsIndexOf(Rehash(cfg, t), if cfg.headStored then IndexOf(t) else IndexOf(t).(cells := map[]));
  }

  lemma SweptRefines<N, V>(cfg: Config, t: Table<N, V>, now: nat)
    requires Inv(t)
    ensures Inv(Swept(cfg, t, now)) && (Tight(t) <==> Tight(Swept(cfg, t, now)))
    ensures CleanupDue(cfg, t.lastCleanup, now) ==>
              IndexOf(Swept(cfg, t, now)) == IndexCleanup(cfg, IndexOf(t), now)
  {
    SweptLookup(cfg, t, now);
    AgreesIsIndexOf(t, IndexOf(t));
    AgreesIsIndexOf(Swept(cfg, t, now), IndexCleanup(cfg, IndexOf(t), now));
  }

  /** A due cleanup leaves the table so sparse that it is rehashed. */
  predicate CleanupRehashes<N, V>(cfg: Config, t: Table<N, V>, now: nat)
    requires Inv(t)
  {
    CleanupDue(cfg, t.lastCleanup, now) && Sparse(Swept(cfg, t, now))
  }

  /** The rehash as written drops survivors: the guard that makes `Cleanup` wrong. */
  predicate CleanupLoses<N, V>(cfg: Config, t: Table<N, V>, now: nat)
    requires Inv(t)
  {
    !cfg.headStored && CleanupRehashes(cfg, t, now) && Linked(Swept(cfg, t, now).buckets) > 0
  }

  lemma CleanupRefines<N, V>(cfg: Config, t: Table<N, V>, now: nat)
    requires Inv(t)
    ensures Inv(Cleanup(cfg, t, now))
    ensures !CleanupLoses(cfg, t, now) ==>
              && IndexOf(Cleanup(cfg, t, now)) == IndexCleanup(cfg, IndexOf(t), now)
              && (Tight(t) ==> Tight(Cleanup(cfg, t, now)))
    ensures CleanupLoses(cfg, t, now) ==>
              && Linked(Cleanup(cfg, t, now).buckets) == 0 < Cleanup(cfg, t, now).count
              && IndexOf(Cleanup(cfg, t, now)).cells == map[]
              && IndexCleanup(cfg, IndexOf(t), now).cells != map[]
  {
    if CleanupDue(cfg, t.lastCleanup, now) {
      var s := Swept(cfg, t, now);
      SweptRefines(cfg, t, now);
      RehashRefines(cfg, s);
      EmptyIndex(s);
    }
  }

  // ---------------------------------------------------------------- one chain replaced

  lemma ChainReplaced<N, V>(bs: Buckets<N, V>, b: nat, cs: Chain<N, V>)
    requires WellPlaced(bs) && b < |bs| && DistinctIds(cs)
    requires forall j :: 0 <= j < |cs| ==> cs[j].id % |bs| == b
    ensures WellPlaced(bs[b := cs])
    ensures Linked(bs[b := cs]) == Linked(bs) - |bs[b]| + |cs|
    ensures forall id: nat :: Lookup(bs[b := cs], id) == if id % |bs| == b then FindIn(cs, id) else Lookup(bs, id)
  {
    LinkedUpdate(bs, b, cs);
  }

  lemma {:induction false} SetAccessLookup<N, V>(cs: Chain<N, V>, key: nat, now: nat)
    ensures forall id: nat :: FindIn(SetAccess(cs, key, now), id)
              == if id == key && FindIn(cs, id).Some? then Some(FindIn(cs, id).value.(access := now)) else FindIn(cs, id)
  {
    if cs != [] && cs[0].id != key {
      SetAccessLookup(cs[1..], key, now);
      assert SetAccess(cs, key, now)[1..] == SetAccess(cs[1..], key, now);
    } else if cs != [] {
      assert SetAccess(cs, key, now)[1..] == cs[1..];
    }
  }

  lemma {:induction false} SetValueLookup<N, V>(cs: Chain<N, V>, key: nat, v: V)
    ensures forall id: nat :: FindIn(SetValue(cs, key, v), id)
              == if id == key && FindIn(cs, id).Some? then Some(FindIn(cs, id).value.(value := Some(v))) else FindIn(cs, id)
  {
    if cs != [] && cs[0].id != key {
      SetValueLookup(cs[1..], key, v);
      assert SetValue(cs, key, v)[1..] == SetValue(cs[1..], key, v);
    } else if cs != [] {
      assert SetValue(cs, key, v)[1..] == cs[1..];
    }
  }

  lemma {:induction false} AppendLookup<N, V>(cs: Chain<N, V>, c: Cell<N, V>)
    ensures forall id: nat :: FindIn(cs + [c], id)
              == if FindIn(cs, id).Some? then FindIn(cs, id) else if id == c.id then Some(c) else None
  {
    if cs != [] {
      AppendLookup(cs[1..], c);
      assert (cs + [c])[1..] == cs[1..] + [c];
    }
  }

  lemma TouchRefines<N, V>(t: Table<N, V>, key: nat, now: nat)
    requires Inv(t)
    ensures Inv(Touch(t, key, now))
    ensures Linked(Touch(t, key, now).buckets) == Linked(t.buckets)
    ensures IndexOf(Touch(t, key, now)) ==
              if key in IndexOf(t).cells
              then IndexOf(t).(cells := IndexOf(t).cells[key := IndexOf(t).cells[key].(access := now)])
              else IndexOf(t)
  {
    var b := key % |t.buckets|;
    SetAccessLookup(t.buckets[b], key, now);
    ChainReplaced(t.buckets, b, SetAccess(t.buckets[b], key, now));
    var a := IndexOf(t);
    AgreesIsIndexOf(t, a);
    var a' := if key in a.cells then a.(cells := a.cells[key := a.cells[key].(access := now)]) else a;
    assert Agrees(Touch(t, key, now), a');
    AgreesIsIndexOf(Touch(t, key, now), a');
  }

  lemma StoreRefines<N, V>(t: Table<N, V>, key: nat, v: V)
    requires Inv(t)
    ensures Inv(Store(t, key, v))
    ensures Linked(Store(t, key, v).buckets) == Linked(t.buckets)
    ensures IndexOf(Store(t, key, v)) == IndexStore(IndexOf(t), key, v)
  {
    var b := key % |t.buckets|;
    SetValueLookup(t.buckets[b], key, v);
    ChainReplaced(t.buckets, b, SetValue(t.buckets[b], key, v));
    var a := IndexOf(t);
    AgreesIsIndexOf(t, a);
    assert Agrees(Store(t, key, v), IndexStore(a, key, v));
    AgreesIsIndexOf(Store(t, key, v), IndexStore(a, key, v));
  }

  lemma AppendRefines<N, V>(t: Table<N, V>, c: Cell<N, V>)
    requires WellPlaced(t.buckets) && Linked(t.buckets) < t.count
    requires Lookup(t.buckets, c.id).None?
    ensures var b := c.id % |t.buckets|;
            var r := t.(buckets := t.buckets[b := t.buckets[b] + [c]]);
            && Inv(r) && Linked(r.buckets) == Linked(t.buckets) + 1
            && IndexOf(r) == IndexOf(t).(cells := IndexOf(t).cells[c.id := c])
  {
    var b := c.id % |t.buckets|;
    var cs := t.buckets[b] + [c];
    var r := t.(buckets := t.buckets[b := cs]);
    AppendLookup(t.buckets[b], c);
    forall i, j | 0 <= i < j < |cs| ensures cs[i].id != cs[j].id {
      if j == |cs| - 1 {
        assert cs[i] in t.buckets[b];
      }
    }
    ChainReplaced(t.buckets, b, cs);
    var a := IndexOf(t);
    AgreesIsIndexOf(t, a);
    var a' := a.(cells := a.cells[c.id := c]);
    assert Agrees(r, a');
    AgreesIsIndexOf(r, a');
  }

  // ---------------------------------------------------------------- insertion

  predicate InsertRehashes<N, V>(t: Table<N, V>) {
    t.count + 1 > |t.buckets|
  }

  predicate InsertLoses<N, V>(cfg: Config, t: Table<N, V>) {
    !cfg.headStored && InsertRehashes(t) && Linked(t.buckets) > 0
  }

  /** Growth leaves a free place for an id that was absent. */
  lemma GrownLacks<N, V>(cfg: Config, t: Table<N, V>, key: nat)
    requires Inv(t) && Lookup(t.buckets, key).None?
    ensures Inv(Grown(cfg, t)) && Linked(Grown(cfg, t).buckets) < Grown(cfg, t).count
    ensures Lookup(Grown(cfg, t).buckets, key).None?
  {
    RehashKeeps(cfg, t.(count := t.count + 1));
  }

  lemma GrownRefines<N, V>(cfg: Config, t: Table<N, V>)
    requires Inv(t)
    ensures Grown(cfg, t).count == t.count + 1
    ensures IndexOf(Grown(cfg, t)) == if InsertLoses(cfg, t) then IndexOf(t).(cells := map[]) else IndexOf(t)
    ensures Linked(Grown(cfg, t).buckets) == if InsertLoses(cfg, t) then 0 else Linked(t.buckets)
    ensures InsertLoses(cfg, t) ==> 0 < Linked(t.buckets) && IndexOf(t).cells != map[]
  {
    var c := t.(count := t.count + 1);
    assert IndexOf(c) == IndexOf(t);
    RehashRefines(cfg, c);
    EmptyIndex(t);
  }

  lemma InsertRefines<N, V>(cfg: Config, t: Table<N, V>, key: nat, now: nat, node: N)
    requires Inv(t) && Lookup(t.buckets, key).None?
    ensures Inv(Insert(cfg, t, key, now, node))
    ensures !InsertLoses(cfg, t) ==>
              && IndexOf(Insert(cfg, t, key, now, node))
                 == IndexOf(t).(cells := IndexOf(t).cells[key := Cell(node, key, now, None)])
              && (Tight(t) ==> Tight(Insert(cfg, t, key, now, node)))
    ensures InsertLoses(cfg, t) ==>
              && Linked(Insert(cfg, t, key, now, node).buckets) == 1 < Insert(cfg, t, key, now, node).count
              && IndexOf(Insert(cfg, t, key, now, node)).cells == map[key := Cell(node, key, now, None)]
              && IndexOf(t).cells != map[]
  {
    GrownLacks(cfg, t, key);
    GrownRefines(cfg, t);
    AppendRefines(Grown(cfg, t), Cell(node, key, now, None));
  }

  // ---------------------------------------------------------------- get and find

  predicate ObtainLoses<N, V>(cfg: Config, t: Table<N, V>, key: nat)
    requires |t.buckets| > 0
  {
    Lookup(t.buckets, key).None? && InsertLoses(cfg, t)
  }

  /** The exact guard under which the rehash as written makes one `get` forget live entries. */
  predicate GetLoses<N, V>(cfg: Config, t: Table<N, V>, key: nat, check: nat)
    requires Inv(t)
  {
    CleanupKeepsSize(cfg, t, check);
    CleanupLoses(cfg, t, check) || ObtainLoses(cfg, Cleanup(cfg, t, check), key)
  }

  lemma ObtainRefines<N, V>(cfg: Config, t: Table<N, V>, key: nat, stamp: nat, node: N)
    requires Inv(t)
    ensures Inv(Obtain(cfg, t, key, stamp, node))
    ensures !ObtainLoses(cfg, t, key) ==>
              && IndexOf(Obtain(cfg, t, key, stamp, node)) == IndexObtain(IndexOf(t), key, stamp, node)
              && (Tight(t) ==> Tight(Obtain(cfg, t, key, stamp, node)))
    ensures ObtainLoses(cfg, t, key) ==>
              && !Tight(Obtain(cfg, t, key, stamp, node))
              && IndexOf(Obtain(cfg, t, key, stamp, node)).cells == map[key := Cell(node, key, stamp, None)]
              && IndexOf(t).cells != map[]
  {
    LookupIsIndex(t, key);
    if Lookup(t.buckets, key).Some? {
      TouchRefines(t, key, stamp);
    } else {
      InsertRefines(cfg, t, key, stamp, node);
    }
  }

  lemma GetRefines<N, V>(cfg: Config, t: Table<N, V>, key: nat, check: nat, stamp: nat, node: N)
    requires Inv(t)
    ensures Inv(Get(cfg, t, key, check, stamp, node))
    ensures !GetLoses(cfg, t, key, check) ==>
              && IndexOf(Get(cfg, t, key, check, stamp, node)) == IndexGet(cfg, IndexOf(t), key, check, stamp, node)
              && (Tight(t) ==> Tight(Get(cfg, t, key, check, stamp, node)))
  {
    CleanupRefines(cfg, t, check);
    ObtainRefines(cfg, Cleanup(cfg, t, check), key, stamp, node);
  }

  lemma FindRefines<N, V>(cfg: Config, t: Table<N, V>, key: nat, check: nat, stamp: nat)
    requires Inv(t)
    ensures Inv(Find(cfg, t, key, check, stamp))
    ensures !CleanupLoses(cfg, t, check) ==>
              && IndexOf(Find(cfg, t, key, check, stamp)) == IndexFind(cfg, IndexOf(t), key, check, stamp)
              && (Tight(t) ==> Tight(Find(cfg, t, key, check, stamp)))
  {
    CleanupRefines(cfg, t, check);
    TouchRefines(Cleanup(cfg, t, check), key, stamp);
  }

  // ---------------------------------------------------------------- count never recovers

  /** Entries that `count` still includes and no chain reaches. */
  ghost function Missing<N, V>(t: Table<N, V>): int {
    t.count - Linked(t.buckets)
  }

  lemma CleanupMissing<N, V>(cfg: Config, t: Table<N, V>, now: nat)
    requires Inv(t)
    ensures Missing(Cleanup(cfg, t, now)) >= Missing(t)
    ensures CleanupLoses(cfg, t, now) <==> Missing(Cleanup(cfg, t, now)) > Missing(t)
  {
    if CleanupDue(cfg, t.lastCleanup, now) {
      SweptLookup(cfg, t, now);
      RehashRefines(cfg, Swept(cfg, t, now));
    }
  }

  lemma ObtainMissing<N, V>(cfg: Config, t: Table<N, V>, key: nat, stamp: nat, node: N)
    requires Inv(t)
    ensures Missing(Obtain(cfg, t, key, stamp, node)) >= Missing(t)
    ensures ObtainLoses(cfg, t, key) <==> Missing(Obtain(cfg, t, key, stamp, node)) > Missing(t)
  {
    LookupIsIndex(t, key);
    if Lookup(t.buckets, key).Some? {
      TouchRefines(t, key, stamp);
    } else {
      var c := t.(count := t.count + 1);
      RehashRefines(cfg, c);
      LookupIsIndex(Grown(cfg, t), key);
      assert IndexOf(c) == IndexOf(t);
      AppendRefines(Grown(cfg, t), Cell(node, key, stamp, None));
    }
  }

  /** Once `count` is wrong it stays wrong, and `get` makes it wrong exactly under `GetLoses`. */
  lemma GetMissing<N, V>(cfg: Config, t: Table<N, V>, key: nat, check: nat, stamp: nat, node: N)
    requires Inv(t)
    ensures Missing(Get(cfg, t, key, check, stamp, node)) >= Missing(t)
    ensures GetLoses(cfg, t, key, check) <==> Missing(Get(cfg, t, key, check, stamp, node)) > Missing(t)
  {
    CleanupRefines(cfg, t, check);
    CleanupMissing(cfg, t, check);
    ObtainMissing(cfg, Cleanup(cfg, t, check), key, stamp, node);
  }

  lemma FindMissing<N, V>(cfg: Config, t: Table<N, V>, key: nat, check: nat, stamp: nat)
    requires Inv(t)
    ensures Missing(Find(cfg, t, key, check, stamp)) >= Missing(t)
    ensures CleanupLoses(cfg, t, check) <==> Missing(Find(cfg, t, key, check, stamp)) > Missing(t)
  {
    CleanupRefines(cfg, t, check);
    CleanupMissing(cfg, t, check);
    TouchRefines(Cleanup(cfg, t, check), key, stamp);
  }
}
