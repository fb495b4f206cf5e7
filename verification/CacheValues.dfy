/** Where the values go: what a cleanup frees and what stays linked make up what was there. */
module CacheValues {
  import opened Words
  import opened CacheTable
  import opened CacheRefinement
  import opened CacheRuns

  ghost function Owned<N, V>(bs: Buckets<N, V>): multiset<V> {
    multiset(Values(bs))
  }

  ghost function OwnedIn<N, V>(cs: Chain<N, V>): multiset<V> {
    multiset(ValuesIn(cs))
  }

  lemma OwnedHead<N, V>(bs: Buckets<N, V>)
    requires bs != []
    ensures Owned(bs) == OwnedIn(bs[0]) + Owned(bs[1..])
  {
  }

  // ---------------------------------------------------------------- the sweep

  lemma {:induction false} ChainConserves<N, V>(cfg: Config, cs: Chain<N, V>, now: nat)
    ensures OwnedIn(cs) == multiset(ReleasedIn(cfg, cs, now)) + OwnedIn(Survivors(cfg, cs, now))
  {
    if cs != [] {
      ChainConserves(cfg, cs[1..], now);
      var s: Chain<N, V> := Survivors(cfg, cs, now);
      assert Alive(cfg, cs[0], now) ==> s[0] == cs[0] && s[1..] == Survivors(cfg, cs[1..], now);
      assert !Alive(cfg, cs[0], now) ==> s == Survivors(cfg, cs[1..], now);
    }
  }

  lemma {:induction false} SweepConserves<N, V>(cfg: Config, bs: Buckets<N, V>, now: nat)
    ensures Owned(bs) == multiset(Released(cfg, bs, now)) + Owned(Sweep(cfg, bs, now))
  {
    if bs != [] {
      SweepConserves(cfg, bs[1..], now);
      ChainConserves(cfg, bs[0], now);
      assert Sweep(cfg, bs, now)[1..] == Sweep(cfg, bs[1..], now);
    }
  }

  // ---------------------------------------------------------------- the rehash

  lemma AddBoth<V>(head: multiset<V>, a: multiset<V>, b: multiset<V>, c: multiset<V>, d: multiset<V>)
    requires a + b == c + d
    ensures head + a + b == head + c + d
  {
    assert head + a + b == head + (a + b);
    assert head + c + d == head + (c + d);
  }

  lemma CommonCancels<V>(a: multiset<V>, b: multiset<V>, c: multiset<V>, d: multiset<V>)
    requires a + b == c + (d + b)
    ensures a == d + c
  {
    assert a == a + b - b && d + c == c + (d + b) - b;
  }

  lemma {:induction false} OwnedUpdate<N, V>(bs: Buckets<N, V>, b: nat, cs: Chain<N, V>)
    requires b < |bs|
    ensures Owned(bs[b := cs]) + OwnedIn(bs[b]) == Owned(bs) + OwnedIn(cs)
  {
    if b == 0 {
      assert bs[b := cs][1..] == bs[1..];
    } else {
      var r: Buckets<N, V> := bs[b := cs];
      assert r[1..] == bs[1..][b - 1 := cs] && r[0] == bs[0];
      OwnedUpdate(bs[1..], b - 1, cs);
      OwnedHead(bs);
      OwnedHead(r);
      AddBoth(OwnedIn(bs[0]), Owned(r[1..]), OwnedIn(bs[b]), Owned(bs[1..]), OwnedIn(cs));
    }
  }

  lemma OwnedPush<N, V>(c: Cell<N, V>, nb: Buckets<N, V>)
    requires |nb| > 0
    ensures Owned(PushFront(c, nb)) == OwnedIn([c]) + Owned(nb)
  {
    var h := c.id % |nb|;
    OwnedUpdate(nb, h, [c] + nb[h]);
    OwnedCons(c, nb[h]);
    CommonCancels(Owned(PushFront(c, nb)), OwnedIn(nb[h]), Owned(nb), OwnedIn([c]));
  }

  lemma OwnedCons<N, V>(c: Cell<N, V>, cs: Chain<N, V>)
    ensures OwnedIn([c] + cs) == OwnedIn([c]) + OwnedIn(cs)
  {
    var one := if c.value.Some? then [c.value.value] else [];
    assert ([c] + cs)[0] == c && ([c] + cs)[1..] == cs;
    assert ValuesIn([c] + cs) == one + ValuesIn(cs);
    assert [c][1..] == [];
    assert ValuesIn([c]) == one + [];
    assert one + [] == one;
  }

  lemma SumReordered<V>(a: multiset<V>, b: multiset<V>, c: multiset<V>)
    ensures a + (b + c) == b + a + c
  {
  }

  lemma {:induction false} RelinkOwned<N, V>(cs: Chain<N, V>, nb: Buckets<N, V>)
    requires |nb| > 0
    ensures Owned(Relink(cs, nb, true)) == OwnedIn(cs) + Owned(nb)
  {
    if cs != [] {
      OwnedPush(cs[0], nb);
      RelinkOwned(cs[1..], PushFront(cs[0], nb));
      OwnedCons(cs[0], cs[1..]);
      assert [cs[0]] + cs[1..] == cs;
      SumReordered(OwnedIn(cs[1..]), OwnedIn([cs[0]]), Owned(nb));
    }
  }

  lemma {:induction false} RelinkAllOwned<N, V>(bs: Buckets<N, V>, nb: Buckets<N, V>)
    requires |nb| > 0
    ensures Owned(RelinkAll(bs, nb, true)) == Owned(bs) + Owned(nb)
  {
    if bs != [] {
      RelinkOwned(bs[0], nb);
      RelinkAllOwned(bs[1..], Relink(bs[0], nb, true));
      OwnedHead(bs);
      SumReordered(Owned(bs[1..]), OwnedIn(bs[0]), Owned(nb));
    }
  }

  lemma {:induction false} EmptyOwned<N, V>(bs: Buckets<N, V>)
    requires Linked(bs) == 0
    ensures Owned(bs) == multiset{}
  {
    if bs != [] {
      EmptyOwned(bs[1..]);
    }
  }

  lemma RehashOwned<N, V>(cfg: Config, t: Table<N, V>)
    requires Inv(t)
    ensures Owned(Rehash(cfg, t).buckets) == if cfg.headStored then Owned(t.buckets) else multiset{}
  {
    var none: Buckets<N, V> := EmptyBuckets(t.count * 2 + 1);
    LinkedEmpty(none);
    EmptyOwned(none);
    RehashRefines(cfg, t);
    if cfg.headStored {
      RelinkAllOwned(t.buckets, none);
    } else {
      EmptyOwned(Rehash(cfg, t).buckets);
    }
  }

  /** A cleanup frees each value it unlinks once and keeps the others; what a losing rehash drops is
      neither freed nor linked. */
  lemma CleanupConserves<N, V>(cfg: Config, t: Table<N, V>, now: nat)
    requires Inv(t) && CleanupDue(cfg, t.lastCleanup, now)
    ensures Owned(t.buckets) == multiset(Released(cfg, t.buckets, now)) + Owned(Cleanup(cfg, t, now).buckets)
                                + if CleanupLoses(cfg, t, now) then Owned(Swept(cfg, t, now).buckets) else multiset{}
  {
    var s := Swept(cfg, t, now);
    SweepConserves(cfg, t.buckets, now);
    SweptRefines(cfg, t, now);
    assert Owned(t.buckets) == multiset(Released(cfg, t.buckets, now)) + Owned(s.buckets);
    if Sparse(s) {
      RehashOwned(cfg, s);
      if Linked(s.buckets) == 0 {
        EmptyOwned(s.buckets);
      }
    }
  }

  /** Survivors keep the order they had in their chain. */
  lemma {:induction false} SurvivorOrder<N, V>(cfg: Config, cs: Chain<N, V>, now: nat, i: nat, j: nat) returns (k: nat, l: nat)
    requires i < j < |Survivors(cfg, cs, now)|
    ensures k < l < |cs| && cs[k] == Survivors(cfg, cs, now)[i] && cs[l] == Survivors(cfg, cs, now)[j]
  {
    var rest: Chain<N, V> := Survivors(cfg, cs[1..], now);
    if !Alive(cfg, cs[0], now) {
      k, l := SurvivorOrder(cfg, cs[1..], now, i, j);
      k, l := k + 1, l + 1;
    } else if i > 0 {
      k, l := SurvivorOrder(cfg, cs[1..], now, i - 1, j - 1);
      k, l := k + 1, l + 1;
    } else {
      assert Survivors(cfg, cs, now)[j] == rest[j - 1];
      assert rest[j - 1] in cs[1..];
      var m :| 0 <= m < |cs[1..]| && cs[1..][m] == rest[j - 1];
      k, l := 0, m + 1;
    }
  }

  // ---------------------------------------------------------------- whole runs

  lemma {:induction false} SetAccessValues<N, V>(cs: Chain<N, V>, id: nat, now: nat)
    ensures ValuesIn(SetAccess(cs, id, now)) == ValuesIn(cs)
  {
    if cs != [] && cs[0].id != id {
      SetAccessValues(cs[1..], id, now);
      assert SetAccess(cs, id, now)[1..] == SetAccess(cs[1..], id, now);
    } else if cs != [] {
      assert SetAccess(cs, id, now)[1..] == cs[1..];
    }
  }

  /** The pointer that a write through the entry for `id` replaces. */
  ghost function Overwritten<N, V>(found: Option<Cell<N, V>>): multiset<V> {
    if found.Some? && found.value.value.Some? then multiset{found.value.value.value} else multiset{}
  }

  ghost function Written<N, V>(found: Option<Cell<N, V>>, v: V): multiset<V> {
    if found.Some? then multiset{v} else multiset{}
  }

  lemma OneOwned<N, V>(c: Cell<N, V>)
    ensures OwnedIn([c]) == if c.value.Some? then multiset{c.value.value} else multiset{}
  {
    var one := if c.value.Some? then [c.value.value] else [];
    assert [c][1..] == [];
    assert ValuesIn([c]) == one + [];
    assert one + [] == one;
  }

  lemma {:induction false} SetValueOwned<N, V>(cs: Chain<N, V>, id: nat, v: V)
    ensures OwnedIn(SetValue(cs, id, v)) + Overwritten(FindIn(cs, id)) == OwnedIn(cs) + Written(FindIn(cs, id), v)
  {
    if cs != [] {
      var c, rest := cs[0], cs[1..];
      assert cs == [c] + rest;
      OwnedCons(c, rest);
      if c.id != id {
        assert SetValue(cs, id, v) == [c] + SetValue(rest, id, v);
        OwnedCons(c, SetValue(rest, id, v));
        SetValueOwned(rest, id, v);
        AddBoth(OwnedIn([c]), OwnedIn(SetValue(rest, id, v)), Overwritten(FindIn(rest, id)),
                OwnedIn(rest), Written(FindIn(rest, id), v));
      } else {
        var d := c.(value := Some(v));
        assert SetValue(cs, id, v) == [d] + rest;
        OwnedCons(d, rest);
        OneOwned(c);
        OneOwned(d);
      }
    }
  }

  lemma {:induction false} AppendOwned<N, V>(cs: Chain<N, V>, c: Cell<N, V>)
    requires c.value.None?
    ensures ValuesIn(cs + [c]) == ValuesIn(cs)
  {
    if cs == [] {
      assert [] + [c] == [c] && [c][1..] == [];
    } else {
      assert (cs + [c])[1..] == cs[1..] + [c];
      AppendOwned(cs[1..], c);
    }
  }

  lemma SameInBucket<N, V>(bs: Buckets<N, V>, b: nat, cs: Chain<N, V>)
    requires b < |bs| && ValuesIn(cs) == ValuesIn(bs[b])
    ensures Owned(bs[b := cs]) == Owned(bs)
  {
    OwnedUpdate(bs, b, cs);
    CommonCancels(Owned(bs[b := cs]), OwnedIn(bs[b]), Owned(bs), multiset{});
  }

  lemma TouchOwned<N, V>(t: Table<N, V>, id: nat, now: nat)
    requires |t.buckets| > 0
    ensures Owned(Touch(t, id, now).buckets) == Owned(t.buckets)
  {
    var b := id % |t.buckets|;
    SetAccessValues(t.buckets[b], id, now);
    SameInBucket(t.buckets, b, SetAccess(t.buckets[b], id, now));
  }

  lemma GrownOwned<N, V>(cfg: Config, t: Table<N, V>)
    requires Inv(t)
    ensures Owned(Grown(cfg, t).buckets) == if InsertLoses(cfg, t) then multiset{} else Owned(t.buckets)
  {
    var c := t.(count := t.count + 1);
    if Linked(t.buckets) == 0 {
      EmptyOwned(t.buckets);
    }
    if InsertRehashes(t) {
      assert Inv(c) && Grown(cfg, t) == Rehash(cfg, c);
      RehashOwned(cfg, c);
    } else {
      assert Grown(cfg, t) == c;
    }
  }

  lemma InsertOwned<N, V>(cfg: Config, t: Table<N, V>, id: nat, now: nat, node: N)
    requires Inv(t)
    ensures Owned(Insert(cfg, t, id, now, node).buckets) == if InsertLoses(cfg, t) then multiset{} else Owned(t.buckets)
  {
    var g := Grown(cfg, t);
    GrownOwned(cfg, t);
    AttachOwned(g.buckets, id % |g.buckets|, Cell(node, id, now, None));
  }

  lemma AttachOwned<N, V>(bs: Buckets<N, V>, b: nat, c: Cell<N, V>)
    requires b < |bs| && c.value.None?
    ensures Owned(bs[b := bs[b] + [c]]) == Owned(bs)
  {
    AppendOwned(bs[b], c);
    SameInBucket(bs, b, bs[b] + [c]);
  }

  lemma ObtainOwned<N, V>(cfg: Config, t: Table<N, V>, id: nat, now: nat, node: N)
    requires Inv(t)
    ensures Owned(Obtain(cfg, t, id, now, node).buckets) == if ObtainLoses(cfg, t, id) then multiset{} else Owned(t.buckets)
  {
    TouchOwned(t, id, now);
    InsertOwned(cfg, t, id, now, node);
  }

  lemma StoreOwned<N, V>(t: Table<N, V>, id: nat, v: V)
    requires |t.buckets| > 0
    ensures Owned(Store(t, id, v).buckets) + Overwritten(Lookup(t.buckets, id))
         == Owned(t.buckets) + Written(Lookup(t.buckets, id), v)
  {
    var b := id % |t.buckets|;
    var was, now := t.buckets[b], SetValue(t.buckets[b], id, v);
    SetValueOwned(was, id, v);
    OwnedUpdate(t.buckets, b, now);
    BalancesReplace(Owned(Store(t, id, v).buckets), OwnedIn(was), Owned(t.buckets), OwnedIn(now),
                    Overwritten(Lookup(t.buckets, id)), Written(Lookup(t.buckets, id), v));
  }

  lemma BalancesReplace<V>(after: multiset<V>, o: multiset<V>, before: multiset<V>, n: multiset<V>, gone: multiset<V>, come: multiset<V>)
    requires after + o == before + n && n + gone == o + come
    ensures after + gone == before + come
  {
    assert after + gone + (o + n) == before + come + (o + n) by {
      assert after + gone + (o + n) == (after + o) + (n + gone);
      assert before + come + (o + n) == (before + n) + (o + come);
    }
    assert after + gone == after + gone + (o + n) - (o + n);
    assert before + come == before + come + (o + n) - (o + n);
  }

  /** What one call frees, what it writes into an entry, and what that write replaces. */
  ghost function StepFreed<N, V>(cfg: Config, t: Table<N, V>, op: Op<N, V>): multiset<V> {
    if !op.OpStore? && CleanupDue(cfg, t.lastCleanup, op.check) then multiset(Released(cfg, t.buckets, op.check)) else multiset{}
  }

  ghost function StepWritten<N, V>(t: Table<N, V>, op: Op<N, V>): multiset<V>
    requires |t.buckets| > 0
  {
    if op.OpStore? then Written(Lookup(t.buckets, op.key), op.value) else multiset{}
  }

  ghost function StepReplaced<N, V>(t: Table<N, V>, op: Op<N, V>): multiset<V>
    requires |t.buckets| > 0
  {
    if op.OpStore? then Overwritten(Lookup(t.buckets, op.key)) else multiset{}
  }

  /** What a losing rehash drops in one call: neither freed nor linked any more. */
  ghost function CleanupLost<N, V>(cfg: Config, t: Table<N, V>, check: nat): multiset<V>
    requires Inv(t)
  {
    if CleanupLoses(cfg, t, check) then Owned(Swept(cfg, t, check).buckets) else multiset{}
  }

  ghost function ObtainLost<N, V>(cfg: Config, t: Table<N, V>, key: nat): multiset<V>
    requires |t.buckets| > 0
  {
    if ObtainLoses(cfg, t, key) then Owned(t.buckets) else multiset{}
  }

  ghost function StepLost<N, V>(cfg: Config, t: Table<N, V>, op: Op<N, V>): multiset<V>
    requires Inv(t)
  {
    if op.OpStore? then multiset{}
    else
      CleanupKeepsSize(cfg, t, op.check);
      CleanupLost(cfg, t, op.check)
      + if op.OpGet? then ObtainLost(cfg, Cleanup(cfg, t, op.check), op.key) else multiset{}
  }

  lemma CleanupKeepsValues<N, V>(cfg: Config, t: Table<N, V>, op: Op<N, V>)
    requires Inv(t) && !op.OpStore?
    ensures Inv(Cleanup(cfg, t, op.check))
    ensures Owned(t.buckets)
         == StepFreed(cfg, t, op) + Owned(Cleanup(cfg, t, op.check).buckets) + CleanupLost(cfg, t, op.check)
  {
    CleanupRefines(cfg, t, op.check);
    if CleanupDue(cfg, t.lastCleanup, op.check) {
      CleanupConserves(cfg, t, op.check);
    }
  }

  lemma StoreConserves<N, V>(cfg: Config, t: Table<N, V>, op: Op<N, V>)
    requires Inv(t) && op.OpStore?
    ensures Inv(Step(cfg, t, op))
    ensures Owned(t.buckets) + StepWritten(t, op)
         == StepFreed(cfg, t, op) + StepReplaced(t, op) + StepLost(cfg, t, op) + Owned(Step(cfg, t, op).buckets)
  {
    StoreRefines(t, op.key, op.value);
    StoreOwned(t, op.key, op.value);
  }

  lemma LookConserves<N, V>(cfg: Config, t: Table<N, V>, op: Op<N, V>)
    requires Inv(t) && !op.OpStore?
    ensures Inv(Step(cfg, t, op))
    ensures Owned(t.buckets) == StepFreed(cfg, t, op) + StepLost(cfg, t, op) + Owned(Step(cfg, t, op).buckets)
  {
    StepRefines(cfg, t, op);
    CleanupKeepsValues(cfg, t, op);
    var c := Cleanup(cfg, t, op.check);
    if op.OpGet? {
      ObtainOwned(cfg, c, op.key, op.stamp, op.node);
      assert Owned(c.buckets) == ObtainLost(cfg, c, op.key) + Owned(Step(cfg, t, op).buckets);
      AddLoss(StepFreed(cfg, t, op), Owned(c.buckets), CleanupLost(cfg, t, op.check), ObtainLost(cfg, c, op.key),
              Owned(Step(cfg, t, op).buckets));
    } else {
      TouchOwned(c, op.key, op.stamp);
    }
  }

  lemma AddLoss<V>(freed: multiset<V>, kept: multiset<V>, first: multiset<V>, second: multiset<V>, after: multiset<V>)
    requires kept == second + after
    ensures freed + kept + first == freed + (first + second) + after
  {
  }

  /** One call, as written or completed: what was linked or is written is freed, replaced, lost by a
      rehash or linked afterwards. */
  lemma StepConserves<N, V>(cfg: Config, t: Table<N, V>, op: Op<N, V>)
    requires Inv(t)
    ensures Inv(Step(cfg, t, op))
    ensures Owned(t.buckets) + StepWritten(t, op)
         == StepFreed(cfg, t, op) + StepReplaced(t, op) + StepLost(cfg, t, op) + Owned(Step(cfg, t, op).buckets)
  {
    if op.OpStore? {
      StoreConserves(cfg, t, op);
    } else {
      LookConserves(cfg, t, op);
    }
  }

  datatype Ledger<V> = Ledger(written: multiset<V>, freed: multiset<V>, replaced: multiset<V>, lost: multiset<V>)

  ghost function RunLedger<N, V>(cfg: Config, t: Table<N, V>, ops: seq<Op<N, V>>): Ledger<V>
    requires Inv(t)
    decreases |ops|
  {
    if ops == [] then Ledger(multiset{}, multiset{}, multiset{}, multiset{})
    else
      StepRefines(cfg, t, ops[0]);
      var l := RunLedger(cfg, Step(cfg, t, ops[0]), ops[1..]);
      Ledger(StepWritten(t, ops[0]) + l.written, StepFreed(cfg, t, ops[0]) + l.freed,
             StepReplaced(t, ops[0]) + l.replaced, StepLost(cfg, t, ops[0]) + l.lost)
  }

  lemma BalancesAdd<V>(o: multiset<V>, m: multiset<V>, e: multiset<V>, a: Ledger<V>, b: Ledger<V>)
    requires o + a.written == a.freed + a.replaced + a.lost + m && m + b.written == b.freed + b.replaced + b.lost + e
    ensures o + (a.written + b.written) == (a.freed + b.freed) + (a.replaced + b.replaced) + (a.lost + b.lost) + e
  {
    assert o + (a.written + b.written) == (o + a.written) + b.written;
    assert a.freed + a.replaced + a.lost + m + b.written == a.freed + a.replaced + a.lost + (m + b.written);
  }

  /** The books of any run balance, as written or completed: every value written is at the end in exactly
      one place. It was freed by a cleanup, replaced by a later write or lost by a rehash, or it is still
      linked, where `sysm_cache_destroy` frees it. */
  lemma {:induction false} RunConserves<N, V>(cfg: Config, t: Table<N, V>, ops: seq<Op<N, V>>)
    requires Inv(t)
    ensures var l := RunLedger(cfg, t, ops);
            Owned(t.buckets) + l.written == l.freed + l.replaced + l.lost + Owned(Run(cfg, t, ops).buckets)
    decreases |ops|
  {
    if ops != [] {
      var op := ops[0];
      StepConserves(cfg, t, op);
      var t' := Step(cfg, t, op);
      RunConserves(cfg, t', ops[1..]);
      BalancesAdd(Owned(t.buckets), Owned(t'.buckets), Owned(Run(cfg, t', ops[1..]).buckets),
                  Ledger(StepWritten(t, op), StepFreed(cfg, t, op), StepReplaced(t, op), StepLost(cfg, t, op)),
                  RunLedger(cfg, t', ops[1..]));
    }
  }

  // ---------------------------------------------------------------- when nothing is lost

  predicate HoldsValueIn<N, V>(cs: Chain<N, V>) {
    cs != [] && (cs[0].value.Some? || HoldsValueIn(cs[1..]))
  }

  /** Some linked entry has a value. */
  predicate HoldsValue<N, V>(bs: Buckets<N, V>) {
    bs != [] && (HoldsValueIn(bs[0]) || HoldsValue(bs[1..]))
  }

  lemma {:induction false} OwnedInExact<N, V>(cs: Chain<N, V>)
    ensures OwnedIn(cs) != multiset{} <==> HoldsValueIn(cs)
  {
    if cs != [] {
      OwnedInExact(cs[1..]);
      OwnedCons(cs[0], cs[1..]);
      OneOwned(cs[0]);
      assert [cs[0]] + cs[1..] == cs;
      SumEmpty(OwnedIn([cs[0]]), OwnedIn(cs[1..]));
    }
  }

  lemma SumEmpty<V>(a: multiset<V>, b: multiset<V>)
    ensures a + b == multiset{} <==> a == multiset{} && b == multiset{}
  {
    assert |a + b| == |a| + |b|;
  }

  lemma {:induction false} OwnedExact<N, V>(bs: Buckets<N, V>)
    ensures Owned(bs) != multiset{} <==> HoldsValue(bs)
  {
    if bs != [] {
      OwnedExact(bs[1..]);
      OwnedInExact(bs[0]);
      OwnedHead(bs);
      SumEmpty(OwnedIn(bs[0]), Owned(bs[1..]));
    }
  }

  /** A losing rehash of this call drops an entry that has a value. */
  predicate DropsValue<N, V>(cfg: Config, t: Table<N, V>, op: Op<N, V>)
    requires Inv(t)
  {
    !op.OpStore? &&
    (CleanupKeepsSize(cfg, t, op.check);
     var c := Cleanup(cfg, t, op.check);
     || (CleanupLoses(cfg, t, op.check) && HoldsValue(Swept(cfg, t, op.check).buckets))
     || (op.OpGet? && ObtainLoses(cfg, c, op.key) && HoldsValue(c.buckets)))
  }

  lemma LostExact<N, V>(cfg: Config, t: Table<N, V>, op: Op<N, V>)
    requires Inv(t)
    ensures StepLost(cfg, t, op) != multiset{} <==> DropsValue(cfg, t, op)
    ensures DropsValue(cfg, t, op) ==> Loses(cfg, t, op)
  {
    if !op.OpStore? {
      CleanupKeepsSize(cfg, t, op.check);
      OwnedExact(Swept(cfg, t, op.check).buckets);
      OwnedExact(Cleanup(cfg, t, op.check).buckets);
    }
  }

  predicate NeverDrops<N, V>(cfg: Config, t: Table<N, V>, ops: seq<Op<N, V>>)
    requires Inv(t)
    decreases |ops|
  {
    ops == [] ||
    (StepRefines(cfg, t, ops[0]);
     !DropsValue(cfg, t, ops[0]) && NeverDrops(cfg, Step(cfg, t, ops[0]), ops[1..]))
  }

  lemma {:induction false} LedgerExact<N, V>(cfg: Config, t: Table<N, V>, ops: seq<Op<N, V>>)
    requires Inv(t)
    ensures RunLedger(cfg, t, ops).lost == multiset{} <==> NeverDrops(cfg, t, ops)
    ensures cfg.headStored ==> NeverDrops(cfg, t, ops)
    decreases |ops|
  {
    if ops != [] {
      StepRefines(cfg, t, ops[0]);
      LostExact(cfg, t, ops[0]);
      LedgerExact(cfg, Step(cfg, t, ops[0]), ops[1..]);
    }
  }

  /** Every value is freed, replaced or still linked if and only if no losing rehash of the run drops an
      entry with a value; with line 362 completed that is every run. */
  lemma ConservedExact<N, V>(cfg: Config, t: Table<N, V>, ops: seq<Op<N, V>>)
    requires Inv(t)
    ensures var l := RunLedger(cfg, t, ops);
            Owned(t.buckets) + l.written == l.freed + l.replaced + Owned(Run(cfg, t, ops).buckets) <==> NeverDrops(cfg, t, ops)
    ensures cfg.headStored ==> NeverDrops(cfg, t, ops)
  {
    RunConserves(cfg, t, ops);
    LedgerExact(cfg, t, ops);
    var l := RunLedger(cfg, t, ops);
    NoSurplus(l.freed + l.replaced, l.lost, Owned(Run(cfg, t, ops).buckets));
  }

  lemma NoSurplus<V>(a: multiset<V>, lost: multiset<V>, b: multiset<V>)
    ensures a + lost + b == a + b <==> lost == multiset{}
  {
    assert |a + lost + b| == |a + b| + |lost|;
  }
}
