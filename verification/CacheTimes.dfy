/** When entries may leave, in terms of the clock alone; what a `get` leaves for its key; and how large the
    table is after each call. */
module CacheTimes {
  import opened Words
  import opened CacheTable
  import opened CacheRefinement
  import opened CacheRuns
  import opened CacheValues

  /** The clock has not reached the next cleanup: the period is -1, or has not passed. */
  predicate Early(cfg: Config, lastCleanup: nat, now: nat) {
    cfg.cleanupPeriod == 0xFFFF_FFFF_FFFF_FFFF || Elapsed(now, lastCleanup) < cfg.cleanupPeriod
  }

  // ---------------------------------------------------------------- one cleanup

  /** An early cleanup does nothing at all. */
  lemma EarlyCleanup<N, V>(cfg: Config, t: Table<N, V>, now: nat)
    requires Inv(t) && Early(cfg, t.lastCleanup, now)
    ensures Cleanup(cfg, t, now) == t
  {
  }

  /** Any other takes place, and what it leaves has not been idle for longer than the expire period; all
      of that stays, unless its rehash loses entries. */
  lemma LateCleanup<N, V>(cfg: Config, t: Table<N, V>, now: nat, id: nat)
    requires Inv(t) && !Early(cfg, t.lastCleanup, now)
    ensures Inv(Cleanup(cfg, t, now)) && Cleanup(cfg, t, now).lastCleanup == now
    ensures var a, r := IndexOf(t).cells, IndexOf(Cleanup(cfg, t, now)).cells;
            && (id in r ==> id in a && r[id] == a[id] && Elapsed(now, a[id].access) <= cfg.expirePeriod)
            && (id in a && Elapsed(now, a[id].access) <= cfg.expirePeriod && !CleanupLoses(cfg, t, now) ==> id in r)
  {
    LateMoment(cfg, t, now);
    CleanupRefines(cfg, t, now);
    LateIndex(cfg, IndexOf(t), now, id);
  }

  lemma LateMoment<N, V>(cfg: Config, t: Table<N, V>, now: nat)
    requires Inv(t) && !Early(cfg, t.lastCleanup, now)
    ensures Cleanup(cfg, t, now).lastCleanup == now
  {
  }

  lemma LateIndex<N, V>(cfg: Config, a: Index<N, V>, now: nat, id: nat)
    requires !Early(cfg, a.lastCleanup, now)
    ensures var r := IndexCleanup(cfg, a, now).cells;
            && (id in r <==> id in a.cells && Elapsed(now, a.cells[id].access) <= cfg.expirePeriod)
            && (id in r ==> r[id] == a.cells[id])
  {
  }

  // ---------------------------------------------------------------- one call

  predicate EarlyOp<N, V>(cfg: Config, lastCleanup: nat, op: Op<N, V>) {
    op.OpStore? || Early(cfg, lastCleanup, op.check)
  }

  /** A place for one more id, or heads that are stored. */
  predicate Roomy<N, V>(cfg: Config, t: Table<N, V>) {
    cfg.headStored || t.count < |t.buckets|
  }

  /** An early call frees nothing and keeps the time of the last cleanup. It evicts no entry: a find never
      does, and a get does not if its key is there or there is a place for it. */
  lemma EarlyCall<N, V>(cfg: Config, t: Table<N, V>, op: Op<N, V>, id: nat)
    requires Inv(t) && EarlyOp(cfg, t.lastCleanup, op)
    ensures Inv(Step(cfg, t, op)) && Step(cfg, t, op).lastCleanup == t.lastCleanup
    ensures StepFreed(cfg, t, op) == multiset{}
    ensures var a, r := IndexOf(t).cells, IndexOf(Step(cfg, t, op)).cells;
            id in a && (op.OpGet? ==> op.key in a || Roomy(cfg, t)) ==> id in r && r[id].node == a[id].node
  {
    StepRefines(cfg, t, op);
    if !op.OpStore? {
      EarlyCleanup(cfg, t, op.check);
      LookupIsIndex(t, op.key);
      LastCleanupStays(cfg, t, op);
    }
  }

  lemma LastCleanupStays<N, V>(cfg: Config, t: Table<N, V>, op: Op<N, V>)
    requires Inv(t) && !op.OpStore?
    ensures Inv(Cleanup(cfg, t, op.check)) && Step(cfg, t, op).lastCleanup == Cleanup(cfg, t, op.check).lastCleanup
  {
    CleanupRefines(cfg, t, op.check);
  }

  // ---------------------------------------------------------------- runs

  /** The call evicts `id`: it was there, it is gone, and no rehash of the call lost entries. */
  ghost predicate Evicts<N, V>(cfg: Config, t: Table<N, V>, op: Op<N, V>, id: nat)
    requires Inv(t)
  {
    StepRefines(cfg, t, op);
    !Loses(cfg, t, op) && id in IndexOf(t).cells && id !in IndexOf(Step(cfg, t, op)).cells
  }

  /** The call evicts an entry or frees a value. */
  ghost predicate Removes<N, V>(cfg: Config, t: Table<N, V>, op: Op<N, V>)
    requires Inv(t)
  {
    StepFreed(cfg, t, op) != multiset{} || exists id: nat :: Evicts(cfg, t, op, id)
  }

  /** A call that removes anything comes at least the cleanup period after the last cleanup, and is one. */
  lemma RemovesLate<N, V>(cfg: Config, t: Table<N, V>, op: Op<N, V>)
    requires Inv(t) && Removes(cfg, t, op)
    ensures !op.OpStore? && !Early(cfg, t.lastCleanup, op.check)
    ensures Step(cfg, t, op).lastCleanup == op.check
  {
    if EarlyOp(cfg, t.lastCleanup, op) {
      NotRemoved(cfg, t, op);
    } else {
      LastCleanupStays(cfg, t, op);
      LateCleanup(cfg, t, op.check, 0);
    }
  }

  lemma NotRemoved<N, V>(cfg: Config, t: Table<N, V>, op: Op<N, V>)
    requires Inv(t) && EarlyOp(cfg, t.lastCleanup, op)
    ensures !Removes(cfg, t, op)
  {
    EarlyCall(cfg, t, op, 0);
    forall id: nat ensures !Evicts(cfg, t, op, id) {
      StepRefines(cfg, t, op);
      if !Loses(cfg, t, op) && id in IndexOf(t).cells {
        StaysUnlessLost(cfg, t, op, id);
      }
    }
  }

  lemma StaysUnlessLost<N, V>(cfg: Config, t: Table<N, V>, op: Op<N, V>, id: nat)
    requires Inv(t) && EarlyOp(cfg, t.lastCleanup, op) && !Loses(cfg, t, op) && id in IndexOf(t).cells
    ensures Inv(Step(cfg, t, op)) && id in IndexOf(Step(cfg, t, op)).cells
  {
    StepRefines(cfg, t, op);
    if !op.OpStore? {
      EarlyCleanup(cfg, t, op.check);
      CleanupRefines(cfg, t, op.check);
    }
  }

  /** The time of the last cleanup follows the clock. */
  lemma CleanupFollows<N, V>(cfg: Config, t: Table<N, V>, now: nat, op: Op<N, V>)
    requires Inv(t) && t.lastCleanup <= now && Clocked(now, [op])
    ensures Inv(Step(cfg, t, op))
    ensures t.lastCleanup <= Step(cfg, t, op).lastCleanup <= LastReading(now, [op])
  {
    StepRefines(cfg, t, op);
    assert [op][1..] == [];
    if !op.OpStore? {
      LastCleanupStays(cfg, t, op);
      if EarlyOp(cfg, t.lastCleanup, op) {
        EarlyCleanup(cfg, t, op.check);
      } else {
        LateCleanup(cfg, t, op.check, 0);
      }
    }
  }

  lemma RunPrefix<N, V>(cfg: Config, t: Table<N, V>, ops: seq<Op<N, V>>, j: nat)
    requires Inv(t) && 0 < j < |ops|
    ensures Inv(Step(cfg, t, ops[0])) && ops[1..][j - 1] == ops[j]
    ensures Run(cfg, t, ops[..j]) == Run(cfg, Step(cfg, t, ops[0]), ops[1..][..j - 1])
  {
    StepRefines(cfg, t, ops[0]);
    assert ops[..j][0] == ops[0] && ops[..j][1..] == ops[1..][..j - 1];
  }

  /** The first removal of a run comes at least the cleanup period after the last cleanup. */
  lemma {:induction false} FirstRemoval<N, V>(cfg: Config, t: Table<N, V>, now: nat, ops: seq<Op<N, V>>, j: nat)
    requires Inv(t) && t.lastCleanup <= now && Clocked(now, ops) && j < |ops|
    requires Removes(cfg, Run(cfg, t, ops[..j]), ops[j])
    ensures !ops[j].OpStore? && ops[j].check >= t.lastCleanup + cfg.cleanupPeriod
    decreases |ops|
  {
    FirstReading(now, ops);
    CleanupFollows(cfg, t, now, ops[0]);
    if j == 0 {
      RemovesLate(cfg, t, ops[0]);
    } else {
      RunPrefix(cfg, t, ops, j);
      FirstRemoval(cfg, Step(cfg, t, ops[0]), LastReading(now, [ops[0]]), ops[1..], j - 1);
    }
  }

  /** Over any run under a clock that does not step back, for either rehash: any two calls that evict an
      entry or free a value are at least the cleanup period apart. */
  lemma {:induction false} RemovalsApart<N, V>(cfg: Config, t: Table<N, V>, now: nat, ops: seq<Op<N, V>>, i: nat, j: nat)
    requires Inv(t) && t.lastCleanup <= now && Clocked(now, ops) && i < j < |ops|
    requires Removes(cfg, Run(cfg, t, ops[..i]), ops[i]) && Removes(cfg, Run(cfg, t, ops[..j]), ops[j])
    ensures !ops[i].OpStore? && !ops[j].OpStore? && ops[j].check >= ops[i].check + cfg.cleanupPeriod
    decreases |ops|
  {
    FirstReading(now, ops);
    CleanupFollows(cfg, t, now, ops[0]);
    var r, next := Step(cfg, t, ops[0]), LastReading(now, [ops[0]]);
    RunPrefix(cfg, t, ops, j);
    if i == 0 {
      RemovesLate(cfg, t, ops[0]);
      FirstRemoval(cfg, r, next, ops[1..], j - 1);
    } else {
      RunPrefix(cfg, t, ops, i);
      RemovalsApart(cfg, r, next, ops[1..], i - 1, j - 1);
    }
  }

  // ---------------------------------------------------------------- what a get leaves

  /** The entry of `key` outlives the cleanup of a get. */
  ghost predicate Outlives<N, V>(cfg: Config, t: Table<N, V>, key: nat, check: nat)
    requires Inv(t)
  {
    && key in IndexOf(t).cells
    && (Early(cfg, t.lastCleanup, check)
        || (!CleanupLoses(cfg, t, check) && Elapsed(check, IndexOf(t).cells[key].access) <= cfg.expirePeriod))
  }

  lemma OutlivesExact<N, V>(cfg: Config, t: Table<N, V>, key: nat, check: nat)
    requires Inv(t)
    ensures Inv(Cleanup(cfg, t, check))
    ensures Outlives(cfg, t, key, check) <==> key in IndexOf(Cleanup(cfg, t, check)).cells
    ensures Outlives(cfg, t, key, check) ==> IndexOf(Cleanup(cfg, t, check)).cells[key] == IndexOf(t).cells[key]
  {
    CleanupRefines(cfg, t, check);
    if Early(cfg, t.lastCleanup, check) {
      EarlyCleanup(cfg, t, check);
    } else {
      LateCleanup(cfg, t, check, key);
    }
  }

  lemma ObtainLeaves<N, V>(cfg: Config, c: Table<N, V>, key: nat, stamp: nat, node: N)
    requires Inv(c)
    ensures Inv(Obtain(cfg, c, key, stamp, node))
    ensures var a, r := IndexOf(c).cells, IndexOf(Obtain(cfg, c, key, stamp, node)).cells;
            && key in r && r[key] == if key in a then a[key].(access := stamp) else Cell(node, key, stamp, None)
  {
    LookupIsIndex(c, key);
    ObtainRefines(cfg, c, key, stamp, node);
  }

  /** Whatever a rehash does, a get leaves the entry of its key, used now: with the node and the value it had
      if it outlived the cleanup, else the new one, without a value. */
  lemma GetLeaves<N, V>(cfg: Config, t: Table<N, V>, key: nat, check: nat, stamp: nat, node: N)
    requires Inv(t)
    ensures Inv(Get(cfg, t, key, check, stamp, node))
    ensures var a, r := IndexOf(t).cells, IndexOf(Get(cfg, t, key, check, stamp, node)).cells;
            && key in r && r[key].access == stamp
            && if Outlives(cfg, t, key, check) then r[key].node == a[key].node && r[key].value == a[key].value
               else r[key].node == node && r[key].value == None
  {
    OutlivesExact(cfg, t, key, check);
    ObtainLeaves(cfg, Cleanup(cfg, t, check), key, stamp, node);
  }

  // ---------------------------------------------------------------- sizes

  /** A cleanup that takes place shrinks a table whose `count` is below a quarter of its size to one more than
      twice the `count`, and no other. */
  lemma CleanupSize<N, V>(cfg: Config, t: Table<N, V>, now: nat)
    requires Inv(t) && !Early(cfg, t.lastCleanup, now)
    ensures var r := Cleanup(cfg, t, now);
            |r.buckets| == if r.count < |t.buckets| / 4 then 2 * r.count + 1 else |t.buckets|
  {
  }

  /** A new id grows a full table to one more than twice the new `count`, and no other. */
  lemma GetSize<N, V>(cfg: Config, t: Table<N, V>, key: nat, stamp: nat, node: N)
    requires Inv(t) && Lookup(t.buckets, key).None?
    ensures var r := Obtain(cfg, t, key, stamp, node);
            && r.count == t.count + 1
            && |r.buckets| == if t.count + 1 > |t.buckets| then 2 * (t.count + 1) + 1 else |t.buckets|
  {
  }
}
