/** Whole runs of the cache: what every sequence of calls keeps, when the rehash as written loses
    entries, how long entries live under a clock, and what rehashing costs. */
module CacheRuns {
  import opened Words
  import opened CacheTable
  import opened CacheRefinement

  /** `node` is the entry that `malloc` would return if the get misses. */
  datatype Op<N, V> =
    | OpGet(key: nat, check: nat, stamp: nat, node: N)
    | OpFind(key: nat, check: nat, stamp: nat)
    | OpStore(key: nat, value: V)

  function NewTable<N, V>(size: nat, now: nat): Table<N, V> {
    Table(EmptyBuckets(size), 0, now)
  }

  function Step<N, V>(cfg: Config, t: Table<N, V>, op: Op<N, V>): Table<N, V>
    requires Inv(t)
  {
    match op
    case OpGet(key, check, stamp, node) => Get(cfg, t, key, check, stamp, node)
    case OpFind(key, check, stamp) => Find(cfg, t, key, check, stamp)
    case OpStore(key, value) => Store(t, key, value)
  }

  ghost function IndexStep<N, V>(cfg: Config, a: Index<N, V>, op: Op<N, V>): Index<N, V> {
    match op
    case OpGet(key, check, stamp, node) => IndexGet(cfg, a, key, check, stamp, node)
    case OpFind(key, check, stamp) => IndexFind(cfg, a, key, check, stamp)
    case OpStore(key, value) => IndexStore(a, key, value)
  }

  /** The guard of the rehash that forgets live entries. */
  predicate Loses<N, V>(cfg: Config, t: Table<N, V>, op: Op<N, V>)
    requires Inv(t)
  {
    match op
    case OpGet(key, check, _, _) => GetLoses(cfg, t, key, check)
    case OpFind(_, check, _) => CleanupLoses(cfg, t, check)
    case OpStore(_, _) => false
  }

  lemma StepRefines<N, V>(cfg: Config, t: Table<N, V>, op: Op<N, V>)
    requires Inv(t)
    ensures Inv(Step(cfg, t, op))
    ensures !Loses(cfg, t, op) ==> IndexOf(Step(cfg, t, op)) == IndexStep(cfg, IndexOf(t), op)
    ensures Missing(Step(cfg, t, op)) >= Missing(t)
    ensures Loses(cfg, t, op) <==> Missing(Step(cfg, t, op)) > Missing(t)
  {
    match op
    case OpGet(key, check, stamp, node) =>
      GetRefines(cfg, t, key, check, stamp, node);
      GetMissing(cfg, t, key, check, stamp, node);
    case OpFind(key, check, stamp) =>
      FindRefines(cfg, t, key, check, stamp);
      FindMissing(cfg, t, key, check, stamp);
    case OpStore(key, value) =>
      StoreRefines(t, key, value);
  }

  function Run<N, V>(cfg: Config, t: Table<N, V>, ops: seq<Op<N, V>>): (r: Table<N, V>)
    requires Inv(t)
    ensures Inv(r)
    decreases |ops|
  {
    if ops == [] then t
    else
      StepRefines(cfg, t, ops[0]);
      Run(cfg, Step(cfg, t, ops[0]), ops[1..])
  }

  ghost function IndexRun<N, V>(cfg: Config, a: Index<N, V>, ops: seq<Op<N, V>>): Index<N, V>
    decreases |ops|
  {
    if ops == [] then a else IndexRun(cfg, IndexStep(cfg, a, ops[0]), ops[1..])
  }

  predicate NoLoss<N, V>(cfg: Config, t: Table<N, V>, ops: seq<Op<N, V>>)
    requires Inv(t)
    decreases |ops|
  {
    ops == [] ||
    (StepRefines(cfg, t, ops[0]);
     !Loses(cfg, t, ops[0]) && NoLoss(cfg, Step(cfg, t, ops[0]), ops[1..]))
  }

  // ---------------------------------------------------------------- refinement over runs

  /** The table stands for one finite map through any run without a losing rehash. */
  lemma {:induction false} RunRefines<N, V>(cfg: Config, t: Table<N, V>, ops: seq<Op<N, V>>)
    requires Inv(t) && NoLoss(cfg, t, ops)
    ensures Inv(Run(cfg, t, ops)) && Missing(Run(cfg, t, ops)) == Missing(t)
    ensures IndexOf(Run(cfg, t, ops)) == IndexRun(cfg, IndexOf(t), ops)
    decreases |ops|
  {
    if ops != [] {
      StepRefines(cfg, t, ops[0]);
      RunRefines(cfg, Step(cfg, t, ops[0]), ops[1..]);
    }
  }

  /** With line 362 completed no run loses anything. */
  lemma {:induction false} StoredNeverLoses<N, V>(cfg: Config, t: Table<N, V>, ops: seq<Op<N, V>>)
    requires Inv(t) && cfg.headStored
    ensures NoLoss(cfg, t, ops)
    decreases |ops|
  {
    if ops != [] {
      StepRefines(cfg, t, ops[0]);
      StoredNeverLoses(cfg, Step(cfg, t, ops[0]), ops[1..]);
    }
  }

  lemma NewTableInv<N, V>(size: nat, now: nat)
    requires size > 0
    ensures Inv(NewTable<N, V>(size, now)) && Tight(NewTable<N, V>(size, now))
    ensures IndexOf(NewTable<N, V>(size, now)) == Index(map[], now)
  {
    var t := NewTable<N, V>(size, now);
    LinkedEmpty(t.buckets);
    EmptyIndex(t);
  }

  /** Main refinement result: every run from a new cache is the run of a plain map, and `count`
      is the number of linked entries and of ids in the map. */
  lemma CacheIsMap<N, V>(cfg: Config, size: nat, now: nat, ops: seq<Op<N, V>>)
    requires size > 0 && cfg.headStored
    ensures Inv(NewTable<N, V>(size, now))
    ensures var t := Run(cfg, NewTable(size, now), ops);
            && WellPlaced(t.buckets)
            && IndexOf(t) == IndexRun(cfg, Index(map[], now), ops)
            && t.count == Linked(t.buckets) == |IndexOf(t).cells|
  {
    NewTableInv<N, V>(size, now);
    StoredNeverLoses(cfg, NewTable(size, now), ops);
    RunRefines(cfg, NewTable(size, now), ops);
    SizeOfIndex(Run(cfg, NewTable(size, now), ops));
  }

  lemma {:induction false} MissingGrows<N, V>(cfg: Config, t: Table<N, V>, ops: seq<Op<N, V>>)
    requires Inv(t)
    ensures Missing(Run(cfg, t, ops)) >= Missing(t)
    decreases |ops|
  {
    if ops != [] {
      StepRefines(cfg, t, ops[0]);
      MissingGrows(cfg, Step(cfg, t, ops[0]), ops[1..]);
    }
  }

  /** As written or completed: `count` equals the linked entries after a run exactly when no step
      of it was a losing rehash. */
  lemma {:induction false} CountExact<N, V>(cfg: Config, t: Table<N, V>, ops: seq<Op<N, V>>)
    requires Inv(t) && Tight(t)
    ensures Tight(Run(cfg, t, ops)) <==> NoLoss(cfg, t, ops)
    decreases |ops|
  {
    if ops != [] {
      StepRefines(cfg, t, ops[0]);
      var t' := Step(cfg, t, ops[0]);
      if Loses(cfg, t, ops[0]) {
        MissingGrows(cfg, t', ops[1..]);
      } else {
        CountExact(cfg, t', ops[1..]);
      }
    }
  }

  /** `get` agrees with the map exactly when it does not lose: `node` is a fresh entry. */
  lemma GetExact<N, V>(cfg: Config, t: Table<N, V>, key: nat, check: nat, stamp: nat, node: N)
    requires Inv(t)
    requires forall id: nat :: id in IndexOf(t).cells ==> IndexOf(t).cells[id].node != node
    ensures IndexOf(Get(cfg, t, key, check, stamp, node)) == IndexGet(cfg, IndexOf(t), key, check, stamp, node)
            <==> !GetLoses(cfg, t, key, check)
  {
    GetRefines(cfg, t, key, check, stamp, node);
    if GetLoses(cfg, t, key, check) {
      var c := Cleanup(cfg, t, check);
      var a := IndexCleanup(cfg, IndexOf(t), check);
      CleanupRefines(cfg, t, check);
      EmptyIndex(c);
      LookupIsIndex(c, key);
      ObtainRefines(cfg, c, key, stamp, node);
      var got := IndexOf(Get(cfg, t, key, check, stamp, node)).cells;
      assert got == map[key := Cell(node, key, stamp, None)];
      var id :| id in a.cells;
      assert a.cells[id].node != node;
      assert id in IndexObtain(a, key, stamp, node).cells;
    }
  }

  // ---------------------------------------------------------------- load factor

  predicate Load<N, V>(t: Table<N, V>) {
    t.count <= |t.buckets|
  }

  lemma CleanupLoad<N, V>(cfg: Config, t: Table<N, V>, now: nat)
    requires Inv(t) && Load(t)
    ensures Load(Cleanup(cfg, t, now))
    ensures Cleanup(cfg, t, now).count <= t.count
    ensures CleanupRehashes(cfg, t, now) ==> |Cleanup(cfg, t, now).buckets| < |t.buckets|
    ensures !CleanupRehashes(cfg, t, now) ==> |Cleanup(cfg, t, now).buckets| == |t.buckets|
  {
  }

  /** Growth strictly enlarges the table, a cleanup rehash strictly shrinks it, and one bucket per
      entry is there after every call. */
  lemma StepLoad<N, V>(cfg: Config, t: Table<N, V>, op: Op<N, V>)
    requires Inv(t) && Load(t)
    ensures Load(Step(cfg, t, op))
    ensures (op.OpGet? && InsertRehashes(Cleanup(cfg, t, op.check)) && Lookup(Cleanup(cfg, t, op.check).buckets, op.key).None?) ==>
              |Step(cfg, t, op).buckets| > |Cleanup(cfg, t, op.check).buckets|
  {
    if !op.OpStore? {
      CleanupLoad(cfg, t, op.check);
      CleanupRefines(cfg, t, op.check);
    }
  }

  lemma {:induction false} RunLoad<N, V>(cfg: Config, t: Table<N, V>, ops: seq<Op<N, V>>)
    requires Inv(t) && Load(t)
    ensures Load(Run(cfg, t, ops)) && |Run(cfg, t, ops).buckets| >= 1
    decreases |ops|
  {
    if ops != [] {
      StepRefines(cfg, t, ops[0]);
      StepLoad(cfg, t, ops[0]);
      RunLoad(cfg, Step(cfg, t, ops[0]), ops[1..]);
    }
  }

  // ---------------------------------------------------------------- the rehash as written

  ghost function GetKeys<N, V>(ops: seq<Op<N, V>>): set<nat> {
    if ops == [] then {} else (if ops[0].OpGet? then {ops[0].key} else {}) + GetKeys(ops[1..])
  }

  lemma LiteralStep<N, V>(cfg: Config, t: Table<N, V>, op: Op<N, V>)
    requires Inv(t) && Tight(t) && Load(t)
    requires cfg.cleanupPeriod == NEVER && !cfg.headStored
    ensures Loses(cfg, t, op) <==> op.OpGet? && op.key !in IndexOf(t).cells && t.count == |t.buckets|
    ensures !Loses(cfg, t, op) ==> |Step(cfg, t, op).buckets| == |t.buckets|
  {
    if op.OpGet? {
      LookupIsIndex(t, op.key);
    }
  }

  /** In a never-expiring cache nothing is lost exactly while the distinct ids fit the initial size:
      the first id beyond it empties the table. */
  lemma {:induction false} LiteralNoLoss<N, V>(cfg: Config, t: Table<N, V>, ops: seq<Op<N, V>>)
    requires Inv(t) && Tight(t) && Load(t)
    requires cfg.cleanupPeriod == NEVER && !cfg.headStored
    ensures NoLoss(cfg, t, ops) <==> |IndexOf(t).cells.Keys + GetKeys(ops)| <= |t.buckets|
    decreases |ops|
  {
    var keys := IndexOf(t).cells.Keys;
    if ops == [] {
      SizeOfIndex(t);
      assert keys + GetKeys(ops) == keys;
    } else {
      var op := ops[0];
      LiteralKeys(cfg, t, op);
      if Loses(cfg, t, op) {
        KeysGrow(keys, op.key, GetKeys(ops));
      } else {
        var t' := Step(cfg, t, op);
        LiteralNoLoss(cfg, t', ops[1..]);
        AllKeys(keys, ops);
      }
    }
  }

  lemma AllKeys<N, V>(keys: set<nat>, ops: seq<Op<N, V>>)
    requires ops != []
    ensures keys + (if ops[0].OpGet? then {ops[0].key} else {}) + GetKeys(ops[1..]) == keys + GetKeys(ops)
  {
  }

  lemma LiteralKeys<N, V>(cfg: Config, t: Table<N, V>, op: Op<N, V>)
    requires Inv(t) && Tight(t) && Load(t)
    requires cfg.cleanupPeriod == NEVER && !cfg.headStored
    ensures Loses(cfg, t, op) ==> op.OpGet? && op.key !in IndexOf(t).cells.Keys && |IndexOf(t).cells.Keys| == |t.buckets|
    ensures !Loses(cfg, t, op) ==>
              var t' := Step(cfg, t, op);
              && Inv(t') && Tight(t') && Load(t') && |t'.buckets| == |t.buckets|
              && IndexOf(t').cells.Keys == IndexOf(t).cells.Keys + if op.OpGet? then {op.key} else {}
  {
    SizeOfIndex(t);
    StepRefines(cfg, t, op);
    StepLoad(cfg, t, op);
    LiteralStep(cfg, t, op);
    IndexStepKeys(cfg, IndexOf(t), op);
  }

  lemma KeysGrow(keys: set<nat>, key: nat, more: set<nat>)
    requires key !in keys && key in more
    ensures |keys + more| > |keys|
  {
    SubsetSize(keys + {key}, keys + more);
  }

  lemma IndexStepKeys<N, V>(cfg: Config, a: Index<N, V>, op: Op<N, V>)
    requires cfg.cleanupPeriod == NEVER
    ensures IndexStep(cfg, a, op).cells.Keys == a.cells.Keys + if op.OpGet? then {op.key} else {}
  {
  }

  lemma {:induction false} SubsetSize(a: set<nat>, b: set<nat>)
    requires a <= b
    ensures |a| <= |b|
  {
    if a != {} {
      var x :| x in a;
      SubsetSize(a - {x}, b - {x});
    }
  }

  /** The rehash as written, over a whole run: a never-expiring cache of `size` buckets keeps
      `count` true exactly when at most `size` distinct ids are ever asked for. */
  lemma LiteralCache<N, V>(cfg: Config, size: nat, now: nat, ops: seq<Op<N, V>>)
    requires size > 0 && cfg.cleanupPeriod == NEVER && !cfg.headStored
    ensures Inv(NewTable<N, V>(size, now))
    ensures Tight(Run(cfg, NewTable(size, now), ops)) <==> |GetKeys(ops)| <= size
    ensures |GetKeys(ops)| <= size ==>
              IndexOf(Run(cfg, NewTable(size, now), ops)) == IndexRun(cfg, Index(map[], now), ops)
  {
    NewTableInv<N, V>(size, now);
    var t: Table<N, V> := NewTable(size, now);
    LiteralNoLoss(cfg, t, ops);
    assert IndexOf(t).cells.Keys + GetKeys(ops) == GetKeys(ops);
    CountExact(cfg, t, ops);
    if |GetKeys(ops)| <= size {
      RunRefines(cfg, t, ops);
    }
  }

  /** A concrete loss: one bucket, two ids. */
  lemma LiteralLosesTheFirstId(now: nat)
    ensures var cfg := Config(NEVER, NEVER, false);
            var ops := [OpGet(7, now, now, 'a'), OpStore(7, 1), OpGet(8, now, now, 'b')];
            && Inv(NewTable<char, int>(1, now))
            && IndexOf(Run(cfg, NewTable<char, int>(1, now), ops)).cells == map[8 := Cell('b', 8, now, None)]
            && Run(cfg, NewTable<char, int>(1, now), ops).count == 2
  {
    var cfg := Config(NEVER, NEVER, false);
    var t0 := NewTable<char, int>(1, now);
    var ops: seq<Op<char, int>> := [OpGet(7, now, now, 'a'), OpStore(7, 1), OpGet(8, now, now, 'b')];
    NewTableInv<char, int>(1, now);
    var t1 := Step(cfg, t0, ops[0]);
    StepRefines(cfg, t0, ops[0]);
    var t2 := Step(cfg, t1, ops[1]);
    StepRefines(cfg, t1, ops[1]);
    SizeOfIndex(t2);
    var t3 := Step(cfg, t2, ops[2]);
    StepRefines(cfg, t2, ops[2]);
    LookupIsIndex(t0, 7);
    LookupIsIndex(t2, 8);
    EmptyIndex(t2);
    assert |t0.buckets| == 1 && t1.count == 1 && |t1.buckets| == 1;
    ObtainRefines(cfg, t2, 8, now, 'b');
    RunOfThree(cfg, t0, ops);
  }

  lemma RunOfThree<N, V>(cfg: Config, t: Table<N, V>, ops: seq<Op<N, V>>)
    requires Inv(t) && |ops| == 3
    ensures Inv(Step(cfg, t, ops[0])) && Inv(Step(cfg, Step(cfg, t, ops[0]), ops[1]))
    ensures Run(cfg, t, ops) == Step(cfg, Step(cfg, Step(cfg, t, ops[0]), ops[1]), ops[2])
  {
    StepRefines(cfg, t, ops[0]);
    var t1 := Step(cfg, t, ops[0]);
    StepRefines(cfg, t1, ops[1]);
    var t2 := Step(cfg, t1, ops[1]);
    StepRefines(cfg, t2, ops[2]);
    assert ops[1..][1..] == ops[2..] && ops[2..][1..] == [];
    assert Run(cfg, t2, ops[2..]) == Step(cfg, t2, ops[2]);
    assert Run(cfg, t1, ops[1..]) == Run(cfg, t2, ops[2..]);
  }

  // ---------------------------------------------------------------- expiry under a clock

  /** The clock never steps back through the run, starting at `now`. */
  predicate Clocked<N, V>(now: nat, ops: seq<Op<N, V>>)
    decreases |ops|
  {
    ops == [] ||
    if ops[0].OpStore? then Clocked(now, ops[1..])
    else now <= ops[0].check <= ops[0].stamp < TWO64 && Clocked(ops[0].stamp, ops[1..])
  }

  function LastReading<N, V>(now: nat, ops: seq<Op<N, V>>): nat
    decreases |ops|
  {
    if ops == [] then now else LastReading(if ops[0].OpStore? then now else ops[0].stamp, ops[1..])
  }

  /** The last cleanup left nothing that had been idle longer than the expire period. */
  ghost predicate Timely<N, V>(cfg: Config, a: Index<N, V>, now: nat) {
    && a.lastCleanup <= now < TWO64
    && forall id: nat :: id in a.cells ==>
         a.cells[id].access <= now && a.lastCleanup <= a.cells[id].access + cfg.expirePeriod
  }

  /** Nothing has been idle for the two periods together; with a cleanup on every call, for longer
      than the expire period. */
  ghost predicate Bounded<N, V>(cfg: Config, a: Index<N, V>, check: nat) {
    forall id: nat :: id in a.cells ==>
      check < a.cells[id].access + cfg.expirePeriod + cfg.cleanupPeriod
      || (cfg.cleanupPeriod == 0 && check <= a.cells[id].access + cfg.expirePeriod)
  }

  lemma IndexStepTimely<N, V>(cfg: Config, a: Index<N, V>, now: nat, op: Op<N, V>)
    requires Timely(cfg, a, now) && Clocked(now, [op])
    ensures Timely(cfg, IndexStep(cfg, a, op), LastReading(now, [op]))
    ensures cfg.cleanupPeriod != NEVER && !op.OpStore? ==> Bounded(cfg, IndexStep(cfg, a, op), op.check)
  {
    assert [op][1..] == [];
  }

  /** What a losing call leaves: nothing, or the one new entry. */
  lemma LosingStep<N, V>(cfg: Config, t: Table<N, V>, op: Op<N, V>)
    requires Inv(t) && Loses(cfg, t, op)
    ensures Inv(Step(cfg, t, op)) && !op.OpStore?
    ensures IndexOf(Step(cfg, t, op))
         == Index(if op.OpGet? then map[op.key := Cell(op.node, op.key, op.stamp, None)] else map[],
                  if CleanupDue(cfg, t.lastCleanup, op.check) then op.check else t.lastCleanup)
  {
    StepRefines(cfg, t, op);
    var c := Cleanup(cfg, t, op.check);
    CleanupRefines(cfg, t, op.check);
    if op.OpGet? {
      ObtainRefines(cfg, c, op.key, op.stamp, op.node);
    } else {
      TouchRefines(c, op.key, op.stamp);
    }
  }

  /** One call on the table keeps it timely, as written or completed, losing calls included. */
  lemma StepTimely<N, V>(cfg: Config, t: Table<N, V>, now: nat, op: Op<N, V>)
    requires Inv(t) && Timely(cfg, IndexOf(t), now) && Clocked(now, [op])
    ensures Inv(Step(cfg, t, op)) && Timely(cfg, IndexOf(Step(cfg, t, op)), LastReading(now, [op]))
    ensures cfg.cleanupPeriod != NEVER && !op.OpStore? ==> Bounded(cfg, IndexOf(Step(cfg, t, op)), op.check)
  {
    StepRefines(cfg, t, op);
    if Loses(cfg, t, op) {
      LosingStep(cfg, t, op);
      assert [op][1..] == [];
    } else {
      IndexStepTimely(cfg, IndexOf(t), now, op);
    }
  }

  lemma FirstReading<N, V>(now: nat, ops: seq<Op<N, V>>)
    requires ops != [] && Clocked(now, ops)
    ensures Clocked(now, [ops[0]])
    ensures Clocked(LastReading(now, [ops[0]]), ops[1..])
  {
    var one := [ops[0]];
    var next := if ops[0].OpStore? then now else ops[0].stamp;
    assert one[0] == ops[0] && one[1..] == [];
    assert LastReading(now, one) == LastReading(next, one[1..]);
  }

  /** After every get or find of a run on the table, as written or completed, no survivor has been idle
      for the expire period plus the cleanup period. */
  lemma {:induction false} IdleBounded<N, V>(cfg: Config, t: Table<N, V>, now: nat, ops: seq<Op<N, V>>)
    requires Inv(t) && Timely(cfg, IndexOf(t), now) && Clocked(now, ops)
    requires ops != [] && !ops[|ops| - 1].OpStore? && cfg.cleanupPeriod != NEVER
    ensures Bounded(cfg, IndexOf(Run(cfg, t, ops)), ops[|ops| - 1].check)
    decreases |ops|
  {
    FirstReading(now, ops);
    StepTimely(cfg, t, now, ops[0]);
    var t' := Step(cfg, t, ops[0]);
    if |ops| > 1 {
      assert ops[1..][|ops| - 2] == ops[|ops| - 1];
      IdleBounded(cfg, t', LastReading(now, [ops[0]]), ops[1..]);
    } else {
      assert ops[1..] == [] && Run(cfg, t', ops[1..]) == t';
    }
  }

  lemma IdleFromNew<N, V>(cfg: Config, size: nat, now: nat, ops: seq<Op<N, V>>)
    requires size > 0 && now < TWO64 && Clocked(now, ops)
    requires ops != [] && !ops[|ops| - 1].OpStore? && cfg.cleanupPeriod != NEVER
    ensures Inv(NewTable<N, V>(size, now))
    ensures Bounded(cfg, IndexOf(Run(cfg, NewTable(size, now), ops)), ops[|ops| - 1].check)
  {
    NewTableInv<N, V>(size, now);
    IdleBounded(cfg, NewTable(size, now), now, ops);
  }

  /** No call of the run finds `id` idle for longer than the expire period. */
  predicate KeptInUse<N, V>(cfg: Config, id: nat, access: nat, ops: seq<Op<N, V>>)
    decreases |ops|
  {
    ops == [] ||
    if ops[0].OpStore? then KeptInUse(cfg, id, access, ops[1..])
    else
      && ops[0].check <= access + cfg.expirePeriod
      && KeptInUse(cfg, id, if ops[0].key == id then ops[0].stamp else access, ops[1..])
  }

  function LastStored<N, V>(id: nat, v: Option<V>, ops: seq<Op<N, V>>): Option<V>
    decreases |ops|
  {
    if ops == [] then v
    else LastStored(id, if ops[0].OpStore? && ops[0].key == id then Some(ops[0].value) else v, ops[1..])
  }

  /** In a never-expiring cache, one with the period -1, an entry keeps its identity through any run at all. */
  lemma {:induction false} NeverExpires<N, V>(cfg: Config, a: Index<N, V>, ops: seq<Op<N, V>>, id: nat)
    requires cfg.cleanupPeriod == 0xFFFF_FFFF_FFFF_FFFF && id in a.cells
    ensures id in IndexRun(cfg, a, ops).cells
    ensures IndexRun(cfg, a, ops).cells[id].node == a.cells[id].node
    ensures IndexRun(cfg, a, ops).cells[id].value == LastStored(id, a.cells[id].value, ops)
    decreases |ops|
  {
    if ops != [] {
      NeverExpires(cfg, IndexStep(cfg, a, ops[0]), ops[1..], id);
    }
  }

  // ---------------------------------------------------------------- survival under any clock

  /** The subtraction wraps: an entry used after the reading of a due cleanup survives it exactly when
      the wrapped distance is within the expire period. */
  lemma ClockStepBack<N, V>(cfg: Config, a: Index<N, V>, now: nat, id: nat)
    requires id in a.cells && now < a.cells[id].access < TWO64
    ensures id in IndexCleanup(cfg, a, now).cells <==>
              || cfg.cleanupPeriod == 0xFFFF_FFFF_FFFF_FFFF || Elapsed(now, a.lastCleanup) < cfg.cleanupPeriod
              || TWO64 - (a.cells[id].access - now) <= cfg.expirePeriod
  {
    assert Elapsed(now, a.cells[id].access) == TWO64 - (a.cells[id].access - now);
  }

  /** A clock that goes back by fifty seconds, a cleanup that is due, and an entry used fifty seconds
      after the new reading: it is evicted. */
  lemma ClockStepBackEvicts<N, V>(node: N, value: Option<V>)
    ensures var a := Index(map[7 := Cell(node, 7, 700_000, value)], 0);
            IndexCleanup(Config(600_000, 1_200_000, true), a, 650_000).cells == map[]
  {
    var a := Index(map[7 := Cell(node, 7, 700_000, value)], 0);
    ClockStepBack(Config(600_000, 1_200_000, true), a, 650_000, 7);
    assert forall id: nat :: id in IndexCleanup(Config(600_000, 1_200_000, true), a, 650_000).cells ==> id == 7;
  }

  /** Every cleanup of the run that is due finds `id` idle for no longer than the expire period, as the
      unsigned difference has it. */
  predicate NotExpired<N, V>(cfg: Config, id: nat, access: nat, lastCleanup: nat, ops: seq<Op<N, V>>)
    decreases |ops|
  {
    ops == [] ||
    if ops[0].OpStore? then NotExpired(cfg, id, access, lastCleanup, ops[1..])
    else
      var due := cfg.cleanupPeriod != 0xFFFF_FFFF_FFFF_FFFF && Elapsed(ops[0].check, lastCleanup) >= cfg.cleanupPeriod;
      && (due ==> Elapsed(ops[0].check, access) <= cfg.expirePeriod)
      && NotExpired(cfg, id, if ops[0].key == id then ops[0].stamp else access,
                    if due then ops[0].check else lastCleanup, ops[1..])
  }

  /** No call of the run is handed `node` for a new entry. */
  ghost predicate NotReused<N, V>(node: N, ops: seq<Op<N, V>>) {
    ops == [] || ((ops[0].OpGet? ==> ops[0].node != node) && NotReused(node, ops[1..]))
  }

  ghost predicate Held<N, V>(a: Index<N, V>, id: nat, node: N) {
    id in a.cells && a.cells[id].node == node
  }

  lemma IndexStaysGone<N, V>(cfg: Config, a: Index<N, V>, op: Op<N, V>, id: nat, node: N)
    requires !Held(a, id, node) && (op.OpGet? ==> op.node != node)
    ensures !Held(IndexStep(cfg, a, op), id, node)
  {
  }

  lemma {:induction false} GoneForGood<N, V>(cfg: Config, a: Index<N, V>, ops: seq<Op<N, V>>, id: nat, node: N)
    requires !Held(a, id, node) && NotReused(node, ops)
    ensures !Held(IndexRun(cfg, a, ops), id, node)
    decreases |ops|
  {
    if ops != [] {
      IndexStaysGone(cfg, a, ops[0], id, node);
      GoneForGood(cfg, IndexStep(cfg, a, ops[0]), ops[1..], id, node);
    }
  }

  /** For any clock and any run: an entry is still the entry of its id, and then holds the value last
      written to it, exactly when no due cleanup found it expired. */
  lemma {:induction false} SurvivesExact<N, V>(cfg: Config, a: Index<N, V>, ops: seq<Op<N, V>>, id: nat)
    requires id in a.cells && NotReused(a.cells[id].node, ops)
    ensures Held(IndexRun(cfg, a, ops), id, a.cells[id].node)
            <==> NotExpired(cfg, id, a.cells[id].access, a.lastCleanup, ops)
    ensures NotExpired(cfg, id, a.cells[id].access, a.lastCleanup, ops) ==>
              IndexRun(cfg, a, ops).cells[id].value == LastStored(id, a.cells[id].value, ops)
    decreases |ops|
  {
    if ops != [] {
      var a' := IndexStep(cfg, a, ops[0]);
      if Held(a', id, a.cells[id].node) {
        SurvivesExact(cfg, a', ops[1..], id);
      } else {
        GoneForGood(cfg, a', ops[1..], id, a.cells[id].node);
      }
    }
  }

  lemma StaysGone<N, V>(cfg: Config, t: Table<N, V>, op: Op<N, V>, id: nat, node: N)
    requires Inv(t) && (op.OpGet? ==> op.node != node)
    requires !Held(IndexOf(t), id, node) || Loses(cfg, t, op)
    ensures Inv(Step(cfg, t, op)) && !Held(IndexOf(Step(cfg, t, op)), id, node)
  {
    StepRefines(cfg, t, op);
    if Loses(cfg, t, op) {
      LosingStep(cfg, t, op);
    } else {
      IndexStaysGone(cfg, IndexOf(t), op, id, node);
    }
  }

  lemma {:induction false} GoneFromTable<N, V>(cfg: Config, t: Table<N, V>, ops: seq<Op<N, V>>, id: nat, node: N)
    requires Inv(t) && !Held(IndexOf(t), id, node) && NotReused(node, ops)
    ensures !Held(IndexOf(Run(cfg, t, ops)), id, node)
    decreases |ops|
  {
    if ops != [] {
      StaysGone(cfg, t, ops[0], id, node);
      GoneFromTable(cfg, Step(cfg, t, ops[0]), ops[1..], id, node);
    }
  }

  lemma {:induction false} LossDrops<N, V>(cfg: Config, t: Table<N, V>, ops: seq<Op<N, V>>, id: nat, node: N)
    requires Inv(t) && !NoLoss(cfg, t, ops) && NotReused(node, ops)
    ensures !Held(IndexOf(Run(cfg, t, ops)), id, node)
    decreases |ops|
  {
    StepRefines(cfg, t, ops[0]);
    if Loses(cfg, t, ops[0]) {
      StaysGone(cfg, t, ops[0], id, node);
      GoneFromTable(cfg, Step(cfg, t, ops[0]), ops[1..], id, node);
    } else {
      LossDrops(cfg, Step(cfg, t, ops[0]), ops[1..], id, node);
    }
  }

  /** The same of the table, as written or completed: an entry outlives a run exactly when no due
      cleanup finds it expired and no rehash of the run loses entries. */
  lemma TableSurvivesExact<N, V>(cfg: Config, t: Table<N, V>, ops: seq<Op<N, V>>, id: nat)
    requires Inv(t) && id in IndexOf(t).cells && NotReused(IndexOf(t).cells[id].node, ops)
    ensures var c := IndexOf(t).cells[id];
            Held(IndexOf(Run(cfg, t, ops)), id, c.node)
            <==> NotExpired(cfg, id, c.access, t.lastCleanup, ops) && NoLoss(cfg, t, ops)
  {
    if NoLoss(cfg, t, ops) {
      RunRefines(cfg, t, ops);
      SurvivesExact(cfg, IndexOf(t), ops, id);
    } else {
      LossDrops(cfg, t, ops, id, IndexOf(t).cells[id].node);
    }
  }

  /** Under a clock that does not step back: an entry that no call finds idle for longer than the expire
      period keeps its identity, and the value last written to it, through the whole run. */
  lemma {:induction false} InUseSurvives<N, V>(cfg: Config, a: Index<N, V>, now: nat, ops: seq<Op<N, V>>, id: nat)
    requires id in a.cells && a.cells[id].access <= now < TWO64
    requires Clocked(now, ops) && KeptInUse(cfg, id, a.cells[id].access, ops)
    ensures Held(IndexRun(cfg, a, ops), id, a.cells[id].node)
    ensures IndexRun(cfg, a, ops).cells[id].value == LastStored(id, a.cells[id].value, ops)
    decreases |ops|
  {
    if ops != [] {
      var a' := IndexStep(cfg, a, ops[0]);
      assert Held(a', id, a.cells[id].node);
      InUseSurvives(cfg, a', if ops[0].OpStore? then now else ops[0].stamp, ops[1..], id);
    }
  }

  // ---------------------------------------------------------------- what rehashing costs

  /** Entries moved by the rehashes of one call. */
  function Moved<N, V>(cfg: Config, t: Table<N, V>, op: Op<N, V>): nat
    requires Inv(t)
  {
    if op.OpStore? then 0
    else
      CleanupKeepsSize(cfg, t, op.check);
      var c := Cleanup(cfg, t, op.check);
      (if CleanupRehashes(cfg, t, op.check) then Linked(Swept(cfg, t, op.check).buckets) else 0)
      + (if op.OpGet? && Lookup(c.buckets, op.key).None? && InsertRehashes(c) then Linked(c.buckets) else 0)
  }

  function Misses<N, V>(cfg: Config, t: Table<N, V>, op: Op<N, V>): nat
    requires Inv(t)
  {
    if !op.OpGet? then 0
    else
      CleanupKeepsSize(cfg, t, op.check);
      if Lookup(Cleanup(cfg, t, op.check).buckets, op.key).None? then 1 else 0
  }

  function RunMoved<N, V>(cfg: Config, t: Table<N, V>, ops: seq<Op<N, V>>): nat
    requires Inv(t)
    decreases |ops|
  {
    if ops == [] then 0
    else
      StepRefines(cfg, t, ops[0]);
      Moved(cfg, t, ops[0]) + RunMoved(cfg, Step(cfg, t, ops[0]), ops[1..])
  }

  function RunMisses<N, V>(cfg: Config, t: Table<N, V>, ops: seq<Op<N, V>>): nat
    requires Inv(t)
    decreases |ops|
  {
    if ops == [] then 0
    else
      StepRefines(cfg, t, ops[0]);
      Misses(cfg, t, ops[0]) + RunMisses(cfg, Step(cfg, t, ops[0]), ops[1..])
  }

  /** Distance from a table whose size is twice its count, plus twice the count. */
  ghost function Potential<N, V>(t: Table<N, V>): nat {
    var d := 2 * t.count - |t.buckets|;
    (if d < 0 then -d else d) + 2 * t.count
  }

  lemma CleanupPotential<N, V>(cfg: Config, t: Table<N, V>, now: nat)
    requires Inv(t) && Tight(t) && Load(t)
    ensures (if CleanupRehashes(cfg, t, now) then Linked(Swept(cfg, t, now).buckets) else 0)
              + Potential(Cleanup(cfg, t, now)) <= Potential(t)
  {
    SweptRefines(cfg, t, now);
  }

  lemma StepPotential<N, V>(cfg: Config, t: Table<N, V>, op: Op<N, V>)
    requires Inv(t) && Tight(t) && Load(t) && cfg.headStored
    ensures Moved(cfg, t, op) + Potential(Step(cfg, t, op)) <= Potential(t) + 4 * Misses(cfg, t, op)
  {
    if !op.OpStore? {
      CleanupPotential(cfg, t, op.check);
      CleanupRefines(cfg, t, op.check);
      CleanupLoad(cfg, t, op.check);
    }
  }

  lemma {:induction false} StoredCost<N, V>(cfg: Config, t: Table<N, V>, ops: seq<Op<N, V>>)
    requires Inv(t) && Tight(t) && Load(t) && cfg.headStored
    ensures RunMoved(cfg, t, ops) + Potential(Run(cfg, t, ops)) <= Potential(t) + 4 * RunMisses(cfg, t, ops)
    decreases |ops|
  {
    if ops != [] {
      StepRefines(cfg, t, ops[0]);
      StepLoad(cfg, t, ops[0]);
      StepPotential(cfg, t, ops[0]);
      StoredCost(cfg, Step(cfg, t, ops[0]), ops[1..]);
    }
  }

  lemma LiteralStepCost<N, V>(cfg: Config, t: Table<N, V>, op: Op<N, V>)
    requires Inv(t) && !cfg.headStored
    ensures Inv(Step(cfg, t, op))
    ensures Moved(cfg, t, op) + Linked(Step(cfg, t, op).buckets) <= Linked(t.buckets) + Misses(cfg, t, op)
  {
    StepRefines(cfg, t, op);
    if op.OpStore? {
      StoreRefines(t, op.key, op.value);
    } else {
      LiteralCleanupCost(cfg, t, op.check);
      var c := Cleanup(cfg, t, op.check);
      if op.OpGet? {
        LiteralObtainCost(cfg, c, op.key, op.stamp, op.node);
      } else {
        TouchRefines(c, op.key, op.stamp);
      }
    }
  }

  lemma LiteralCleanupCost<N, V>(cfg: Config, t: Table<N, V>, now: nat)
    requires Inv(t) && !cfg.headStored
    ensures Inv(Cleanup(cfg, t, now))
    ensures (if CleanupRehashes(cfg, t, now) then Linked(Swept(cfg, t, now).buckets) else 0)
              + Linked(Cleanup(cfg, t, now).buckets) <= Linked(t.buckets)
  {
    CleanupRefines(cfg, t, now);
    if CleanupRehashes(cfg, t, now) {
      SweptRefines(cfg, t, now);
      RehashRefines(cfg, Swept(cfg, t, now));
    }
  }

  lemma LiteralObtainCost<N, V>(cfg: Config, t: Table<N, V>, key: nat, stamp: nat, node: N)
    requires Inv(t) && !cfg.headStored
    ensures var absent := Lookup(t.buckets, key).None?;
            (if absent && InsertRehashes(t) then Linked(t.buckets) else 0) + Linked(Obtain(cfg, t, key, stamp, node).buckets)
            <= Linked(t.buckets) + if absent then 1 else 0
  {
    if Lookup(t.buckets, key).Some? {
      TouchRefines(t, key, stamp);
    } else {
      RehashRefines(cfg, t.(count := t.count + 1));
      GrownLacks(cfg, t, key);
      AppendRefines(Grown(cfg, t), Cell(node, key, stamp, None));
    }
  }

  /** As written, what a rehash visits is gone afterwards: an entry is visited once at most. */
  lemma {:induction false} LiteralCost<N, V>(cfg: Config, t: Table<N, V>, ops: seq<Op<N, V>>)
    requires Inv(t) && !cfg.headStored
    ensures RunMoved(cfg, t, ops) + Linked(Run(cfg, t, ops).buckets) <= Linked(t.buckets) + RunMisses(cfg, t, ops)
    decreases |ops|
  {
    if ops != [] {
      LiteralStepCost(cfg, t, ops[0]);
      LiteralCost(cfg, Step(cfg, t, ops[0]), ops[1..]);
    }
  }

  /** Amortised cost with expiry, as written or completed: every insertion pays for four visited entries,
      for any schedule of growing and shrinking rehashes. */
  lemma RehashCost<N, V>(cfg: Config, t: Table<N, V>, ops: seq<Op<N, V>>)
    requires Inv(t) && Tight(t) && Load(t)
    ensures RunMoved(cfg, t, ops) <= Potential(t) + 4 * RunMisses(cfg, t, ops)
  {
    if cfg.headStored {
      StoredCost(cfg, t, ops);
    } else {
      LiteralCost(cfg, t, ops);
    }
  }

  ghost function Excess<N, V>(t: Table<N, V>): nat {
    if 2 * t.count > |t.buckets| then 2 * t.count - |t.buckets| else 0
  }

  lemma GrowthStep<N, V>(cfg: Config, t: Table<N, V>, op: Op<N, V>)
    requires Inv(t) && Tight(t) && Load(t) && cfg.headStored && cfg.cleanupPeriod == NEVER
    ensures Inv(Step(cfg, t, op)) && Tight(Step(cfg, t, op)) && Load(Step(cfg, t, op))
    ensures Moved(cfg, t, op) + Excess(Step(cfg, t, op)) <= Excess(t) + 2 * Misses(cfg, t, op)
  {
    StepRefines(cfg, t, op);
    StepLoad(cfg, t, op);
  }

  lemma {:induction false} GrowthCost<N, V>(cfg: Config, t: Table<N, V>, ops: seq<Op<N, V>>)
    requires Inv(t) && Tight(t) && Load(t) && cfg.headStored && cfg.cleanupPeriod == NEVER
    ensures RunMoved(cfg, t, ops) + Excess(Run(cfg, t, ops)) <= Excess(t) + 2 * RunMisses(cfg, t, ops)
    decreases |ops|
  {
    if ops != [] {
      GrowthStep(cfg, t, ops[0]);
      GrowthCost(cfg, Step(cfg, t, ops[0]), ops[1..]);
    }
  }

  /** From a new cache: with expiry at most four times the insertions plus the initial size, without
      expiry at most twice the insertions, and as written at most the insertions. */
  lemma CostFromNew<N, V>(cfg: Config, size: nat, now: nat, ops: seq<Op<N, V>>)
    requires size > 0
    ensures Inv(NewTable<N, V>(size, now))
    ensures RunMoved(cfg, NewTable(size, now), ops) <= size + 4 * RunMisses(cfg, NewTable(size, now), ops)
    ensures cfg.cleanupPeriod == NEVER ==>
              RunMoved(cfg, NewTable(size, now), ops) <= 2 * RunMisses(cfg, NewTable(size, now), ops)
    ensures !cfg.headStored ==> RunMoved(cfg, NewTable(size, now), ops) <= RunMisses(cfg, NewTable(size, now), ops)
  {
    NewTableInv<N, V>(size, now);
    RehashCost(cfg, NewTable(size, now), ops);
    if !cfg.headStored {
      LiteralCost(cfg, NewTable(size, now), ops);
    } else if cfg.cleanupPeriod == NEVER {
      GrowthCost(cfg, NewTable(size, now), ops);
    }
  }
}
