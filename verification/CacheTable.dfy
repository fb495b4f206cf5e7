/**
  The expiring hash cache of sysm_util.c on values: a table of buckets, each a chain of cells.
  `node` is the identity of the heap entry that callers hold a pointer to.
 */
module CacheTable {
  import opened Words

  datatype Cell<N, V> = Cell(node: N, id: nat, access: nat, value: Option<V>)

  type Chain<N, V> = seq<Cell<N, V>>

  type Buckets<N, V> = seq<Chain<N, V>>

  /** `headStored` tells whether a rehash stores the relinked entry as the head of its new
      bucket. The code as written never does (`headStored == false`). */
  datatype Config = Config(cleanupPeriod: nat, expirePeriod: nat, headStored: bool)

  datatype Table<N, V> = Table(buckets: Buckets<N, V>, count: nat, lastCleanup: nat)

  // ---------------------------------------------------------------- chains and buckets

  function FindIn<N, V>(cs: Chain<N, V>, id: nat): (r: Option<Cell<N, V>>)
    ensures r.Some? ==> r.value in cs && r.value.id == id
    ensures r.None? ==> forall c :: c in cs ==> c.id != id
  {
    if cs == [] then None
    else if cs[0].id == id then Some(cs[0])
    else FindIn(cs[1..], id)
  }

  predicate DistinctIds<N, V>(cs: Chain<N, V>) {
    forall i, j :: 0 <= i < j < |cs| ==> cs[i].id != cs[j].id
  }

  /** Every id occurs once, in the bucket that its remainder selects. */
  predicate WellPlaced<N, V>(bs: Buckets<N, V>) {
    && |bs| > 0
    && (forall b, j :: 0 <= b < |bs| && 0 <= j < |bs[b]| ==> bs[b][j].id % |bs| == b)
    && (forall b :: 0 <= b < |bs| ==> DistinctIds(bs[b]))
  }

  function Linked<N, V>(bs: Buckets<N, V>): nat {
    if bs == [] then 0 else |bs[0]| + Linked(bs[1..])
  }

  function Lookup<N, V>(bs: Buckets<N, V>, id: nat): Option<Cell<N, V>>
    requires |bs| > 0
  {
    FindIn(bs[id % |bs|], id)
  }

  predicate Inv<N, V>(t: Table<N, V>) {
    WellPlaced(t.buckets) && Linked(t.buckets) <= t.count
  }

  /** `count` tells the truth about the chains. */
  predicate Tight<N, V>(t: Table<N, V>) {
    Linked(t.buckets) == t.count
  }

  // ---------------------------------------------------------------- rehash

  function EmptyBuckets<N, V>(n: nat): (bs: Buckets<N, V>)
    ensures |bs| == n && forall b :: 0 <= b < n ==> bs[b] == []
  {
    seq(n, _ => [])
  }

  function PushFront<N, V>(c: Cell<N, V>, nb: Buckets<N, V>): Buckets<N, V>
    requires |nb| > 0
  {
    nb[c.id % |nb| := [c] + nb[c.id % |nb|]]
  }

  function Relink<N, V>(cs: Chain<N, V>, nb: Buckets<N, V>, headStored: bool): (r: Buckets<N, V>)
    requires |nb| > 0
    ensures |r| == |nb|
  {
    if cs == [] then nb
    else Relink(cs[1..], if headStored then PushFront(cs[0], nb) else nb, headStored)
  }

  function RelinkAll<N, V>(bs: Buckets<N, V>, nb: Buckets<N, V>, headStored: bool): (r: Buckets<N, V>)
    requires |nb| > 0
    ensures |r| == |nb|
  {
    if bs == [] then nb
    else RelinkAll(bs[1..], Relink(bs[0], nb, headStored), headStored)
  }

  function Rehash<N, V>(cfg: Config, t: Table<N, V>): Table<N, V> {
    t.(buckets := RelinkAll(t.buckets, EmptyBuckets(t.count * 2 + 1), cfg.headStored))
  }

  // ---------------------------------------------------------------- cleanup

  predicate CleanupDue(cfg: Config, lastCleanup: nat, now: nat) {
    cfg.cleanupPeriod != NEVER && Elapsed(now, lastCleanup) >= cfg.cleanupPeriod
  }

  predicate Alive<N, V>(cfg: Config, c: Cell<N, V>, now: nat) {
    Elapsed(now, c.access) <= cfg.expirePeriod
  }

  function Survivors<N, V>(cfg: Config, cs: Chain<N, V>, now: nat): (r: Chain<N, V>)
    ensures |r| <= |cs|
    ensures forall c :: c in r ==> c in cs && Alive(cfg, c, now)
    ensures forall c :: c in cs && Alive(cfg, c, now) ==> c in r
  {
    if cs == [] then []
    else (if Alive(cfg, cs[0], now) then [cs[0]] else []) + Survivors(cfg, cs[1..], now)
  }

  function Sweep<N, V>(cfg: Config, bs: Buckets<N, V>, now: nat): (r: Buckets<N, V>)
    ensures |r| == |bs|
    ensures forall b :: 0 <= b < |bs| ==> r[b] == Survivors(cfg, bs[b], now)
    ensures Linked(r) <= Linked(bs)
  {
    if bs == [] then [] else [Survivors(cfg, bs[0], now)] + Sweep(cfg, bs[1..], now)
  }

  /** The values handed to `free_value` by one pass, in order. */
  function ReleasedIn<N, V>(cfg: Config, cs: Chain<N, V>, now: nat): seq<V> {
    if cs == [] then []
    else (if !Alive(cfg, cs[0], now) && cs[0].value.Some? then [cs[0].value.value] else [])
         + ReleasedIn(cfg, cs[1..], now)
  }

  function Released<N, V>(cfg: Config, bs: Buckets<N, V>, now: nat): seq<V> {
    if bs == [] then [] else ReleasedIn(cfg, bs[0], now) + Released(cfg, bs[1..], now)
  }

  /** The values still linked, bucket by bucket. */
  function ValuesIn<N, V>(cs: Chain<N, V>): seq<V> {
    if cs == [] then []
    else (if cs[0].value.Some? then [cs[0].value.value] else []) + ValuesIn(cs[1..])
  }

  function Values<N, V>(bs: Buckets<N, V>): seq<V> {
    if bs == [] then [] else ValuesIn(bs[0]) + Values(bs[1..])
  }

  function Swept<N, V>(cfg: Config, t: Table<N, V>, now: nat): Table<N, V>
    requires Inv(t)
  {
    var bs := Sweep(cfg, t.buckets, now);
    Table(bs, t.count - (Linked(t.buckets) - Linked(bs)), now)
  }

  predicate Sparse<N, V>(t: Table<N, V>) {
    t.count < |t.buckets| / 4
  }

  function Cleanup<N, V>(cfg: Config, t: Table<N, V>, now: nat): Table<N, V>
    requires Inv(t)
  {
    if !CleanupDue(cfg, t.lastCleanup, now) then t
    else
      var s := Swept(cfg, t, now);
      if Sparse(s) then Rehash(cfg, s) else s
  }

  // ---------------------------------------------------------------- get, find, store

  function SetAccess<N, V>(cs: Chain<N, V>, id: nat, now: nat): (r: Chain<N, V>)
    ensures |r| == |cs|
    ensures forall j :: 0 <= j < |cs| && cs[j].id != id ==> r[j] == cs[j]
    ensures forall j :: 0 <= j < |cs| ==> r[j].id == cs[j].id
  {
    if cs == [] then []
    else if cs[0].id == id then [cs[0].(access := now)] + cs[1..]
    else [cs[0]] + SetAccess(cs[1..], id, now)
  }

  function SetValue<N, V>(cs: Chain<N, V>, id: nat, v: V): (r: Chain<N, V>)
    ensures |r| == |cs|
    ensures forall j :: 0 <= j < |cs| && cs[j].id != id ==> r[j] == cs[j]
    ensures forall j :: 0 <= j < |cs| ==> r[j].id == cs[j].id
  {
    if cs == [] then []
    else if cs[0].id == id then [cs[0].(value := Some(v))] + cs[1..]
    else [cs[0]] + SetValue(cs[1..], id, v)
  }

  function Touch<N, V>(t: Table<N, V>, id: nat, now: nat): Table<N, V>
    requires |t.buckets| > 0
  {
    var b := id % |t.buckets|;
    t.(buckets := t.buckets[b := SetAccess(t.buckets[b], id, now)])
  }

  /** A caller writes `value` through the pointer of the entry for `id`. */
  function Store<N, V>(t: Table<N, V>, id: nat, v: V): Table<N, V>
    requires |t.buckets| > 0
  {
    var b := id % |t.buckets|;
    t.(buckets := t.buckets[b := SetValue(t.buckets[b], id, v)])
  }

  /** `++count > size`, then a growing rehash. */
  function Grown<N, V>(cfg: Config, t: Table<N, V>): (r: Table<N, V>)
    requires |t.buckets| > 0
    ensures |r.buckets| > 0
  {
    var c := t.(count := t.count + 1);
    if c.count > |c.buckets| then Rehash(cfg, c) else c
  }

  function Insert<N, V>(cfg: Config, t: Table<N, V>, id: nat, now: nat, node: N): Table<N, V>
    requires |t.buckets| > 0
  {
    var g := Grown(cfg, t);
    var b := id % |g.buckets|;
    g.(buckets := g.buckets[b := g.buckets[b] + [Cell(node, id, now, None)]])
  }

  function Obtain<N, V>(cfg: Config, t: Table<N, V>, id: nat, now: nat, node: N): Table<N, V>
    requires |t.buckets| > 0
  {
    if Lookup(t.buckets, id).Some? then Touch(t, id, now) else Insert(cfg, t, id, now, node)
  }

  /** `check` is the clock reading of the cleanup, `stamp` the one stored in the entry. */
  function Get<N, V>(cfg: Config, t: Table<N, V>, id: nat, check: nat, stamp: nat, node: N): Table<N, V>
    requires Inv(t)
  {
    CleanupKeepsSize(cfg, t, check);
    Obtain(cfg, Cleanup(cfg, t, check), id, stamp, node)
  }

  /** A find that misses leaves the table alone, and `Touch` of an absent id does nothing. */
  function Find<N, V>(cfg: Config, t: Table<N, V>, id: nat, check: nat, stamp: nat): Table<N, V>
    requires Inv(t)
  {
    CleanupKeepsSize(cfg, t, check);
    Touch(Cleanup(cfg, t, check), id, stamp)
  }

  lemma CleanupKeepsSize<N, V>(cfg: Config, t: Table<N, V>, now: nat)
    requires Inv(t)
    ensures |Cleanup(cfg, t, now).buckets| > 0
  {
  }
}
