/** The device index of sysm_util.c over a cache that is changed in place: `sysm_iodev_get`, with an entry
    pointer held across the loop that fills the cache for all file systems. */
module IoDevice {
  import opened Words
  import opened CacheTable
  import opened CacheRefinement
  import opened CacheRuns
  import opened CacheRoom
  import opened NativeCache
  import opened DeviceTables
  import opened DeviceRuns

  const FSDEV_SIZE: nat := 15

  /** The table that the question for an id leaves. */
  ghost function GetOf<N>(headStored: bool, t: Table<N, Device>, id: nat, now: nat, node: N): (g: Table<N, Device>)
    requires Inv(t)
    ensures Inv(g)
  {
    GetRefines(Config(NEVER, NEVER, headStored), t, id, now, now, node);
    CacheTable.Get(Config(NEVER, NEVER, headStored), t, id, now, now, node)
  }

  /** The device that is answered is the right one: none is listed, or there is room for the ids that the
      loop asks for before it, in the table `g` that the question for the id leaves. */
  ghost predicate Right<N>(cfg: Config, t: Table<N, Device>, c: Call, g: Table<N, Device>)
    requires |t.buckets| > 0 && |g.buckets| > 0
  {
    Reads(DevicesOf(t), c) && FirstDevice(c.list.value, c.stats, c.id).Some? ==>
      Room(cfg, g, IdsOf(Ahead(c.list.value, c.stats, c.id), c.stats))
  }

  lemma NewRoom<N>(cfg: Config, ids: set<nat>)
    ensures var t := NewTable<N, Device>(FSDEV_SIZE, 0);
            && Sound(t) && Housed(t) && DevicesOf(t) == map[]
            && (Room(cfg, t, ids) <==> cfg.headStored || |ids| <= 15)
  {
    NewTableInv<N, Device>(FSDEV_SIZE, 0);
    assert DevicesOf(NewTable<N, Device>(FSDEV_SIZE, 0)) == map[];
    assert IndexOf(NewTable<N, Device>(FSDEV_SIZE, 0)).cells.Keys + ids == ids;
  }

  lemma RoomBehindFirst<N>(cfg: Config, id: nat, now: nat, node: N, ids: set<nat>)
    requires cfg == Config(NEVER, NEVER, cfg.headStored)
    ensures Inv(NewTable<N, Device>(FSDEV_SIZE, 0))
    ensures Room(cfg, GetOf(cfg.headStored, NewTable<N, Device>(FSDEV_SIZE, 0), id, now, node), ids)
            <==> cfg.headStored || |{id} + ids| <= 15
  {
    var t := NewTable<N, Device>(FSDEV_SIZE, 0);
    NewRoom<N>(cfg, {id});
    NewRoom<N>(cfg, {id} + ids);
    AskedAny(cfg, t, id, now, node);
    AskedRoom(cfg, t, id, node, GetOf(cfg.headStored, t, id, now, node), ids);
  }

  /** The first call of a handle answers right if and only if no device is listed for the id, or the ids up
      to the first one are at most 15, or heads are stored. */
  lemma FirstCallRight<N>(cfg: Config, c: Call, now: nat, node: N)
    requires cfg == Config(NEVER, NEVER, cfg.headStored) && Reads(map[], c)
    ensures Inv(NewTable<N, Device>(FSDEV_SIZE, 0))
    ensures Right(cfg, NewTable<N, Device>(FSDEV_SIZE, 0), c, GetOf(cfg.headStored, NewTable<N, Device>(FSDEV_SIZE, 0), c.id, now, node))
            <==> || cfg.headStored || FirstDevice(c.list.value, c.stats, c.id).None?
                 || |{c.id} + IdsOf(Ahead(c.list.value, c.stats, c.id), c.stats)| <= 15
  {
    NewRoom<N>(cfg, {});
    RoomBehindFirst(cfg, c.id, now, node, IdsOf(Ahead(c.list.value, c.stats, c.id), c.stats));
  }

  /** What a call makes of the table `t`, and its answer. */
  ghost predicate Answered<N>(cfg: Config, t: Table<N, Device>, c: Call, g: Table<N, Device>, r: Option<Device>, f: Table<N, Device>)
    requires |t.buckets| > 0 && |g.buckets| > 0 && |f.buckets| > 0
  {
    && Settled(cfg, t, c, f)
    && (Sound(t) ==> (r == Answer(DevicesOf(t), c) <==> Right(cfg, t, c, g)))
    && (Sound(f) ==> Right(cfg, t, c, g))
  }

  // ---------------------------------------------------------------- the exits of a call, on tables

  /** The table `g` after the id `id` was asked for, its entry `node` and the value in it. */
  ghost predicate Asking<N>(cfg: Config, t: Table<N, Device>, id: nat, node: N, value: Option<Device>, g: Table<N, Device>) {
    && Housed(t) && AskedFor(cfg, t, id, node, g) && Has(g, id, node)
    && (Missing(g) == Missing(t) ==> DevicesOf(g) == Asked(DevicesOf(t), id))
    && value == Known(DevicesOf(g), id) && value == Known(DevicesOf(t), id)
  }

  lemma AskingBy<N>(cfg: Config, t: Table<N, Device>, id: nat, now: nat, node: N, value: Option<Device>)
    requires Housed(t) && cfg.cleanupPeriod == NEVER && |CacheTable.Get(cfg, t, id, now, now, node).buckets| > 0
    requires var e := Lookup(CacheTable.Get(cfg, t, id, now, now, node).buckets, id);
             e.Some? && e.value.node == node && e.value.value == value
    ensures Asking(cfg, t, id, node, value, CacheTable.Get(cfg, t, id, now, now, node))
  {
    var g := CacheTable.Get(cfg, t, id, now, now, node);
    HousedExact(cfg, t, id, now, now, node);
    AskedAny(cfg, t, id, now, node);
    LookupIsIndex(g, id);
    IndexAsked(IndexOf(t), id, now, node);
  }

  lemma AskingSettles<N>(cfg: Config, t: Table<N, Device>, id: nat, node: N, value: Option<Device>, g: Table<N, Device>)
    requires Asking(cfg, t, id, node, value, g)
    ensures |t.buckets| > 0 && |g.buckets| > 0 && Housed(g) && Missing(g) >= Missing(t)
    ensures Sound(t) ==> (Sound(g) <==> Room(cfg, t, {id}))
    ensures Sound(t) && Sound(g) ==> DevicesOf(g) == Asked(DevicesOf(t), id) && (cfg.headStored || |g.buckets| == |t.buckets|)
  {
  }

  lemma OwnDeviceBy<N>(cfg: Config, t: Table<N, Device>, c: Call, g: Table<N, Device>, f: Table<N, Device>)
    requires |t.buckets| > 0 && |g.buckets| > 0 && |f.buckets| == |g.buckets| && Housed(f) && Missing(f) == Missing(g) >= Missing(t)
    requires Sound(t) ==> (Sound(g) <==> Room(cfg, t, {c.id})) && (Sound(f) <==> Sound(g))
    requires Sound(t) && Sound(g) ==> DevicesOf(g) == Asked(DevicesOf(t), c.id) && (cfg.headStored || |g.buckets| == |t.buckets|)
    requires DevicesOf(f) == DevicesOf(g)[c.id := Some(Device(c.path, false))]
    requires Known(DevicesOf(t), c.id) == None && IsDev(c.path)
    ensures Answered(cfg, t, c, g, Some(Device(c.path, false)), f)
  {
  }

  /** Asking for the id is all: it had a device, or there is nothing to read. */
  lemma AskedOnly<N>(cfg: Config, t: Table<N, Device>, c: Call, node: N, value: Option<Device>, g: Table<N, Device>)
    requires Asking(cfg, t, c.id, node, value, g) && (value.Some? || (!IsDev(c.path) && c.list.Err?))
    ensures |t.buckets| > 0 && |g.buckets| > 0 && Answered(cfg, t, c, g, value, g)
  {
    AskingSettles(cfg, t, c.id, node, value, g);
    AskedOnlyBy(cfg, t, c, value, g);
  }

  lemma AskedOnlyBy<N>(cfg: Config, t: Table<N, Device>, c: Call, value: Option<Device>, g: Table<N, Device>)
    requires |t.buckets| > 0 && |g.buckets| > 0 && Housed(g) && Missing(g) >= Missing(t)
    requires Sound(t) ==> (Sound(g) <==> Room(cfg, t, {c.id}))
    requires Sound(t) && Sound(g) ==> DevicesOf(g) == Asked(DevicesOf(t), c.id) && (cfg.headStored || |g.buckets| == |t.buckets|)
    requires value == Known(DevicesOf(t), c.id) && (value.Some? || (!IsDev(c.path) && c.list.Err?))
    ensures Answered(cfg, t, c, g, value, g)
  {
  }

  /** The path is a device itself. */
  lemma OwnDevice<N>(cfg: Config, t: Table<N, Device>, c: Call, node: N, g: Table<N, Device>)
    requires Asking(cfg, t, c.id, node, None, g) && IsDev(c.path)
    ensures var f := Store(g, c.id, Device(c.path, false));
            |t.buckets| > 0 && |g.buckets| > 0 && |f.buckets| > 0 && Answered(cfg, t, c, g, Some(Device(c.path, false)), f)
  {
    var d := Device(c.path, false);
    AskingSettles(cfg, t, c.id, node, None, g);
    StoredAny(g, c.id, d);
    KeptExact(g, c.id, d);
    OwnDeviceBy(cfg, t, c, g, Store(g, c.id, d));
  }

  /** The table behind the loop. */
  lemma LoopSettled<N>(cfg: Config, t: Table<N, Device>, c: Call, node: N, g: Table<N, Device>, ts: seq<Turn<N>>)
    requires Asking(cfg, t, c.id, node, None, g) && cfg.cleanupPeriod == NEVER && Reads(DevicesOf(t), c)
    requires Fits(ts, c.stats) && Systems(ts) == c.list.value
    ensures |t.buckets| > 0 && Settled(cfg, t, c, WalkTable(cfg, g, ts, c.stats))
  {
    LoopExact(cfg, g, ts, c.stats);
    AskedRoom(cfg, t, c.id, node, g, IdsOf(c.list.value, c.stats));
    if Sound(g) {
      WalkExact(cfg, g, ts, c.stats);
      if Sound(WalkTable(cfg, g, ts, c.stats)) {
        WalkRefines(cfg, g, ts, c.stats);
      }
    }
  }

  /** The list is read, with the entry held across the loop. */
  lemma ListRead<N>(cfg: Config, t: Table<N, Device>, c: Call, node: N, g: Table<N, Device>, ts: seq<Turn<N>>, r: Option<Device>)
    requires Asking(cfg, t, c.id, node, None, g) && cfg.cleanupPeriod == NEVER && Reads(DevicesOf(t), c)
    requires Fits(ts, c.stats) && Systems(ts) == c.list.value && NotRemade(cfg, g, node, ts, c.stats)
    requires var held := HeldValue(cfg, g, node, c.id, None, ts, c.stats);
             r == if held.Some? && held.value.name != "" then held else None
    ensures |t.buckets| > 0 && |g.buckets| > 0 && Answered(cfg, t, c, g, r, WalkTable(cfg, g, ts, c.stats))
  {
    LoopSettled(cfg, t, c, node, g, ts);
    HeldExact(cfg, g, node, c.id, ts, c.stats);
    ArrivesExact(cfg, g, ts, c.stats, c.id);
    LoopExact(cfg, g, ts, c.stats);
    AheadFewer(c.list.value, c.stats, c.id);
    if Room(cfg, g, IdsOf(c.list.value, c.stats)) {
      RoomForLess(cfg, g, IdsOf(Ahead(c.list.value, c.stats, c.id), c.stats), IdsOf(c.list.value, c.stats));
    }
  }

  /** The entry that a turn asks for is the one of its id afterwards. */
  lemma EntryAfter<N>(cfg: Config, t: Table<N, Device>, node: N, id: nat, v: Option<Device>, turn: Turn<N>, stats: Stats)
    requires Inv(t) && turn.Asks? && IsAsked(turn.fs, stats)
    requires var e := Lookup(Visited(cfg, t, turn, stats).buckets, stats[turn.fs.dirName]);
             e.Some? && e.value.node == turn.node
    ensures HeldStep(cfg, t, node, id, v, turn, stats)
         == if turn.node == node && stats[turn.fs.dirName] == id && IsDev(turn.fs.devName) && v.None?
            then Some(Device(turn.fs.devName, true)) else v
  {
    LookupIsIndex(Visited(cfg, t, turn, stats), stats[turn.fs.dirName]);
  }

  // ---------------------------------------------------------------- the code

  class DeviceIndex {
    var fsdev: Cache?<Device>
    /** Which rehash the cache of this handle uses. */
    const headStored: bool
    /** The calls so far whose paths could be found. */
    ghost var calls: seq<Call>

    ghost function Footprint(): set<object?>
      reads this, fsdev
    {
      if fsdev == null then {} else {fsdev, fsdev.entries} + fsdev.Repr
    }

    /** There is a cache, and it never expires. */
    ghost predicate Opened()
      reads this, Footprint()
    {
      fsdev != null && fsdev.Valid() && fsdev.cfg == Config(NEVER, NEVER, headStored)
    }

    /** What every call keeps, over any run of calls: the index is the map of devices of all calls if and
        only if their ids fit it. */
    ghost predicate Valid()
      reads this, Footprint()
    {
      if fsdev == null then calls == [] else Opened() && Indexed(fsdev.cfg, FSDEV_SIZE, fsdev.table, calls)
    }

    constructor (headStored: bool)
      ensures Valid() && fsdev == null && calls == [] && this.headStored == headStored
    {
      fsdev, calls := null, [];
      this.headStored := headStored;
    }

    /** The devices of the index. */
    ghost function Found(): Devices
      reads this, fsdev
      requires fsdev != null ==> |fsdev.table.buckets| > 0
    {
      if fsdev == null then map[] else DevicesOf(fsdev.table)
    }

    /** The ids of all calls so far fit the index. */
    ghost predicate Complete()
      reads this
    {
      Housing(headStored, 15, calls)
    }

    /** The table before a call, whether or not the cache exists yet. */
    ghost function TableBefore(): Table<Entry<Device>, Device>
      reads this, fsdev
    {
      if fsdev == null then NewTable(FSDEV_SIZE, 0) else fsdev.table
    }

    /** A get of the cache; what other entries hold stays. */
    method Ask(id: nat, now: nat) returns (entry: Entry<Device>)
      requires Opened()
      modifies fsdev, fsdev.entries, fsdev.Repr
      ensures Opened() && fresh(fsdev.Repr - old(fsdev.Repr)) && old(fsdev.Repr) <= fsdev.Repr
      ensures fsdev.entries == old(fsdev.entries) || fresh(fsdev.entries)
      ensures entry in fsdev.Repr && entry.id == id && fsdev.Owns(entry)
      ensures fsdev.table == CacheTable.Get(fsdev.cfg, old(fsdev.table), id, now, now, entry)
      ensures Lookup(fsdev.table.buckets, id).Some? && Lookup(fsdev.table.buckets, id).value.value == entry.value
      ensures Lookup(old(fsdev.table).buckets, id).None? ==> fresh(entry)
      ensures forall e :: e in old(fsdev.Repr) ==> e.value == old(e.value)
    {
      entry := fsdev.Get(id, now, now);
      OwnedValue(fsdev, entry);
    }

    /** `entry->value = iodev`. */
    method Keep(entry: Entry<Device>, d: Device)
      requires Opened() && entry in fsdev.Repr && fsdev.Owns(entry)
      modifies fsdev`table, entry`value, entry`access
      ensures Opened() && fsdev.Owns(entry) && entry.value == Some(d)
      ensures fsdev.table == Store(old(fsdev.table), entry.id, d)
    {
      fsdev.Write(entry, d);
    }

    /** A local disk whose id is asked for; its entry is filled if it has no device. */
    method Fill(f: FileSystem, stats: Stats, now: nat) returns (ent: Entry<Device>)
      requires Opened() && IsAsked(f, stats)
      modifies fsdev, fsdev.entries, fsdev.Repr
      ensures Opened() && fresh(fsdev.Repr - old(fsdev.Repr)) && old(fsdev.Repr) <= fsdev.Repr
      ensures fsdev.entries == old(fsdev.entries) || fresh(fsdev.entries)
      ensures fsdev.table == Visited(fsdev.cfg, old(fsdev.table), Asks(f, now, ent), stats)
      ensures ent.id == stats[f.dirName] && fsdev.Owns(ent)
      ensures Lookup(old(fsdev.table).buckets, ent.id).None? ==> fresh(ent)
      ensures forall e :: e in old(fsdev.Repr) ==>
                e.value == if e == ent && old(e.value).None? && IsDev(f.devName) then Some(Device(f.devName, true)) else old(e.value)
    {
      ent := Ask(stats[f.dirName], now);
      if ent.value == None && IsDev(f.devName) {
        Keep(ent, Device(f.devName, true));
      }
    }

    /** One turn of the loop over the file systems; an entry `held` across it changes as on the table. */
    method Visit(f: FileSystem, stats: Stats, now: nat, ghost held: Entry<Device>) returns (ghost turn: Turn<Entry<Device>>)
      requires Opened() && held in fsdev.Repr
      modifies fsdev, fsdev.entries, fsdev.Repr
      ensures Opened() && fresh(fsdev.Repr - old(fsdev.Repr)) && old(fsdev.Repr) <= fsdev.Repr
      ensures fsdev.entries == old(fsdev.entries) || fresh(fsdev.entries)
      ensures turn.fs == f && (turn.Asks? <==> IsAsked(f, stats))
      ensures fsdev.table == Visited(fsdev.cfg, old(fsdev.table), turn, stats)
      ensures turn.Asks? && stats[f.dirName] !in IndexOf(old(fsdev.table)).cells ==> turn.node != held
      ensures held.value == HeldStep(fsdev.cfg, old(fsdev.table), held, held.id, old(held.value), turn, stats)
    {
      turn := Skips(f);
      if f.localDisk && f.dirName in stats {
        ghost var t := fsdev.table;
        LookupIsIndex(t, stats[f.dirName]);
        var ent := Fill(f, stats, now);
        turn := Asks(f, now, ent);
        EntryAfter(fsdev.cfg, t, held, held.id, old(held.value), turn, stats);
      }
    }

    /** The loop over the file systems, with an entry held across it. */
    method VisitAll(list: seq<FileSystem>, stats: Stats, now: nat, ghost held: Entry<Device>)
      returns (ghost turns: seq<Turn<Entry<Device>>>)
      requires Opened() && held in fsdev.Repr
      modifies fsdev, fsdev.entries, fsdev.Repr
      ensures Opened() && fresh(fsdev.Repr - old(fsdev.Repr)) && old(fsdev.Repr) <= fsdev.Repr
      ensures fsdev.entries == old(fsdev.entries) || fresh(fsdev.entries)
      ensures Systems(turns) == list && Fits(turns, stats)
      ensures fsdev.table == WalkTable(fsdev.cfg, old(fsdev.table), turns, stats)
      ensures NotRemade(fsdev.cfg, old(fsdev.table), held, turns, stats)
      ensures held.value == HeldValue(fsdev.cfg, old(fsdev.table), held, held.id, old(held.value), turns, stats)
    {
      ghost var t, v := fsdev.table, held.value;
      turns := [];
      for i := 0 to |list|
        invariant Opened() && fresh(fsdev.Repr - old(fsdev.Repr)) && old(fsdev.Repr) <= fsdev.Repr
        invariant fsdev.entries == old(fsdev.entries) || fresh(fsdev.entries)
        invariant Systems(turns) == list[..i] && Fits(turns, stats)
        invariant fsdev.table == WalkTable(fsdev.cfg, t, turns, stats)
        invariant NotRemade(fsdev.cfg, t, held, turns, stats)
        invariant held.value == HeldValue(fsdev.cfg, t, held, held.id, v, turns, stats)
      {
        ghost var turn := Visit(list[i], stats, now, held);
        WalkTableSnoc(fsdev.cfg, t, turns, turn, stats);
        HeldSnoc(fsdev.cfg, t, held, held.id, v, turns, turn, stats);
        NotRemadeSnoc(fsdev.cfg, t, held, turns, turn, stats);
        SystemsSnoc(turns, turn, list, i);
        turns := turns + [turn];
      }
    }

    /** The loop, and the read of the entry that was obtained before it. */
    method Search(entry: Entry<Device>, list: seq<FileSystem>, stats: Stats, now: nat)
      returns (r: Option<Device>, ghost turns: seq<Turn<Entry<Device>>>)
      requires Opened() && entry in fsdev.Repr && entry.value == None
      modifies fsdev, fsdev.entries, fsdev.Repr
      ensures Opened() && fresh(fsdev.Repr - old(fsdev.Repr)) && (fsdev.entries == old(fsdev.entries) || fresh(fsdev.entries))
      ensures Systems(turns) == list && Fits(turns, stats) && NotRemade(fsdev.cfg, old(fsdev.table), entry, turns, stats)
      ensures fsdev.table == WalkTable(fsdev.cfg, old(fsdev.table), turns, stats)
      ensures var held := HeldValue(fsdev.cfg, old(fsdev.table), entry, entry.id, None, turns, stats);
              r == if held.Some? && held.value.name != "" then held else None
    {
      turns := VisitAll(list, stats, now, entry);
      r := if entry.value.Some? && entry.value.value.name != "" then entry.value else None;
    }

    /** `sysm_iodev_get` behind the question for the id, on the table `t`. */
    method Conclude(c: Call, now: nat, entry: Entry<Device>, ghost t: Table<Entry<Device>, Device>) returns (r: Option<Device>)
      requires Opened() && entry in fsdev.Repr && fsdev.Owns(entry) && entry.id == c.id
      requires Asking(fsdev.cfg, t, c.id, entry, entry.value, fsdev.table)
      modifies fsdev, fsdev.entries, fsdev.Repr
      ensures Opened() && fresh(fsdev.Repr - old(fsdev.Repr)) && (fsdev.entries == old(fsdev.entries) || fresh(fsdev.entries))
      ensures Inv(t) && Answered(fsdev.cfg, t, c, old(fsdev.table), r, fsdev.table)
    {
      ghost var g := fsdev.table;
      if entry.value.Some? {
        AskedOnly(fsdev.cfg, t, c, entry, entry.value, g);
        return entry.value;
      }
      if IsDev(c.path) {
        OwnDevice(fsdev.cfg, t, c, entry, g);
        Keep(entry, Device(c.path, false));
        return entry.value;
      }
      if c.list.Err? {
        AskedOnly(fsdev.cfg, t, c, entry, None, g);
        return None;
      }
      ghost var turns;
      r, turns := Search(entry, c.list.value, c.stats, now);
      ListRead(fsdev.cfg, t, c, entry, g, turns, r);
    }

    /** The question for the id; the entry holds what is known of it. */
    method AskKnown(id: nat, now: nat) returns (entry: Entry<Device>)
      requires Opened() && Housed(fsdev.table)
      modifies fsdev, fsdev.entries, fsdev.Repr
      ensures Opened() && fresh(fsdev.Repr - old(fsdev.Repr)) && (fsdev.entries == old(fsdev.entries) || fresh(fsdev.entries))
      ensures entry in fsdev.Repr && entry.id == id && fsdev.Owns(entry)
      ensures fsdev.table == CacheTable.Get(fsdev.cfg, old(fsdev.table), id, now, now, entry) && |fsdev.table.buckets| > 0
      ensures Asking(fsdev.cfg, old(fsdev.table), id, entry, entry.value, fsdev.table)
    {
      ghost var t := fsdev.table;
      entry := Ask(id, now);
      AskingBy(fsdev.cfg, t, id, now, entry, entry.value);
    }

    /** `sysm_iodev_get` from the question for the id on; `node` is the entry it asks for. */
    method Resolve(c: Call, now: nat) returns (r: Option<Device>, ghost node: Entry<Device>)
      requires Opened() && Housed(fsdev.table)
      modifies fsdev, fsdev.entries, fsdev.Repr
      ensures Opened() && fresh(fsdev.Repr - old(fsdev.Repr)) && (fsdev.entries == old(fsdev.entries) || fresh(fsdev.entries))
      ensures |CacheTable.Get(fsdev.cfg, old(fsdev.table), c.id, now, now, node).buckets| > 0
      ensures Answered(fsdev.cfg, old(fsdev.table), c, CacheTable.Get(fsdev.cfg, old(fsdev.table), c.id, now, now, node), r, fsdev.table)
    {
      ghost var t := fsdev.table;
      var entry := AskKnown(c.id, now);
      node := entry;
      r := Conclude(c, now, entry, t);
    }

    /** The cache of devices is made on first use. */
    method Open()
      requires Valid()
      modifies this`fsdev
      ensures Valid() && fsdev != null && fsdev.table == old(TableBefore())
      ensures forall o :: o in Footprint() ==> o in old(Footprint()) || fresh(o)
    {
      if fsdev == null {
        fsdev := new Cache<Device>(FSDEV_SIZE, NEVER, NEVER, headStored, 0);
        IndexedNew<Entry<Device>>(fsdev.cfg, FSDEV_SIZE, 0);
      }
    }

    /** The call is noted. */
    ghost method Note(c: Call)
      requires Opened() && Indexed(fsdev.cfg, FSDEV_SIZE, fsdev.table, calls + [c])
      modifies this`calls
      ensures Valid() && calls == old(calls) + [c]
    {
      calls := calls + [c];
    }

    /** What a call answers on an index that has answered `before`. */
    ghost predicate GoodAnswer(before: seq<Call>, t: Table<Entry<Device>, Device>, c: Call, now: nat, node: Entry<Device>, r: Option<Device>)
      reads this
      requires Inv(t)
    {
      && (Housing(headStored, 15, before + [c]) ==> r == FirstOffer(map[], before + [c], c.id))
      && (Housing(headStored, 15, before) ==>
            (r == Answer(AfterAll(map[], before), c)
             <==> Right(Config(NEVER, NEVER, headStored), t, c, GetOf(headStored, t, c.id, now, node))))
    }

    /** A call on an index that is there. */
    method CallMore(c: Call, now: nat) returns (r: Option<Device>, ghost node: Entry<Device>)
      requires Valid() && fsdev != null
      modifies this`calls, Footprint()
      ensures Valid() && forall o :: o in Footprint() ==> o in old(Footprint()) || fresh(o)
      ensures calls == old(calls) + [c] && GoodAnswer(old(calls), old(fsdev.table), c, now, node, r)
    {
      ghost var t := fsdev.table;
      r, node := Resolve(c, now);
      IndexedCall(fsdev.cfg, FSDEV_SIZE, t, calls, c, fsdev.table);
      AnswerIsFirstOffer(calls, c);
      assert GoodAnswer(calls, t, c, now, node, r);
      Note(c);
    }

    /** `sysm_iodev_get`. Over any run of calls whose ids fit the index, the answer is the first device that
        the run offers for the id of the path. On an index that is complete before the call, the answer is
        right if and only if the list offers no device of the id, or there is room for the ids asked for
        before it. */
    method Get(dirName: string, stats: Stats, list: Result<seq<FileSystem>>, now: nat)
      returns (r: Option<Device>, ghost node: Option<Entry<Device>>)
      requires Valid()
      modifies this, Footprint()
      ensures Valid() && fsdev != null
      ensures Inv(old(TableBefore()))
      ensures var path := if dirName != [] && dirName[0] == '/' then dirName else "/dev/" + dirName;
              if path !in stats then r == None && calls == old(calls) && fsdev.table == old(TableBefore())
              else
                var c := Call(path, stats[path], stats, list);
                && calls == old(calls) + [c] && node.Some?
                && GoodAnswer(old(calls), old(TableBefore()), c, now, node.value, r)
    {
      var path := if dirName == [] || dirName[0] != '/' then "/dev/" + dirName else dirName;
      Open();
      if path !in stats {
        return None, None;
      }
      ghost var entry;
      r, entry := CallMore(Call(path, stats[path], stats, list), now);
      node := Some(entry);
    }
  }
}
