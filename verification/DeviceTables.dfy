/** The device index on the hash table itself: what a call of `sysm_iodev_get` makes of it, whichever
    rehash is in use. */
module DeviceTables {
  import opened Words
  import opened CacheTable
  import opened CacheRefinement
  import opened CacheRuns
  import opened CacheRoom

  datatype Device = Device(name: string, isPartition: bool)

  datatype FileSystem = FileSystem(localDisk: bool, dirName: string, devName: string)

  /** `stat` of a path, as the id of its file system or device; absent when `stat` fails. */
  type Stats = map<string, nat>

  /** Ids that were asked for, each with the device found for it so far. */
  type Devices = map<nat, Option<Device>>

  predicate IsDev(name: string) {
    "/dev/" <= name
  }

  /** The names of devices are those below `/dev`. */
  lemma IsDevExact(name: string)
    ensures IsDev(name) <==> exists rest :: name == "/dev/" + rest
  {
    if IsDev(name) {
      assert name == "/dev/" + name[5..];
    }
  }

  // ---------------------------------------------------------------- the index as a map

  function Asked(m: Devices, id: nat): Devices {
    if id in m then m else m[id := None]
  }

  function Known(m: Devices, id: nat): Option<Device> {
    if id in m then m[id] else None
  }

  function VisitDevice(m: Devices, f: FileSystem, stats: Stats): Devices {
    if !f.localDisk || f.dirName !in stats then m
    else
      var a := Asked(m, stats[f.dirName]);
      if a[stats[f.dirName]].Some? || !IsDev(f.devName) then a
      else a[stats[f.dirName] := Some(Device(f.devName, true))]
  }

  function VisitDevices(m: Devices, list: seq<FileSystem>, stats: Stats): Devices
    decreases |list|
  {
    if list == [] then m else VisitDevices(VisitDevice(m, list[0], stats), list[1..], stats)
  }

  /** The first local disk of the list that has a device name and this id. */
  function FirstDevice(list: seq<FileSystem>, stats: Stats, id: nat): (r: Option<Device>)
    ensures r.Some? ==> r.value.name != ""
  {
    if list == [] then None
    else if list[0].localDisk && list[0].dirName in stats && stats[list[0].dirName] == id && IsDev(list[0].devName)
    then Some(Device(list[0].devName, true))
    else FirstDevice(list[1..], stats, id)
  }

  /** After the loop an id keeps the device it had, or has the first one that the list offers. */
  lemma {:induction false} DeviceFound(m: Devices, list: seq<FileSystem>, stats: Stats, id: nat)
    ensures Known(VisitDevices(m, list, stats), id)
         == if Known(m, id).Some? then Known(m, id) else FirstDevice(list, stats, id)
    ensures m.Keys <= VisitDevices(m, list, stats).Keys <= m.Keys + IdsOf(list, stats)
    decreases |list|
  {
    if list != [] {
      DeviceFound(VisitDevice(m, list[0], stats), list[1..], stats, id);
    }
  }

  function IdsOf(list: seq<FileSystem>, stats: Stats): set<nat> {
    if list == [] then {}
    else (if list[0].localDisk && list[0].dirName in stats then {stats[list[0].dirName]} else {}) + IdsOf(list[1..], stats)
  }

  ghost function DevicesIn<N>(a: Index<N, Device>): Devices {
    map id | id in a.cells :: a.cells[id].value
  }

  lemma IndexAsked<N>(a: Index<N, Device>, id: nat, stamp: nat, node: N)
    ensures var r := IndexObtain(a, id, stamp, node);
            && DevicesIn(r) == Asked(DevicesIn(a), id)
            && forall other: nat :: other in a.cells ==> other in r.cells && r.cells[other].node == a.cells[other].node
  {
  }

  lemma IndexWritten<N>(a: Index<N, Device>, id: nat, d: Device)
    requires id in a.cells
    ensures DevicesIn(IndexStore(a, id, d)) == DevicesIn(a)[id := Some(d)]
    ensures forall other: nat :: other in a.cells ==>
              other in IndexStore(a, id, d).cells && IndexStore(a, id, d).cells[other].node == a.cells[other].node
  {
  }

  // ---------------------------------------------------------------- one id, one file system

  ghost function DevicesOf<N>(t: Table<N, Device>): Devices
    requires |t.buckets| > 0
  {
    DevicesIn(IndexOf(t))
  }

  /** Asking for an id keeps `count` true exactly when there is room for it, and then every entry. */
  lemma AskedExact<N>(cfg: Config, t: Table<N, Device>, id: nat, now: nat, node: N)
    requires Sound(t) && cfg.cleanupPeriod == NEVER
    ensures var g := Get(cfg, t, id, now, now, node);
            && Inv(g) && (Sound(g) <==> Room(cfg, t, {id})) && (!Sound(g) ==> Missing(g) > 0)
            && (Sound(g) ==> DevicesOf(g) == Asked(DevicesOf(t), id) && KeepsEntries(t, g) && (cfg.headStored || |g.buckets| == |t.buckets|))
  {
    var g := Get(cfg, t, id, now, now, node);
    RoomExact(cfg, t, id, now, now, node);
    StepLoad(cfg, t, OpGet(id, now, now, node));
    if Room(cfg, t, {id}) {
      RoomIsNoLoss(cfg, t, id, now, now, node);
      IndexAsked(IndexOf(t), id, now, node);
      StillOwned(t, g);
    }
  }

  lemma KeptExact<N>(t: Table<N, Device>, id: nat, d: Device)
    requires Inv(t)
    ensures var r := Store(t, id, d);
            && Inv(r) && (Sound(r) <==> Sound(t)) && Missing(r) == Missing(t) && |r.buckets| == |t.buckets|
            && KeepsEntries(t, r) && (id in IndexOf(t).cells ==> DevicesOf(r) == DevicesOf(t)[id := Some(d)])
  {
    StoreRefines(t, id, d);
    if id in IndexOf(t).cells {
      IndexWritten(IndexOf(t), id, d);
    }
    StillOwned(t, Store(t, id, d));
  }

  /** A file system of the list, with the clock and the entry that a miss would make if its id is asked
      for. */
  datatype Turn<N> = Asks(fs: FileSystem, now: nat, node: N) | Skips(fs: FileSystem)

  predicate IsAsked(f: FileSystem, stats: Stats) {
    f.localDisk && f.dirName in stats
  }

  predicate Fits<N>(ts: seq<Turn<N>>, stats: Stats) {
    forall i :: 0 <= i < |ts| ==> (ts[i].Asks? <==> IsAsked(ts[i].fs, stats))
  }

  function Systems<N>(ts: seq<Turn<N>>): (r: seq<FileSystem>)
    ensures |r| == |ts| && forall i :: 0 <= i < |ts| ==> r[i] == ts[i].fs
  {
    seq(|ts|, i requires 0 <= i < |ts| => ts[i].fs)
  }

  /** One turn of the loop, on the table. */
  ghost function Visited<N>(cfg: Config, t: Table<N, Device>, v: Turn<N>, stats: Stats): (r: Table<N, Device>)
    requires Inv(t) && (v.Asks? <==> IsAsked(v.fs, stats))
    ensures Inv(r) && Missing(r) >= Missing(t)
  {
    if v.Skips? then t
    else
      var id := stats[v.fs.dirName];
      GetRefines(cfg, t, id, v.now, v.now, v.node);
      GetMissing(cfg, t, id, v.now, v.now, v.node);
      var g := Get(cfg, t, id, v.now, v.now, v.node);
      KeptExact(g, id, Device(v.fs.devName, true));
      var e := Lookup(g.buckets, id);
      if e.Some? && e.value.value.None? && IsDev(v.fs.devName) then Store(g, id, Device(v.fs.devName, true)) else g
  }

  lemma IdsOfOne(f: FileSystem, stats: Stats)
    ensures IdsOf([f], stats) == if IsAsked(f, stats) then {stats[f.dirName]} else {}
  {
    assert [f][1..] == [];
  }

  lemma KeepsBoth<N>(t: Table<N, Device>, g: Table<N, Device>, r: Table<N, Device>)
    requires |t.buckets| > 0 && |g.buckets| > 0 && |r.buckets| > 0
    ensures KeepsEntries(t, g) && KeepsEntries(g, r) ==> KeepsEntries(t, r)
  {
  }

  lemma AsksExact<N>(cfg: Config, t: Table<N, Device>, v: Turn<N>, stats: Stats)
    requires Sound(t) && cfg.cleanupPeriod == NEVER && v.Asks? && IsAsked(v.fs, stats)
    ensures var r := Visited(cfg, t, v, stats);
            && (Sound(r) <==> Room(cfg, t, {stats[v.fs.dirName]})) && (!Sound(r) ==> Missing(r) > 0)
            && (Sound(r) ==> DevicesOf(r) == VisitDevice(DevicesOf(t), v.fs, stats) && KeepsEntries(t, r)
                             && (cfg.headStored || |r.buckets| == |t.buckets|))
  {
    var id := stats[v.fs.dirName];
    var g := Get(cfg, t, id, v.now, v.now, v.node);
    AskedExact(cfg, t, id, v.now, v.node);
    KeptExact(g, id, Device(v.fs.devName, true));
    LookupIsIndex(g, id);
    KeepsBoth(t, g, Visited(cfg, t, v, stats));
  }

  /** One file system keeps the index sound exactly when there was room for its id, and is then one step
      of the map of devices. */
  lemma VisitedExact<N>(cfg: Config, t: Table<N, Device>, v: Turn<N>, stats: Stats)
    requires Sound(t) && cfg.cleanupPeriod == NEVER && (v.Asks? <==> IsAsked(v.fs, stats))
    ensures var r := Visited(cfg, t, v, stats);
            && (Sound(r) <==> Room(cfg, t, IdsOf([v.fs], stats))) && (!Sound(r) ==> Missing(r) > 0)
            && (Sound(r) ==> DevicesOf(r) == VisitDevice(DevicesOf(t), v.fs, stats) && KeepsEntries(t, r)
                             && (cfg.headStored || |r.buckets| == |t.buckets|))
  {
    IdsOfOne(v.fs, stats);
    if v.Skips? {
      RoomForNone(cfg, t);
    } else {
      AsksExact(cfg, t, v, stats);
    }
  }

  // ---------------------------------------------------------------- the loop

  ghost function WalkTable<N>(cfg: Config, t: Table<N, Device>, ts: seq<Turn<N>>, stats: Stats): (r: Table<N, Device>)
    requires Inv(t) && Fits(ts, stats)
    ensures Inv(r) && Missing(r) >= Missing(t)
    decreases |ts|
  {
    if ts == [] then t else WalkTable(cfg, Visited(cfg, t, ts[0], stats), ts[1..], stats)
  }

  lemma {:induction false} WalkTableSnoc<N>(cfg: Config, t: Table<N, Device>, ts: seq<Turn<N>>, v: Turn<N>, stats: Stats)
    requires Inv(t) && Fits(ts, stats) && (v.Asks? <==> IsAsked(v.fs, stats))
    ensures Fits(ts + [v], stats)
    ensures WalkTable(cfg, t, ts + [v], stats) == Visited(cfg, WalkTable(cfg, t, ts, stats), v, stats)
    decreases |ts|
  {
    if ts == [] {
      assert ts + [v] == [v] && [v][1..] == [];
    } else {
      assert (ts + [v])[0] == ts[0] && (ts + [v])[1..] == ts[1..] + [v];
      WalkTableSnoc(cfg, Visited(cfg, t, ts[0], stats), ts[1..], v, stats);
    }
  }

  lemma SystemsStep<N>(ts: seq<Turn<N>>, stats: Stats)
    requires ts != []
    ensures Systems(ts)[0] == ts[0].fs && Systems(ts)[1..] == Systems(ts[1..])
    ensures IdsOf(Systems(ts), stats) == IdsOf([ts[0].fs], stats) + IdsOf(Systems(ts[1..]), stats)
  {
    assert Systems(ts)[1..] == Systems(ts[1..]);
    IdsOfOne(ts[0].fs, stats);
  }

  lemma RoomStep<N>(cfg: Config, t: Table<N, Device>, v: Turn<N>, stats: Stats, rest: set<nat>)
    requires Sound(t) && cfg.cleanupPeriod == NEVER && (v.Asks? <==> IsAsked(v.fs, stats))
    ensures var r := Visited(cfg, t, v, stats);
            if Sound(r) then Room(cfg, t, IdsOf([v.fs], stats) + rest) <==> Room(cfg, r, rest)
            else Missing(r) > 0 && !Room(cfg, t, IdsOf([v.fs], stats) + rest)
  {
    var r, first := Visited(cfg, t, v, stats), IdsOf([v.fs], stats);
    VisitedExact(cfg, t, v, stats);
    if Sound(r) {
      VisitedKeys(DevicesOf(t), v.fs, stats);
      assert IndexOf(t).cells.Keys == DevicesOf(t).Keys && IndexOf(r).cells.Keys == DevicesOf(r).Keys;
      RoomSplits(cfg, t, r, first, rest);
    } else if Room(cfg, t, first + rest) {
      RoomForLess(cfg, t, first, first + rest);
    }
  }

  lemma VisitedKeys(m: Devices, f: FileSystem, stats: Stats)
    ensures VisitDevice(m, f, stats).Keys == m.Keys + IdsOf([f], stats)
  {
    IdsOfOne(f, stats);
  }

  /** The loop keeps the index sound if and only if the table had room for every id asked for. */
  lemma {:induction false} WalkExact<N>(cfg: Config, t: Table<N, Device>, ts: seq<Turn<N>>, stats: Stats)
    requires Sound(t) && cfg.cleanupPeriod == NEVER && Fits(ts, stats)
    ensures Sound(WalkTable(cfg, t, ts, stats)) <==> Room(cfg, t, IdsOf(Systems(ts), stats))
    decreases |ts|
  {
    if ts == [] {
      RoomForNone(cfg, t);
    } else {
      SystemsStep(ts, stats);
      RoomStep(cfg, t, ts[0], stats, IdsOf(Systems(ts[1..]), stats));
      if Sound(Visited(cfg, t, ts[0], stats)) {
        WalkExact(cfg, Visited(cfg, t, ts[0], stats), ts[1..], stats);
      }
    }
  }

  /** It is then the loop on the map of devices, and every pointer held before stays good. */
  lemma {:induction false} WalkRefines<N>(cfg: Config, t: Table<N, Device>, ts: seq<Turn<N>>, stats: Stats)
    requires Sound(t) && cfg.cleanupPeriod == NEVER && Fits(ts, stats) && Sound(WalkTable(cfg, t, ts, stats))
    ensures DevicesOf(WalkTable(cfg, t, ts, stats)) == VisitDevices(DevicesOf(t), Systems(ts), stats)
    ensures KeepsEntries(t, WalkTable(cfg, t, ts, stats))
    ensures cfg.headStored || |WalkTable(cfg, t, ts, stats).buckets| == |t.buckets|
    decreases |ts|
  {
    if ts != [] {
      var r := Visited(cfg, t, ts[0], stats);
      SystemsStep(ts, stats);
      VisitedExact(cfg, t, ts[0], stats);
      WalkRefines(cfg, r, ts[1..], stats);
      KeepsBoth(t, r, WalkTable(cfg, r, ts[1..], stats));
    }
  }

  lemma SystemsSnoc<N>(ts: seq<Turn<N>>, v: Turn<N>, list: seq<FileSystem>, i: nat)
    requires i < |list| && Systems(ts) == list[..i] && v.fs == list[i]
    ensures Systems(ts + [v]) == list[..i + 1]
  {
    assert Systems(ts + [v]) == Systems(ts) + [v.fs];
  }

  // ---------------------------------------------------------------- one id too many

  /** A full index, with the rehash as written: one more file system, and its device alone is known. */
  lemma LastDeviceAlone<N>(cfg: Config, t: Table<N, Device>, v: Turn<N>, stats: Stats)
    requires Sound(t) && cfg.cleanupPeriod == NEVER && !cfg.headStored
    requires v.Asks? && IsAsked(v.fs, stats) && IsDev(v.fs.devName)
    requires t.count == |t.buckets| && stats[v.fs.dirName] !in DevicesOf(t)
    ensures DevicesOf(Visited(cfg, t, v, stats)) == map[stats[v.fs.dirName] := Some(Device(v.fs.devName, true))]
  {
    var id := stats[v.fs.dirName];
    OverflowForgets(cfg, t, id, v.now, v.now, v.node);
    var g := Get(cfg, t, id, v.now, v.now, v.node);
    LookupIsIndex(g, id);
    StoreRefines(g, id, Device(v.fs.devName, true));
    SoleDevice(IndexOf(g), id, v.now, v.node, Device(v.fs.devName, true));
  }

  lemma SoleDevice<N>(a: Index<N, Device>, id: nat, now: nat, node: N, d: Device)
    requires a.cells == map[id := Cell(node, id, now, None)]
    ensures DevicesIn(IndexStore(a, id, d)) == map[id := Some(d)]
  {
  }

  predicate IsDisk<N>(v: Turn<N>, stats: Stats, id: nat) {
    v.Asks? && IsAsked(v.fs, stats) && stats[v.fs.dirName] == id && IsDev(v.fs.devName)
  }

  lemma {:induction false} DiskIds<N>(ts: seq<Turn<N>>, stats: Stats, from: nat)
    requires from <= |ts| && forall i :: 0 <= i < |ts| ==> IsDisk(ts[i], stats, i)
    ensures forall id: nat :: id in IdsOf(Systems(ts[from..]), stats) <==> from <= id < |ts|
    decreases |ts| - from
  {
    if from < |ts| {
      var rest := ts[from..];
      SystemsStep(rest, stats);
      IdsOfOne(rest[0].fs, stats);
      assert rest[1..] == ts[from + 1..] && IsDisk(ts[from], stats, from);
      DiskIds(ts, stats, from + 1);
    } else {
      assert Systems(ts[from..]) == [];
    }
  }

  /** A new index of `n` buckets and a list of `n + 1` local disks, as 15 buckets and 16 disks: as
      written, only the last disk is known afterwards, where the map would know them all. */
  lemma OneDiskTooMany<N>(n: nat, now: nat, ts: seq<Turn<N>>, stats: Stats)
    requires 0 < n && |ts| == n + 1 && forall i :: 0 <= i <= n ==> IsDisk(ts[i], stats, i)
    ensures Inv(NewTable<N, Device>(n, now)) && Fits(ts, stats)
    ensures DevicesOf(WalkTable(Config(NEVER, NEVER, false), NewTable(n, now), ts, stats))
         == map[n := Some(Device(ts[n].fs.devName, true))]
    ensures VisitDevices(map[], Systems(ts), stats).Keys == Below(n + 1)
  {
    var last := ts[n];
    assert IsDisk(last, stats, n) && ts[..n] + [last] == ts;
    OneMoreDisk(n, now, ts[..n], last, stats);
    AllDisks(ts, stats);
  }

  lemma OneMoreDisk<N>(n: nat, now: nat, first: seq<Turn<N>>, last: Turn<N>, stats: Stats)
    requires 0 < n && |first| == n && IsDisk(last, stats, n) && forall i :: 0 <= i < n ==> IsDisk(first[i], stats, i)
    ensures Inv(NewTable<N, Device>(n, now)) && Fits(first + [last], stats)
    ensures DevicesOf(WalkTable(Config(NEVER, NEVER, false), NewTable(n, now), first + [last], stats))
         == map[n := Some(Device(last.fs.devName, true))]
  {
    var cfg := Config(NEVER, NEVER, false);
    var r := FullIndex(n, now, first, stats);
    WalkTableSnoc(cfg, NewTable<N, Device>(n, now), first, last, stats);
    LastDeviceAlone(cfg, r, last, stats);
  }

  lemma AllDisks<N>(ts: seq<Turn<N>>, stats: Stats)
    requires forall i :: 0 <= i < |ts| ==> IsDisk(ts[i], stats, i)
    ensures Fits(ts, stats) && IdsOf(Systems(ts), stats) == Below(|ts|)
    ensures VisitDevices(map[], Systems(ts), stats).Keys == Below(|ts|)
  {
    DiskIds(ts, stats, 0);
    assert ts[0..] == ts;
    KeysVisited(map[], Systems(ts), stats);
    assert IdsOf(Systems(ts), stats) == Below(|ts|);
  }

  lemma {:induction false} KeysVisited(m: Devices, list: seq<FileSystem>, stats: Stats)
    ensures VisitDevices(m, list, stats).Keys == m.Keys + IdsOf(list, stats)
    decreases |list|
  {
    if list != [] {
      VisitedKeys(m, list[0], stats);
      IdsOfOne(list[0], stats);
      KeysVisited(VisitDevice(m, list[0], stats), list[1..], stats);
    }
  }

  lemma FullIndex<N>(n: nat, now: nat, ts: seq<Turn<N>>, stats: Stats) returns (r: Table<N, Device>)
    requires 0 < n && |ts| == n && forall i :: 0 <= i < n ==> IsDisk(ts[i], stats, i)
    ensures Inv(NewTable<N, Device>(n, now)) && Fits(ts, stats)
    ensures r == WalkTable(Config(NEVER, NEVER, false), NewTable(n, now), ts, stats)
    ensures Sound(r) && r.count == |r.buckets| && n !in DevicesOf(r)
  {
    var cfg := Config(NEVER, NEVER, false);
    var t: Table<N, Device> := NewTable(n, now);
    NewTableInv<N, Device>(n, now);
    AllDisks(ts, stats);
    assert IndexOf(t).cells.Keys + Below(n) == Below(n);
    WalkExact(cfg, t, ts, stats);
    r := WalkTable(cfg, t, ts, stats);
    WalkRefines(cfg, t, ts, stats);
    assert DevicesOf(t) == map[];
    CountOfDevices(r);
  }

  lemma CountOfDevices<N>(t: Table<N, Device>)
    requires Sound(t)
    ensures t.count == |DevicesOf(t).Keys|
  {
    SizeOfIndex(t);
    assert IndexOf(t).cells.Keys == DevicesOf(t).Keys;
    assert |IndexOf(t).cells| == |IndexOf(t).cells.Keys|;
  }
}
