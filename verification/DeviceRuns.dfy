/** The device index over all calls of a handle: what it holds while the ids fit, which device an id gets
    over a run, and what becomes of an entry that is held while the loop over the file systems runs. */
module DeviceRuns {
  import opened Words
  import opened CacheTable
  import opened CacheRefinement
  import opened CacheRuns
  import opened CacheRoom
  import opened DeviceTables

  // ---------------------------------------------------------------- calls on the map of devices

  /** A call whose path could be found: its id, and what `stat` and the list of file systems would say. */
  datatype Call = Call(path: string, id: nat, stats: Stats, list: Result<seq<FileSystem>>)

  /** The list is read for an id without a device, unless the path is a device itself. */
  predicate Reads(was: Devices, c: Call) {
    Known(was, c.id).None? && !IsDev(c.path) && c.list.Ok?
  }

  /** What a call answers: what was known of the id, the path itself if it is a device, else the first
      mounted device of that id. */
  function Answer(was: Devices, c: Call): Option<Device> {
    if Known(was, c.id).Some? then Known(was, c.id)
    else if IsDev(c.path) then Some(Device(c.path, false))
    else if c.list.Err? then None
    else FirstDevice(c.list.value, c.stats, c.id)
  }

  /** What is known after a call. */
  function Afterwards(was: Devices, c: Call): Devices {
    var m := Asked(was, c.id);
    if Reads(was, c) then VisitDevices(m, c.list.value, c.stats)
    else if Known(was, c.id).None? && IsDev(c.path) then m[c.id := Some(Device(c.path, false))]
    else m
  }

  /** The ids that a call puts into the index. */
  function Needed(was: Devices, c: Call): set<nat> {
    if Reads(was, c) then {c.id} + IdsOf(c.list.value, c.stats) else {c.id}
  }

  lemma AnswerKept(was: Devices, c: Call)
    ensures Known(Afterwards(was, c), c.id) == Answer(was, c)
    ensures Afterwards(was, c).Keys == was.Keys + Needed(was, c)
  {
    if Reads(was, c) {
      DeviceFound(Asked(was, c.id), c.list.value, c.stats, c.id);
      KeysVisited(Asked(was, c.id), c.list.value, c.stats);
    }
  }

  function AfterAll(was: Devices, calls: seq<Call>): Devices
    decreases |calls|
  {
    if calls == [] then was else AfterAll(Afterwards(was, calls[0]), calls[1..])
  }

  /** The device that a call offers for an id. */
  function Offer(was: Devices, c: Call, id: nat): Option<Device> {
    if Reads(was, c) then FirstDevice(c.list.value, c.stats, id)
    else if c.id == id && Known(was, id).None? && IsDev(c.path) then Some(Device(c.path, false))
    else None
  }

  /** The first device that a run of calls offers for an id. */
  function FirstOffer(was: Devices, calls: seq<Call>, id: nat): Option<Device>
    decreases |calls|
  {
    if calls == [] then None
    else if Offer(was, calls[0], id).Some? then Offer(was, calls[0], id)
    else FirstOffer(Afterwards(was, calls[0]), calls[1..], id)
  }

  lemma OfferKept(was: Devices, c: Call, id: nat)
    ensures Known(Afterwards(was, c), id) == if Known(was, id).Some? then Known(was, id) else Offer(was, c, id)
  {
    if Reads(was, c) {
      DeviceFound(Asked(was, c.id), c.list.value, c.stats, id);
    }
  }

  /** Over a run of calls an id keeps the device it had, or has the first one offered for it. */
  lemma {:induction false} FirstOffered(was: Devices, calls: seq<Call>, id: nat)
    ensures Known(AfterAll(was, calls), id) == if Known(was, id).Some? then Known(was, id) else FirstOffer(was, calls, id)
    decreases |calls|
  {
    if calls != [] {
      OfferKept(was, calls[0], id);
      FirstOffered(Afterwards(was, calls[0]), calls[1..], id);
    }
  }

  lemma {:induction false} AfterAllSnoc(was: Devices, calls: seq<Call>, c: Call)
    ensures AfterAll(was, calls + [c]) == Afterwards(AfterAll(was, calls), c)
    decreases |calls|
  {
    if calls == [] {
      assert calls + [c] == [c] && [c][1..] == [];
    } else {
      assert (calls + [c])[1..] == calls[1..] + [c];
      AfterAllSnoc(Afterwards(was, calls[0]), calls[1..], c);
    }
  }

  /** The answer of the last call of a run is the first device that the run offers for its id. */
  lemma AnswerIsFirstOffer(calls: seq<Call>, c: Call)
    ensures Answer(AfterAll(map[], calls), c) == FirstOffer(map[], calls + [c], c.id)
  {
    AnswerKept(AfterAll(map[], calls), c);
    AfterAllSnoc(map[], calls, c);
    FirstOffered(map[], calls + [c], c.id);
  }

  // ---------------------------------------------------------------- what a handle keeps

  /** The ids of all calls so far fit the index, or heads are stored. */
  predicate Housing(headStored: bool, size: nat, calls: seq<Call>) {
    headStored || |AfterAll(map[], calls).Keys| <= size
  }

  /** What a handle keeps over all its calls: the index is the map of devices of the whole run if and only
      if the ids of the run fit it. */
  ghost predicate Indexed<N>(cfg: Config, size: nat, t: Table<N, Device>, calls: seq<Call>) {
    && Housed(t)
    && (Sound(t) <==> Housing(cfg.headStored, size, calls))
    && (Sound(t) ==> DevicesOf(t) == AfterAll(map[], calls) && (cfg.headStored || |t.buckets| == size))
  }

  lemma IndexedNew<N>(cfg: Config, size: nat, now: nat)
    requires 0 < size
    ensures Indexed(cfg, size, NewTable<N, Device>(size, now), [])
  {
    NewTableInv<N, Device>(size, now);
    assert DevicesOf(NewTable<N, Device>(size, now)) == map[];
  }

  /** What one call makes of a table, as far as the map is concerned. */
  ghost predicate Settled<N>(cfg: Config, t: Table<N, Device>, c: Call, f: Table<N, Device>)
    requires |t.buckets| > 0 && |f.buckets| > 0
  {
    && Housed(f) && Missing(f) >= Missing(t)
    && (Sound(t) ==> (Sound(f) <==> Room(cfg, t, Needed(DevicesOf(t), c))))
    && (Sound(t) && Sound(f) ==>
          DevicesOf(f) == Afterwards(DevicesOf(t), c) && (cfg.headStored || |f.buckets| == |t.buckets|))
  }

  lemma KeysOf<N>(t: Table<N, Device>)
    requires |t.buckets| > 0
    ensures IndexOf(t).cells.Keys == DevicesOf(t).Keys
  {
  }

  lemma IndexedCall<N>(cfg: Config, size: nat, t: Table<N, Device>, calls: seq<Call>, c: Call, f: Table<N, Device>)
    requires Indexed(cfg, size, t, calls) && Inv(f) && Settled(cfg, t, c, f)
    ensures Indexed(cfg, size, f, calls + [c])
  {
    var m := AfterAll(map[], calls);
    AfterAllSnoc(map[], calls, c);
    AnswerKept(m, c);
    if Sound(t) {
      KeysOf(t);
    } else {
      SubsetSize(m.Keys, Afterwards(m, c).Keys);
    }
  }

  // ---------------------------------------------------------------- one file system on any table

  /** A file system that would give `id` its device. */
  predicate Matches(f: FileSystem, stats: Stats, id: nat) {
    IsAsked(f, stats) && stats[f.dirName] == id && IsDev(f.devName)
  }

  /** Two tables have the same entries; one may be fuller of devices. */
  ghost predicate SameEntries<N>(t: Table<N, Device>, r: Table<N, Device>) {
    && |t.buckets| > 0 && |r.buckets| == |t.buckets| && Missing(r) == Missing(t)
    && IndexOf(r).cells.Keys == IndexOf(t).cells.Keys
    && forall id: nat :: id in IndexOf(t).cells ==> IndexOf(r).cells[id].node == IndexOf(t).cells[id].node
  }

  lemma StoredAny<N>(t: Table<N, Device>, id: nat, d: Device)
    requires Housed(t) && id in IndexOf(t).cells
    ensures Housed(Store(t, id, d)) && SameEntries(t, Store(t, id, d))
  {
    StoreRefines(t, id, d);
    IndexWritten(IndexOf(t), id, d);
  }

  /** The id `i` was asked for: without a loss every entry stays and `i` is in; with one, its new entry is
      alone. */
  ghost predicate AskedFor<N>(cfg: Config, t: Table<N, Device>, i: nat, node: N, r: Table<N, Device>)
    requires |t.buckets| > 0
  {
    && Housed(r) && Missing(r) >= Missing(t) && (Missing(r) == Missing(t) <==> Room(cfg, t, {i}))
    && (Missing(r) == Missing(t) ==>
          && IndexOf(r).cells.Keys == IndexOf(t).cells.Keys + {i} && (cfg.headStored || |r.buckets| == |t.buckets|)
          && (i !in IndexOf(t).cells ==> IndexOf(r).cells[i].node == node)
          && forall id: nat :: id in IndexOf(t).cells ==> IndexOf(r).cells[id].node == IndexOf(t).cells[id].node)
    && (Missing(r) > Missing(t) ==>
          i !in IndexOf(t).cells && IndexOf(r).cells.Keys == {i} && IndexOf(r).cells[i].node == node)
  }

  lemma AskedAny<N>(cfg: Config, t: Table<N, Device>, i: nat, now: nat, node: N)
    requires Housed(t) && cfg.cleanupPeriod == NEVER
    ensures AskedFor(cfg, t, i, node, Get(cfg, t, i, now, now, node)) && i in IndexOf(Get(cfg, t, i, now, now, node)).cells
  {
    var g := Get(cfg, t, i, now, now, node);
    HousedExact(cfg, t, i, now, now, node);
    ObtainedEntries(IndexOf(t), i, now, node);
    if Missing(g) > Missing(t) {
      assert IndexOf(g).cells[i].node == node;
    }
  }

  lemma ObtainedEntries<N>(a: Index<N, Device>, i: nat, stamp: nat, node: N)
    ensures var r := IndexObtain(a, i, stamp, node);
            && (r.cells.Keys == a.cells.Keys + {i}) && (i !in a.cells ==> r.cells[i].node == node)
            && forall id: nat :: id in a.cells ==> r.cells[id].node == a.cells[id].node
  {
  }

  lemma AskedThenStored<N>(cfg: Config, t: Table<N, Device>, i: nat, node: N, g: Table<N, Device>, r: Table<N, Device>)
    requires |t.buckets| > 0 && AskedFor(cfg, t, i, node, g) && SameEntries(g, r) && Housed(r)
    ensures AskedFor(cfg, t, i, node, r)
  {
  }

  /** One turn on a table that may have lost entries. */
  lemma AsksAny<N>(cfg: Config, t: Table<N, Device>, v: Turn<N>, stats: Stats)
    requires Housed(t) && cfg.cleanupPeriod == NEVER && v.Asks? && IsAsked(v.fs, stats)
    ensures AskedFor(cfg, t, stats[v.fs.dirName], v.node, Visited(cfg, t, v, stats))
  {
    var i, d := stats[v.fs.dirName], Device(v.fs.devName, true);
    var g := Get(cfg, t, i, v.now, v.now, v.node);
    AskedAny(cfg, t, i, v.now, v.node);
    StoredAny(g, i, d);
    AskedThenStored(cfg, t, i, v.node, g, Store(g, i, d));
    assert Visited(cfg, t, v, stats) == g || Visited(cfg, t, v, stats) == Store(g, i, d);
  }

  // ---------------------------------------------------------------- the loop on any table

  lemma RoomNone<N>(cfg: Config, t: Table<N, Device>)
    requires Housed(t)
    ensures Room(cfg, t, {})
  {
    SizeOfIndex(t);
    assert IndexOf(t).cells.Keys + {} == IndexOf(t).cells.Keys;
  }

  lemma LoopStep<N>(cfg: Config, t: Table<N, Device>, v: Turn<N>, stats: Stats, rest: set<nat>)
    requires Housed(t) && cfg.cleanupPeriod == NEVER && (v.Asks? <==> IsAsked(v.fs, stats))
    ensures var r, all := Visited(cfg, t, v, stats), IdsOf([v.fs], stats) + rest;
            && Housed(r)
            && if Missing(r) == Missing(t) then Room(cfg, t, all) <==> Room(cfg, r, rest)
               else Missing(r) > Missing(t) && !Room(cfg, t, all)
  {
    IdsOfOne(v.fs, stats);
    if v.Asks? {
      AsksAny(cfg, t, v, stats);
      AskedRoom(cfg, t, stats[v.fs.dirName], v.node, Visited(cfg, t, v, stats), rest);
    } else {
      assert {} + rest == rest;
    }
  }

  lemma AskedRoom<N>(cfg: Config, t: Table<N, Device>, i: nat, node: N, r: Table<N, Device>, rest: set<nat>)
    requires Inv(t) && AskedFor(cfg, t, i, node, r)
    ensures if Missing(r) == Missing(t) then Room(cfg, t, {i} + rest) <==> Room(cfg, r, rest) else !Room(cfg, t, {i} + rest)
  {
    if Missing(r) == Missing(t) {
      RoomSplits(cfg, t, r, {i}, rest);
    } else if Room(cfg, t, {i} + rest) {
      RoomForLess(cfg, t, {i}, {i} + rest);
    }
  }

  /** The loop loses nothing if and only if there is room for all ids asked for, whatever was lost before. */
  lemma {:induction false} LoopExact<N>(cfg: Config, t: Table<N, Device>, ts: seq<Turn<N>>, stats: Stats)
    requires Housed(t) && cfg.cleanupPeriod == NEVER && Fits(ts, stats)
    ensures Housed(WalkTable(cfg, t, ts, stats))
    ensures Missing(WalkTable(cfg, t, ts, stats)) == Missing(t) <==> Room(cfg, t, IdsOf(Systems(ts), stats))
    decreases |ts|
  {
    if ts == [] {
      RoomNone(cfg, t);
    } else {
      SystemsStep(ts, stats);
      LoopStep(cfg, t, ts[0], stats, IdsOf(Systems(ts[1..]), stats));
      LoopExact(cfg, Visited(cfg, t, ts[0], stats), ts[1..], stats);
    }
  }

  /** The table has the entry `node` for `id`. */
  ghost predicate Has<N>(t: Table<N, Device>, id: nat, node: N) {
    |t.buckets| > 0 && id in IndexOf(t).cells && IndexOf(t).cells[id].node == node
  }

  /** What the entry `node` of `id`, held since before the loop with the value `v`, holds after a turn. */
  ghost function HeldStep<N>(cfg: Config, t: Table<N, Device>, node: N, id: nat, v: Option<Device>, turn: Turn<N>, stats: Stats): Option<Device>
    requires Inv(t) && (turn.Asks? <==> IsAsked(turn.fs, stats))
  {
    if turn.Asks? && Matches(turn.fs, stats, id) && v.None? && Has(Visited(cfg, t, turn, stats), id, node)
    then Some(Device(turn.fs.devName, true)) else v
  }

  ghost function HeldValue<N>(cfg: Config, t: Table<N, Device>, node: N, id: nat, v: Option<Device>, ts: seq<Turn<N>>, stats: Stats): Option<Device>
    requires Inv(t) && Fits(ts, stats)
    decreases |ts|
  {
    if ts == [] then v
    else HeldValue(cfg, Visited(cfg, t, ts[0], stats), node, id, HeldStep(cfg, t, node, id, v, ts[0], stats), ts[1..], stats)
  }

  /** No turn makes `node` a new entry. */
  ghost predicate NotRemade<N>(cfg: Config, t: Table<N, Device>, node: N, ts: seq<Turn<N>>, stats: Stats)
    requires Inv(t) && Fits(ts, stats)
    decreases |ts|
  {
    ts == [] ||
    (&& (ts[0].Asks? && stats[ts[0].fs.dirName] !in IndexOf(t).cells ==> ts[0].node != node)
     && NotRemade(cfg, Visited(cfg, t, ts[0], stats), node, ts[1..], stats))
  }

  /** The turns before the first file system that matches `id`. */
  function Until<N>(ts: seq<Turn<N>>, stats: Stats, id: nat): seq<Turn<N>> {
    if ts == [] || Matches(ts[0].fs, stats, id) then [] else [ts[0]] + Until(ts[1..], stats, id)
  }

  lemma {:induction false} UntilFits<N>(ts: seq<Turn<N>>, stats: Stats, id: nat)
    requires Fits(ts, stats)
    ensures Fits(Until(ts, stats, id), stats)
  {
    if ts != [] && !Matches(ts[0].fs, stats, id) {
      UntilFits(ts[1..], stats, id);
    }
  }

  lemma {:induction false} HeldStays<N>(cfg: Config, t: Table<N, Device>, node: N, id: nat, v: Option<Device>, ts: seq<Turn<N>>, stats: Stats)
    requires Inv(t) && Fits(ts, stats) && v.Some?
    ensures HeldValue(cfg, t, node, id, v, ts, stats) == v
    decreases |ts|
  {
    if ts != [] {
      HeldStays(cfg, Visited(cfg, t, ts[0], stats), node, id, v, ts[1..], stats);
    }
  }

  lemma {:induction false} HeldGone<N>(cfg: Config, t: Table<N, Device>, node: N, id: nat, v: Option<Device>, ts: seq<Turn<N>>, stats: Stats)
    requires Housed(t) && cfg.cleanupPeriod == NEVER && Fits(ts, stats) && !Has(t, id, node) && NotRemade(cfg, t, node, ts, stats)
    ensures HeldValue(cfg, t, node, id, v, ts, stats) == v
    decreases |ts|
  {
    if ts != [] {
      if ts[0].Asks? {
        AsksAny(cfg, t, ts[0], stats);
      }
      HeldGone(cfg, Visited(cfg, t, ts[0], stats), node, id, v, ts[1..], stats);
    }
  }

  /** No rehash before the first file system that matches `id` loses entries. */
  ghost predicate Arrives<N>(cfg: Config, t: Table<N, Device>, ts: seq<Turn<N>>, stats: Stats, id: nat)
    requires Inv(t) && Fits(ts, stats)
  {
    UntilFits(ts, stats, id);
    Missing(WalkTable(cfg, t, Until(ts, stats, id), stats)) == Missing(t)
  }

  /** A turn that does not match `id`: without a loss the entry is still there, and with one it is gone. */
  lemma OtherTurn<N>(cfg: Config, t: Table<N, Device>, node: N, id: nat, ts: seq<Turn<N>>, stats: Stats)
    requires Housed(t) && cfg.cleanupPeriod == NEVER && Fits(ts, stats) && Has(t, id, node)
    requires ts != [] && !Matches(ts[0].fs, stats, id)
    ensures var r := Visited(cfg, t, ts[0], stats);
            && Housed(r) && Missing(r) >= Missing(t)
            && (Missing(r) == Missing(t) ==> Has(r, id, node) && (Arrives(cfg, t, ts, stats, id) <==> Arrives(cfg, r, ts[1..], stats, id)))
            && (Missing(r) > Missing(t) ==> !Has(r, id, node) && !Arrives(cfg, t, ts, stats, id))
  {
    if ts[0].Asks? {
      AsksAny(cfg, t, ts[0], stats);
    }
    UntilStep(cfg, t, ts, stats, id);
  }

  lemma UntilStep<N>(cfg: Config, t: Table<N, Device>, ts: seq<Turn<N>>, stats: Stats, id: nat)
    requires Inv(t) && Fits(ts, stats) && ts != [] && !Matches(ts[0].fs, stats, id)
    ensures Fits(Until(ts, stats, id), stats) && Fits(Until(ts[1..], stats, id), stats)
    ensures WalkTable(cfg, t, Until(ts, stats, id), stats)
         == WalkTable(cfg, Visited(cfg, t, ts[0], stats), Until(ts[1..], stats, id), stats)
  {
    UntilFits(ts, stats, id);
    UntilFits(ts[1..], stats, id);
    assert Until(ts, stats, id)[1..] == Until(ts[1..], stats, id);
  }

  /** A turn that matches it fills the entry. */
  lemma MatchingTurn<N>(cfg: Config, t: Table<N, Device>, node: N, id: nat, ts: seq<Turn<N>>, stats: Stats)
    requires Housed(t) && cfg.cleanupPeriod == NEVER && Fits(ts, stats) && Has(t, id, node)
    requires ts != [] && Matches(ts[0].fs, stats, id)
    ensures HeldValue(cfg, t, node, id, None, ts, stats) == Some(Device(ts[0].fs.devName, true))
    ensures Arrives(cfg, t, ts, stats, id)
  {
    AsksAny(cfg, t, ts[0], stats);
    HeldStays(cfg, Visited(cfg, t, ts[0], stats), node, id, Some(Device(ts[0].fs.devName, true)), ts[1..], stats);
  }

  /** An entry held across the loop ends with the first device listed for its id if and only if none is
      listed or no rehash before it loses entries. */
  lemma {:induction false} HeldExact<N>(cfg: Config, t: Table<N, Device>, node: N, id: nat, ts: seq<Turn<N>>, stats: Stats)
    requires Housed(t) && cfg.cleanupPeriod == NEVER && Fits(ts, stats) && Has(t, id, node) && NotRemade(cfg, t, node, ts, stats)
    ensures HeldValue(cfg, t, node, id, None, ts, stats) == FirstDevice(Systems(ts), stats, id)
            <==> FirstDevice(Systems(ts), stats, id).None? || Arrives(cfg, t, ts, stats, id)
    decreases |ts|
  {
    if ts != [] {
      var r := Visited(cfg, t, ts[0], stats);
      SystemsStep(ts, stats);
      if Matches(ts[0].fs, stats, id) {
        MatchingTurn(cfg, t, node, id, ts, stats);
      } else {
        OtherTurn(cfg, t, node, id, ts, stats);
        if Missing(r) == Missing(t) {
          HeldExact(cfg, r, node, id, ts[1..], stats);
        } else {
          HeldGone(cfg, r, node, id, None, ts[1..], stats);
        }
      }
    }
  }

  /** The file systems before the first that matches `id`. */
  function Ahead(list: seq<FileSystem>, stats: Stats, id: nat): seq<FileSystem> {
    if list == [] || Matches(list[0], stats, id) then [] else [list[0]] + Ahead(list[1..], stats, id)
  }

  lemma {:induction false} AheadFewer(list: seq<FileSystem>, stats: Stats, id: nat)
    ensures IdsOf(Ahead(list, stats, id), stats) <= IdsOf(list, stats)
  {
    if list != [] && !Matches(list[0], stats, id) {
      AheadFewer(list[1..], stats, id);
      assert Ahead(list, stats, id)[1..] == Ahead(list[1..], stats, id);
    }
  }

  lemma {:induction false} UntilIsAhead<N>(ts: seq<Turn<N>>, stats: Stats, id: nat)
    ensures Systems(Until(ts, stats, id)) == Ahead(Systems(ts), stats, id)
  {
    if ts != [] {
      SystemsStep(ts, stats);
      UntilIsAhead(ts[1..], stats, id);
      assert !Matches(ts[0].fs, stats, id) ==> Systems(Until(ts, stats, id)) == [ts[0].fs] + Systems(Until(ts[1..], stats, id));
    }
  }

  /** So it does if and only if there is room for the ids asked for before it. */
  lemma ArrivesExact<N>(cfg: Config, t: Table<N, Device>, ts: seq<Turn<N>>, stats: Stats, id: nat)
    requires Housed(t) && cfg.cleanupPeriod == NEVER && Fits(ts, stats)
    ensures Arrives(cfg, t, ts, stats, id) <==> Room(cfg, t, IdsOf(Ahead(Systems(ts), stats, id), stats))
  {
    UntilFits(ts, stats, id);
    LoopExact(cfg, t, Until(ts, stats, id), stats);
    UntilIsAhead(ts, stats, id);
  }

  // ---------------------------------------------------------------- one turn more

  lemma {:induction false} HeldSnoc<N>(cfg: Config, t: Table<N, Device>, node: N, id: nat, v: Option<Device>, ts: seq<Turn<N>>,
                                       turn: Turn<N>, stats: Stats)
    requires Inv(t) && Fits(ts, stats) && (turn.Asks? <==> IsAsked(turn.fs, stats))
    ensures Fits(ts + [turn], stats)
    ensures HeldValue(cfg, t, node, id, v, ts + [turn], stats)
         == HeldStep(cfg, WalkTable(cfg, t, ts, stats), node, id, HeldValue(cfg, t, node, id, v, ts, stats), turn, stats)
    decreases |ts|
  {
    if ts == [] {
      assert ts + [turn] == [turn] && [turn][1..] == [];
    } else {
      assert (ts + [turn])[0] == ts[0] && (ts + [turn])[1..] == ts[1..] + [turn];
      HeldSnoc(cfg, Visited(cfg, t, ts[0], stats), node, id, HeldStep(cfg, t, node, id, v, ts[0], stats), ts[1..], turn, stats);
    }
  }

  lemma {:induction false} NotRemadeSnoc<N>(cfg: Config, t: Table<N, Device>, node: N, ts: seq<Turn<N>>, turn: Turn<N>, stats: Stats)
    requires Inv(t) && Fits(ts, stats) && NotRemade(cfg, t, node, ts, stats) && (turn.Asks? <==> IsAsked(turn.fs, stats))
    requires turn.Asks? && stats[turn.fs.dirName] !in IndexOf(WalkTable(cfg, t, ts, stats)).cells ==> turn.node != node
    ensures Fits(ts + [turn], stats) && NotRemade(cfg, t, node, ts + [turn], stats)
    decreases |ts|
  {
    if ts == [] {
      assert ts + [turn] == [turn] && [turn][1..] == [];
    } else {
      assert (ts + [turn])[0] == ts[0] && (ts + [turn])[1..] == ts[1..] + [turn];
      NotRemadeSnoc(cfg, Visited(cfg, t, ts[0], stats), node, ts[1..], turn, stats);
    }
  }
}
