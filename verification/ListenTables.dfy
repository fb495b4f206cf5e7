/** The index of listening ports on the hash table itself: what a walk over connection records makes of
    it, whichever rehash is in use. */
module ListenTables {
  import opened Words
  import opened CacheTable
  import opened CacheRefinement
  import opened CacheRuns
  import opened CacheRoom
  import opened NetStat

  // ---------------------------------------------------------------- the table as an index of ports

  ghost function PortsIn<N>(a: Index<N, Address>): Ports {
    map id | id in a.cells && a.cells[id].value.Some? :: a.cells[id].value.value
  }

  ghost predicate AllValued<N>(a: Index<N, Address>) {
    forall id: nat :: id in a.cells ==> a.cells[id].value.Some?
  }

  ghost function PortsOf<N>(t: Table<N, Address>): Ports
    requires |t.buckets| > 0
  {
    PortsIn(IndexOf(t))
  }

  /** Every entry has an address, and `count` is true. */
  ghost predicate Good<N>(t: Table<N, Address>) {
    Sound(t) && AllValued(IndexOf(t))
  }

  /** `sysm_net_listen_address_add` on the table. */
  ghost function Added<N>(cfg: Config, t: Table<N, Address>, c: Conn, stamp: nat, node: N): (r: Table<N, Address>)
    requires Inv(t)
    ensures Inv(r) && Missing(r) >= Missing(t)
  {
    GetRefines(cfg, t, c.port, stamp, stamp, node);
    GetMissing(cfg, t, c.port, stamp, stamp, node);
    var g := Get(cfg, t, c.port, stamp, stamp, node);
    StoreRefines(g, c.port, c.address);
    var e := Lookup(g.buckets, c.port);
    if e.Some? && e.value.value.Some? && c.address.family.Inet6? then g else Store(g, c.port, c.address)
  }

  /** The same on the map that the cache stands for. */
  lemma IndexAdded<N>(a: Index<N, Address>, c: Conn, stamp: nat, node: N)
    requires AllValued(a)
    ensures var g := IndexObtain(a, c.port, stamp, node);
            var r := if g.cells[c.port].value.Some? && c.address.family.Inet6? then g else IndexStore(g, c.port, c.address);
            && AllValued(r) && PortsIn(r) == AddListener(PortsIn(a), c)
  {
  }

  lemma AddedIsAddListener<N>(cfg: Config, t: Table<N, Address>, c: Conn, stamp: nat, node: N)
    requires Good(t) && cfg.cleanupPeriod == NEVER && Room(cfg, t, {c.port})
    ensures Good(Added(cfg, t, c, stamp, node))
    ensures PortsOf(Added(cfg, t, c, stamp, node)) == AddListener(PortsOf(t), c)
    ensures !cfg.headStored ==> |Added(cfg, t, c, stamp, node).buckets| == |t.buckets|
  {
    var op := OpGet(c.port, stamp, stamp, node);
    RoomIsNoLoss(cfg, t, c.port, stamp, stamp, node);
    GetRefines(cfg, t, c.port, stamp, stamp, node);
    StepLoad(cfg, t, op);
    var g := Get(cfg, t, c.port, stamp, stamp, node);
    assert g == Step(cfg, t, op);
    LookupIsIndex(g, c.port);
    StoreRefines(g, c.port, c.address);
    IndexAdded(IndexOf(t), c, stamp, node);
  }

  lemma IndexFound<N>(cfg: Config, a: Index<N, Address>, port: nat, stamp: nat)
    requires AllValued(a) && cfg.cleanupPeriod == NEVER
    ensures var r := IndexFind(cfg, a, port, stamp, stamp);
            AllValued(r) && PortsIn(r) == PortsIn(a) && r.cells.Keys == a.cells.Keys
  {
  }

  lemma FoundIsGood<N>(cfg: Config, t: Table<N, Address>, port: nat, stamp: nat)
    requires Good(t) && cfg.cleanupPeriod == NEVER
    ensures Good(Find(cfg, t, port, stamp, stamp))
    ensures PortsOf(Find(cfg, t, port, stamp, stamp)) == PortsOf(t)
    ensures IndexOf(Find(cfg, t, port, stamp, stamp)).cells.Keys == IndexOf(t).cells.Keys
    ensures |Find(cfg, t, port, stamp, stamp).buckets| == |t.buckets|
    ensures Lookup(t.buckets, port).Some? <==> port in PortsOf(t)
  {
    FindIsSound(cfg, t, port, stamp, stamp);
    IndexFound(cfg, IndexOf(t), port, stamp);
    LookupIsIndex(t, port);
  }

  // ---------------------------------------------------------------- one record

  /** A record and the clock when it is met; for a listener, also the entry that a miss would make. */
  datatype AnyTurn<N> = Heard(conn: Conn, now: nat, node: N) | Met(conn: Conn, now: nat)

  type Turn<N> = v: AnyTurn<N> | v.Heard? == Listens(v.conn) witness Met(Conn(Udp, 0, 0, Address(Unspec, [])), 0)

  function Conns<N>(ts: seq<Turn<N>>): (cs: seq<Conn>)
    ensures |cs| == |ts| && forall i :: 0 <= i < |ts| ==> cs[i] == ts[i].conn
  {
    seq(|ts|, i requires 0 <= i < |ts| => ts[i].conn)
  }

  /** `net_stat_walker` on the table. */
  ghost function Visited<N>(cfg: Config, t: Table<N, Address>, v: Turn<N>): (r: Table<N, Address>)
    requires Inv(t)
    ensures Inv(r) && Missing(r) >= Missing(t)
  {
    FindRefines(cfg, t, v.conn.port, v.now, v.now);
    FindMissing(cfg, t, v.conn.port, v.now, v.now);
    if !v.conn.kind.Tcp? then t
    else if v.Heard? then Added(cfg, t, v.conn, v.now, v.node)
    else Find(cfg, t, v.conn.port, v.now, v.now)
  }

  lemma AddedExact<N>(cfg: Config, t: Table<N, Address>, c: Conn, stamp: nat, node: N)
    requires Good(t) && cfg.cleanupPeriod == NEVER
    ensures Good(Added(cfg, t, c, stamp, node)) <==> Room(cfg, t, {c.port})
  {
    RoomExact(cfg, t, c.port, stamp, stamp, node);
    if Room(cfg, t, {c.port}) {
      AddedIsAddListener(cfg, t, c, stamp, node);
    } else {
      var g := Get(cfg, t, c.port, stamp, stamp, node);
      StoreRefines(g, c.port, c.address);
    }
  }

  lemma SoleListener(c: Conn)
    ensures Listeners([c]) == if Listens(c) then {c.port} else {}
  {
    assert Listens(c) ==> [c][0].port in Listeners([c]);
  }

  lemma AllPorts<N>(a: Index<N, Address>)
    requires AllValued(a)
    ensures PortsIn(a).Keys == a.cells.Keys
  {
  }

  /** One record keeps the index good exactly when there was room for it, and is then one step of the
      port map; the answer of its lookup is that of the port map. */
  lemma VisitedExact<N>(cfg: Config, t: Table<N, Address>, v: Turn<N>)
    requires Good(t) && cfg.cleanupPeriod == NEVER
    ensures var r := Visited(cfg, t, v);
            && (Good(r) <==> Room(cfg, t, Listeners([v.conn])))
            && (Good(r) ==> PortsOf(r) == VisitPorts(PortsOf(t), v.conn) && (cfg.headStored || |r.buckets| == |t.buckets|))
            && (Lookup(t.buckets, v.conn.port).Some? <==> v.conn.port in PortsOf(t))
  {
    SoleListener(v.conn);
    FoundIsGood(cfg, t, v.conn.port, v.now);
    if Listens(v.conn) {
      AddedExact(cfg, t, v.conn, v.now, v.node);
      if Room(cfg, t, {v.conn.port}) {
        AddedIsAddListener(cfg, t, v.conn, v.now, v.node);
      }
    } else {
      RoomForNone(cfg, t);
    }
  }

  // ---------------------------------------------------------------- the walk

  ghost function WalkTable<N>(cfg: Config, t: Table<N, Address>, ts: seq<Turn<N>>): (r: Table<N, Address>)
    requires Inv(t)
    ensures Inv(r) && Missing(r) >= Missing(t)
    decreases |ts|
  {
    if ts == [] then t else WalkTable(cfg, Visited(cfg, t, ts[0]), ts[1..])
  }

  /** The counters, by what the lookups on the table answer. */
  ghost function WalkCount<N>(cfg: Config, t: Table<N, Address>, s: Stat, ts: seq<Turn<N>>): (r: Stat)
    requires Inv(t) && |s.states| == STATES && InRange(Conns(ts))
    ensures |r.states| == STATES
    decreases |ts|
  {
    if ts == [] then s
    else
      var c := ts[0].conn;
      assert Conns(ts)[0] == c && Conns(ts[1..]) == Conns(ts)[1..];
      WalkCount(cfg, Visited(cfg, t, ts[0]), CountRecord(s, c, Lookup(t.buckets, c.port).Some?), ts[1..])
  }

  lemma {:induction false} WalkTableSnoc<N>(cfg: Config, t: Table<N, Address>, ts: seq<Turn<N>>, v: Turn<N>)
    requires Inv(t)
    ensures WalkTable(cfg, t, ts + [v]) == Visited(cfg, WalkTable(cfg, t, ts), v)
    decreases |ts|
  {
    if ts == [] {
      assert ts + [v] == [v] && [v][1..] == [];
    } else {
      assert (ts + [v])[0] == ts[0] && (ts + [v])[1..] == ts[1..] + [v];
      WalkTableSnoc(cfg, Visited(cfg, t, ts[0]), ts[1..], v);
    }
  }

  lemma {:induction false} WalkCountSnoc<N>(cfg: Config, t: Table<N, Address>, s: Stat, ts: seq<Turn<N>>, v: Turn<N>)
    requires Inv(t) && |s.states| == STATES && InRange(Conns(ts)) && InRange(Conns(ts + [v]))
    requires v.conn.state < STATES
    ensures WalkCount(cfg, t, s, ts + [v])
         == CountRecord(WalkCount(cfg, t, s, ts), v.conn, Lookup(WalkTable(cfg, t, ts).buckets, v.conn.port).Some?)
    decreases |ts|
  {
    if ts == [] {
      assert ts + [v] == [v] && [v][1..] == [];
    } else {
      assert (ts + [v])[0] == ts[0] && (ts + [v])[1..] == ts[1..] + [v];
      assert Conns(ts)[0] == ts[0].conn && Conns(ts[1..]) == Conns(ts)[1..] && Conns(ts[1..] + [v]) == Conns(ts + [v])[1..];
      WalkCountSnoc(cfg, Visited(cfg, t, ts[0]), CountRecord(s, ts[0].conn, Lookup(t.buckets, ts[0].conn.port).Some?), ts[1..], v);
    }
  }

  lemma ConnsStep<N>(ts: seq<Turn<N>>)
    requires ts != []
    ensures Conns(ts)[0] == ts[0].conn && Conns(ts)[1..] == Conns(ts[1..])
    ensures Listeners(Conns(ts)) == Listeners([ts[0].conn]) + Listeners(Conns(ts[1..]))
  {
    assert Conns(ts)[1..] == Conns(ts[1..]);
    ListenersStep(Conns(ts));
  }

  lemma VisitedKeys<N>(cfg: Config, t: Table<N, Address>, v: Turn<N>)
    requires Good(t) && cfg.cleanupPeriod == NEVER && Good(Visited(cfg, t, v))
    ensures IndexOf(Visited(cfg, t, v)).cells.Keys == IndexOf(t).cells.Keys + Listeners([v.conn])
  {
    VisitedExact(cfg, t, v);
    SoleListener(v.conn);
    AllPorts(IndexOf(t));
    AllPorts(IndexOf(Visited(cfg, t, v)));
  }

  lemma RoomStep<N>(cfg: Config, t: Table<N, Address>, v: Turn<N>, rest: set<nat>)
    requires Good(t) && cfg.cleanupPeriod == NEVER
    ensures var r := Visited(cfg, t, v);
            if Good(r) then Room(cfg, t, Listeners([v.conn]) + rest) <==> Room(cfg, r, rest)
            else !Room(cfg, t, Listeners([v.conn]) + rest)
  {
    var r := Visited(cfg, t, v);
    var first := Listeners([v.conn]);
    VisitedExact(cfg, t, v);
    if Good(r) {
      VisitedKeys(cfg, t, v);
      RoomSplits(cfg, t, r, first, rest);
    } else if Room(cfg, t, first + rest) {
      RoomForLess(cfg, t, first, first + rest);
    }
  }

  /** A walk keeps the index good, with a true `count` and an address in every entry, if and only if the
      table had room for every port that is seen listening. */
  lemma {:induction false} WalkExact<N>(cfg: Config, t: Table<N, Address>, ts: seq<Turn<N>>)
    requires Good(t) && cfg.cleanupPeriod == NEVER
    ensures Good(WalkTable(cfg, t, ts)) <==> Room(cfg, t, Listeners(Conns(ts)))
    decreases |ts|
  {
    if ts == [] {
      assert Listeners(Conns(ts)) == {};
      RoomForNone(cfg, t);
    } else {
      ConnsStep(ts);
      RoomStep(cfg, t, ts[0], Listeners(Conns(ts[1..])));
      if Good(Visited(cfg, t, ts[0])) {
        WalkExact(cfg, Visited(cfg, t, ts[0]), ts[1..]);
      } else {
        NotGood(cfg, t, ts[0]);
      }
    }
  }

  /** It is then the walk of the port map, and the counters are those of that walk. */
  lemma {:induction false} WalkRefines<N>(cfg: Config, t: Table<N, Address>, s: Stat, ts: seq<Turn<N>>)
    requires Good(t) && cfg.cleanupPeriod == NEVER && |s.states| == STATES && InRange(Conns(ts))
    requires Good(WalkTable(cfg, t, ts))
    ensures PortsOf(WalkTable(cfg, t, ts)) == WalkPorts(PortsOf(t), Conns(ts))
    ensures WalkCount(cfg, t, s, ts) == WalkStat(PortsOf(t), s, Conns(ts))
    ensures cfg.headStored || |WalkTable(cfg, t, ts).buckets| == |t.buckets|
    decreases |ts|
  {
    if ts != [] {
      var r, c := Visited(cfg, t, ts[0]), ts[0].conn;
      ConnsStep(ts);
      if !Good(r) {
        NotGood(cfg, t, ts[0]);
        assert false;
      }
      VisitedExact(cfg, t, ts[0]);
      var known := Lookup(t.buckets, c.port).Some?;
      SettledRecord(PortsOf(t), s, c, known);
      WalkRefines(cfg, r, CountRecord(s, c, known), ts[1..]);
    }
  }

  /** What is not good after a record has lost entries, and stays so. */
  lemma NotGood<N>(cfg: Config, t: Table<N, Address>, v: Turn<N>)
    requires Good(t) && cfg.cleanupPeriod == NEVER && !Good(Visited(cfg, t, v))
    ensures Missing(Visited(cfg, t, v)) > 0
  {
    VisitedExact(cfg, t, v);
    FoundIsGood(cfg, t, v.conn.port, v.now);
    SoleListener(v.conn);
    if v.Heard? {
      RoomExact(cfg, t, v.conn.port, v.now, v.now, v.node);
      var g := Get(cfg, t, v.conn.port, v.now, v.now, v.node);
      StoreRefines(g, v.conn.port, v.conn.address);
    }
  }

  /** Nothing is counted twice or lost, good or not. */
  lemma {:induction false} WalkCountConserves<N>(cfg: Config, t: Table<N, Address>, before: Stat, conns: seq<Conn>, s: Stat, ts: seq<Turn<N>>)
    requires Inv(t) && |s.states| == STATES && InRange(Conns(ts)) && Pending(before, conns, s, Conns(ts))
    ensures Conserves(before, conns, WalkCount(cfg, t, s, ts))
    decreases |ts|
  {
    if ts != [] {
      var c := ts[0].conn;
      assert Conns(ts)[0] == c && Conns(ts[1..]) == Conns(ts)[1..];
      PendingStep(before, conns, s, Conns(ts), Lookup(t.buckets, c.port).Some?);
      WalkCountConserves(cfg, Visited(cfg, t, ts[0]), before, conns, CountRecord(s, c, Lookup(t.buckets, c.port).Some?), ts[1..]);
    } else {
      assert Conns(ts) == [];
    }
  }

  lemma ConnsSnoc<N>(ts: seq<Turn<N>>, v: Turn<N>, conns: seq<Conn>, i: nat)
    requires i < |conns| && InRange(conns) && Conns(ts) == conns[..i] && v.conn == conns[i]
    ensures Conns(ts + [v]) == conns[..i + 1] && InRange(Conns(ts + [v]))
  {
    assert Conns(ts + [v]) == Conns(ts) + [v.conn];
    assert forall c :: c in conns[..i + 1] ==> c in conns;
  }

  lemma IndexHit<N>(a: Index<N, Address>, port: nat, now: nat, node: N)
    requires AllValued(a) && port in a.cells
    ensures AllValued(IndexObtain(a, port, now, node)) && PortsIn(IndexObtain(a, port, now, node)) == PortsIn(a)
  {
  }

  // ---------------------------------------------------------------- one port too many

  /** A full index, with the rehash as written: one more listening port, and it alone is known. */
  lemma LastPortAlone<N>(cfg: Config, t: Table<N, Address>, v: Turn<N>)
    requires Good(t) && cfg.cleanupPeriod == NEVER && !cfg.headStored
    requires t.count == |t.buckets| && Listens(v.conn) && v.conn.port !in PortsOf(t)
    ensures PortsOf(Visited(cfg, t, v)) == map[v.conn.port := v.conn.address]
  {
    var c := v.conn;
    AllPorts(IndexOf(t));
    OverflowForgets(cfg, t, c.port, v.now, v.now, v.node);
    var g := Get(cfg, t, c.port, v.now, v.now, v.node);
    LookupIsIndex(g, c.port);
    StoreRefines(g, c.port, c.address);
    SolePort(IndexOf(g), c.port, v.now, v.node, c.address);
  }

  lemma SolePort<N>(a: Index<N, Address>, port: nat, now: nat, node: N, address: Address)
    requires a.cells == map[port := Cell(node, port, now, None)]
    ensures PortsIn(IndexStore(a, port, address)) == map[port := address]
  {
  }

  predicate IsListenerOf<N>(v: Turn<N>, port: nat) {
    v.conn == Conn(Tcp, LISTEN, port, Address(Inet, [port]))
  }

  lemma FirstPorts(cs: seq<Conn>)
    requires forall i :: 0 <= i < |cs| ==> cs[i] == Conn(Tcp, LISTEN, i, Address(Inet, [i]))
    ensures Listeners(cs) == Below(|cs|)
  {
    forall p: nat ensures p in Listeners(cs) <==> p in Below(|cs|) {
      if p < |cs| {
        assert Listens(cs[p]) && cs[p].port == p;
      }
    }
  }

  /** A new index of `n` buckets and a walk that meets listeners of the ports 0 to `n`, as 32 buckets and
      33 ports: as written, only the last port is known afterwards, where the port map knows them all. */
  lemma OnePortTooMany<N>(n: nat, now: nat, ts: seq<Turn<N>>)
    requires 0 < n && |ts| == n + 1 && forall i :: 0 <= i <= n ==> IsListenerOf(ts[i], i)
    ensures Inv(NewTable<N, Address>(n, now))
    ensures PortsOf(WalkTable(Config(NEVER, NEVER, false), NewTable(n, now), ts)) == map[n := Address(Inet, [n])]
    ensures WalkPorts(map[], Conns(ts)).Keys == Below(n + 1)
  {
    var cfg := Config(NEVER, NEVER, false);
    var first := ts[..n];
    var r := FullIndex(n, now, first);
    assert first + [ts[n]] == ts;
    WalkTableSnoc(cfg, NewTable<N, Address>(n, now), first, ts[n]);
    LastPortAlone(cfg, r, ts[n]);
    PortsExpected(ts);
  }

  lemma PortsExpected<N>(ts: seq<Turn<N>>)
    requires forall i :: 0 <= i < |ts| ==> IsListenerOf(ts[i], i)
    ensures WalkPorts(map[], Conns(ts)).Keys == Below(|ts|)
  {
    FirstPorts(Conns(ts));
    KnownAfterWalk(map[], Conns(ts));
  }

  lemma FullIndex<N>(n: nat, now: nat, ts: seq<Turn<N>>) returns (r: Table<N, Address>)
    requires 0 < n && |ts| == n && forall i :: 0 <= i < n ==> IsListenerOf(ts[i], i)
    ensures Inv(NewTable<N, Address>(n, now)) && r == WalkTable(Config(NEVER, NEVER, false), NewTable(n, now), ts)
    ensures Good(r) && r.count == |r.buckets| && n !in PortsOf(r)
  {
    r := FirstWalk(n, now, ts);
    FirstPorts(Conns(ts));
    KnownAfterWalk(map[], Conns(ts));
    AllPorts(IndexOf(r));
    SizeOfIndex(r);
    assert |IndexOf(r).cells| == |IndexOf(r).cells.Keys|;
  }

  lemma FirstWalk<N>(n: nat, now: nat, ts: seq<Turn<N>>) returns (r: Table<N, Address>)
    requires 0 < n && |ts| == n && forall i :: 0 <= i < n ==> IsListenerOf(ts[i], i)
    ensures Inv(NewTable<N, Address>(n, now)) && r == WalkTable(Config(NEVER, NEVER, false), NewTable(n, now), ts)
    ensures Good(r) && |r.buckets| == n && PortsOf(r) == WalkPorts(map[], Conns(ts))
  {
    var cfg := Config(NEVER, NEVER, false);
    var t: Table<N, Address> := NewTable(n, now);
    NewIndex<N>(n, now, false, Listeners(Conns(ts)));
    FirstPorts(Conns(ts));
    WalkExact(cfg, t, ts);
    ListenersInRange(ts);
    WalkRefines(cfg, t, ZERO, ts);
    r := WalkTable(cfg, t, ts);
  }

  /** A new index has room for as many ports as it has buckets, or for any number with the head stored. */
  lemma NewIndex<N>(n: nat, now: nat, headStored: bool, ports: set<nat>)
    requires 0 < n
    ensures var t := NewTable<N, Address>(n, now);
            && Inv(t) && Good(t) && PortsOf(t) == map[]
            && (Room(Config(NEVER, NEVER, headStored), t, ports) <==> headStored || |ports| <= n)
  {
    NewTableInv<N, Address>(n, now);
    assert IndexOf(NewTable<N, Address>(n, now)).cells.Keys + ports == ports;
  }

  lemma ListenersInRange<N>(ts: seq<Turn<N>>)
    requires forall i :: 0 <= i < |ts| ==> IsListenerOf(ts[i], i)
    ensures InRange(Conns(ts))
  {
    forall c | c in Conns(ts) ensures c.state < STATES {
      var i :| 0 <= i < |ts| && Conns(ts)[i] == c;
      assert IsListenerOf(ts[i], i);
    }
  }
}
