/** The index of listening ports over all walks of a handle: what it holds, complete or not, and how far
    the counters fall short once a rehash has lost ports. */
module ListenRuns {
  import opened Words
  import opened CacheTable
  import opened CacheRefinement
  import opened CacheRuns
  import opened NetStat
  import opened ListenTables

  // ---------------------------------------------------------------- one record on any index

  /** An addition of `port` ends in a losing rehash. */
  predicate Overflows<N>(cfg: Config, t: Table<N, Address>, port: nat, now: nat)
    requires Inv(t)
  {
    CleanupKeepsSize(cfg, t, now);
    GetLoses(cfg, t, port, now)
  }

  /** The index that an addition starts from: none of it is left after a losing rehash. */
  ghost function Base<N>(cfg: Config, t: Table<N, Address>, port: nat, now: nat): Index<N, Address>
    requires Inv(t)
  {
    if Overflows(cfg, t, port, now) then Index(map[], t.lastCleanup) else IndexOf(t)
  }

  lemma FetchedAny<N>(cfg: Config, t: Table<N, Address>, port: nat, now: nat, node: N)
    requires Inv(t) && Load(t) && cfg.cleanupPeriod == NEVER
    ensures var g := Get(cfg, t, port, now, now, node);
            Inv(g) && Load(g) && IndexOf(g) == IndexObtain(Base(cfg, t, port, now), port, now, node)
  {
    var op := OpGet(port, now, now, node);
    StepLoad(cfg, t, op);
    StepRefines(cfg, t, op);
    assert Get(cfg, t, port, now, now, node) == Step(cfg, t, op);
    if Loses(cfg, t, op) {
      LosingStep(cfg, t, op);
    }
  }

  lemma AddedAny<N>(cfg: Config, t: Table<N, Address>, c: Conn, now: nat, node: N)
    requires Inv(t) && Load(t) && AllValued(IndexOf(t)) && cfg.cleanupPeriod == NEVER
    ensures var r := Added(cfg, t, c, now, node);
            && Load(r) && AllValued(IndexOf(r))
            && PortsOf(r) == AddListener(if Overflows(cfg, t, c.port, now) then map[] else PortsOf(t), c)
  {
    var g := Get(cfg, t, c.port, now, now, node);
    FetchedAny(cfg, t, c.port, now, node);
    LookupIsIndex(g, c.port);
    StoreRefines(g, c.port, c.address);
    IndexAdded(Base(cfg, t, c.port, now), c, now, node);
  }

  /** One record on any index with an address in every entry: it is a step of the port map, unless it ends
      in a losing rehash, which leaves the one port. Every entry has an address again. */
  lemma VisitedAny<N>(cfg: Config, t: Table<N, Address>, v: Turn<N>)
    requires Inv(t) && Load(t) && AllValued(IndexOf(t)) && cfg.cleanupPeriod == NEVER
    ensures var r := Visited(cfg, t, v);
            && Load(r) && AllValued(IndexOf(r))
            && PortsOf(r) == VisitPorts(if v.Heard? && Overflows(cfg, t, v.conn.port, v.now) then map[] else PortsOf(t), v.conn)
    ensures Lookup(t.buckets, v.conn.port).Some? <==> v.conn.port in PortsOf(t)
  {
    LookupIsIndex(t, v.conn.port);
    if v.Heard? {
      AddedAny(cfg, t, v.conn, v.now, v.node);
    } else {
      StepLoad(cfg, t, OpFind(v.conn.port, v.now, v.now));
      FindRefines(cfg, t, v.conn.port, v.now, v.now);
      IndexFound(cfg, IndexOf(t), v.conn.port, v.now);
    }
  }

  // ---------------------------------------------------------------- what a handle has seen

  /** A record of `seen` was a listener of `port` at `address`. */
  ghost predicate Seen(seen: seq<Conn>, port: nat, address: Address) {
    exists i :: 0 <= i < |seen| && Listens(seen[i]) && seen[i].port == port && seen[i].address == address
  }

  /** An index that only knows what was seen. */
  ghost predicate Truthful(m: Ports, seen: seq<Conn>) {
    forall p :: p in m ==> Seen(seen, p, m[p])
  }

  /** The ports that were seen listening fit the index, or heads are stored. */
  predicate Fits(headStored: bool, size: nat, seen: seq<Conn>) {
    headStored || |Listeners(seen)| <= size
  }

  /** What a handle keeps that has seen the records `seen`, over all its walks: every entry has an address,
      one that was seen; and the index is complete if and only if the ports seen listening fit it. */
  ghost predicate Indexed<N>(cfg: Config, size: nat, t: Table<N, Address>, seen: seq<Conn>) {
    && Inv(t) && Load(t) && AllValued(IndexOf(t))
    && Truthful(PortsOf(t), seen)
    && (Good(t) <==> Fits(cfg.headStored, size, seen))
    && (Good(t) ==> PortsOf(t) == WalkPorts(map[], seen) && (cfg.headStored || |t.buckets| == size))
  }

  lemma SeenMore(m: Ports, seen: seq<Conn>, c: Conn)
    requires Truthful(m, seen)
    ensures Truthful(VisitPorts(m, c), seen + [c]) && Truthful(VisitPorts(map[], c), seen + [c])
  {
    var all := seen + [c];
    assert all[|seen|] == c;
    forall p | p in VisitPorts(m, c) ensures Seen(all, p, VisitPorts(m, c)[p]) {
      if p in m && VisitPorts(m, c)[p] == m[p] {
        var i :| 0 <= i < |seen| && Listens(seen[i]) && seen[i].port == p && seen[i].address == m[p];
        assert all[i] == seen[i];
      }
    }
  }

  lemma {:induction false} PortsOver(m: Ports, a: seq<Conn>, b: seq<Conn>)
    ensures WalkPorts(m, a + b) == WalkPorts(WalkPorts(m, a), b)
    decreases |a|
  {
    if a == [] {
      assert a + b == b;
    } else {
      assert (a + b)[1..] == a[1..] + b;
      PortsOver(VisitPorts(m, a[0]), a[1..], b);
    }
  }

  lemma PortsSnoc(m: Ports, conns: seq<Conn>, c: Conn)
    ensures WalkPorts(m, conns + [c]) == VisitPorts(WalkPorts(m, conns), c)
  {
    PortsOver(m, conns, [c]);
    assert [c][1..] == [];
  }

  lemma ListenersSnoc(conns: seq<Conn>, c: Conn)
    ensures Listeners(conns + [c]) == Listeners(conns) + Listeners([c])
  {
    KnownAfterWalk(map[], conns);
    KnownAfterWalk(map[], conns + [c]);
    PortsSnoc(map[], conns, c);
    KnownAfterWalk(WalkPorts(map[], conns), [c]);
    assert [c][1..] == [];
  }

  lemma KeysAreSeen<N>(t: Table<N, Address>, seen: seq<Conn>)
    requires |t.buckets| > 0 && AllValued(IndexOf(t)) && PortsOf(t) == WalkPorts(map[], seen)
    ensures IndexOf(t).cells.Keys == Listeners(seen)
  {
    AllPorts(IndexOf(t));
    KnownAfterWalk(map[], seen);
  }

  /** One record keeps that. */
  lemma IndexedStep<N>(cfg: Config, size: nat, t: Table<N, Address>, seen: seq<Conn>, v: Turn<N>)
    requires Indexed(cfg, size, t, seen) && cfg.cleanupPeriod == NEVER
    ensures Indexed(cfg, size, Visited(cfg, t, v), seen + [v.conn])
  {
    var r, all := Visited(cfg, t, v), seen + [v.conn];
    VisitedAny(cfg, t, v);
    SeenMore(PortsOf(t), seen, v.conn);
    ListenersSnoc(seen, v.conn);
    if Good(t) {
      VisitedExact(cfg, t, v);
      KeysAreSeen(t, seen);
      PortsSnoc(map[], seen, v.conn);
    } else {
      SubsetSize(Listeners(seen), Listeners(all));
    }
  }

  lemma Regrouped<T>(done: seq<T>, todo: seq<T>)
    requires todo != []
    ensures done + [todo[0]] + todo[1..] == done + todo
  {
  }

  /** And so does a walk. */
  lemma {:induction false} IndexedWalk<N>(cfg: Config, size: nat, t: Table<N, Address>, seen: seq<Conn>, ts: seq<Turn<N>>)
    requires Indexed(cfg, size, t, seen) && cfg.cleanupPeriod == NEVER
    ensures Indexed(cfg, size, WalkTable(cfg, t, ts), seen + Conns(ts))
    decreases |ts|
  {
    if ts == [] {
      assert seen + Conns(ts) == seen;
    } else {
      IndexedStep(cfg, size, t, seen, ts[0]);
      IndexedWalk(cfg, size, Visited(cfg, t, ts[0]), seen + [ts[0].conn], ts[1..]);
      ConnsStep(ts);
      Regrouped(seen, Conns(ts));
    }
  }

  lemma IndexedNew<N>(cfg: Config, size: nat, now: nat)
    requires 0 < size && cfg.cleanupPeriod == NEVER
    ensures Indexed(cfg, size, NewTable<N, Address>(size, now), [])
  {
    NewTableInv<N, Address>(size, now);
    assert PortsOf(NewTable<N, Address>(size, now)) == map[];
    assert Listeners([]) == {};
  }

  /** A lookup keeps it, and answers whether the port is in the index. */
  lemma IndexedFind<N>(cfg: Config, size: nat, t: Table<N, Address>, seen: seq<Conn>, port: nat, now: nat)
    requires Indexed(cfg, size, t, seen) && cfg.cleanupPeriod == NEVER
    ensures var r := Find(cfg, t, port, now, now);
            Indexed(cfg, size, r, seen) && PortsOf(r) == PortsOf(t)
    ensures Lookup(t.buckets, port).Some? <==> port in PortsOf(t)
  {
    LookupIsIndex(t, port);
    StepLoad(cfg, t, OpFind(port, now, now));
    FindRefines(cfg, t, port, now, now);
    FindMissing(cfg, t, port, now, now);
    IndexFound(cfg, IndexOf(t), port, now);
    CleanupKeepsSize(cfg, t, now);
  }

  /** So does the get behind a successful lookup. */
  lemma IndexedHit<N>(cfg: Config, size: nat, t: Table<N, Address>, seen: seq<Conn>, port: nat, now: nat, node: N)
    requires Indexed(cfg, size, t, seen) && cfg.cleanupPeriod == NEVER && port in PortsOf(t)
    ensures var r := Get(cfg, t, port, now, now, node);
            Indexed(cfg, size, r, seen) && PortsOf(r) == PortsOf(t)
  {
    LookupIsIndex(t, port);
    FetchedAny(cfg, t, port, now, node);
    GetMissing(cfg, t, port, now, now, node);
    IndexHit(IndexOf(t), port, now, node);
  }

  // ---------------------------------------------------------------- how far the counters fall short

  /** The traffic records of a walk that meet a port of `m`, the map of all ports seen so far, that the
      table has forgotten. */
  ghost function Forgotten<N>(cfg: Config, t: Table<N, Address>, m: Ports, ts: seq<Turn<N>>): nat
    requires Inv(t)
    decreases |ts|
  {
    if ts == [] then 0
    else
      var c := ts[0].conn;
      (if Traffic(c) && c.port in m && Lookup(t.buckets, c.port).None? then 1 else 0)
      + Forgotten(cfg, Visited(cfg, t, ts[0]), VisitPorts(m, c), ts[1..])
  }

  /** `s` has `d` records under outbound that `full` has under inbound. */
  predicate ShortBy(s: Stat, full: Stat, d: nat) {
    && s.states == full.states
    && s.tcpIn + d == full.tcpIn && s.tcpOut == full.tcpOut + d
    && s.allIn + d == full.allIn && s.allOut == full.allOut + d
  }

  lemma ShortStep(s: Stat, full: Stat, d: nat, c: Conn, known: bool, m: Ports)
    requires |s.states| == STATES && |full.states| == STATES && c.state < STATES && ShortBy(s, full, d)
    requires known ==> c.port in m
    ensures ShortBy(CountRecord(s, c, known), VisitStat(m, full, c), if Traffic(c) && c.port in m && !known then d + 1 else d)
  {
  }

  /** Inbound falls short of the port map's by exactly the forgotten records, which are all counted as
      outbound; everything else agrees. */
  lemma {:induction false} CountsFallShort<N>(cfg: Config, t: Table<N, Address>, m: Ports, s: Stat, full: Stat, d: nat, ts: seq<Turn<N>>)
    requires Inv(t) && Load(t) && AllValued(IndexOf(t)) && cfg.cleanupPeriod == NEVER && PortsOf(t).Keys <= m.Keys
    requires |s.states| == STATES && |full.states| == STATES && InRange(Conns(ts)) && ShortBy(s, full, d)
    ensures ShortBy(WalkCount(cfg, t, s, ts), WalkStat(m, full, Conns(ts)), d + Forgotten(cfg, t, m, ts))
    decreases |ts|
  {
    if ts != [] {
      var c := ts[0].conn;
      ConnsStep(ts);
      VisitedAny(cfg, t, ts[0]);
      var known := Lookup(t.buckets, c.port).Some?;
      ShortStep(s, full, d, c, known, m);
      CountsFallShort(cfg, Visited(cfg, t, ts[0]), VisitPorts(m, c), CountRecord(s, c, known), VisitStat(m, full, c),
                      if Traffic(c) && c.port in m && !known then d + 1 else d, ts[1..]);
    }
  }

  lemma SeenIsListed(m: Ports, seen: seq<Conn>)
    requires Truthful(m, seen)
    ensures m.Keys <= WalkPorts(map[], seen).Keys
  {
    KnownAfterWalk(map[], seen);
    forall p | p in m ensures p in Listeners(seen) {
      var i :| 0 <= i < |seen| && Listens(seen[i]) && seen[i].port == p && seen[i].address == m[p];
    }
  }

  /** What a walk with new counters counts, on the table `t` of a handle that has seen `seen`. */
  ghost predicate Counted<N>(cfg: Config, size: nat, t: Table<N, Address>, seen: seq<Conn>, ts: seq<Turn<N>>, s: Stat) {
    && Inv(t) && InRange(Conns(ts)) && Conserves(ZERO, Conns(ts), s)
    && ShortBy(s, WalkStat(WalkPorts(map[], seen), ZERO, Conns(ts)), Forgotten(cfg, t, WalkPorts(map[], seen), ts))
    && (Fits(cfg.headStored, size, seen + Conns(ts)) ==> Forgotten(cfg, t, WalkPorts(map[], seen), ts) == 0)
  }

  /** What the walk of a handle leaves: the counters fall short by the forgotten records, and nothing is
      forgotten while the ports seen fit the index. */
  lemma WalkOfHandle<N>(cfg: Config, size: nat, t: Table<N, Address>, seen: seq<Conn>, ts: seq<Turn<N>>)
    requires Indexed(cfg, size, t, seen) && cfg.cleanupPeriod == NEVER && InRange(Conns(ts))
    ensures Indexed(cfg, size, WalkTable(cfg, t, ts), seen + Conns(ts))
    ensures Counted(cfg, size, t, seen, ts, WalkCount(cfg, t, ZERO, ts))
  {
    var m := WalkPorts(map[], seen);
    IndexedWalk(cfg, size, t, seen, ts);
    WalkCountConserves(cfg, t, ZERO, Conns(ts), ZERO, ts);
    SeenIsListed(PortsOf(t), seen);
    CountsFallShort(cfg, t, m, ZERO, ZERO, 0, ts);
    if Fits(cfg.headStored, size, seen + Conns(ts)) {
      FitsBefore(cfg.headStored, size, seen, Conns(ts));
      WalkRefines(cfg, t, ZERO, ts);
    }
  }

  /** Counters that fall short by nothing are those of the port map. */
  lemma NothingShort(s: Stat, full: Stat)
    requires ShortBy(s, full, 0)
    ensures s == full
  {
  }

  /** The second of two passes over the same records, on the port map of all that was seen. */
  lemma TwicePorts(seen: seq<Conn>, first: seq<Conn>, second: seq<Conn>)
    requires InRange(first) && InRange(second) && multiset(first) == multiset(second)
    ensures Converged(WalkStat(WalkPorts(map[], seen + first), ZERO, second), first, Listeners(seen + first))
  {
    PortsOver(map[], seen, first);
    SecondPass(WalkPorts(map[], seen), first, second);
    KnownAfterWalk(map[], seen);
    KnownAfterWalk(map[], seen + first);
    KnownAfterWalk(WalkPorts(map[], seen), first);
    assert WalkPorts(map[], seen).Keys + Listeners(first) == Listeners(seen + first);
  }

  lemma FitsBefore(headStored: bool, size: nat, seen: seq<Conn>, more: seq<Conn>)
    requires Fits(headStored, size, seen + more)
    ensures Fits(headStored, size, seen)
  {
    forall p | p in Listeners(seen) ensures p in Listeners(seen + more) {
      var i :| 0 <= i < |seen| && Listens(seen[i]) && seen[i].port == p;
      assert (seen + more)[i] == seen[i];
    }
    SubsetSize(Listeners(seen), Listeners(seen + more));
  }

  /** A second pass that falls short, with the rehash as written: the first pass meets listeners of the ports 0
      to `n`, one more than there are buckets, and traffic on port 0; the second pass starts with that
      traffic. */
  lemma SecondPassFallsShort<N>(n: nat, now: nat, ts: seq<Turn<N>>, v: Turn<N>, again: seq<Turn<N>>)
    requires 0 < n && |ts| == n + 1 && (forall i :: 0 <= i <= n ==> IsListenerOf(ts[i], i))
    requires Traffic(v.conn) && v.conn.port == 0 && InRange(Conns([v] + again))
    ensures var cfg := Config(NEVER, NEVER, false);
            && Inv(NewTable<N, Address>(n, now))
            && var t := WalkTable(cfg, NewTable(n, now), ts + [v]);
               WalkCount(cfg, t, ZERO, [v] + again).tcpIn
               < WalkStat(WalkPorts(map[], Conns(ts + [v])), ZERO, Conns([v] + again)).tcpIn
  {
    var cfg := Config(NEVER, NEVER, false);
    var t0, m := NewTable<N, Address>(n, now), WalkPorts(map[], Conns(ts + [v]));
    OnePortTooMany(n, now, ts);
    IndexedNew<N>(cfg, n, now);
    IndexedWalk(cfg, n, t0, [], ts);
    WalkTableSnoc(cfg, t0, ts, v);
    var r, t := WalkTable(cfg, t0, ts), WalkTable(cfg, t0, ts + [v]);
    VisitedAny(cfg, r, v);
    VisitedAny(cfg, t, v);
    assert Conns(ts + [v]) == Conns(ts) + [v.conn];
    PortsSnoc(map[], Conns(ts), v.conn);
    assert 0 in m && n in m;
    assert ([v] + again)[0] == v;
    CountsFallShort(cfg, t, m, ZERO, ZERO, 0, [v] + again);
  }
}
