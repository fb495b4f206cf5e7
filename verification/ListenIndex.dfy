/** The walkers of sysm.c over a cache that is changed in place: `net_listen` and `net_stat`. */
module ListenIndex {
  import opened Words
  import opened CacheTable
  import opened CacheRefinement
  import opened CacheRuns
  import opened NativeCache
  import opened NetStat
  import opened ListenTables
  import opened ListenRuns

  const LISTEN_SIZE: nat := 32

  // ---------------------------------------------------------------- counters

  class Counters {
    const states: array<nat>
    var tcpIn: nat
    var tcpOut: nat
    var allIn: nat
    var allOut: nat

    ghost function Value(): (s: Stat)
      reads this, states
    {
      Stat(states[..], tcpIn, tcpOut, allIn, allOut)
    }

    constructor ()
      ensures fresh(states) && states.Length == STATES && Value() == ZERO
    {
      states := new nat[STATES](_ => 0);
      tcpIn, tcpOut, allIn, allOut := 0, 0, 0, 0;
      new;
      assert states[..] == ZERO.states;
    }

    /** `tcp_states[state]++`. */
    method Tick(state: nat)
      requires states.Length == STATES && state < STATES
      modifies states
      ensures Value() == old(Value()).(states := old(Value()).states[state := old(Value()).states[state] + 1])
    {
      ghost var was := states[..];
      states[state] := states[state] + 1;
      assert states[..] == was[state := was[state] + 1];
    }

    /** The TCP counts are the counts of all. */
    method CopySides()
      modifies this`allIn, this`allOut
      ensures Value() == Publish(old(Value()))
    {
      allIn := tcpIn;
      allOut := tcpOut;
    }
  }

  // ---------------------------------------------------------------- the walkers

  class NetMonitor {
    var netListen: Cache?<Address>
    /** Which rehash the cache of this handle uses. */
    const headStored: bool
    /** The records of all walks so far. */
    ghost var seen: seq<Conn>

    /** There is a cache, and it never expires. */
    ghost predicate Opened()
      reads this, Footprint()
    {
      netListen != null && netListen.Valid() && netListen.cfg == Config(NEVER, NEVER, headStored)
    }

    /** What every call keeps, over any run of calls: every entry has an address, one that was seen, and
        the index is the port map of all records seen if and only if their listening ports fit its 32 places. */
    ghost predicate Valid()
      reads this, Footprint()
    {
      if netListen == null then seen == [] else Opened() && Indexed(netListen.cfg, 32, netListen.table, seen)
    }

    ghost function Footprint(): set<object?>
      reads this, netListen
    {
      if netListen == null then {} else {netListen, netListen.entries} + netListen.Repr
    }

    constructor (headStored: bool)
      ensures Valid() && netListen == null && seen == [] && this.headStored == headStored
    {
      netListen, seen := null, [];
      this.headStored := headStored;
    }

    /** The ports and addresses of the index. */
    ghost function Known(): Ports
      reads this, netListen
      requires netListen != null ==> |netListen.table.buckets| > 0
    {
      if netListen == null then map[] else PortsOf(netListen.table)
    }

    /** All ports seen listening fit the index. */
    ghost predicate Complete()
      reads this
    {
      Fits(headStored, 32, seen)
    }

    /** The table before a call, whether or not the cache exists yet. */
    ghost function TableBefore(): Table<Entry<Address>, Address>
      reads this, netListen
    {
      if netListen == null then NewTable(LISTEN_SIZE, 0) else netListen.table
    }

    /** `sysm_net_listen_address_add`. */
    method AddAddress(c: Conn, now: nat) returns (ghost node: Entry<Address>)
      requires Opened()
      modifies netListen, netListen.entries, netListen.Repr
      ensures Opened() && fresh(netListen.Repr - old(netListen.Repr))
      ensures netListen.entries == old(netListen.entries) || fresh(netListen.entries)
      ensures netListen.table == Added(netListen.cfg, old(netListen.table), c, now, node)
    {
      var entry := netListen.Get(c.port, now, now);
      node := entry;
      OwnedValue(netListen, entry);
      if entry.value.Some? {
        if c.address.family.Inet6? {
          return;
        }
      }
      netListen.Write(entry, c.address);
    }

    /** The lookup of a local port: it refreshes an entry, and changes nothing else. */
    method IsListening(port: nat, now: nat) returns (known: bool)
      requires Opened()
      modifies netListen, netListen.entries, netListen.Repr
      ensures Opened() && netListen.Repr == old(netListen.Repr)
      ensures netListen.entries == old(netListen.entries) || fresh(netListen.entries)
      ensures netListen.table == Find(netListen.cfg, old(netListen.table), port, now, now)
      ensures known <==> Lookup(old(netListen.table).buckets, port).Some?
    {
      var entry := netListen.Find(port, now, now);
      known := entry != null;
    }

    /** A listener is kept. */
    method KeepListener(c: Conn, now: nat) returns (ghost turn: Turn<Entry<Address>>)
      requires Opened() && Listens(c)
      modifies netListen, netListen.entries, netListen.Repr
      ensures Opened() && fresh(netListen.Repr - old(netListen.Repr))
      ensures netListen.entries == old(netListen.entries) || fresh(netListen.entries)
      ensures turn.conn == c && turn.now == now && netListen.table == Visited(netListen.cfg, old(netListen.table), turn)
    {
      ghost var node := AddAddress(c, now);
      turn := Heard(c, now, node);
    }

    /** Any other record is counted by whether its port is known. */
    method CountTraffic(c: Conn, stat: Counters, now: nat) returns (ghost turn: Turn<Entry<Address>>)
      requires Opened() && Traffic(c) && stat.states.Length == STATES
      modifies netListen, netListen.entries, netListen.Repr, stat`tcpIn, stat`tcpOut
      ensures Opened() && fresh(netListen.Repr - old(netListen.Repr))
      ensures netListen.entries == old(netListen.entries) || fresh(netListen.entries)
      ensures turn.conn == c && turn.now == now && netListen.table == Visited(netListen.cfg, old(netListen.table), turn)
      ensures stat.Value() == Sided(old(stat.Value()), Lookup(old(netListen.table).buckets, c.port).Some?)
    {
      var found := IsListening(c.port, now);
      if found {
        stat.tcpIn := stat.tcpIn + 1;
      } else {
        stat.tcpOut := stat.tcpOut + 1;
      }
      turn := Met(c, now);
    }

    /** A TCP record is kept as a listener or counted as traffic. */
    method Route(c: Conn, stat: Counters, now: nat) returns (ghost turn: Turn<Entry<Address>>)
      requires Opened() && c.kind.Tcp? && stat.states.Length == STATES
      modifies netListen, netListen.entries, netListen.Repr, stat`tcpIn, stat`tcpOut
      ensures Opened() && fresh(netListen.Repr - old(netListen.Repr))
      ensures netListen.entries == old(netListen.entries) || fresh(netListen.entries)
      ensures turn.conn == c && turn.now == now && netListen.table == Visited(netListen.cfg, old(netListen.table), turn)
      ensures var s := old(stat.Value());
              stat.Value() == if c.state == LISTEN then s
                              else Sided(s, Lookup(old(netListen.table).buckets, c.port).Some?)
    {
      if c.state == LISTEN {
        turn := KeepListener(c, now);
      } else {
        turn := CountTraffic(c, stat, now);
      }
    }

    static lemma CountedTcp(was: Stat, c: Conn, known: bool, ticked: Stat, s: Stat)
      requires c.kind.Tcp? && c.state < STATES && |was.states| == STATES
      requires ticked == was.(states := was.states[c.state := was.states[c.state] + 1])
      requires s == if c.state == LISTEN then ticked else Sided(ticked, known)
      ensures Publish(s) == CountRecord(was, c, known)
    {
    }

    /** A TCP record: its state is counted, then it goes its way. */
    method VisitTcp(c: Conn, stat: Counters, now: nat) returns (ghost turn: Turn<Entry<Address>>)
      requires Opened() && c.kind.Tcp? && c.state < STATES && stat.states.Length == STATES
      modifies netListen, netListen.entries, netListen.Repr, stat`tcpIn, stat`tcpOut, stat.states
      ensures Opened() && fresh(netListen.Repr - old(netListen.Repr))
      ensures netListen.entries == old(netListen.entries) || fresh(netListen.entries)
      ensures turn.conn == c && turn.now == now && netListen.table == Visited(netListen.cfg, old(netListen.table), turn)
      ensures Publish(stat.Value()) == CountRecord(old(stat.Value()), c, Lookup(old(netListen.table).buckets, c.port).Some?)
    {
      ghost var known := Lookup(netListen.table.buckets, c.port).Some?;
      ghost var was := stat.Value();
      stat.Tick(c.state);
      ghost var s := stat.Value();
      assert Opened();
      turn := Route(c, stat, now);
      CountedTcp(was, c, known, s, stat.Value());
    }

    /** `net_stat_walker`: one step of the walk on the table and on the counters. */
    method Visit(c: Conn, stat: Counters, now: nat) returns (ghost turn: Turn<Entry<Address>>)
      requires Opened() && c.state < STATES && stat.states.Length == STATES
      modifies netListen, netListen.entries, netListen.Repr, stat, stat.states
      ensures Opened() && fresh(netListen.Repr - old(netListen.Repr))
      ensures netListen.entries == old(netListen.entries) || fresh(netListen.entries)
      ensures turn.conn == c && turn.now == now && netListen.table == Visited(netListen.cfg, old(netListen.table), turn)
      ensures stat.Value() == CountRecord(old(stat.Value()), c, Lookup(old(netListen.table).buckets, c.port).Some?)
    {
      if c.kind.Tcp? {
        turn := VisitTcp(c, stat, now);
      } else {
        turn := Met(c, now);
      }
      stat.CopySides();
    }

    /** The walk: the connection tables hand over `conns`. The clock is read once for each. */
    method Walk(conns: seq<Conn>, clock: seq<nat>, stat: Counters) returns (ghost turns: seq<Turn<Entry<Address>>>)
      requires Opened() && InRange(conns) && |clock| == |conns|
      requires stat.states.Length == STATES
      modifies netListen, netListen.entries, netListen.Repr, stat, stat.states
      ensures Opened() && fresh(netListen.Repr - old(netListen.Repr))
      ensures netListen.entries == old(netListen.entries) || fresh(netListen.entries)
      ensures Conns(turns) == conns
      ensures netListen.table == WalkTable(netListen.cfg, old(netListen.table), turns)
      ensures stat.Value() == WalkCount(netListen.cfg, old(netListen.table), old(stat.Value()), turns)
    {
      ghost var t, s := netListen.table, stat.Value();
      turns := [];
      for i := 0 to |conns|
        invariant Opened() && fresh(netListen.Repr - old(netListen.Repr))
        invariant netListen.entries == old(netListen.entries) || fresh(netListen.entries)
        invariant Conns(turns) == conns[..i] && InRange(Conns(turns))
        invariant netListen.table == WalkTable(netListen.cfg, t, turns)
        invariant stat.Value() == WalkCount(netListen.cfg, t, s, turns)
      {
        ghost var turn := Visit(conns[i], stat, clock[i]);
        ConnsSnoc(turns, turn, conns, i);
        WalkTableSnoc(netListen.cfg, t, turns, turn);
        WalkCountSnoc(netListen.cfg, t, s, turns, turn);
        turns := turns + [turn];
      }
    }

    /** The cache of listening ports is made on first use. */
    method Open()
      requires Valid()
      modifies this`netListen
      ensures Valid() && netListen != null && netListen.table == TableBefore() == old(TableBefore())
      ensures forall o :: o in Footprint() ==> o in old(Footprint()) || fresh(o)
    {
      if netListen == null {
        netListen := new Cache<Address>(LISTEN_SIZE, NEVER, NEVER, headStored, 0);
        IndexedNew<Entry<Address>>(netListen.cfg, 32, 0);
      }
    }

    /** A walk with new counters, on an index that is there; it is not yet noted in `seen`. */
    method Count(conns: seq<Conn>, clock: seq<nat>) returns (stat: Counters, ghost turns: seq<Turn<Entry<Address>>>)
      requires Valid() && netListen != null && InRange(conns) && |clock| == |conns|
      modifies netListen, netListen.entries, netListen.Repr
      ensures Opened() && fresh(netListen.Repr - old(netListen.Repr))
      ensures netListen.entries == old(netListen.entries) || fresh(netListen.entries)
      ensures fresh(stat) && fresh(stat.states) && stat.states.Length == STATES
      ensures Conns(turns) == conns && Indexed(netListen.cfg, 32, netListen.table, seen + conns)
      ensures Counted(netListen.cfg, 32, old(netListen.table), seen, turns, stat.Value())
    {
      stat := new Counters();
      ghost var t := netListen.table;
      turns := Walk(conns, clock, stat);
      WalkOfHandle(netListen.cfg, 32, t, seen, turns);
    }

    /** The walk is noted. */
    ghost method Note(conns: seq<Conn>)
      requires Opened() && Indexed(netListen.cfg, 32, netListen.table, seen + conns)
      modifies this`seen
      ensures Valid() && seen == old(seen) + conns
    {
      seen := seen + conns;
    }

    method CountMore(conns: seq<Conn>, clock: seq<nat>) returns (stat: Counters, ghost turns: seq<Turn<Entry<Address>>>)
      requires Valid() && netListen != null && InRange(conns) && |clock| == |conns|
      modifies this`seen, Footprint()
      ensures Valid() && forall o :: o in Footprint() ==> o in old(Footprint()) || fresh(o)
      ensures fresh(stat) && fresh(stat.states)
      ensures Conns(turns) == conns && seen == old(seen) + conns
      ensures Counted(netListen.cfg, 32, old(netListen.table), old(seen), turns, stat.Value())
    {
      ghost var t := netListen.table;
      stat, turns := Count(conns, clock);
      ghost var counted := stat.Value();
      assert Counted(netListen.cfg, 32, t, seen, turns, counted);
      Note(conns);
      assert stat.Value() == counted;
    }

    /** `sysm_net_stat_get`: the walk hands over `conns` and ends with `status`. The counters balance;
        inbound falls short of the port map's by exactly the forgotten records, none while the ports fit. */
    method StatGet(conns: seq<Conn>, clock: seq<nat>, status: nat)
      returns (r: nat, stat: Counters, ghost turns: seq<Turn<Entry<Address>>>)
      requires Valid() && InRange(conns) && |clock| == |conns|
      modifies this, Footprint()
      ensures Valid() && netListen != null && r == status
      ensures forall o :: o in Footprint() ==> o in old(Footprint()) || fresh(o)
      ensures fresh(stat) && fresh(stat.states)
      ensures Conns(turns) == conns && seen == old(seen) + conns
      ensures Counted(netListen.cfg, 32, old(TableBefore()), old(seen), turns, stat.Value())
    {
      Open();
      stat, turns := CountMore(conns, clock);
      r := status;
    }

    /** Two calls over the same records, in any order: while the listening ports fit, the second counts as
        inbound exactly the traffic of the ports with a recorded listener. */
    method StatGetTwice(first: seq<Conn>, second: seq<Conn>, clock: seq<nat>, again: seq<nat>, status: nat)
      returns (stat: Counters)
      requires Valid() && InRange(first) && InRange(second) && multiset(first) == multiset(second)
      requires |clock| == |first| && |again| == |second|
      modifies this, Footprint()
      ensures Valid() && seen == old(seen) + first + second
      ensures Complete() ==> Converged(stat.Value(), first, Listeners(old(seen) + first))
    {
      ghost var before := seen;
      ghost var turns;
      var r, ignored;
      r, ignored, turns := StatGet(first, clock, status);
      stat, turns := CountMore(second, again);
      if Complete() {
        TwicePorts(before, first, second);
        NothingShort(stat.Value(), WalkStat(WalkPorts(map[], before + first), ZERO, second));
      }
    }

    /** The lookup of a port. */
    method Probe(port: nat, now: nat) returns (known: bool)
      requires Valid() && netListen != null
      modifies netListen, netListen.entries, netListen.Repr
      ensures Valid() && netListen.Repr == old(netListen.Repr)
      ensures netListen.entries == old(netListen.entries) || fresh(netListen.entries)
      ensures Known() == old(Known()) && (known <==> port in Known())
    {
      IndexedFind(netListen.cfg, 32, netListen.table, seen, port, now);
      known := IsListening(port, now);
    }

    /** The final read, through a get that hits. */
    method AddressOf(port: nat, now: nat) returns (address: Address)
      requires Valid() && netListen != null && port in Known()
      modifies netListen, netListen.entries, netListen.Repr
      ensures Valid() && Known() == old(Known()) && address == Known()[port]
    {
      ghost var t := netListen.table;
      var entry := netListen.Get(port, now, now);
      IndexedHit(netListen.cfg, 32, t, seen, port, now, entry);
      OwnedValue(netListen, entry);
      LookupIsIndex(netListen.table, port);
      address := entry.value.value;
    }

    /** The known flag of a port, and one walk if it is not known yet. */
    method Learn(port: nat, conns: seq<Conn>, clock: seq<nat>, status: nat, now: nat) returns (r: nat)
      requires Valid() && InRange(conns) && |clock| == |conns|
      modifies this, Footprint()
      ensures Valid() && netListen != null
      ensures forall o :: o in Footprint() ==> o in old(Footprint()) || fresh(o)
      ensures if port in old(Known()) then r == 0 && seen == old(seen) && Known() == old(Known())
              else r == status && seen == old(seen) + conns
    {
      r := 0;
      var known := false;
      if netListen != null {
        known := Probe(port, now);
      }
      if !known {
        var stat;
        ghost var turns;
        r, stat, turns := StatGet(conns, clock, status);
      }
    }

    /** `sysm_net_listen_address_get`. A port that the index knows needs no walk, and any other takes one.
        Over any run of calls: an address is given exactly with status 0 and was seen; while the listening
        ports fit the index, the call succeeds if and only if the port has ever been seen listening. */
    method ListenAddressGet(port: nat, conns: seq<Conn>, clock: seq<nat>, status: nat, now: nat)
      returns (r: nat, address: Option<Address>)
      requires Valid() && InRange(conns) && |clock| == |conns|
      modifies this, Footprint()
      ensures Valid() && netListen != null
      ensures seen == if port in old(Known()) then old(seen) else old(seen) + conns
      ensures r == 0 <==> address.Some?
      ensures address.Some? ==> port in Known() && address.value == Known()[port] && Seen(seen, port, address.value)
      ensures port !in old(Known()) && status != 0 ==> r == status
      ensures port in old(Known()) || status == 0 ==> r == if port in Known() then 0 else ENOENT
      ensures old(Complete()) ==> (port in old(Known()) <==> port in Listeners(old(seen)))
      ensures Complete() && (port in old(Known()) || status == 0) ==>
                && (r == 0 <==> port in Listeners(seen))
                && (r == 0 ==> address == Some(WalkPorts(map[], seen)[port]))
    {
      KnownIsSeen();
      r := Learn(port, conns, clock, status, now);
      if r != 0 {
        return r, None;
      }
      KnownIsSeen();
      r, address := Look(port, now);
    }

    /** A complete index knows the ports that were seen listening. */
    lemma KnownIsSeen()
      requires Valid()
      ensures Complete() ==> Known() == WalkPorts(map[], seen) && Known().Keys == Listeners(seen)
    {
      KnownAfterWalk(map[], seen);
    }

    /** The lookup and the read behind the walk. */
    method Look(port: nat, now: nat) returns (r: nat, address: Option<Address>)
      requires Valid() && netListen != null
      modifies netListen, netListen.entries, netListen.Repr
      ensures Valid() && Known() == old(Known())
      ensures if port in Known() then r == 0 && address == Some(Known()[port]) else r == ENOENT && address == None
    {
      var found := Probe(port, now);
      if !found {
        return ENOENT, None;
      }
      r := 0;
      var a := AddressOf(port, now);
      address := Some(a);
    }
  }
}
