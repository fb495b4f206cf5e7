/** TCP counters and the listen-port index of sysm.c, on values. The index is the map that the
    never-expiring cache `net_listen` stands for: port to address. */
module NetStat {
  import opened Words

  datatype Conn = Conn(kind: ConnType, state: nat, port: nat, address: Address)

  const LISTEN: nat := 10
  const STATES: nat := 14

  type Ports = map<nat, Address>

  datatype Stat = Stat(states: seq<nat>, tcpIn: nat, tcpOut: nat, allIn: nat, allOut: nat)

  /** The kernel's state code indexes an array of `STATES` counters. */
  predicate InRange(conns: seq<Conn>) {
    forall c :: c in conns ==> c.state < STATES
  }

  const ZERO: Stat := Stat([0, 0, 0, 0, 0, 0, 0, 0, 0, 0, 0, 0, 0, 0], 0, 0, 0, 0)

  predicate Listens(c: Conn) {
    c.kind.Tcp? && c.state == LISTEN
  }

  predicate Traffic(c: Conn) {
    c.kind.Tcp? && c.state != LISTEN
  }

  // ---------------------------------------------------------------- one record, many records

  /** A stored address is replaced by any later listener that is not IPv6. */
  function AddListener(m: Ports, c: Conn): Ports {
    if c.port in m && c.address.family.Inet6? then m else m[c.port := c.address]
  }

  function VisitPorts(m: Ports, c: Conn): Ports {
    if Listens(c) then AddListener(m, c) else m
  }

  function Publish(s: Stat): Stat {
    s.(allIn := s.tcpIn, allOut := s.tcpOut)
  }

  /** Traffic goes to one side. */
  function Sided(s: Stat, known: bool): Stat {
    if known then s.(tcpIn := s.tcpIn + 1) else s.(tcpOut := s.tcpOut + 1)
  }

  /** One record counted, once it is settled whether its port has a listener. */
  function CountRecord(s: Stat, c: Conn, known: bool): Stat
    requires |s.states| == STATES && c.state < STATES
  {
    if !c.kind.Tcp? then Publish(s)
    else
      var t := s.(states := s.states[c.state := s.states[c.state] + 1]);
      Publish(if c.state == LISTEN then t else Sided(t, known))
  }

  function VisitStat(m: Ports, s: Stat, c: Conn): Stat
    requires |s.states| == STATES && c.state < STATES
  {
    CountRecord(s, c, c.port in m)
  }

  lemma SettledRecord(m: Ports, s: Stat, c: Conn, known: bool)
    requires |s.states| == STATES && c.state < STATES
    requires Traffic(c) ==> known == (c.port in m)
    ensures CountRecord(s, c, known) == VisitStat(m, s, c)
  {
  }

  function WalkPorts(m: Ports, conns: seq<Conn>): Ports
    decreases |conns|
  {
    if conns == [] then m else WalkPorts(VisitPorts(m, conns[0]), conns[1..])
  }

  function WalkStat(m: Ports, s: Stat, conns: seq<Conn>): (r: Stat)
    requires |s.states| == STATES && InRange(conns)
    ensures |r.states| == STATES
    decreases |conns|
  {
    if conns == [] then s
    else WalkStat(VisitPorts(m, conns[0]), VisitStat(m, s, conns[0]), conns[1..])
  }

  // ---------------------------------------------------------------- content of the index

  /** Address of the last listener on `port` that is not IPv6. */
  function LastPreferred(conns: seq<Conn>, port: nat): Option<Address>
  {
    if conns == [] then None
    else
      var later := LastPreferred(conns[1..], port);
      if later.Some? then later
      else if Listens(conns[0]) && conns[0].port == port && !conns[0].address.family.Inet6? then Some(conns[0].address)
      else None
  }

  function FirstListener(conns: seq<Conn>, port: nat): Option<Address>
  {
    if conns == [] then None
    else if Listens(conns[0]) && conns[0].port == port then Some(conns[0].address)
    else FirstListener(conns[1..], port)
  }

  /** After any walk a port has the last listener that is not IPv6, else what was stored before,
      else the first listener, which then is IPv6; and it is known iff it was ever seen listening. */
  lemma {:induction false} IndexContent(m: Ports, conns: seq<Conn>, port: nat)
    ensures port in WalkPorts(m, conns) <==> port in m || FirstListener(conns, port).Some?
    ensures port in WalkPorts(m, conns) ==>
              WalkPorts(m, conns)[port] == (if LastPreferred(conns, port).Some? then LastPreferred(conns, port).value
                                            else if port in m then m[port]
                                            else FirstListener(conns, port).value)
    ensures LastPreferred(conns, port).None? && FirstListener(conns, port).Some? ==>
              FirstListener(conns, port).value.family.Inet6?
    decreases |conns|
  {
    if conns != [] {
      IndexContent(VisitPorts(m, conns[0]), conns[1..], port);
      LastIsListener(conns[1..], port);
    }
  }

  lemma {:induction false} LastIsListener(conns: seq<Conn>, port: nat)
    ensures LastPreferred(conns, port).Some? ==> FirstListener(conns, port).Some?
  {
    if conns != [] {
      LastIsListener(conns[1..], port);
    }
  }

  function Listeners(conns: seq<Conn>): set<nat>
  {
    set i | 0 <= i < |conns| && Listens(conns[i]) :: conns[i].port
  }

  lemma {:induction false} ListenerSeen(conns: seq<Conn>, port: nat)
    ensures FirstListener(conns, port).Some? <==> port in Listeners(conns)
  {
    if conns != [] {
      ListenerSeen(conns[1..], port);
      if port in Listeners(conns) {
        var i :| 0 <= i < |conns| && Listens(conns[i]) && conns[i].port == port;
        if i > 0 {
          assert conns[1..][i - 1] == conns[i];
        }
      }
      if port in Listeners(conns[1..]) {
        var i :| 0 <= i < |conns[1..]| && Listens(conns[1..][i]) && conns[1..][i].port == port;
        assert conns[i + 1] == conns[1..][i];
      }
      if FirstListener(conns, port).Some? && Listens(conns[0]) && conns[0].port == port {
        assert conns[0].port in Listeners(conns);
      }
    }
  }

  lemma ListenersStep(conns: seq<Conn>)
    requires conns != []
    ensures Listeners(conns) == Listeners([conns[0]]) + Listeners(conns[1..])
  {
    var c, rest := conns[0], conns[1..];
    forall p | p in Listeners(conns) ensures p in Listeners([c]) + Listeners(rest) {
      var i :| 0 <= i < |conns| && Listens(conns[i]) && conns[i].port == p;
      if i == 0 {
        assert [c][0].port in Listeners([c]);
      } else {
        assert rest[i - 1] == conns[i];
      }
    }
    forall p | p in Listeners(rest) ensures p in Listeners(conns) {
      var i :| 0 <= i < |rest| && Listens(rest[i]) && rest[i].port == p;
      assert conns[i + 1] == rest[i];
    }
    forall p | p in Listeners([c]) ensures p in Listeners(conns) {
      assert conns[0].port in Listeners(conns);
    }
  }

  // ---------------------------------------------------------------- conservation

  function Sum(xs: seq<nat>): nat {
    if xs == [] then 0 else xs[0] + Sum(xs[1..])
  }

  lemma {:induction false} SumUpdate(xs: seq<nat>, i: nat, v: nat)
    requires i < |xs|
    ensures Sum(xs[i := v]) == Sum(xs) - xs[i] + v
  {
    if i == 0 {
      assert xs[0 := v][1..] == xs[1..];
    } else {
      assert xs[i := v][1..] == xs[1..][i - 1 := v];
      SumUpdate(xs[1..], i - 1, v);
    }
  }

  /** What a counter counts. */
  datatype Kind = AnyTcp | AnyTraffic | Inbound(ports: set<nat>) | Outbound(ports: set<nat>) | InState(code: nat)

  predicate Counts(k: Kind, c: Conn) {
    match k
    case AnyTcp => c.kind.Tcp?
    case AnyTraffic => Traffic(c)
    case Inbound(ports) => Traffic(c) && c.port in ports
    case Outbound(ports) => Traffic(c) && c.port !in ports
    case InState(code) => c.kind.Tcp? && c.state == code
  }

  function CountOf(conns: seq<Conn>, k: Kind): nat {
    if conns == [] then 0 else (if Counts(k, conns[0]) then 1 else 0) + CountOf(conns[1..], k)
  }

  /** What every record adds up to, whatever the listen index answers. */
  predicate Conserves(before: Stat, conns: seq<Conn>, after: Stat) {
    && Sum(after.states) == Sum(before.states) + CountOf(conns, AnyTcp)
    && after.tcpIn + after.tcpOut == before.tcpIn + before.tcpOut + CountOf(conns, AnyTraffic)
    && (before.allIn == before.tcpIn && before.allOut == before.tcpOut ==>
          after.allIn == after.tcpIn && after.allOut == after.tcpOut)
  }

  /** Counted so far, plus the records that remain, is what was there at the start. */
  predicate Pending(before: Stat, conns: seq<Conn>, s: Stat, rest: seq<Conn>) {
    && Sum(s.states) + CountOf(rest, AnyTcp) == Sum(before.states) + CountOf(conns, AnyTcp)
    && s.tcpIn + s.tcpOut + CountOf(rest, AnyTraffic) == before.tcpIn + before.tcpOut + CountOf(conns, AnyTraffic)
    && (before.allIn == before.tcpIn && before.allOut == before.tcpOut ==> s.allIn == s.tcpIn && s.allOut == s.tcpOut)
  }

  lemma PendingStep(before: Stat, conns: seq<Conn>, s: Stat, rest: seq<Conn>, known: bool)
    requires Pending(before, conns, s, rest) && rest != []
    requires |s.states| == STATES && rest[0].state < STATES
    ensures Pending(before, conns, CountRecord(s, rest[0], known), rest[1..])
  {
    SumUpdate(s.states, rest[0].state, s.states[rest[0].state] + 1);
  }

  /** Nothing is counted twice or lost: states against records, inbound plus outbound against
      the records that are not listeners. */
  lemma CountersConserve(m: Ports, s: Stat, conns: seq<Conn>)
    requires |s.states| == STATES && InRange(conns)
    ensures Conserves(s, conns, WalkStat(m, s, conns))
  {
    WalkConserves(m, s, conns, s, conns);
  }

  lemma {:induction false} WalkConserves(m: Ports, before: Stat, conns: seq<Conn>, s: Stat, rest: seq<Conn>)
    requires |s.states| == STATES && InRange(rest) && Pending(before, conns, s, rest)
    ensures Conserves(before, conns, WalkStat(m, s, rest))
    decreases |rest|
  {
    if rest != [] {
      PendingStep(before, conns, s, rest, rest[0].port in m);
      WalkConserves(VisitPorts(m, rest[0]), before, conns, VisitStat(m, s, rest[0]), rest[1..]);
    }
  }

  // ---------------------------------------------------------------- convergence

  /** With every listener of the records already known, the counters are plain counts. */
  lemma {:induction false} WarmWalk(m: Ports, s: Stat, conns: seq<Conn>)
    requires |s.states| == STATES && InRange(conns) && Listeners(conns) <= m.Keys
    ensures var r := WalkStat(m, s, conns);
            && r.tcpIn == s.tcpIn + CountOf(conns, Inbound(m.Keys))
            && r.tcpOut == s.tcpOut + CountOf(conns, Outbound(m.Keys))
            && forall k :: 0 <= k < STATES ==> r.states[k] == s.states[k] + CountOf(conns, InState(k))
    decreases |conns|
  {
    if conns != [] {
      var c, rest := conns[0], conns[1..];
      var m' := VisitPorts(m, c);
      assert Listens(c) ==> c.port in Listeners(conns);
      assert m'.Keys == m.Keys;
      ListenersStep(conns);
      WarmWalk(m', VisitStat(m, s, c), rest);
    }
  }

  lemma {:induction false} CountWithout(b: seq<Conn>, i: nat, k: Kind)
    requires i < |b|
    ensures CountOf(b, k) == CountOf(b[..i] + b[i + 1..], k) + if Counts(k, b[i]) then 1 else 0
  {
    if i == 0 {
      assert b[..0] + b[1..] == b[1..];
    } else {
      assert (b[..i] + b[i + 1..])[1..] == b[1..][..i - 1] + b[1..][i..];
      CountWithout(b[1..], i - 1, k);
    }
  }

  lemma MultisetWithout(b: seq<Conn>, i: nat)
    requires i < |b|
    ensures multiset(b[..i] + b[i + 1..]) == multiset(b) - multiset{b[i]}
  {
    assert b == b[..i] + [b[i]] + b[i + 1..];
  }

  lemma MultisetTail(a: seq<Conn>)
    requires a != []
    ensures multiset(a[1..]) == multiset(a) - multiset{a[0]}
  {
    assert a == [a[0]] + a[1..];
  }

  /** A count does not depend on the order of the records. */
  lemma {:induction false} CountReordered(a: seq<Conn>, b: seq<Conn>, k: Kind)
    requires multiset(a) == multiset(b)
    ensures CountOf(a, k) == CountOf(b, k)
    decreases |a|
  {
    if a == [] {
      assert |multiset(b)| == 0;
    } else {
      assert a[0] in multiset(b);
      var i :| 0 <= i < |b| && b[i] == a[0];
      MultisetTail(a);
      MultisetWithout(b, i);
      CountReordered(a[1..], b[..i] + b[i + 1..], k);
      CountWithout(b, i, k);
    }
  }

  lemma SameListeners(a: seq<Conn>, b: seq<Conn>)
    requires multiset(a) == multiset(b)
    ensures Listeners(a) == Listeners(b)
  {
    forall p ensures p in Listeners(a) <==> p in Listeners(b) {
      if p in Listeners(a) {
        var i :| 0 <= i < |a| && Listens(a[i]) && a[i].port == p;
        assert a[i] in multiset(b);
      }
      if p in Listeners(b) {
        var i :| 0 <= i < |b| && Listens(b[i]) && b[i].port == p;
        assert b[i] in multiset(a);
      }
    }
  }

  lemma KnownAfterWalk(m: Ports, conns: seq<Conn>)
    ensures WalkPorts(m, conns).Keys == m.Keys + Listeners(conns)
  {
    forall p: nat ensures p in WalkPorts(m, conns).Keys <==> p in m.Keys + Listeners(conns) {
      IndexContent(m, conns, p);
      ListenerSeen(conns, p);
    }
  }

  /** Counters that are plain counts by port and state. */
  ghost predicate Converged(s: Stat, conns: seq<Conn>, known: set<nat>) {
    && s.tcpIn == CountOf(conns, Inbound(known))
    && s.tcpOut == CountOf(conns, Outbound(known))
    && |s.states| == 14 && forall k :: 0 <= k < 14 ==> s.states[k] == CountOf(conns, InState(k))
  }

  /** The second pass over the same records, in any order and from any earlier index, counts as
      inbound exactly the traffic of ports with a recorded listener. */
  lemma SecondPass(m: Ports, first: seq<Conn>, second: seq<Conn>)
    requires InRange(first) && InRange(second) && multiset(first) == multiset(second)
    ensures Converged(WalkStat(WalkPorts(m, first), ZERO, second), first, m.Keys + Listeners(first))
  {
    KnownAfterWalk(m, first);
    SameListeners(first, second);
    WarmWalk(WalkPorts(m, first), ZERO, second);
    CountReordered(second, first, Inbound(m.Keys + Listeners(first)));
    CountReordered(second, first, Outbound(m.Keys + Listeners(first)));
    forall k | 0 <= k < STATES ensures CountOf(second, InState(k)) == CountOf(first, InState(k)) {
      CountReordered(second, first, InState(k));
    }
  }

  // ---------------------------------------------------------------- the first pass

  /** No traffic of a port comes before the first listener of that port, unless it was known. */
  predicate ListenersFirst(m: set<nat>, conns: seq<Conn>)
    decreases |conns|
  {
    conns == [] ||
    (&& (Traffic(conns[0]) ==> conns[0].port in m || conns[0].port !in Listeners(conns[1..]))
     && ListenersFirst(if Listens(conns[0]) then m + {conns[0].port} else m, conns[1..]))
  }

  /** A single pass finds at most the inbound traffic of a warm pass, and all of it exactly when
      the listeners come first. */
  lemma {:induction false} FirstPass(m: Ports, s: Stat, conns: seq<Conn>)
    requires |s.states| == STATES && InRange(conns)
    ensures var known := m.Keys + Listeners(conns);
            var warm := s.tcpIn + CountOf(conns, Inbound(known));
            && WalkStat(m, s, conns).tcpIn <= warm
            && (WalkStat(m, s, conns).tcpIn == warm <==> ListenersFirst(m.Keys, conns))
    decreases |conns|
  {
    if conns != [] {
      var c, rest := conns[0], conns[1..];
      var m' := VisitPorts(m, c);
      var known := m.Keys + Listeners(conns);
      ListenersStep(conns);
      assert Listeners([c]) == (if Listens(c) then {c.port} else {}) by {
        assert Listens(c) ==> [c][0].port in Listeners([c]);
      }
      assert m'.Keys == m.Keys + if Listens(c) then {c.port} else {};
      assert m'.Keys + Listeners(rest) == known;
      FirstPass(m', VisitStat(m, s, c), rest);
    }
  }
}
