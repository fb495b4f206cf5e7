/** From the text of a connection table to the records that the counters see. */
module NetRecords {
  import opened Words
  import opened HexText
  import opened NetLine
  import opened NetWalk
  import opened NetStat

  /** What `net_stat_walker` reads of a connection. */
  function RecordOf(t: Typed): Conn {
    Conn(t.kind, t.conn.state, t.conn.loPort, t.conn.loAddress)
  }

  function Records(ts: seq<Typed>): (r: seq<Conn>)
    ensures |r| == |ts| && forall i :: 0 <= i < |ts| ==> r[i] == RecordOf(ts[i])
  {
    seq(|ts|, i requires 0 <= i < |ts| => RecordOf(ts[i]))
  }

  const BOTH: Flags := Flags(true, true, true, true, true)

  /** The records of a printed table, listed with both flags. */
  function Printed(kind: ConnType, p: Printing): seq<Conn>
    requires IsPrinting(p)
  {
    Records(TableOf(kind, FileOf(p).value, BOTH))
  }

  /** They are its rows. */
  lemma PrintedRecords(kind: ConnType, p: Printing)
    requires IsPrinting(p)
    ensures |Printed(kind, p)| == |p.rows|
    ensures forall i :: 0 <= i < |p.rows| ==>
              Printed(kind, p)[i] == Conn(kind, p.rows[i].state, p.rows[i].loPort, p.rows[i].loAddress)
  {
    FileRoundTrip(kind, p, BOTH);
    AskedExact(p.rows);
  }

  /** The kernel prints the state of a listening socket as 0A. */
  lemma ListenCode()
    ensures HexWord("0A") == LISTEN == 10
  {
    assert Hex(10, 2, true) == "0A" by {
      assert Hex(0, 1, true) == [HexChar(0, true)];
      assert Hex(10, 2, true) == Hex(0, 1, true) + [HexChar(10, true)];
    }
    assert Pow16(2) == 256;
    HexRoundTrip(10, 2, true);
  }

  /** The ports that a printed table shows listening are those of its rows in state 0A. */
  lemma PrintedListeners(p: Printing, port: nat)
    requires IsPrinting(p)
    ensures port in Listeners(Printed(Tcp, p)) <==> exists i :: 0 <= i < |p.rows| && p.rows[i].state == 0x0A && p.rows[i].loPort == port
  {
    PrintedRecords(Tcp, p);
    var cs := Printed(Tcp, p);
    if port in Listeners(cs) {
      var i :| 0 <= i < |cs| && Listens(cs[i]) && cs[i].port == port;
      assert p.rows[i].state == 0x0A;
    }
    if exists i :: 0 <= i < |p.rows| && p.rows[i].state == 0x0A && p.rows[i].loPort == port {
      var i :| 0 <= i < |p.rows| && p.rows[i].state == 0x0A && p.rows[i].loPort == port;
      assert Listens(cs[i]) && cs[i].port == port;
    }
  }

  /** Records of no TCP connection are neither listeners nor traffic, whatever their state. */
  lemma {:induction false} NotTcp(m: Ports, s: Stat, cs: seq<Conn>)
    requires |s.states| == 14 && InRange(cs) && forall i :: 0 <= i < |cs| ==> cs[i].kind != Tcp
    ensures WalkPorts(m, cs) == m && Listeners(cs) == {}
    ensures var r := WalkStat(m, s, cs);
            r.states == s.states && r.tcpIn == s.tcpIn && r.tcpOut == s.tcpOut
    decreases |cs|
  {
    if cs != [] {
      assert InRange(cs[1..]);
      NotTcp(m, VisitStat(m, s, cs[0]), cs[1..]);
    }
  }

  /** The tables of UDP and of raw sockets count for nothing. */
  lemma PrintedOther(kind: ConnType, p: Printing, m: Ports, s: Stat)
    requires IsPrinting(p) && kind != Tcp && |s.states| == 14 && forall i :: 0 <= i < |p.rows| ==> p.rows[i].state < 14
    ensures InRange(Printed(kind, p)) && WalkPorts(m, Printed(kind, p)) == m
    ensures var r := WalkStat(m, s, Printed(kind, p));
            r.states == s.states && r.tcpIn == s.tcpIn && r.tcpOut == s.tcpOut
  {
    PrintedInRange(kind, p);
    PrintedRecords(kind, p);
    NotTcp(m, s, Printed(kind, p));
  }

  /** Rows in any other state whose local port is among `ports`, or is not. */
  function TrafficRows(rows: seq<Row>, ports: set<nat>, inside: bool): nat {
    if rows == [] then 0
    else (if rows[0].state != 0x0A && (rows[0].loPort in ports) == inside then 1 else 0) + TrafficRows(rows[1..], ports, inside)
  }

  lemma {:induction false} TrafficOf(cs: seq<Conn>, rows: seq<Row>, ports: set<nat>)
    requires |cs| == |rows|
    requires forall i :: 0 <= i < |rows| ==> cs[i] == Conn(Tcp, rows[i].state, rows[i].loPort, rows[i].loAddress)
    ensures CountOf(cs, Inbound(ports)) == TrafficRows(rows, ports, true)
    ensures CountOf(cs, Outbound(ports)) == TrafficRows(rows, ports, false)
  {
    if rows != [] {
      TrafficOf(cs[1..], rows[1..], ports);
    }
  }

  lemma PrintedInRange(kind: ConnType, p: Printing)
    requires IsPrinting(p) && forall i :: 0 <= i < |p.rows| ==> p.rows[i].state < 14
    ensures InRange(Printed(kind, p))
  {
    PrintedRecords(kind, p);
    var cs := Printed(kind, p);
    forall c | c in cs ensures c.state < 14 {
      var i :| 0 <= i < |cs| && cs[i] == c;
    }
  }

  lemma LearnedTraffic(cs: seq<Conn>)
    requires InRange(cs)
    ensures Converged(WalkStat(WalkPorts(map[], cs), ZERO, cs), cs, Listeners(cs))
  {
    var none: Ports := map[];
    SecondPass(none, cs, cs);
    assert none.Keys + Listeners(cs) == Listeners(cs);
  }

  /** A second look at a printed table: inbound are the rows not in state 0A whose local port was seen
      listening, outbound the other rows not in that state. */
  lemma PrintedTwice(p: Printing)
    requires IsPrinting(p) && forall i :: 0 <= i < |p.rows| ==> p.rows[i].state < 14
    ensures InRange(Printed(Tcp, p))
    ensures var s := WalkStat(WalkPorts(map[], Printed(Tcp, p)), ZERO, Printed(Tcp, p));
            && s.tcpIn == TrafficRows(p.rows, Listeners(Printed(Tcp, p)), true)
            && s.tcpOut == TrafficRows(p.rows, Listeners(Printed(Tcp, p)), false)
  {
    PrintedRecords(Tcp, p);
    PrintedInRange(Tcp, p);
    LearnedTraffic(Printed(Tcp, p));
    TrafficOf(Printed(Tcp, p), p.rows, Listeners(Printed(Tcp, p)));
  }
}
