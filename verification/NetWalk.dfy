/** The walk over the connection tables: `proc_net_read` on up to six files, all with one getter, which
    fills a list or looks for the server of one port. */
module NetWalk {
  import opened Words
  import opened NetLine

  /** `sysm_net_connection_t`: the fields of a line, and the kind of the file it stands in. */
  datatype Typed = Typed(kind: ConnType, conn: Connection)

  /** The files of a kind, for IPv4 and for IPv6, each with its lines or the errno of opening it. */
  datatype Pair = Pair(v4: Result<seq<string>>, v6: Result<seq<string>>)

  datatype Files = Files(tcp: Pair, udp: Pair, raw: Pair)

  datatype Flags = Flags(client: bool, server: bool, tcp: bool, udp: bool, raw: bool)

  // ---------------------------------------------------------------- what the files hand over

  function WithKind(kind: ConnType, cs: seq<Connection>): (r: seq<Typed>)
    ensures |r| == |cs| && forall i :: 0 <= i < |cs| ==> r[i] == Typed(kind, cs[i])
  {
    seq(|cs|, i requires 0 <= i < |cs| => Typed(kind, cs[i]))
  }

  /** The connections of a file; its first line names the columns. */
  function TableOf(kind: ConnType, lines: seq<string>, flags: Flags): seq<Typed> {
    WithKind(kind, Connections(if lines == [] then [] else lines[1..], flags.client, flags.server))
  }

  /** The tables that a walk hands over one after the other, and its status. */
  datatype Delivery = Delivery(tables: seq<seq<Typed>>, status: nat)

  /** The first file must be there; the second may be missing. */
  function PairDelivery(kind: ConnType, pair: Pair, flags: Flags): Delivery {
    match pair.v4
    case Err(e) => Delivery([], e)
    case Ok(four) =>
      match pair.v6
      case Err(e) => Delivery([TableOf(kind, four, flags)], if e == ENOENT then 0 else e)
      case Ok(six) => Delivery([TableOf(kind, four, flags), TableOf(kind, six, flags)], 0)
  }

  /** A kind that is asked for is read unless an earlier one failed. */
  function Next(d: Delivery, asked: bool, kind: ConnType, pair: Pair, flags: Flags): Delivery {
    if !asked || d.status != 0 then d
    else
      var more := PairDelivery(kind, pair, flags);
      Delivery(d.tables + more.tables, more.status)
  }

  function Deliver(files: Files, flags: Flags): Delivery {
    var tcp := Next(Delivery([], 0), flags.tcp, Tcp, files.tcp, flags);
    var udp := Next(tcp, flags.udp, Udp, files.udp, flags);
    Next(udp, flags.raw, Raw, files.raw, flags)
  }

  function Concat<T>(tables: seq<seq<T>>): seq<T> {
    if tables == [] then [] else tables[0] + Concat(tables[1..])
  }

  lemma ConcatTwo<T>(t: seq<T>, u: seq<T>)
    ensures Concat([t]) == t && Concat([t, u]) == t + u
  {
    assert [t][1..] == [] && [t, u][1..] == [u] && [u][1..] == [];
    assert Concat([t]) == t + [] && Concat([u]) == u + [];
  }

  // ---------------------------------------------------------------- the server of a port

  predicate IsServer(t: Typed, port: nat) {
    t.conn.loPort == port && t.conn.rePort == 0
  }

  function FirstServer(table: seq<Typed>, port: nat): (r: Option<Typed>)
    ensures r.Some? ==> r.value in table && IsServer(r.value, port)
  {
    if table == [] then None
    else if IsServer(table[0], port) then Some(table[0])
    else FirstServer(table[1..], port)
  }

  /** A match ends one file, and the next file is read all the same. */
  function Search(was: Option<Typed>, tables: seq<seq<Typed>>, port: nat): Option<Typed>
    decreases |tables|
  {
    if tables == [] then was
    else
      var found := FirstServer(tables[0], port);
      Search(if found.Some? then found else was, tables[1..], port)
  }

  predicate FirstMatch(tables: seq<seq<Typed>>, port: nat, i: nat) {
    i < |tables| && FirstServer(tables[i], port).Some? && forall k :: 0 <= k < i ==> FirstServer(tables[k], port).None?
  }

  predicate LastMatch(tables: seq<seq<Typed>>, port: nat, i: nat) {
    i < |tables| && FirstServer(tables[i], port).Some? && forall k :: i < k < |tables| ==> FirstServer(tables[k], port).None?
  }

  /** The last file with a match wins. */
  lemma {:induction false} LastFileWins(was: Option<Typed>, tables: seq<seq<Typed>>, port: nat)
    ensures (forall i :: 0 <= i < |tables| ==> FirstServer(tables[i], port).None?) ==> Search(was, tables, port) == was
    ensures forall i: nat :: LastMatch(tables, port, i) ==> Search(was, tables, port) == FirstServer(tables[i], port)
    decreases |tables|
  {
    if tables != [] {
      var found := FirstServer(tables[0], port);
      var next := if found.Some? then found else was;
      LastFileWins(next, tables[1..], port);
      assert forall k :: 0 <= k < |tables| - 1 ==> tables[1..][k] == tables[k + 1];
      forall i: nat | LastMatch(tables, port, i) ensures Search(was, tables, port) == FirstServer(tables[i], port) {
        if i > 0 {
          assert LastMatch(tables[1..], port, i - 1);
        }
      }
    }
  }

  lemma {:induction false} ServerOver(a: seq<Typed>, b: seq<Typed>, port: nat)
    ensures FirstServer(a + b, port) == if FirstServer(a, port).Some? then FirstServer(a, port) else FirstServer(b, port)
  {
    if a == [] {
      assert a + b == b;
    } else {
      assert (a + b)[1..] == a[1..] + b;
      ServerOver(a[1..], b, port);
    }
  }

  /** Of all records together, the first match is that of the first file with one. */
  lemma {:induction false} FirstOfAll(tables: seq<seq<Typed>>, port: nat)
    ensures (forall i :: 0 <= i < |tables| ==> FirstServer(tables[i], port).None?) ==> FirstServer(Concat(tables), port) == None
    ensures forall i: nat :: FirstMatch(tables, port, i) ==> FirstServer(Concat(tables), port) == FirstServer(tables[i], port)
    decreases |tables|
  {
    if tables != [] {
      ServerOver(tables[0], Concat(tables[1..]), port);
      FirstOfAll(tables[1..], port);
      assert forall k :: 0 <= k < |tables| - 1 ==> tables[1..][k] == tables[k + 1];
      forall i: nat | FirstMatch(tables, port, i) ensures FirstServer(Concat(tables), port) == FirstServer(tables[i], port) {
        if i > 0 {
          assert FirstMatch(tables[1..], port, i - 1);
        }
      }
    }
  }

  lemma {:induction false} FirstAndLastMatch(tables: seq<seq<Typed>>, port: nat) returns (i: nat, j: nat)
    requires exists k :: 0 <= k < |tables| && FirstServer(tables[k], port).Some?
    ensures FirstMatch(tables, port, i) && LastMatch(tables, port, j)
  {
    i := 0;
    while FirstServer(tables[i], port).None?
      invariant i < |tables| && forall k :: 0 <= k < i ==> FirstServer(tables[k], port).None?
      decreases |tables| - i
    {
      i := i + 1;
    }
    j := |tables| - 1;
    while FirstServer(tables[j], port).None?
      invariant i <= j < |tables| && forall k :: j < k < |tables| ==> FirstServer(tables[k], port).None?
      decreases j
    {
      j := j - 1;
    }
  }

  /** What the search finds is the first server of all the records exactly when the first and the last
      file with a match have the same one. */
  lemma SearchExact(tables: seq<seq<Typed>>, port: nat)
    ensures Search(None, tables, port) == FirstServer(Concat(tables), port) <==>
              forall i: nat, j: nat :: FirstMatch(tables, port, i) && LastMatch(tables, port, j) ==>
                FirstServer(tables[i], port) == FirstServer(tables[j], port)
  {
    LastFileWins(None, tables, port);
    FirstOfAll(tables, port);
    if exists k :: 0 <= k < |tables| && FirstServer(tables[k], port).Some? {
      var i, j := FirstAndLastMatch(tables, port);
    }
  }

  lemma SearchTwo(was: Option<Typed>, t: seq<Typed>, u: seq<Typed>, port: nat)
    ensures var a, b := FirstServer(t, port), FirstServer(u, port);
            && Search(was, [t], port) == (if a.Some? then a else was)
            && Search(was, [t, u], port) == if b.Some? then b else if a.Some? then a else was
  {
    var a, b := FirstServer(t, port), FirstServer(u, port);
    var next := if a.Some? then a else was;
    assert [t][1..] == [] && [t, u][1..] == [u] && [u][1..] == [];
    assert Search(was, [t], port) == Search(next, [], port);
    assert Search(was, [t, u], port) == Search(next, [u], port);
    assert Search(next, [u], port) == Search(if b.Some? then b else next, [], port);
  }

  /** For the two files of a kind. */
  lemma TwoFilesExact(four: seq<Typed>, six: seq<Typed>, port: nat)
    ensures var a, b := FirstServer(four, port), FirstServer(six, port);
            && Search(None, [four, six], port) == (if b.Some? then b else a)
            && (Search(None, [four, six], port) == FirstServer(four + six, port) <==> a.None? || b.None? || a == b)
  {
    ServerOver(four, six, port);
    SearchTwo(None, four, six, port);
  }

  /** A port that listens on IPv4 and on IPv6: it is the second row that is found. */
  lemma DualStack()
    ensures var four := Typed(Tcp, Connection(80, Address(Inet, [0]), 0, Address(Inet, [0]), 10, 0, 0, 0, 1));
            var six := Typed(Tcp, Connection(80, Address(Inet6, [0, 0, 0, 0]), 0, Address(Inet6, [0, 0, 0, 0]), 10, 0, 0, 0, 2));
            && Search(None, [[four], [six]], 80) == Some(six)
            && FirstServer(Concat([[four], [six]]), 80) == Some(four)
  {
    var four := Typed(Tcp, Connection(80, Address(Inet, [0]), 0, Address(Inet, [0]), 10, 0, 0, 0, 1));
    var six := Typed(Tcp, Connection(80, Address(Inet6, [0, 0, 0, 0]), 0, Address(Inet6, [0, 0, 0, 0]), 10, 0, 0, 0, 2));
    TwoFilesExact([four], [six], 80);
    ConcatTwo([four], [six]);
    assert ([four] + [six])[0] == four;
  }

  lemma {:induction false} SearchOver(was: Option<Typed>, a: seq<seq<Typed>>, b: seq<seq<Typed>>, port: nat)
    ensures Search(was, a + b, port) == Search(Search(was, a, port), b, port)
    decreases |a|
  {
    if a == [] {
      assert a + b == b;
    } else {
      var found := FirstServer(a[0], port);
      assert (a + b)[1..] == a[1..] + b;
      SearchOver(if found.Some? then found else was, a[1..], b, port);
    }
  }

  lemma {:induction false} ConcatOver<T>(a: seq<seq<T>>, b: seq<seq<T>>)
    ensures Concat(a + b) == Concat(a) + Concat(b)
  {
    if a == [] {
      assert a + b == b;
    } else {
      assert (a + b)[1..] == a[1..] + b;
      ConcatOver(a[1..], b);
    }
  }

  // ---------------------------------------------------------------- the getter

  datatype Gathered = Gathered(list: seq<Typed>, conn: Option<Typed>)

  /** What some tables make of a list, or of a search. */
  function Fed(port: Option<nat>, g: Gathered, tables: seq<seq<Typed>>): Gathered {
    if port.None? then g.(list := g.list + Concat(tables)) else g.(conn := Search(g.conn, tables, port.value))
  }

  lemma FedOver(port: Option<nat>, g: Gathered, a: seq<seq<Typed>>, b: seq<seq<Typed>>)
    ensures Fed(port, g, a + b) == Fed(port, Fed(port, g, a), b)
  {
    ConcatOver(a, b);
    if port.Some? {
      SearchOver(g.conn, a, b, port.value);
    } else {
      assert g.list + Concat(a + b) == g.list + Concat(a) + Concat(b);
    }
  }

  lemma FedOne(port: Option<nat>, g: Gathered, t: seq<Typed>)
    ensures Fed(port, g, []) == g
    ensures Fed(port, g, [t]) == if port.None? then g.(list := g.list + t)
                                 else
                                   var found := FirstServer(t, port.value);
                                   if found.Some? then g.(conn := found) else g
  {
    if port.None? {
      ConcatTwo(t, t);
      assert g.list + Concat([]) == g.list;
    } else {
      SearchTwo(g.conn, t, t, port.value);
    }
  }

  /** `net_conn_getter_t`: either a list is filled or the server of one port is looked for. */
  class Getter {
    const port: Option<nat>
    var list: seq<Typed>
    var conn: Option<Typed>

    ghost function Value(): Gathered
      reads this
    {
      Gathered(list, conn)
    }

    constructor (port: Option<nat>)
      ensures this.port == port && Value() == Gathered([], None)
    {
      this.port := port;
      list, conn := [], None;
    }

    /** `proc_net_walker`. */
    method Visit(c: Typed) returns (more: bool)
      modifies this
      ensures port.None? ==> more && list == old(list) + [c] && conn == old(conn)
      ensures port.Some? ==> list == old(list) && more == !IsServer(c, port.value)
                             && conn == if more then old(conn) else Some(c)
    {
      if port.None? {
        list := list + [c];
        return true;
      }
      if port.value == c.conn.loPort && c.conn.rePort == 0 {
        conn := Some(c);
        return false;
      }
      return true;
    }

  }

  /** What the reading of a file still owes. */
  ghost predicate Owes(ahead: seq<Typed>, all: seq<Typed>, port: Option<nat>, before: seq<Typed>, list: seq<Typed>) {
    && (port.None? ==> list + ahead == before + all)
    && (port.Some? ==> list == before && FirstServer(ahead, port.value) == FirstServer(all, port.value))
  }

  lemma OwesStep(c: Typed, ahead: seq<Typed>, all: seq<Typed>, port: Option<nat>, before: seq<Typed>, list: seq<Typed>)
    requires Owes([c] + ahead, all, port, before, list)
    ensures port.None? ==> Owes(ahead, all, port, before, list + [c])
    ensures port.Some? ==> if IsServer(c, port.value) then FirstServer(all, port.value) == Some(c)
                           else Owes(ahead, all, port, before, list)
  {
    assert ([c] + ahead)[0] == c && ([c] + ahead)[1..] == ahead;
    assert list + [c] + ahead == list + ([c] + ahead);
  }

  /** The records on some lines of a file. */
  function Body(kind: ConnType, lines: seq<string>, flags: Flags): seq<Typed> {
    WithKind(kind, Connections(lines, flags.client, flags.server))
  }

  lemma BodyStep(kind: ConnType, lines: seq<string>, flags: Flags)
    requires lines != []
    ensures var c := ReadLine(lines[0], flags.client, flags.server);
            Body(kind, lines, flags)
            == if c.None? then Body(kind, lines[1..], flags) else [Typed(kind, c.value)] + Body(kind, lines[1..], flags)
  {
    var c := ReadLine(lines[0], flags.client, flags.server);
    KindOver(kind, c, Connections(lines[1..], flags.client, flags.server));
  }

  lemma KindOver(kind: ConnType, c: Option<Connection>, rest: seq<Connection>)
    ensures WithKind(kind, Listing(c) + rest)
         == if c.None? then WithKind(kind, rest) else [Typed(kind, c.value)] + WithKind(kind, rest)
  {
    assert c.None? ==> Listing(c) + rest == rest;
  }

  /** `proc_net_read`: it opens the file, skips the first line and reads until the walker stops it. A
      getter that has been through other files goes on where it was. */
  method NetRead(file: Result<seq<string>>, kind: ConnType, flags: Flags, getter: Getter) returns (status: nat)
    modifies getter
    ensures match file
            case Err(e) => status == e && getter.Value() == old(getter.Value())
            case Ok(lines) => status == 0 && getter.Value() == Fed(getter.port, old(getter.Value()), [TableOf(kind, lines, flags)])
  {
    if file.Err? {
      return file.errno;
    }
    status := 0;
    var rest := if file.value == [] then [] else file.value[1..];
    ghost var all := Body(kind, rest, flags);
    FedOne(getter.port, getter.Value(), all);
    while rest != []
      invariant Owes(Body(kind, rest, flags), all, getter.port, old(getter.list), getter.list)
      invariant getter.conn == old(getter.conn)
    {
      BodyStep(kind, rest, flags);
      var c := ParseLine(rest[0], flags.client, flags.server);
      rest := rest[1..];
      if c.Some? {
        OwesStep(Typed(kind, c.value), Body(kind, rest, flags), all, getter.port, old(getter.list), getter.list);
        var more := getter.Visit(Typed(kind, c.value));
        if !more {
          return;
        }
      }
    }
  }

  // ---------------------------------------------------------------- the walk

  lemma FedTwo(port: Option<nat>, g: Gathered, t: seq<Typed>, u: seq<Typed>)
    ensures Fed(port, Fed(port, g, [t]), [u]) == Fed(port, g, [t, u])
  {
    FedOver(port, g, [t], [u]);
    assert [t] + [u] == [t, u];
  }

  /** The two files of a kind. */
  method PairRead(kind: ConnType, pair: Pair, flags: Flags, getter: Getter) returns (status: nat)
    modifies getter
    ensures var d := PairDelivery(kind, pair, flags);
            status == d.status && getter.Value() == Fed(getter.port, old(getter.Value()), d.tables)
  {
    ghost var g := getter.Value();
    FedOne(getter.port, g, []);
    status := NetRead(pair.v4, kind, flags, getter);
    if status != 0 {
      return;
    }
    status := NetRead(pair.v6, kind, flags, getter);
    if pair.v6.Ok? {
      FedTwo(getter.port, g, TableOf(kind, pair.v4.value, flags), TableOf(kind, pair.v6.value, flags));
    }
    if status == ENOENT {
      status := 0;
    }
  }

  /** A kind that is asked for, behind those that were read. */
  method ReadNext(asked: bool, kind: ConnType, pair: Pair, flags: Flags, getter: Getter, ghost g: Gathered, ghost d: Delivery)
    returns (status: nat)
    requires d.status == 0 && getter.Value() == Fed(getter.port, g, d.tables)
    modifies getter
    ensures var n := Next(d, asked, kind, pair, flags);
            status == n.status && getter.Value() == Fed(getter.port, g, n.tables)
  {
    status := 0;
    if asked {
      FedOver(getter.port, g, d.tables, PairDelivery(kind, pair, flags).tables);
      status := PairRead(kind, pair, flags, getter);
    }
  }

  /** `sysm_net_connection_walk`: the files of the kinds asked for, until one fails. */
  method Walk(files: Files, flags: Flags, getter: Getter) returns (status: nat)
    modifies getter
    ensures var d := Deliver(files, flags);
            status == d.status && getter.Value() == Fed(getter.port, old(getter.Value()), d.tables)
  {
    ghost var g, none := getter.Value(), Delivery([], 0);
    FedOne(getter.port, g, []);
    status := ReadNext(flags.tcp, Tcp, files.tcp, flags, getter, g, none);
    if status != 0 {
      return;
    }
    ghost var tcp := Next(none, flags.tcp, Tcp, files.tcp, flags);
    status := ReadNext(flags.udp, Udp, files.udp, flags, getter, g, tcp);
    if status != 0 {
      return;
    }
    status := ReadNext(flags.raw, Raw, files.raw, flags, getter, g, Next(tcp, flags.udp, Udp, files.udp, flags));
  }

  /** `sysm_net_connection_get`: the match of the last file that has one; without any, the buffer of the
      caller keeps what it held and the status is still 0. */
  method ConnectionGet(files: Files, flags: Flags, port: nat, buffer: Typed) returns (status: nat, conn: Typed)
    ensures var d := Deliver(files, flags);
            var found := Search(None, d.tables, port);
            status == d.status && conn == if found.Some? then found.value else buffer
  {
    var getter := new Getter(Some(port));
    status := Walk(files, flags, getter);
    conn := if getter.conn.Some? then getter.conn.value else buffer;
  }

  /** `sysm_net_connection_list_get`: the connections of all files, or none if the walk fails. */
  method ConnectionListGet(files: Files, flags: Flags) returns (status: nat, list: seq<Typed>)
    ensures var d := Deliver(files, flags);
            status == d.status && list == if status == 0 then Concat(d.tables) else []
  {
    var getter := new Getter(None);
    status := Walk(files, flags, getter);
    list := if status == 0 then getter.list else [];
  }

  // ---------------------------------------------------------------- printed files

  /** A file as the kernel prints it: a line that names the columns, then one for each row. */
  datatype Printing = Printing(header: string, rows: seq<Row>, layouts: seq<Layout>)

  predicate IsPrinting(p: Printing) {
    |p.layouts| == |p.rows| && forall i :: 0 <= i < |p.rows| ==> IsRow(p.rows[i]) && IsLayout(p.layouts[i])
  }

  function FileOf(p: Printing): Result<seq<string>>
    requires IsPrinting(p)
  {
    Ok([p.header] + LinesOf(p.rows, p.layouts))
  }

  function Expected(kind: ConnType, p: Printing, flags: Flags): seq<Typed> {
    WithKind(kind, Asked(p.rows, flags.client, flags.server))
  }

  lemma FileRoundTrip(kind: ConnType, p: Printing, flags: Flags)
    requires IsPrinting(p)
    ensures TableOf(kind, FileOf(p).value, flags) == Expected(kind, p, flags)
  {
    TableRoundTrip(p.rows, p.layouts, flags.client, flags.server);
    assert FileOf(p).value[1..] == LinesOf(p.rows, p.layouts);
  }

  /** A printed server of the port: a row with that local port and without a remote one. */
  predicate ServerRow(r: Row, port: nat) {
    r.loPort == port && r.rePort == 0
  }

  lemma {:induction false} FirstServerRow(kind: ConnType, rows: seq<Row>, client: bool, port: nat, i: nat)
    requires i <= |rows| && (forall k :: 0 <= k < i ==> !ServerRow(rows[k], port)) && (i < |rows| ==> ServerRow(rows[i], port))
    ensures FirstServer(WithKind(kind, Asked(rows, client, true)), port)
         == if i == |rows| then None else Some(Typed(kind, ConnectionOf(rows[i])))
  {
    if rows != [] {
      var rest := Asked(rows[1..], client, true);
      if client || rows[0].rePort == 0 {
        assert Asked(rows, client, true) == [ConnectionOf(rows[0])] + rest;
        assert WithKind(kind, Asked(rows, client, true))[1..] == WithKind(kind, rest);
      } else {
        assert Asked(rows, client, true) == rest;
      }
      if i > 0 {
        assert forall k :: 0 <= k < i - 1 ==> rows[1..][k] == rows[k + 1];
        FirstServerRow(kind, rows[1..], client, port, i - 1);
      }
    } else {
      assert WithKind(kind, Asked(rows, client, true)) == [];
    }
  }

  /** With the server flag a search in a printed file finds its first server row of the port, whatever the
      client flag says, and nothing if it has none. */
  lemma ServerFound(kind: ConnType, p: Printing, flags: Flags, port: nat, i: nat)
    requires IsPrinting(p) && flags.server && i <= |p.rows|
    requires (forall k :: 0 <= k < i ==> !ServerRow(p.rows[k], port)) && (i < |p.rows| ==> ServerRow(p.rows[i], port))
    ensures FirstServer(TableOf(kind, FileOf(p).value, flags), port)
         == if i == |p.rows| then None else Some(Typed(kind, ConnectionOf(p.rows[i])))
  {
    FileRoundTrip(kind, p, flags);
    FirstServerRow(kind, p.rows, flags.client, port, i);
  }

  /** The rows of the two files of a kind that is asked for. */
  function ExpectedPair(asked: bool, kind: ConnType, four: Printing, six: Printing, flags: Flags): seq<Typed> {
    if asked then Expected(kind, four, flags) + Expected(kind, six, flags) else []
  }

  lemma PrintedNext(d: Delivery, asked: bool, kind: ConnType, four: Printing, six: Printing, flags: Flags)
    requires d.status == 0 && IsPrinting(four) && IsPrinting(six)
    ensures var n := Next(d, asked, kind, Pair(FileOf(four), FileOf(six)), flags);
            n.status == 0 && Concat(n.tables) == Concat(d.tables) + ExpectedPair(asked, kind, four, six, flags)
  {
    if asked {
      FileRoundTrip(kind, four, flags);
      FileRoundTrip(kind, six, flags);
      var t, u := Expected(kind, four, flags), Expected(kind, six, flags);
      ConcatOver(d.tables, [t, u]);
      ConcatTwo(t, u);
    }
  }

  /** A file for IPv6 that is not there is no error; any other failure of it is, and so is every failure of the
      file for IPv4. What was read before stays in the list of the walk. */
  lemma MissingFile(kind: ConnType, four: Printing, errno: Errno, flags: Flags)
    requires IsPrinting(four)
    ensures var d := PairDelivery(kind, Pair(FileOf(four), Err(errno)), flags);
            Concat(d.tables) == Expected(kind, four, flags) && d.status == if errno == 2 then 0 else errno
    ensures forall six :: PairDelivery(kind, Pair(Err(errno), six), flags) == Delivery([], errno)
  {
    FileRoundTrip(kind, four, flags);
    ConcatTwo(Expected(kind, four, flags), []);
  }

  /** The error of the two files of a kind, 0 for none. */
  function Failure(pair: Pair): nat {
    if pair.v4.Err? then pair.v4.errno
    else if pair.v6.Err? && pair.v6.errno != 2 then pair.v6.errno
    else 0
  }

  lemma FailureOfPair(kind: ConnType, pair: Pair, flags: Flags)
    ensures PairDelivery(kind, pair, flags).status == Failure(pair)
    ensures forall u: bool, r: bool ::
              PairDelivery(kind, pair, flags.(udp := u, raw := r)) == PairDelivery(kind, pair, flags)
  {
  }

  /** The status of a walk is the error of the first kind that is asked for and fails, and a kind behind it is
      not read. */
  lemma FirstFailure(files: Files, flags: Flags)
    ensures var d := Deliver(files, flags);
            var tcp, udp := flags.tcp && Failure(files.tcp) != 0, flags.udp && Failure(files.udp) != 0;
            && d.status == (if tcp then Failure(files.tcp) else if udp then Failure(files.udp)
                            else if flags.raw then Failure(files.raw) else 0)
            && (tcp ==> d == Deliver(files, flags.(udp := false, raw := false)))
            && (udp ==> d == Deliver(files, flags.(raw := false)))
  {
    FailureOfPair(Tcp, files.tcp, flags);
    FailureOfPair(Udp, files.udp, flags);
    FailureOfPair(Raw, files.raw, flags);
    if flags.tcp && Failure(files.tcp) != 0 {
      FailureOfPair(Tcp, files.tcp, flags.(udp := false, raw := false));
    }
  }

  /** The list of printed files is their rows of the kinds asked for, file by file and in order. */
  lemma ListRoundTrip(tcp4: Printing, tcp6: Printing, udp4: Printing, udp6: Printing, raw4: Printing, raw6: Printing, flags: Flags)
    requires IsPrinting(tcp4) && IsPrinting(tcp6) && IsPrinting(udp4) && IsPrinting(udp6) && IsPrinting(raw4) && IsPrinting(raw6)
    ensures var d := Deliver(Files(Pair(FileOf(tcp4), FileOf(tcp6)), Pair(FileOf(udp4), FileOf(udp6)), Pair(FileOf(raw4), FileOf(raw6))), flags);
            && d.status == 0
            && Concat(d.tables) == ExpectedPair(flags.tcp, Tcp, tcp4, tcp6, flags) + ExpectedPair(flags.udp, Udp, udp4, udp6, flags)
                                   + ExpectedPair(flags.raw, Raw, raw4, raw6, flags)
  {
    var none := Delivery([], 0);
    PrintedNext(none, flags.tcp, Tcp, tcp4, tcp6, flags);
    var dt := Next(none, flags.tcp, Tcp, Pair(FileOf(tcp4), FileOf(tcp6)), flags);
    PrintedNext(dt, flags.udp, Udp, udp4, udp6, flags);
    var du := Next(dt, flags.udp, Udp, Pair(FileOf(udp4), FileOf(udp6)), flags);
    PrintedNext(du, flags.raw, Raw, raw4, raw6, flags);
    assert Concat<Typed>([]) + ExpectedPair(flags.tcp, Tcp, tcp4, tcp6, flags) == ExpectedPair(flags.tcp, Tcp, tcp4, tcp6, flags);
  }
}
