/** The lines of `/proc/net/tcp`, as `proc_net_read` takes them apart. */
module NetLine {
  import opened Words
  import opened Text
  import opened HexText

  // ---------------------------------------------------------------- the pointer macros

  /** `SKIP_WHILE`. */
  function SkipWhile(p: string, c: char): (r: string)
    ensures r == [] || r[0] != c
  {
    if p != [] && p[0] == c then SkipWhile(p[1..], c) else p
  }

  /** `SKIP_PAST`. */
  function SkipPast(p: string, c: char): string {
    SkipWhile(p[LenTo(p, c)..], c)
  }

  method SkipWhileFrom(s: string, c: char) returns (p: string)
    ensures p == SkipWhile(s, c)
  {
    p := s;
    while p != [] && p[0] == c
      invariant SkipWhile(p, c) == SkipWhile(s, c)
    {
      p := p[1..];
    }
  }

  method TakeTo(s: string, c: char) returns (len: nat, p: string)
    ensures len == LenTo(s, c) && p == s[len..]
  {
    len, p := 0, s;
    while p != [] && p[0] != c
      invariant len <= |s| && p == s[len..] && len + LenTo(p, c) == LenTo(s, c)
    {
      assert p[1..] == s[len + 1..];
      len, p := len + 1, p[1..];
    }
  }

  method SkipPastFrom(s: string, c: char) returns (p: string)
    ensures p == SkipPast(s, c)
  {
    var _, q := TakeTo(s, c);
    p := SkipWhileFrom(q, c);
  }

  // ---------------------------------------------------------------- one line

  function HexDigits(s: string): (n: nat)
    ensures n <= |s| && AllHex(s[..n]) && (n < |s| ==> !IsHex(s[n]))
  {
    if s == [] || !IsHex(s[0]) then 0
    else
      var n := HexDigits(s[1..]);
      assert s[..n + 1] == [s[0]] + s[1..][..n];
      n + 1
  }

  /** `strtoul(s, &s, 16)`, which allows a `0x` before the digits. */
  function StrToUl16(s: string): (nat, string) {
    var t := SkipSpace(s);
    var minus := t != [] && t[0] == '-';
    var u := if t != [] && (t[0] == '-' || t[0] == '+') then t[1..] else t;
    var d := if |u| > 2 && u[0] == '0' && (u[1] == 'x' || u[1] == 'X') && IsHex(u[2]) then u[2..] else u;
    var n := HexDigits(d);
    if n == 0 then (0, s)
    else
      var v := BaseFrom(d[..n], 0);
      (if v >= TWO64 then TWO64 - 1 else if minus then (TWO64 - v) % TWO64 else v, d[n..])
  }

  /** `sysm_net_connection_t` without its type, which is a parameter of the walk. */
  datatype Connection = Connection(loPort: nat, loAddress: Address, rePort: nat, reAddress: Address,
                                   state: nat, seQ: nat, reQ: nat, uid: int, inode: nat)

  predicate Wanted(rePort: nat, client: bool, server: bool) {
    (rePort != 0 && client) || (rePort == 0 && server)
  }

  function Before(p: string, n: nat): string {
    if n <= |p| then p[..n] else p
  }

  function After(p: string, n: nat): string {
    if n <= |p| then p[n..] else []
  }

  function AddressAt(p: string, len: nat): Address {
    if LongEnough(p, len) then AddressOf(p, len) else Address(Inet, [0])
  }

  /** An address, a colon and a port. */
  function ReadEnd(p: string): (Address, nat, string) {
    var len := LenTo(p, ':');
    var (port, q) := StrToUl16(SkipWhile(p[len..], ':'));
    (AddressAt(p, len), port % 0x1_0000, SkipWhile(q, ' '))
  }

  /** State, queues, uid and inode. */
  function ReadRest(p: string): (nat, nat, nat, int, nat) {
    var tx := SkipWhile(After(p, 2), ' ');
    var rx := After(tx, HEX_ENT_LEN + 1);
    var timers := SkipWhile(After(rx, HEX_ENT_LEN), ' ');
    var (uid, q) := StrToUl(SkipPast(SkipPast(timers, ' '), ' '));
    var (inode, _) := StrToUl(SkipPast(SkipWhile(q, ' '), ' '));
    (HexWord(Before(p, 2)), HexWord(Before(tx, HEX_ENT_LEN)), HexWord(Before(rx, HEX_ENT_LEN)), ToInt(uid), inode)
  }

  /** The connection on one line, unless the flags leave it out. */
  function ReadLine(line: string, client: bool, server: bool): Option<Connection> {
    var (lo, loPort, p) := ReadEnd(SkipPast(SkipWhile(line, ' '), ' '));
    var (re, rePort, q) := ReadEnd(p);
    if !Wanted(rePort, client, server) then None
    else
      var (state, seQ, reQ, uid, inode) := ReadRest(q);
      Some(Connection(loPort, lo, rePort, re, state, seQ, reQ, uid, inode))
  }

  // ---------------------------------------------------------------- printing a line

  /** What stands on a line of the kernel. */
  datatype Row = Row(loPort: nat, loAddress: Address, rePort: nat, reAddress: Address,
                     state: nat, seQ: nat, reQ: nat, uid: nat, inode: nat)

  predicate IsRow(r: Row) {
    && r.loPort < 0x1_0000 && r.rePort < 0x1_0000 && r.state < 0x100
    && IsAddress(r.loAddress) && IsAddress(r.reAddress)
    && r.seQ < TWO32 && r.reQ < TWO32 && r.uid < TWO32 && r.inode < TWO64
  }

  /** The columns that are skipped, and how wide the gaps are. */
  datatype Layout = Layout(indent: nat, slot: string, gap1: nat, timer: string, retransmits: string, gap2: nat,
                           gap3: nat, timeout: string, gap4: nat, end: string)

  predicate Plain(w: string) {
    w != [] && ' ' !in w
  }

  predicate IsLayout(l: Layout) {
    Plain(l.slot) && Plain(l.timer) && Plain(l.retransmits) && Plain(l.timeout) && EndsWord(l.end)
  }

  function Many(c: char, n: nat): string {
    if n == 0 then [] else [c] + Many(c, n - 1)
  }

  /** A column, what follows it `n` times, and the rest. */
  function Then(w: string, c: char, n: nat, rest: string): string {
    w + (Many(c, n) + rest)
  }

  function EndText(a: Address, port: nat, rest: string): string
    requires IsAddress(a)
  {
    Then(Printed(a, true), ':', 1, Then(Hex(port, 4, true), ' ', 1, rest))
  }

  function TailText(r: Row, l: Layout): string {
    Then(l.timer, ' ', 1, Then(l.retransmits, ' ', l.gap2 + 1,
      Then(Decimal(r.uid), ' ', l.gap3 + 1, Then(l.timeout, ' ', l.gap4 + 1, Decimal(r.inode) + l.end))))
  }

  function RestText(r: Row, l: Layout): string {
    Then(Hex(r.state, 2, true), ' ', 1, Then(Hex(r.seQ, 8, true), ':', 1, Then(Hex(r.reQ, 8, true), ' ', 1, TailText(r, l))))
  }

  function LineText(r: Row, l: Layout): string
    requires IsRow(r)
  {
    Many(' ', l.indent)
    + Then(l.slot, ' ', l.gap1 + 1, EndText(r.loAddress, r.loPort, EndText(r.reAddress, r.rePort, RestText(r, l))))
  }

  function ConnectionOf(r: Row): Connection {
    Connection(r.loPort, r.loAddress, r.rePort, r.reAddress, r.state, r.seQ, r.reQ, ToInt(r.uid), r.inode)
  }

  // ---------------------------------------------------------------- reading undoes printing

  predicate StartsOther(s: string, c: char) {
    s == [] || s[0] != c
  }

  lemma {:induction false} SkipMany(c: char, n: nat, rest: string)
    requires StartsOther(rest, c)
    ensures SkipWhile(Many(c, n) + rest, c) == rest
  {
    if n == 0 {
      assert Many(c, n) + rest == rest;
    } else {
      assert (Many(c, n) + rest)[1..] == Many(c, n - 1) + rest;
      SkipMany(c, n - 1, rest);
    }
  }

  /** Going past a column ends at the start of the next. */
  lemma PastOver(w: string, c: char, n: nat, rest: string)
    requires c !in w && 0 < n && StartsOther(rest, c)
    ensures LenTo(Then(w, c, n, rest), c) == |w|
    ensures Then(w, c, n, rest)[|w|..] == Many(c, n) + rest
    ensures SkipPast(Then(w, c, n, rest), c) == rest
  {
    LenOver(w, c, Many(c, n) + rest);
    SkipMany(c, n, rest);
  }

  /** A column of fixed width is taken as it is, and what follows it is skipped. */
  lemma CutOver(w: string, c: char, n: nat, rest: string)
    requires StartsOther(rest, c)
    ensures Before(Then(w, c, n, rest), |w|) == w
    ensures SkipWhile(After(Then(w, c, n, rest), |w|), c) == rest
    ensures n == 1 ==> After(Then(w, c, n, rest), |w| + 1) == rest
  {
    var t := Then(w, c, n, rest);
    assert t[..|w|] == w && t[|w|..] == Many(c, n) + rest;
    SkipMany(c, n, rest);
    if n == 1 {
      assert Many(c, 1) == [c];
    }
  }

  lemma {:induction false} HexDigitsOver(w: string, rest: string)
    requires AllHex(w) && (rest == [] || !IsHex(rest[0]))
    ensures HexDigits(w + rest) == |w|
  {
    if w == [] {
      assert w + rest == rest;
    } else {
      assert (w + rest)[1..] == w[1..] + rest;
      HexDigitsOver(w[1..], rest);
    }
  }

  lemma PortOver(port: nat, rest: string)
    requires port < 0x1_0000
    ensures StrToUl16(Then(Hex(port, 4, true), ' ', 1, rest)) == (port, Many(' ', 1) + rest)
  {
    var w := Hex(port, 4, true);
    var s := Then(w, ' ', 1, rest);
    assert s[0] == w[0] && s[1] == w[1] && IsHex(s[0]) && IsHex(s[1]);
    assert SkipSpace(s) == s;
    HexDigitsOver(w, Many(' ', 1) + rest);
    assert s[..4] == w && s[4..] == Many(' ', 1) + rest;
    assert Pow16(4) == 0x1_0000;
    HexStandsFor(port, 4, true);
  }

  lemma NoneOf(w: string, c: char)
    requires AllHex(w) && !IsHex(c)
    ensures c !in w
  {
  }

  /** One end of a connection. */
  lemma EndOver(a: Address, port: nat, rest: string)
    requires IsAddress(a) && port < 0x1_0000 && StartsOther(rest, ' ')
    ensures ReadEnd(EndText(a, port, rest)) == (a, port, rest)
    ensures EndText(a, port, rest) != [] && IsHex(EndText(a, port, rest)[0])
  {
    var w, more := Printed(a, true), Then(Hex(port, 4, true), ' ', 1, rest);
    var p := EndText(a, port, rest);
    NoneOf(w, ':');
    HexStarts(Hex(port, 4, true), ' ', 1, rest);
    HexStarts(w, ':', 1, more);
    PastOver(w, ':', 1, more);
    assert LenTo(p, ':') == |w| && SkipWhile(p[|w|..], ':') == more;
    PortOver(port, rest);
    SkipMany(' ', 1, rest);
    AddressRoundTrip(a, true, Many(':', 1) + more);
    ReadEndBy(p, a, more, port, Many(' ', 1) + rest);
  }

  lemma ReadEndBy(p: string, a: Address, more: string, port: nat, q: string)
    requires AddressAt(p, LenTo(p, ':')) == a && SkipWhile(p[LenTo(p, ':')..], ':') == more
    requires StrToUl16(more) == (port, q) && port < 0x1_0000
    ensures ReadEnd(p) == (a, port, SkipWhile(q, ' '))
  {
  }

  lemma HexStarts(w: string, c: char, n: nat, rest: string)
    requires AllHex(w) && w != []
    ensures Then(w, c, n, rest) != [] && IsHex(Then(w, c, n, rest)[0])
  {
    assert Then(w, c, n, rest)[0] == w[0];
  }

  lemma DecimalOver(n: nat, rest: string)
    requires n < TWO64 && EndsWord(rest)
    ensures StrToUl(Decimal(n) + rest) == (n, rest)
    ensures IsDigit((Decimal(n) + rest)[0])
  {
    DecimalValue(n);
    assert (Decimal(n) + rest)[0] == Decimal(n)[0];
    StrToUlHere(Decimal(n), rest);
  }

  lemma PlainStarts(w: string, c: char, n: nat, rest: string)
    requires Plain(w)
    ensures StartsOther(Then(w, c, n, rest), ' ')
  {
    assert Then(w, c, n, rest)[0] == w[0] && w[0] in w;
  }

  lemma UidOver(r: Row, l: Layout)
    requires IsRow(r) && IsLayout(l)
    ensures var s := Then(Decimal(r.uid), ' ', l.gap3 + 1, Then(l.timeout, ' ', l.gap4 + 1, Decimal(r.inode) + l.end));
            var (uid, q) := StrToUl(s);
            && StartsOther(s, ' ') && uid == r.uid
            && StrToUl(SkipPast(SkipWhile(q, ' '), ' ')).0 == r.inode
  {
    var last := Decimal(r.inode) + l.end;
    var next := Then(l.timeout, ' ', l.gap4 + 1, last);
    DecimalOver(r.inode, l.end);
    PlainStarts(l.timeout, ' ', l.gap4 + 1, last);
    PastOver(l.timeout, ' ', l.gap4 + 1, last);
    DecimalOver(r.uid, Many(' ', l.gap3 + 1) + next);
    SkipMany(' ', l.gap3 + 1, next);
  }

  lemma TailOver(r: Row, l: Layout)
    requires IsRow(r) && IsLayout(l)
    ensures var (uid, q) := StrToUl(SkipPast(SkipPast(TailText(r, l), ' '), ' '));
            && StartsOther(TailText(r, l), ' ') && uid == r.uid
            && StrToUl(SkipPast(SkipWhile(q, ' '), ' ')).0 == r.inode
  {
    var s2 := Then(Decimal(r.uid), ' ', l.gap3 + 1, Then(l.timeout, ' ', l.gap4 + 1, Decimal(r.inode) + l.end));
    var s1 := Then(l.retransmits, ' ', l.gap2 + 1, s2);
    UidOver(r, l);
    PlainStarts(l.retransmits, ' ', l.gap2 + 1, s2);
    PastOver(l.retransmits, ' ', l.gap2 + 1, s2);
    PlainStarts(l.timer, ' ', 1, s1);
    PastOver(l.timer, ' ', 1, s1);
  }

  lemma RestOver(r: Row, l: Layout)
    requires IsRow(r) && IsLayout(l)
    ensures ReadRest(RestText(r, l)) == (r.state, r.seQ, r.reQ, ToInt(r.uid), r.inode)
    ensures StartsOther(RestText(r, l), ' ')
  {
    var tail := TailText(r, l);
    var rx := Then(Hex(r.reQ, 8, true), ' ', 1, tail);
    var tx := Then(Hex(r.seQ, 8, true), ':', 1, rx);
    TailOver(r, l);
    HexStarts(Hex(r.reQ, 8, true), ' ', 1, tail);
    HexStarts(Hex(r.seQ, 8, true), ':', 1, rx);
    HexStarts(Hex(r.state, 2, true), ' ', 1, tx);
    CutOver(Hex(r.reQ, 8, true), ' ', 1, tail);
    CutOver(Hex(r.seQ, 8, true), ':', 1, rx);
    CutOver(Hex(r.state, 2, true), ' ', 1, tx);
    assert Pow16(2) == 0x100 && Pow16(8) == TWO32;
    HexRoundTrip(r.state, 2, true);
    HexRoundTrip(r.seQ, 8, true);
    HexRoundTrip(r.reQ, 8, true);
  }

  /** Reading a line undoes printing it, whatever the widths of the gaps and the columns between: a
      connection is left out exactly when the flags do not ask for its kind, and otherwise every field
      is the one printed, the uid as a signed number. */
  lemma LineRoundTrip(r: Row, l: Layout, client: bool, server: bool)
    requires IsRow(r) && IsLayout(l)
    ensures ReadLine(LineText(r, l), client, server)
         == if (r.rePort != 0 && client) || (r.rePort == 0 && server) then Some(ConnectionOf(r)) else None
  {
    var rest := RestText(r, l);
    var re := EndText(r.reAddress, r.rePort, rest);
    var lo := EndText(r.loAddress, r.loPort, re);
    RestOver(r, l);
    EndOver(r.reAddress, r.rePort, rest);
    EndOver(r.loAddress, r.loPort, re);
    var line := Then(l.slot, ' ', l.gap1 + 1, lo);
    PlainStarts(l.slot, ' ', l.gap1 + 1, lo);
    PastOver(l.slot, ' ', l.gap1 + 1, lo);
    SkipMany(' ', l.indent, line);
  }

  // ---------------------------------------------------------------- the file

  function Listing(c: Option<Connection>): seq<Connection> {
    if c.None? then [] else [c.value]
  }

  /** The connections of some lines, in order. */
  function Connections(lines: seq<string>, client: bool, server: bool): seq<Connection> {
    if lines == [] then [] else Listing(ReadLine(lines[0], client, server)) + Connections(lines[1..], client, server)
  }

  /** A table of rows, each with columns and gaps of its own. */
  function LinesOf(rows: seq<Row>, layouts: seq<Layout>): seq<string>
    requires |layouts| == |rows| && forall i :: 0 <= i < |rows| ==> IsRow(rows[i])
  {
    if rows == [] then [] else [LineText(rows[0], layouts[0])] + LinesOf(rows[1..], layouts[1..])
  }

  /** The client flag asks for the rows with a remote port, the server flag for those without. */
  function Asked(rows: seq<Row>, client: bool, server: bool): seq<Connection> {
    if rows == [] then []
    else
      (if (client && rows[0].rePort != 0) || (server && rows[0].rePort == 0) then [ConnectionOf(rows[0])] else [])
      + Asked(rows[1..], client, server)
  }

  function Clients(rows: seq<Row>): seq<Connection> {
    if rows == [] then []
    else if rows[0].rePort != 0 then [ConnectionOf(rows[0])] + Clients(rows[1..])
    else Clients(rows[1..])
  }

  function Servers(rows: seq<Row>): seq<Connection> {
    if rows == [] then []
    else if rows[0].rePort == 0 then [ConnectionOf(rows[0])] + Servers(rows[1..])
    else Servers(rows[1..])
  }

  function AllOf(rows: seq<Row>): (cs: seq<Connection>)
    ensures |cs| == |rows| && forall i :: 0 <= i < |rows| ==> cs[i] == ConnectionOf(rows[i])
  {
    if rows == [] then [] else [ConnectionOf(rows[0])] + AllOf(rows[1..])
  }

  /** What the flags ask for: with one of them the rows with a remote port or those without, with both all
      rows, with neither none. */
  lemma {:induction false} AskedExact(rows: seq<Row>)
    ensures Asked(rows, true, false) == Clients(rows)
    ensures Asked(rows, false, true) == Servers(rows)
    ensures Asked(rows, true, true) == AllOf(rows)
    ensures Asked(rows, false, false) == []
  {
    if rows != [] {
      AskedExact(rows[1..]);
    }
  }

  /** A printed table reads back as its rows of the kind asked for, all of them and in order. */
  lemma {:induction false} TableRoundTrip(rows: seq<Row>, layouts: seq<Layout>, client: bool, server: bool)
    requires |layouts| == |rows| && (forall i :: 0 <= i < |rows| ==> IsRow(rows[i]) && IsLayout(layouts[i]))
    ensures Connections(LinesOf(rows, layouts), client, server) == Asked(rows, client, server)
  {
    if rows != [] {
      LineRoundTrip(rows[0], layouts[0], client, server);
      TableRoundTrip(rows[1..], layouts[1..], client, server);
      assert LinesOf(rows, layouts)[1..] == LinesOf(rows[1..], layouts[1..]);
    }
  }

  method ParseEnd(p: string) returns (a: Address, port: nat, rest: string)
    ensures (a, port, rest) == ReadEnd(p)
  {
    var len, q := TakeTo(p, ':');
    q := SkipWhileFrom(q, ':');
    var (value, r) := StrToUl16(q);
    rest := SkipWhileFrom(r, ' ');
    a := Address(Inet, [0]);
    if LongEnough(p, len) {
      a := ConvertHexAddress(p, len);
    }
    port := value % 0x1_0000;
  }

  /** The parse of one line in `proc_net_read`, with its loops. */
  method ParseLine(line: string, client: bool, server: bool) returns (c: Option<Connection>)
    ensures c == ReadLine(line, client, server)
  {
    var p := SkipWhileFrom(line, ' ');
    p := SkipPastFrom(p, ' ');
    var lo, loPort, p1 := ParseEnd(p);
    var re, rePort, p2 := ParseEnd(p1);
    if !Wanted(rePort, client, server) {
      return None;
    }
    var tx := SkipWhileFrom(After(p2, 2), ' ');
    var rx := After(tx, HEX_ENT_LEN + 1);
    var q := SkipWhileFrom(After(rx, HEX_ENT_LEN), ' ');
    q := SkipPastFrom(q, ' ');
    q := SkipPastFrom(q, ' ');
    var (uid, q1) := StrToUl(q);
    var q2 := SkipWhileFrom(q1, ' ');
    q2 := SkipPastFrom(q2, ' ');
    var state := HexWord(Before(p2, 2));
    return Some(Connection(loPort, lo, rePort, re, state, HexWord(Before(tx, HEX_ENT_LEN)),
                           HexWord(Before(rx, HEX_ENT_LEN)), ToInt(uid), StrToUl(q2).0));
  }
}
