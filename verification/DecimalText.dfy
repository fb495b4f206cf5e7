/** Decimal text written into buffers: `sysm_uitoa`, `sysm_proc_filename`, `sysm_inet_ntoa`. */
module DecimalText {
  import opened Words
  import opened Text
  import HexText

  const UITOA_BUFFER_SIZE: nat := 13
  const PROC_FS_ROOT: string := "/proc/"

  function Pow10(k: nat): nat {
    if k == 0 then 1 else 10 * Pow10(k - 1)
  }

  lemma {:induction false} DecimalLength(n: nat, k: nat)
    requires 0 < k && n < Pow10(k)
    ensures |Decimal(n)| <= k
  {
    if n >= 10 {
      DecimalLength(n / 10, k - 1);
    }
  }

  lemma WordLength(n: nat)
    requires n < TWO32
    ensures |Decimal(n)| <= 10
  {
    assert Pow10(5) == 10_0000;
    assert Pow10(7) == 1000_0000;
    assert Pow10(10) == 100_0000_0000;
    DecimalLength(n, 10);
  }

  lemma DecimalSplit(n: nat)
    ensures Decimal(n) == (if n / 10 == 0 then [] else Decimal(n / 10)) + [DigitChar(n % 10)]
  {
  }

  /** `sysm_uitoa`: digits written backwards from the end of the buffer. */
  method Uitoa(buffer: array<char>, number: nat, length: nat) returns (start: nat, len: nat)
    requires buffer.Length == UITOA_BUFFER_SIZE && number < TWO32
    modifies buffer
    ensures start + |Decimal(number)| == 12 && buffer[start..12] == Decimal(number) && buffer[12] == NUL
    ensures len == length + |Decimal(number)|
    ensures forall k :: 0 <= k < start ==> buffer[k] == old(buffer[k])
  {
    start, len := UITOA_BUFFER_SIZE - 1, length;
    var n := number;
    buffer[start] := NUL;
    WordLength(number);
    ghost var out: string := [];
    while true
      invariant 0 < start <= 12 && out == buffer[start..12] && Decimal(n) + out == Decimal(number)
      invariant len + |Decimal(n)| == length + |Decimal(number)| && len - length == 12 - start
      invariant buffer[12] == NUL && forall k :: 0 <= k < start ==> buffer[k] == old(buffer[k])
      decreases n
    {
      DecimalSplit(n);
      start := start - 1;
      buffer[start] := DigitChar(n % 10);
      len := len + 1;
      out := [DigitChar(n % 10)] + out;
      assert out == buffer[start..12];
      n := n / 10;
      if n == 0 {
        break;
      }
      assert Decimal(n) + out == Decimal(number);
    }
  }

  /** `memcpy` of a text into a buffer. */
  method CopyText(buffer: array<char>, at: nat, text: string)
    requires at + |text| <= buffer.Length
    modifies buffer
    ensures buffer[..at] == old(buffer[..at]) && buffer[at..at + |text|] == text
    ensures buffer[at + |text|..] == old(buffer[at + |text|..])
  {
    forall i | 0 <= i < |text| {
      buffer[at + i] := text[i];
    }
  }

  function ProcPath(pid: int, fname: string): string {
    PROC_FS_ROOT + Decimal(pid % TWO32) + fname
  }

  /** The path of a process is below `/proc`, under its number; a negative one counts from 2^32 down. */
  lemma PathIs(pid: int, fname: string)
    requires 0 < pid < 0x1_0000_0000
    ensures ProcPath(pid, fname) == "/proc/" + Decimal(pid) + fname
    ensures ProcPath(-pid, fname) == "/proc/" + Decimal(0x1_0000_0000 - pid) + fname
  {
  }

  /** `sysm_proc_filename`; the source asserts the room. */
  method ProcFilename(buffer: array<char>, pid: int, fname: string)
    requires |PROC_FS_ROOT| + UITOA_BUFFER_SIZE + |fname| + 1 <= buffer.Length
    modifies buffer
    ensures |ProcPath(pid, fname)| < buffer.Length
    ensures buffer[..|ProcPath(pid, fname)|] == ProcPath(pid, fname) && buffer[|ProcPath(pid, fname)|] == NUL
  {
    var pidBuf := new char[UITOA_BUFFER_SIZE];
    WordLength(pid % TWO32);
    var start, len := Uitoa(pidBuf, pid % TWO32, 0);
    var digits := pidBuf[start..start + len];
    assert digits == Decimal(pid % TWO32);
    CopyText(buffer, 0, PROC_FS_ROOT);
    CopyText(buffer, 6, digits);
    assert buffer[..6 + len] == PROC_FS_ROOT + digits;
    CopyText(buffer, 6 + len, fname);
    assert buffer[..6 + len + |fname|] == PROC_FS_ROOT + digits + fname;
    buffer[6 + len + |fname|] := NUL;
    assert buffer[..6 + len + |fname|] == ProcPath(pid, fname);
  }

  lemma SplitAtMark(u: string, v: string, r: string, t: string, mark: char)
    requires mark !in u && mark !in v && u + [mark] + r == v + [mark] + t
    ensures u == v && r == t
  {
    var s := u + [mark] + r;
    assert s == v + [mark] + t;
    assert forall k :: 0 <= k < |u| ==> s[k] == u[k];
    assert forall k :: 0 <= k < |v| ==> s[k] == v[k];
    assert s[|u|] == mark && s[|v|] == mark;
    assert s[..|u|] == u && s[..|u|] == v;
    assert s[|u| + 1..] == r && s[|u| + 1..] == t;
  }

  lemma NoMark(n: nat, mark: char)
    requires !IsDigit(mark)
    ensures mark !in Decimal(n)
  {
    DecimalValue(n);
  }

  /** Different processes, or different files of one, never share a path. */
  lemma PathsDiffer(p: int, q: int, f: string, g: string)
    requires ProcPath(p, ['/'] + f) == ProcPath(q, ['/'] + g)
    ensures p % TWO32 == q % TWO32 && f == g
  {
    var u, v := Decimal(p % TWO32), Decimal(q % TWO32);
    assert ProcPath(p, ['/'] + f)[6..] == u + ['/'] + f && ProcPath(q, ['/'] + g)[6..] == v + ['/'] + g;
    NoMark(p % TWO32, '/');
    NoMark(q % TWO32, '/');
    SplitAtMark(u, v, f, g, '/');
    DecimalValue(p % TWO32);
    DecimalValue(q % TWO32);
  }

  // ---------------------------------------------------------------- dotted addresses

  /** The four octets of an address word, low byte first. */
  function Octets(address: nat): seq<nat> {
    var second := address / 0x100;
    var third := second / 0x100;
    [address % 0x100, second % 0x100, third % 0x100, third / 0x100 % 0x100]
  }

  function Dots(octets: seq<nat>): string {
    if octets == [] then [] else Decimal(octets[0]) + "." + Dots(octets[1..])
  }

  function Dotted(address: nat): string {
    var o := Octets(address);
    Decimal(o[0]) + "." + Decimal(o[1]) + "." + Decimal(o[2]) + "." + Decimal(o[3])
  }

  lemma DotsOfFour(o: seq<nat>)
    requires |o| == 4
    ensures Dots(o) == Decimal(o[0]) + "." + Decimal(o[1]) + "." + Decimal(o[2]) + "." + Decimal(o[3]) + "."
  {
    assert Dots(o[3..]) == Decimal(o[3]) + ".";
    assert Dots(o[2..]) == Decimal(o[2]) + "." + Dots(o[2..][1..]) && o[2..][1..] == o[3..];
    assert Dots(o[1..]) == Decimal(o[1]) + "." + Dots(o[1..][1..]) && o[1..][1..] == o[2..];
  }

  lemma OctetLength(u: nat)
    requires u < 0x100
    ensures Decimal(u) == if u > 99 then [DigitChar(u / 100), DigitChar(u % 100 / 10), DigitChar(u % 10)]
                          else if u > 9 then [DigitChar(u / 10), DigitChar(u % 10)]
                          else [DigitChar(u)]
  {
    if u > 99 {
      assert u / 10 / 10 == u / 100 && u / 10 % 10 == u % 100 / 10;
      assert Decimal(u / 10) == Decimal(u / 10 / 10) + [DigitChar(u / 10 % 10)];
    }
  }

  /** One turn of `sysm_inet_ntoa`, up to its dot. */
  method PutOctet(buf: array<char>, next: nat, octet: nat) returns (after: nat)
    requires octet < 0x100 && next + 4 <= buf.Length
    modifies buf
    ensures after == next + |Decimal(octet)| + 1 && after <= next + 4
    ensures buf[..after] == old(buf[..next]) + Decimal(octet) + "."
    ensures forall k :: after <= k < buf.Length ==> buf[k] == old(buf[k])
  {
    var u := octet;
    after := next;
    OctetLength(octet);
    if u > 99 {
      buf[after] := DigitChar(u / 100);
      u := u % 100;
      buf[after + 1] := DigitChar(u / 10);
      u := u % 10;
      after := after + 2;
    } else if u > 9 {
      buf[after] := DigitChar(u / 10);
      u := u % 10;
      after := after + 1;
    }
    buf[after] := DigitChar(u);
    buf[after + 1] := '.';
    after := after + 2;
  }

  lemma DotsStep(done: string, src: seq<nat>, n: nat)
    requires n < |src|
    ensures done + Dots(src[n..]) == (done + Decimal(src[n]) + ".") + Dots(src[n + 1..])
  {
    assert src[n..][1..] == src[n + 1..];
  }

  /** The loop of `sysm_inet_ntoa`: every octet and a dot. */
  method PutOctets(src: seq<nat>, buf: array<char>) returns (next: nat)
    requires |src| == 4 && (forall i :: 0 <= i < 4 ==> src[i] < 0x100) && 16 <= buf.Length
    modifies buf
    ensures next <= 16 && buf[..next] == Dots(src)
    ensures forall k :: next <= k < buf.Length ==> buf[k] == old(buf[k])
  {
    next := 0;
    for n := 0 to 4
      invariant next <= 4 * n && buf[..next] + Dots(src[n..]) == Dots(src)
      invariant forall k :: next <= k < buf.Length ==> buf[k] == old(buf[k])
    {
      DotsStep(buf[..next], src, n);
      next := PutOctet(buf, next, src[n]);
    }
  }

  lemma DotsIsDotted(address: nat)
    ensures Dots(Octets(address)) == Dotted(address) + "."
  {
    DotsOfFour(Octets(address));
  }

  /** `sysm_inet_ntoa`: no more than fifteen characters and a NUL over the last dot. */
  method InetNtoa(address: nat, buf: array<char>)
    requires 16 <= buf.Length
    modifies buf
    ensures |Dotted(address)| <= 15
    ensures buf[..|Dotted(address)|] == Dotted(address) && buf[|Dotted(address)|] == NUL
    ensures forall k :: |Dotted(address)| < k < buf.Length ==> buf[k] == old(buf[k])
  {
    var next := PutOctets(Octets(address), buf);
    DotsIsDotted(address);
    ghost var text := Dotted(address);
    ghost var dotted := buf[..next];
    assert dotted == text + "." && dotted[..next - 1] == text;
    buf[next - 1] := NUL;
    assert buf[..next - 1] == dotted[..next - 1];
  }

  /** `dec-octet` of section 3.2.2 of RFC 3986. */
  predicate IsDecOctet(s: string) {
    && (forall i :: 0 <= i < |s| ==> IsDigit(s[i]))
    && match |s|
       case 1 => true
       case 2 => s[0] != '0'
       case 3 => s[0] == '1' || (s[0] == '2' && (s[1] < '5' || (s[1] == '5' && s[2] <= '5')))
       case _ => false
  }

  /** `IPv4address` of the same section: four of them with dots between. */
  ghost predicate IsIPv4(s: string) {
    exists a, b, c, d ::
      && IsDecOctet(a) && IsDecOctet(b) && IsDecOctet(c) && IsDecOctet(d)
      && s == a + "." + b + "." + c + "." + d
  }

  lemma DecimalIsDecOctet(u: nat)
    requires u < 0x100
    ensures IsDecOctet(Decimal(u))
  {
    OctetLength(u);
  }

  function DigitOf(c: char): (d: nat)
    requires IsDigit(c)
    ensures d < 10 && DigitChar(d) == c
  {
    c as int - '0' as int
  }

  lemma DecOctetIsDecimal(s: string) returns (u: nat)
    requires IsDecOctet(s)
    ensures u < 0x100 && s == Decimal(u)
  {
    if |s| == 1 {
      u := DigitOf(s[0]);
    } else if |s| == 2 {
      u := 10 * DigitOf(s[0]) + DigitOf(s[1]);
    } else {
      var h, t, o := DigitOf(s[0]), DigitOf(s[1]), DigitOf(s[2]);
      u := 100 * h + 10 * t + o;
      assert u / 100 == h && u % 100 / 10 == t && u % 10 == o;
    }
    OctetLength(u);
  }

  lemma LowByte(low: nat, rest: nat)
    requires low < 0x100
    ensures (low + 0x100 * rest) % 0x100 == low && (low + 0x100 * rest) / 0x100 == rest
  {
  }

  lemma OctetsOf(a: nat, b: nat, c: nat, d: nat) returns (address: nat)
    requires a < 0x100 && b < 0x100 && c < 0x100 && d < 0x100
    ensures address < TWO32 && Octets(address) == [a, b, c, d]
  {
    LowByte(c, d);
    LowByte(b, c + 0x100 * d);
    LowByte(a, b + 0x100 * (c + 0x100 * d));
    address := a + 0x100 * (b + 0x100 * (c + 0x100 * d));
  }

  /** The texts of addresses are exactly the IPv4addresses of the standard. */
  lemma DottedIsIPv4(s: string)
    ensures IsIPv4(s) <==> exists address: nat :: address < TWO32 && Dotted(address) == s
  {
    if IsIPv4(s) {
      var a, b, c, d :|
        && IsDecOctet(a) && IsDecOctet(b) && IsDecOctet(c) && IsDecOctet(d)
        && s == a + "." + b + "." + c + "." + d;
      var o0 := DecOctetIsDecimal(a);
      var o1 := DecOctetIsDecimal(b);
      var o2 := DecOctetIsDecimal(c);
      var o3 := DecOctetIsDecimal(d);
      var address := OctetsOf(o0, o1, o2, o3);
      assert Dotted(address) == s;
    }
    if exists address: nat :: address < TWO32 && Dotted(address) == s {
      var address: nat :| address < TWO32 && Dotted(address) == s;
      DottedForm(address);
    }
  }

  lemma DottedForm(address: nat)
    ensures IsIPv4(Dotted(address))
  {
    var o := Octets(address);
    DecimalIsDecOctet(o[0]);
    DecimalIsDecOctet(o[1]);
    DecimalIsDecOctet(o[2]);
    DecimalIsDecOctet(o[3]);
  }

  lemma OctetsDetermine(p: nat, q: nat)
    requires p < TWO32 && q < TWO32 && Octets(p) == Octets(q)
    ensures p == q
  {
    var a, b := Octets(p), Octets(q);
    assert a[0] == b[0] && a[1] == b[1] && a[2] == b[2] && a[3] == b[3];
    assert p / 0x100 / 0x100 / 0x100 < 0x100 && q / 0x100 / 0x100 / 0x100 < 0x100;
    SameWord(p / 0x100 / 0x100, q / 0x100 / 0x100);
    SameWord(p / 0x100, q / 0x100);
    SameWord(p, q);
  }

  lemma SameWord(p: nat, q: nat)
    requires p % 0x100 == q % 0x100 && p / 0x100 == q / 0x100
    ensures p == q
  {
  }

  /** No two addresses have the same text. */
  lemma DottedInjective(p: nat, q: nat)
    requires p < TWO32 && q < TWO32 && Dotted(p) == Dotted(q)
    ensures p == q
  {
    var a, b := Octets(p), Octets(q);
    DotsOfFour(a);
    DotsOfFour(b);
    DotsInjective(a, b);
    OctetsDetermine(p, q);
  }

  lemma {:induction false} DotsInjective(a: seq<nat>, b: seq<nat>)
    requires |a| == |b| && Dots(a) == Dots(b)
    ensures a == b
  {
    if a != [] {
      NoMark(a[0], '.');
      NoMark(b[0], '.');
      SplitAtMark(Decimal(a[0]), Decimal(b[0]), Dots(a[1..]), Dots(b[1..]), '.');
      DecimalValue(a[0]);
      DecimalValue(b[0]);
      DotsInjective(a[1..], b[1..]);
    }
  }

  /** What the kernel prints in hexadecimal for the address a.b.c.d comes back as a.b.c.d: the low byte
      of the word is the first octet. */
  lemma KernelAddressText(a: nat, b: nat, c: nat, d: nat, upper: bool, rest: string)
    requires a < 0x100 && b < 0x100 && c < 0x100 && d < 0x100
    ensures var word := a + 0x100 * (b + 0x100 * (c + 0x100 * d));
            && word < TWO32
            && HexText.AddressOf(HexText.Hex(word, 8, upper) + rest, 8) == Address(Inet, [word])
            && Dotted(word) == Decimal(a) + "." + Decimal(b) + "." + Decimal(c) + "." + Decimal(d)
  {
    var word := a + 0x100 * (b + 0x100 * (c + 0x100 * d));
    LowByte(c, d);
    LowByte(b, c + 0x100 * d);
    LowByte(a, b + 0x100 * (c + 0x100 * d));
    assert Octets(word) == [a, b, c, d];
    HexText.AddressRoundTrip(Address(Inet, [word]), upper, rest);
  }
}
