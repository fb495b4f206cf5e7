/** What every module shares: optional values, results, machine words and network addresses. */
module Words {

  datatype Option<+T> = None | Some(value: T)

  /** Native calls return SYSM_OK or an errno. */
  datatype Result<+T> = Ok(value: T) | Err(errno: Errno)

  type Errno = n: nat | 0 < n witness 1

  const ENOENT: Errno := 2

  datatype Family = Unspec | Inet | Inet6 | Link

  /** The kinds of connection: `SYSM_NETCONN_TCP`, `_UDP` and `_RAW`. */
  datatype ConnType = Tcp | Udp | Raw

  /** `sysm_net_address_t`: one word for IPv4, four for IPv6. */
  datatype Address = Address(family: Family, words: seq<nat>)

  const TWO32: nat := 0x1_0000_0000
  const TWO64: nat := 0x1_0000_0000_0000_0000

  /** The period `-1` once stored in an unsigned 64-bit field. */
  const NEVER: nat := TWO64 - 1

  /** Difference of two unsigned 64-bit times: it wraps when the clock steps back. */
  function Elapsed(now: nat, since: nat): (d: nat)
    ensures d < 0x1_0000_0000_0000_0000
    ensures since <= now < 0x1_0000_0000_0000_0000 ==> d == now - since
    ensures now < since < 0x1_0000_0000_0000_0000 ==> d == 0x1_0000_0000_0000_0000 - (since - now)
  {
    (now - since) % TWO64
  }

  const MSEC: nat := 1000

  /** Clock ticks to milliseconds, rounded down. */
  function TickToMsec(ticks: nat, rate: nat): nat
    requires 0 < rate
  {
    ticks * MSEC / rate
  }

  /** A cast to a signed 32-bit `int`. */
  function ToInt(v: nat): (i: int)
    ensures -0x8000_0000 <= i < 0x8000_0000 && (v - i) % 0x1_0000_0000 == 0
    ensures v < 0x8000_0000 ==> i == v
  {
    var w := v % TWO32;
    if w >= TWO32 / 2 then w - TWO32 else w
  }

  // ---------------------------------------------------------------- multiples

  lemma {:induction false} MultiplesApart(a: nat, b: nat, size: nat)
    requires a < b
    ensures a * size + size <= b * size
  {
    assert (b - 1) * size + size == b * size;
    if a < b - 1 {
      MultiplesApart(a, b - 1, size);
    }
  }

  /** Multiples are in the order of their factors. */
  lemma MultiplesOrdered(a: nat, b: nat, size: nat)
    ensures a < b ==> a * size + size <= b * size
    ensures b < a ==> b * size + size <= a * size
    ensures a * size + size == (a + 1) * size
  {
    if a < b {
      MultiplesApart(a, b, size);
    } else if b < a {
      MultiplesApart(b, a, size);
    }
  }

  lemma QuotientIs(n: nat, q: nat, size: nat)
    requires 0 < size && q * size <= n < q * size + size
    ensures n / size == q
  {
    var d := n / size;
    assert d * size <= n < d * size + size;
    MultiplesOrdered(d, q, size);
  }

  /** A number of ticks is so many whole milliseconds. */
  lemma TickFloor(ticks: nat, rate: nat, msec: nat)
    requires 0 < rate && msec * rate <= ticks * 1000 < msec * rate + rate
    ensures TickToMsec(ticks, rate) == msec
  {
    QuotientIs(ticks * 1000, msec, rate);
  }
}
