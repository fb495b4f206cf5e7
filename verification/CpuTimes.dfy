/** The cpu lines of `/proc/stat` and their sums, as values. */
module CpuTimes {
  import opened Text
  import opened Words

  /** `sysm_cpu_t`. */
  datatype Cpu = Cpu(user: nat, nice: nat, sys: nat, idle: nat, wait: nat, hi: nat, si: nat, steal: nat, total: nat)

  const ZERO: Cpu := Cpu(0, 0, 0, 0, 0, 0, 0, 0, 0)

  /** The counters on one line, in ticks and in the order of the line. */
  datatype Ticks = Ticks(user: nat, nice: nat, sys: nat, idle: nat, wait: nat, hi: nat, si: nat, steal: nat)

  // ---------------------------------------------------------------- reading a line

  predicate AtSpace(s: string) {
    s != [] && s[0] == ' '
  }

  /** `n` reads in a row. */
  function ReadSome(p: string, n: nat): (r: (seq<nat>, string))
    ensures |r.0| == n
    decreases n
  {
    if n == 0 then ([], p)
    else
      var (v, rest) := StrToUl(p);
      var (more, end) := ReadSome(rest, n - 1);
      ([v] + more, end)
  }

  /** The reads of `get_cpu_metrics`: four counters, then three and one more if a space says so. */
  function ReadTicks(line: string): Ticks {
    var (first, p) := ReadSome(SkipToken(line), 4);
    var (second, q) := if AtSpace(p) then ReadSome(p, 3) else ([0, 0, 0], p);
    var (last, _) := if AtSpace(q) then ReadSome(q, 1) else ([0], q);
    Ticks(first[0], first[1], first[2], first[3], second[0], second[1], second[2], last[0])
  }

  predicate Numbers(words: seq<string>) {
    forall i :: 0 <= i < |words| ==> IsNumber(words[i])
  }

  function NumberAt(words: seq<string>, k: nat): nat {
    if k < |words| then Value(words[k]) else 0
  }

  function Drop(words: seq<string>, k: nat): seq<string> {
    if k < |words| then words[k..] else []
  }

  predicate EndsLine(end: string) {
    end == [] || end == "\n"
  }

  /** Reading at word `k`: its value and the rest, or 0 and the end of the line. */
  lemma ReadAt(words: seq<string>, k: nat, end: string)
    requires Numbers(words) && EndsLine(end)
    ensures StrToUl(Spaced(Drop(words, k), end)) == (NumberAt(words, k), Spaced(Drop(words, k + 1), end))
  {
    if k < |words| {
      StrToUlOver(words[k..], end);
      assert words[k..][1..] == Drop(words, k + 1);
    } else {
      assert end == "\n" ==> SkipSpace(end) == SkipSpace(end[1..]) && end[1..] == [];
      assert SkipSpace(end) == [];
    }
  }

  function Rest(words: seq<string>, k: nat, end: string): string {
    Spaced(Drop(words, k), end)
  }

  function NumbersFrom(words: seq<string>, k: nat, n: nat): (r: seq<nat>)
    ensures |r| == n && forall i :: 0 <= i < n ==> r[i] == NumberAt(words, k + i)
    decreases n
  {
    if n == 0 then [] else [NumberAt(words, k)] + NumbersFrom(words, k + 1, n - 1)
  }

  lemma {:induction false} ReadSomeAt(words: seq<string>, k: nat, n: nat, end: string)
    requires Numbers(words) && EndsLine(end)
    ensures ReadSome(Rest(words, k, end), n) == (NumbersFrom(words, k, n), Rest(words, k + n, end))
    decreases n
  {
    if n > 0 {
      ReadAt(words, k, end);
      ReadSomeAt(words, k + 1, n - 1, end);
    }
  }

  function NumbersAsTicks(words: seq<string>): Ticks {
    Ticks(NumberAt(words, 0), NumberAt(words, 1), NumberAt(words, 2), NumberAt(words, 3),
          NumberAt(words, 4), NumberAt(words, 5), NumberAt(words, 6), NumberAt(words, 7))
  }

  lemma SkipTag(tag: string, words: seq<string>, end: string)
    requires IsWord(tag) && EndsLine(end)
    ensures SkipToken(tag + Spaced(words, end)) == Rest(words, 0, end)
  {
    var line := tag + Spaced(words, end);
    SpacedEndsWord(words, end);
    assert line[0] == tag[0];
    assert SkipSpace(line) == line;
    SkipWordOver(tag, Spaced(words, end));
    assert Drop(words, 0) == words;
  }

  lemma SpaceAt(words: seq<string>, k: nat, end: string)
    requires EndsLine(end)
    ensures AtSpace(Rest(words, k, end)) <==> k < |words|
  {
  }

  /** Numbers that are read only behind a space are those that are there, or zeros. */
  lemma MoreAt(words: seq<string>, k: nat, n: nat, zeros: seq<nat>, end: string)
    requires Numbers(words) && EndsLine(end) && |zeros| == n && forall i :: 0 <= i < n ==> zeros[i] == 0
    ensures var p := Rest(words, k, end);
            (if AtSpace(p) then ReadSome(p, n) else (zeros, p)) == (NumbersFrom(words, k, n), Rest(words, k + n, end))
  {
    SpaceAt(words, k, end);
    ReadSomeAt(words, k, n, end);
    if k >= |words| {
      assert NumbersFrom(words, k, n) == zeros;
    }
  }

  /** A line of a tag and any list of numbers: old kernels print four, newer ones seven, eight or ten;
      every counter is the number at its place and an absent one is 0. */
  lemma LineExact(tag: string, words: seq<string>, end: string)
    requires IsWord(tag) && Numbers(words) && EndsLine(end)
    ensures ReadTicks(tag + Spaced(words, end)) == NumbersAsTicks(words)
  {
    SkipTag(tag, words, end);
    ReadSomeAt(words, 0, 4, end);
    MoreAt(words, 4, 3, [0, 0, 0], end);
    MoreAt(words, 7, 1, [0], end);
  }

  // ---------------------------------------------------------------- summing

  function Total(c: Cpu): nat {
    c.user + c.nice + c.sys + c.idle + c.wait + c.hi + c.si + c.steal
  }

  /** `get_cpu_metrics` on a record: every counter is added to, and the total is made anew. */
  function Added(c: Cpu, t: Ticks, rate: nat): (r: Cpu)
    requires 0 < rate
    ensures r.total == Total(r)
  {
    var d := Cpu(c.user + TickToMsec(t.user, rate), c.nice + TickToMsec(t.nice, rate),
                 c.sys + TickToMsec(t.sys, rate), c.idle + TickToMsec(t.idle, rate),
                 c.wait + TickToMsec(t.wait, rate), c.hi + TickToMsec(t.hi, rate),
                 c.si + TickToMsec(t.si, rate), c.steal + TickToMsec(t.steal, rate), 0);
    d.(total := Total(d))
  }

  /** One field of a line, for sums over lines: user, nice, sys, idle, wait, hi, si, steal. */
  function Field(t: Ticks, f: nat): nat
    requires f < 8
  {
    [t.user, t.nice, t.sys, t.idle, t.wait, t.hi, t.si, t.steal][f]
  }

  function CpuField(c: Cpu, f: nat): nat
    requires f < 8
  {
    [c.user, c.nice, c.sys, c.idle, c.wait, c.hi, c.si, c.steal][f]
  }

  /** The milliseconds of one field over some lines. */
  function SumField(ts: seq<Ticks>, f: nat, rate: nat): nat
    requires f < 8 && 0 < rate
  {
    if ts == [] then 0 else TickToMsec(Field(ts[0], f), rate) + SumField(ts[1..], f, rate)
  }

  lemma {:induction false} SumFieldAppend(a: seq<Ticks>, b: seq<Ticks>, f: nat, rate: nat)
    requires f < 8 && 0 < rate
    ensures SumField(a + b, f, rate) == SumField(a, f, rate) + SumField(b, f, rate)
  {
    if a == [] {
      assert a + b == b;
    } else {
      assert (a + b)[1..] == a[1..] + b;
      SumFieldAppend(a[1..], b, f, rate);
    }
  }

  /** A record holds exactly what some lines say. */
  ghost predicate Sums(c: Cpu, ts: seq<Ticks>, rate: nat)
    requires 0 < rate
  {
    c.total == Total(c) && forall f: nat :: f < 8 ==> CpuField(c, f) == SumField(ts, f, rate)
  }

  lemma SumsAdded(c: Cpu, ts: seq<Ticks>, t: Ticks, rate: nat)
    requires 0 < rate && Sums(c, ts, rate)
    ensures Sums(Added(c, t, rate), ts + [t], rate)
  {
    forall f: nat | f < 8 ensures CpuField(Added(c, t, rate), f) == SumField(ts + [t], f, rate) {
      SumFieldAppend(ts, [t], f, rate);
      assert SumField([t], f, rate) == TickToMsec(Field(t, f), rate) + SumField([], f, rate);
      assert CpuField(c, f) == SumField(ts, f, rate);
    }
  }

  // ---------------------------------------------------------------- groups

  /** `k` groups of `size` lines, the last perhaps shorter but not empty, are `n` lines. */
  predicate Covers(k: nat, n: nat, size: nat) {
    if k == 0 then n == 0 else (k - 1) * size < n <= k * size
  }

  function Min(a: nat, b: nat): nat {
    if a < b then a else b
  }

  function Group(ts: seq<Ticks>, k: nat, size: nat): seq<Ticks>
    requires k * size <= |ts|
  {
    ts[k * size..Min((k + 1) * size, |ts|)]
  }

  /** The list the code builds: one record a group, each the sum of its lines. */
  ghost predicate Grouped(list: seq<Cpu>, ts: seq<Ticks>, size: nat, rate: nat)
    requires 0 < size && 0 < rate
  {
    Covers(|list|, |ts|, size) && forall k: nat :: k < |list| ==> k * size <= |ts| && Sums(list[k], Group(ts, k, size), rate)
  }

  /** The number of groups is the quotient rounded up. */
  lemma CoversIsCeil(k: nat, n: nat, size: nat)
    requires 0 < size
    ensures Covers(k, n, size) <==> k == (n + size - 1) / size
  {
    var d := (n + size - 1) / size;
    assert d * size <= n + size - 1 < d * size + size;
    if k > 0 {
      assert (k - 1) * size + size == k * size;
    }
    if Covers(k, n, size) {
      QuotientIs(n + size - 1, k, size);
    }
  }

  lemma CoversStep(k: nat, n: nat, size: nat)
    requires 0 < size && Covers(k, n, size)
    ensures n % size == 0 ==> n == k * size && Covers(k + 1, n + 1, size)
    ensures n % size != 0 ==> 0 < k && n < k * size && Covers(k, n + 1, size)
  {
    var q := n / size;
    assert n == q * size + n % size;
    QuotientOf(q, n % size, k, n, size);
  }

  lemma QuotientOf(q: nat, r: nat, k: nat, n: nat, size: nat)
    requires r < size && n == q * size + r && Covers(k, n, size)
    ensures r == 0 ==> n == k * size && Covers(k + 1, n + 1, size)
    ensures r != 0 ==> 0 < k && n < k * size && Covers(k, n + 1, size)
  {
    MultiplesOrdered(q, k, size);
    MultiplesOrdered(k, k + 1, size);
    if k > 0 {
      MultiplesOrdered(k - 1, q, size);
    }
  }

  lemma SumsOne(t: Ticks, rate: nat)
    requires 0 < rate
    ensures Sums(Added(ZERO, t, rate), [t], rate)
  {
    var none: seq<Ticks> := [];
    forall f: nat | f < 8 ensures CpuField(ZERO, f) == SumField(none, f, rate) {
      ZeroField(f);
    }
    SumsAdded(ZERO, none, t, rate);
    EmptyPrefix(t);
  }

  lemma EmptyPrefix<T>(x: T)
    ensures [] + [x] == [x]
  {
  }

  lemma ZeroField(f: nat)
    requires f < 8
    ensures CpuField(ZERO, f) == 0
  {
  }

  lemma GroupBefore(ts: seq<Ticks>, t: Ticks, k: nat, m: nat, size: nat)
    requires k < m && m * size <= |ts|
    ensures k * size <= |ts| && Group(ts + [t], k, size) == Group(ts, k, size)
  {
    MultiplesOrdered(k, m, size);
  }

  /** A line that starts a group makes a new record. */
  lemma GroupedNew(list: seq<Cpu>, ts: seq<Ticks>, t: Ticks, size: nat, rate: nat)
    requires 0 < size && 0 < rate && Grouped(list, ts, size, rate) && |ts| % size == 0
    ensures Grouped(list + [Added(ZERO, t, rate)], ts + [t], size, rate)
  {
    var n := |list|;
    CoversStep(n, |ts|, size);
    forall k: nat | k < n + 1
      ensures k * size <= |ts| + 1 && Sums((list + [Added(ZERO, t, rate)])[k], Group(ts + [t], k, size), rate)
    {
      if k < n {
        GroupBefore(ts, t, k, n, size);
      } else {
        MultiplesOrdered(n, n + 1, size);
        assert Group(ts + [t], n, size) == [t];
        SumsOne(t, rate);
      }
    }
  }

  lemma GroupLonger(ts: seq<Ticks>, t: Ticks, k: nat, size: nat)
    requires k * size <= |ts| < (k + 1) * size
    ensures Group(ts + [t], k, size) == Group(ts, k, size) + [t]
  {
  }

  /** Any other line is added to the last record, which exists. */
  lemma GroupedMore(list: seq<Cpu>, ts: seq<Ticks>, t: Ticks, size: nat, rate: nat)
    requires 0 < size && 0 < rate && Grouped(list, ts, size, rate) && |ts| % size != 0
    ensures list != [] && Grouped(list[|list| - 1 := Added(list[|list| - 1], t, rate)], ts + [t], size, rate)
  {
    CoversStep(|list|, |ts|, size);
    var last := |list| - 1;
    MultiplesOrdered(last, last + 1, size);
    var more := list[last := Added(list[last], t, rate)];
    forall k: nat | k < |list|
      ensures k * size <= |ts| + 1 && Sums(more[k], Group(ts + [t], k, size), rate)
    {
      if k < last {
        GroupBefore(ts, t, k, last, size);
      } else {
        GroupLonger(ts, t, last, size);
        SumsAdded(list[last], Group(ts, last, size), t, rate);
      }
    }
  }

  // ---------------------------------------------------------------- conservation

  function LineTotal(t: Ticks, rate: nat): nat
    requires 0 < rate
  {
    Total(Added(ZERO, t, rate))
  }

  /** All the milliseconds of some lines. */
  function SumLines(ts: seq<Ticks>, rate: nat): nat
    requires 0 < rate
  {
    if ts == [] then 0 else LineTotal(ts[0], rate) + SumLines(ts[1..], rate)
  }

  function SumTotals(list: seq<Cpu>): nat {
    if list == [] then 0 else list[0].total + SumTotals(list[1..])
  }

  lemma {:induction false} SumLinesIsFields(ts: seq<Ticks>, rate: nat)
    requires 0 < rate
    ensures SumLines(ts, rate) == SumField(ts, 0, rate) + SumField(ts, 1, rate) + SumField(ts, 2, rate) + SumField(ts, 3, rate)
                                  + SumField(ts, 4, rate) + SumField(ts, 5, rate) + SumField(ts, 6, rate) + SumField(ts, 7, rate)
  {
    if ts != [] {
      SumLinesIsFields(ts[1..], rate);
    }
  }

  lemma SumsTotal(c: Cpu, ts: seq<Ticks>, rate: nat)
    requires 0 < rate && Sums(c, ts, rate)
    ensures c.total == SumLines(ts, rate)
  {
    SumLinesIsFields(ts, rate);
    assert forall f: nat :: f < 8 ==> CpuField(c, f) == SumField(ts, f, rate);
    assert CpuField(c, 0) == c.user && CpuField(c, 1) == c.nice && CpuField(c, 2) == c.sys && CpuField(c, 3) == c.idle;
    assert CpuField(c, 4) == c.wait && CpuField(c, 5) == c.hi && CpuField(c, 6) == c.si && CpuField(c, 7) == c.steal;
  }

  lemma {:induction false} SumLinesAppend(a: seq<Ticks>, b: seq<Ticks>, rate: nat)
    requires 0 < rate
    ensures SumLines(a + b, rate) == SumLines(a, rate) + SumLines(b, rate)
  {
    if a == [] {
      assert a + b == b;
    } else {
      assert (a + b)[1..] == a[1..] + b;
      SumLinesAppend(a[1..], b, rate);
    }
  }

  lemma GroupSplit(ts: seq<Ticks>, k: nat, n: nat, size: nat)
    requires k < n && Covers(n, |ts|, size)
    ensures k * size <= |ts|
    ensures ts[k * size..] == Group(ts, k, size) + ts[Min((k + 1) * size, |ts|)..]
  {
    MultiplesOrdered(k, n - 1, size);
    MultiplesOrdered(k, k + 1, size);
  }

  /** From group `k` on, the records hold together what the lines hold from there on. */
  lemma {:induction false} SuffixConserved(list: seq<Cpu>, ts: seq<Ticks>, k: nat, size: nat, rate: nat)
    requires 0 < size && 0 < rate && Grouped(list, ts, size, rate) && k <= |list|
    ensures SumTotals(list[k..]) == SumLines(ts[Min(k * size, |ts|)..], rate)
    decreases |list| - k
  {
    if k == |list| {
      assert ts[Min(k * size, |ts|)..] == [];
    } else {
      GroupSplit(ts, k, |list|, size);
      SuffixConserved(list, ts, k + 1, size, rate);
      assert list[k..][1..] == list[k + 1..];
      SumLinesAppend(Group(ts, k, size), ts[Min((k + 1) * size, |ts|)..], rate);
      SumsTotal(list[k], Group(ts, k, size), rate);
    }
  }

  /** Rolling up neither makes nor loses time: the totals of the records are the times on the lines. */
  lemma RollupConserves(list: seq<Cpu>, ts: seq<Ticks>, size: nat, rate: nat)
    requires 0 < size && 0 < rate && Grouped(list, ts, size, rate)
    ensures SumTotals(list) == SumLines(ts, rate)
  {
    SuffixConserved(list, ts, 0, size, rate);
    assert list[0..] == list && ts[0..] == ts;
  }

  /** However the same lines are grouped, the grand total is the same. */
  lemma GroupingIsIrrelevant(a: seq<Cpu>, b: seq<Cpu>, ts: seq<Ticks>, n: nat, m: nat, rate: nat)
    requires 0 < n && 0 < m && 0 < rate && Grouped(a, ts, n, rate) && Grouped(b, ts, m, rate)
    ensures SumTotals(a) == SumTotals(b)
  {
    RollupConserves(a, ts, n, rate);
    RollupConserves(b, ts, m, rate);
  }

  function TickTotal(t: Ticks): nat {
    t.user + t.nice + t.sys + t.idle + t.wait + t.hi + t.si + t.steal
  }

  function SumTicks(ts: seq<Ticks>): nat {
    if ts == [] then 0 else TickTotal(ts[0]) + SumTicks(ts[1..])
  }

  lemma TickExact(x: nat, each: nat, rate: nat)
    requires 0 < rate && rate * each == MSEC
    ensures TickToMsec(x, rate) == x * each
  {
    assert x * MSEC == x * each * rate by {
      assert x * (rate * each) == x * each * rate;
    }
    QuotientIs(x * MSEC, x * each, rate);
  }

  /** With a tick rate that divides 1000 nothing is rounded: the grand total is the ticks of all lines. */
  lemma {:induction false} ExactRate(ts: seq<Ticks>, each: nat, rate: nat)
    requires 0 < rate && rate * each == MSEC
    ensures SumLines(ts, rate) == SumTicks(ts) * each
  {
    if ts != [] {
      var t := ts[0];
      LineExactRate(t, each, rate);
      ExactRate(ts[1..], each, rate);
      assert (TickTotal(t) + SumTicks(ts[1..])) * each == TickTotal(t) * each + SumTicks(ts[1..]) * each;
    }
  }

  lemma LineExactRate(t: Ticks, each: nat, rate: nat)
    requires 0 < rate && rate * each == MSEC
    ensures LineTotal(t, rate) == TickTotal(t) * each
  {
    TickExact(t.user, each, rate);
    TickExact(t.nice, each, rate);
    TickExact(t.sys, each, rate);
    TickExact(t.idle, each, rate);
    TickExact(t.wait, each, rate);
    TickExact(t.hi, each, rate);
    TickExact(t.si, each, rate);
    TickExact(t.steal, each, rate);
  }
}
