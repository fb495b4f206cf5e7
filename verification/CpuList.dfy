/** `sysm_cpu_list_get`: the cpu lines of `/proc/stat` folded into one record a core or a socket. */
module CpuList {
  import opened Words
  import opened CpuTimes
  import opened Text

  const SYSM_CPU_MAX: nat := 4

  // ---------------------------------------------------------------- cores of a socket

  /** What `cpuid` answers: a vendor the code knows, the hyper-threading bit, the logical count. */
  datatype Cpuid = Cpuid(known: bool, threads: bool, count: nat)

  predicate IsCpuid(id: Cpuid) {
    id.count < 0x100
  }

  function CoreCountOf(lcpu: int, id: Cpuid): int {
    if lcpu != -1 then lcpu else if id.known && id.threads then id.count else 1
  }

  function RollupOf(lcpu: int, cores: bool, id: Cpuid): bool {
    lcpu == -1 && !cores && CoreCountOf(lcpu, id) > 1
  }

  /** The answers of `sysm_cpu_core_rollup` over a run of calls on one handle. */
  function Rollups(lcpu: int, cores: bool, ids: seq<Cpuid>): (r: seq<bool>)
    ensures |r| == |ids|
    decreases |ids|
  {
    if ids == [] then []
    else [RollupOf(lcpu, cores, ids[0])] + Rollups(CoreCountOf(lcpu, ids[0]), cores, ids[1..])
  }

  lemma {:induction false} CountedNeverRolls(lcpu: int, cores: bool, ids: seq<Cpuid>)
    requires lcpu != -1
    ensures forall i :: 0 <= i < |ids| ==> !Rollups(lcpu, cores, ids)[i]
    decreases |ids|
  {
    if ids != [] {
      CountedNeverRolls(lcpu, cores, ids[1..]);
    }
  }

  /** Only the first call on a handle can say to roll up: from the second on, the same machine is listed
      core by core. */
  lemma RollsUpOnce(lcpu: int, cores: bool, ids: seq<Cpuid>)
    requires forall i :: 0 <= i < |ids| ==> IsCpuid(ids[i])
    ensures forall i :: 0 <= i < |ids| ==>
                          (Rollups(lcpu, cores, ids)[i] <==> i == 0 && RollupOf(lcpu, cores, ids[0]))
  {
    if ids != [] {
      CountedNeverRolls(CoreCountOf(lcpu, ids[0]), cores, ids[1..]);
    }
  }

  // ---------------------------------------------------------------- the list

  /** `sysm_cpu_list_t`. */
  class Cpus {
    var data: array<Cpu>
    var number: nat
    var size: nat

    ghost predicate Valid()
      reads this
    {
      number <= size == data.Length
    }

    ghost function Contents(): seq<Cpu>
      reads this, data
      requires Valid()
    {
      data[..number]
    }

    /** `sysm_cpu_list_create`. */
    constructor ()
      ensures Valid() && Contents() == [] && size == SYSM_CPU_MAX && fresh(data)
    {
      data := new Cpu[SYSM_CPU_MAX](_ => ZERO);
      number, size := 0, SYSM_CPU_MAX;
    }

    /** `sysm_cpu_list_grow`: a larger block with the same contents. */
    method Grow()
      requires Valid()
      modifies this
      ensures Valid() && fresh(data) && number == old(number) && size == old(size) + SYSM_CPU_MAX
      ensures Contents() == old(Contents())
    {
      var more := new Cpu[size + SYSM_CPU_MAX](_ => ZERO);
      forall i | 0 <= i < size {
        more[i] := data[i];
      }
      data := more;
      size := size + SYSM_CPU_MAX;
    }

    /** A new record of zeroes, after growing if there is no room. */
    method Append()
      requires Valid()
      modifies this, data
      ensures Valid() && (data == old(data) || fresh(data))
      ensures Contents() == old(Contents()) + [ZERO]
    {
      if number >= size {
        Grow();
      }
      data[number] := ZERO;
      number := number + 1;
    }

    /** `get_cpu_metrics` on the last record. */
    method AddLine(line: string, rate: nat)
      requires Valid() && 0 < number && 0 < rate
      modifies data
      ensures Valid()
      ensures Contents() == old(Contents())[number - 1 := Added(old(Contents())[number - 1], ReadTicks(line), rate)]
    {
      data[number - 1] := Added(data[number - 1], ReadTicks(line), rate);
    }

    /** A new record for one line. */
    method AppendLine(line: string, rate: nat)
      requires Valid() && 0 < rate
      modifies this, data
      ensures Valid() && (data == old(data) || fresh(data))
      ensures Contents() == old(Contents()) + [Added(ZERO, ReadTicks(line), rate)]
    {
      Append();
      AddLine(line, rate);
    }
  }

  // ---------------------------------------------------------------- the lines

  predicate IsCpuLine(line: string) {
    |line| >= 3 && line[0] == 'c' && line[1] == 'p' && line[2] == 'u'
  }

  /** The counters on the cpu lines, up to the first other line. */
  function CpuTicks(lines: seq<string>): seq<Ticks> {
    if lines == [] || !IsCpuLine(lines[0]) then [] else [ReadTicks(lines[0])] + CpuTicks(lines[1..])
  }

  /** The fields of `sysm_t` that matter here. */
  class Handle {
    const hasCpuid: bool
    const cores: bool
    const rate: nat
    var lcpu: int

    constructor (hasCpuid: bool, cores: bool, rate: nat)
      ensures this.hasCpuid == hasCpuid && this.cores == cores && this.rate == rate && lcpu == -1
    {
      this.hasCpuid, this.cores, this.rate := hasCpuid, cores, rate;
      lcpu := -1;
    }

    /** `sysm_cpu_core_count`: a settled count stays whatever `cpuid` says later, and a count other than
        1 is the one that `cpuid` gave. */
    method CoreCount(id: Cpuid)
      modifies this
      ensures old(lcpu) != -1 || !hasCpuid ==> lcpu == old(lcpu)
      ensures hasCpuid ==> lcpu != -1
      ensures hasCpuid && old(lcpu) == -1 ==> lcpu == 1 || lcpu == id.count
      ensures hasCpuid && old(lcpu) == -1 ==> (id.known && id.threads ==> lcpu == id.count) && (!id.known || !id.threads ==> lcpu == 1)
    {
      if hasCpuid {
        if lcpu == -1 {
          lcpu := 1;
          if id.known && id.threads {
            lcpu := id.count;
          }
        }
      }
    }

    /** `sysm_cpu_core_rollup`; where it says yes there is more than one core to a socket. */
    method CoreRollup(id: Cpuid) returns (roll: bool)
      modifies this
      ensures lcpu == if hasCpuid then CoreCountOf(old(lcpu), id) else old(lcpu)
      ensures roll == (hasCpuid && RollupOf(old(lcpu), cores, id))
      ensures roll <==> hasCpuid && old(lcpu) == -1 && !cores && id.known && id.threads && id.count > 1
      ensures roll ==> lcpu == id.count > 1
    {
      if hasCpuid {
        var rollup := lcpu == -1;
        CoreCount(id);
        if !cores && rollup && lcpu > 1 {
          return true;
        }
      }
      return false;
    }
  }

  function SizeOf(roll: bool, lcpu: int): nat
    requires roll ==> lcpu > 1
  {
    if roll then lcpu else 1
  }

  /** A line goes to the last record, or starts a new one. */
  predicate JoinsLast(i: nat, roll: bool, lcpu: int) {
    roll && lcpu > 0 && i % lcpu != 0
  }

  function ListAfter(list: seq<Cpu>, joins: bool, t: Ticks, rate: nat): seq<Cpu>
    requires 0 < rate && (joins ==> list != [])
  {
    if joins then list[|list| - 1 := Added(list[|list| - 1], t, rate)] else list + [Added(ZERO, t, rate)]
  }

  lemma GroupedAfter(list: seq<Cpu>, ts: seq<Ticks>, t: Ticks, roll: bool, lcpu: int, rate: nat)
    requires 0 < rate && (roll ==> lcpu > 1) && Grouped(list, ts, SizeOf(roll, lcpu), rate)
    ensures JoinsLast(|ts|, roll, lcpu) ==> list != []
    ensures Grouped(ListAfter(list, JoinsLast(|ts|, roll, lcpu), t, rate), ts + [t], SizeOf(roll, lcpu), rate)
  {
    if JoinsLast(|ts|, roll, lcpu) {
      GroupedMore(list, ts, t, lcpu, rate);
    } else {
      GroupedNew(list, ts, t, SizeOf(roll, lcpu), rate);
    }
  }

  /** One cpu line. */
  method TakeLine(list: Cpus, line: string, i: nat, roll: bool, lcpu: int, rate: nat)
    requires list.Valid() && 0 < rate && (roll ==> lcpu > 1)
    requires JoinsLast(i, roll, lcpu) ==> list.Contents() != []
    modifies list, list.data
    ensures list.Valid() && (list.data == old(list.data) || fresh(list.data))
    ensures list.Contents() == ListAfter(old(list.Contents()), JoinsLast(i, roll, lcpu), ReadTicks(line), rate)
  {
    if roll && i % lcpu != 0 {
      list.AddLine(line, rate);
    } else {
      list.AppendLine(line, rate);
    }
  }

  /** The list after more lines, the first of which is line `i`. */
  function Folded(list: seq<Cpu>, i: nat, ts: seq<Ticks>, roll: bool, lcpu: int, rate: nat): seq<Cpu>
    requires 0 < rate && (i > 0 ==> list != [])
    decreases |ts|
  {
    if ts == [] then list
    else Folded(ListAfter(list, JoinsLast(i, roll, lcpu), ts[0], rate), i + 1, ts[1..], roll, lcpu, rate)
  }

  lemma {:induction false} FoldedIsGrouped(list: seq<Cpu>, done: seq<Ticks>, ts: seq<Ticks>, roll: bool, lcpu: int, rate: nat)
    requires 0 < rate && (roll ==> lcpu > 1) && (done != [] ==> list != [])
    requires Grouped(list, done, SizeOf(roll, lcpu), rate)
    ensures Grouped(Folded(list, |done|, ts, roll, lcpu, rate), done + ts, SizeOf(roll, lcpu), rate)
    decreases |ts|
  {
    Shift(done, ts);
    if ts != [] {
      GroupedAfter(list, done, ts[0], roll, lcpu, rate);
      FoldedIsGrouped(ListAfter(list, JoinsLast(|done|, roll, lcpu), ts[0], rate), done + [ts[0]], ts[1..], roll, lcpu, rate);
    }
  }

  lemma Shift<T>(done: seq<T>, todo: seq<T>)
    ensures if todo == [] then done + todo == done else (done + [todo[0]]) + todo[1..] == done + todo
  {
  }

  /** What the list comes to from line `i` on. */
  function Ahead(list: seq<Cpu>, i: nat, lines: seq<string>, roll: bool, lcpu: int, rate: nat): seq<Cpu>
    requires 0 < rate && i <= |lines| && (i > 0 ==> list != [])
  {
    Folded(list, i, CpuTicks(lines[i..]), roll, lcpu, rate)
  }

  lemma AheadAll(lines: seq<string>, roll: bool, lcpu: int, rate: nat)
    requires 0 < rate
    ensures Ahead([], 0, lines, roll, lcpu, rate) == Folded([], 0, CpuTicks(lines), roll, lcpu, rate)
  {
    assert lines[0..] == lines;
  }

  lemma AheadStep(list: seq<Cpu>, i: nat, lines: seq<string>, roll: bool, lcpu: int, rate: nat)
    requires 0 < rate && i < |lines| && (i > 0 ==> list != []) && IsCpuLine(lines[i])
    ensures Ahead(list, i, lines, roll, lcpu, rate)
         == Ahead(ListAfter(list, JoinsLast(i, roll, lcpu), ReadTicks(lines[i]), rate), i + 1, lines, roll, lcpu, rate)
  {
    var ts := CpuTicks(lines[i..]);
    assert lines[i..][1..] == lines[i + 1..];
    assert ts == [ReadTicks(lines[i])] + CpuTicks(lines[i + 1..]);
    assert ts[0] == ReadTicks(lines[i]) && ts[1..] == CpuTicks(lines[i + 1..]);
  }

  lemma AheadEnd(list: seq<Cpu>, i: nat, lines: seq<string>, roll: bool, lcpu: int, rate: nat)
    requires 0 < rate && i <= |lines| && (i > 0 ==> list != []) && (i < |lines| ==> !IsCpuLine(lines[i]))
    ensures Ahead(list, i, lines, roll, lcpu, rate) == list
  {
    assert CpuTicks(lines[i..]) == [];
  }

  /** One turn of the loop: what the list comes to stays. */
  method FoldLine(list: Cpus, i: nat, lines: seq<string>, roll: bool, lcpu: int, rate: nat)
    requires list.Valid() && 0 < rate && (roll ==> lcpu > 1) && i < |lines| && IsCpuLine(lines[i])
    requires i > 0 ==> list.Contents() != []
    modifies list, list.data
    ensures list.Valid() && (list.data == old(list.data) || fresh(list.data)) && list.Contents() != []
    ensures Ahead(list.Contents(), i + 1, lines, roll, lcpu, rate) == Ahead(old(list.Contents()), i, lines, roll, lcpu, rate)
  {
    AheadStep(list.Contents(), i, lines, roll, lcpu, rate);
    TakeLine(list, lines[i], i, roll, lcpu, rate);
  }

  /** The loop over the cpu lines. */
  method FoldLines(list: Cpus, lines: seq<string>, roll: bool, lcpu: int, rate: nat)
    requires list.Valid() && list.Contents() == [] && 0 < rate && (roll ==> lcpu > 1)
    modifies list, list.data
    ensures list.Valid() && (list.data == old(list.data) || fresh(list.data))
    ensures list.Contents() == Folded([], 0, CpuTicks(lines), roll, lcpu, rate)
  {
    var i := 0;
    AheadAll(lines, roll, lcpu, rate);
    while i < |lines| && IsCpuLine(lines[i])
      invariant i <= |lines| && list.Valid() && (list.data == old(list.data) || fresh(list.data))
      invariant i > 0 ==> list.Contents() != []
      invariant Ahead(list.Contents(), i, lines, roll, lcpu, rate) == Ahead([], 0, lines, roll, lcpu, rate)
    {
      FoldLine(list, i, lines, roll, lcpu, rate);
      i := i + 1;
    }
    AheadEnd(list.Contents(), i, lines, roll, lcpu, rate);
  }

  method TakeLines(list: Cpus, lines: seq<string>, roll: bool, lcpu: int, rate: nat)
    requires list.Valid() && list.Contents() == [] && 0 < rate && (roll ==> lcpu > 1)
    modifies list, list.data
    ensures list.Valid() && (list.data == old(list.data) || fresh(list.data))
    ensures Grouped(list.Contents(), CpuTicks(lines), SizeOf(roll, lcpu), rate)
  {
    FoldLines(list, lines, roll, lcpu, rate);
    FoldedIsGrouped([], [], CpuTicks(lines), roll, lcpu, rate);
    assert [] + CpuTicks(lines) == CpuTicks(lines);
  }

  /** Without any cpu line the first line of the file, which sums all processors, is the list. */
  method TakeTotal(list: Cpus, cpuTotal: string, rate: nat)
    requires list.Valid() && list.number == 0 && 0 < rate
    modifies list, list.data
    ensures list.Valid() && (list.data == old(list.data) || fresh(list.data))
    ensures Grouped(list.Contents(), [ReadTicks(cpuTotal)], 1, rate)
  {
    GroupedAfter(list.Contents(), [], ReadTicks(cpuTotal), false, 0, rate);
    TakeLine(list, cpuTotal, 0, false, 0, rate);
    EmptyPrefix(ReadTicks(cpuTotal));
  }

  /** The lines that make the list: those of the processors, or the one that sums them. */
  function Listed(lines: seq<string>): seq<Ticks>
    requires lines != []
  {
    var ts := CpuTicks(lines[1..]);
    if ts == [] then [ReadTicks(lines[0])] else ts
  }

  /** A line of a processor as the kernel prints it: its tag, its counters and what ends the line. */
  datatype CpuLine = CpuLine(words: seq<string>, end: string)

  predicate IsPrinted(c: CpuLine) {
    Numbers(c.words) && EndsLine(c.end)
  }

  function LineText(tag: string, c: CpuLine): string {
    tag + Spaced(c.words, c.end)
  }

  /** The lines of the processors, numbered from `from` on. */
  function CpuLines(from: nat, cs: seq<CpuLine>): seq<string>
    decreases |cs|
  {
    if cs == [] then [] else [LineText("cpu" + Decimal(from), cs[0])] + CpuLines(from + 1, cs[1..])
  }

  function CountersOf(cs: seq<CpuLine>): (r: seq<Ticks>)
    ensures |r| == |cs| && forall i :: 0 <= i < |cs| ==> r[i] == NumbersAsTicks(cs[i].words)
  {
    if cs == [] then [] else [NumbersAsTicks(cs[0].words)] + CountersOf(cs[1..])
  }

  predicate OtherLine(line: string) {
    !("cpu" <= line)
  }

  lemma TagIsWord(n: nat)
    ensures IsWord("cpu" + Decimal(n)) && "cpu" + Decimal(n) != []
  {
    DecimalValue(n);
  }

  lemma TaggedLine(n: nat, c: CpuLine)
    requires IsPrinted(c)
    ensures IsCpuLine(LineText("cpu" + Decimal(n), c)) && ReadTicks(LineText("cpu" + Decimal(n), c)) == NumbersAsTicks(c.words)
  {
    TagIsWord(n);
    LineExact("cpu" + Decimal(n), c.words, c.end);
  }

  lemma TicksStep(line: string, more: seq<string>)
    requires IsCpuLine(line)
    ensures CpuTicks([line] + more) == [ReadTicks(line)] + CpuTicks(more)
  {
    assert ([line] + more)[1..] == more;
  }

  lemma {:induction false} LinesRead(from: nat, cs: seq<CpuLine>, rest: seq<string>)
    requires (forall i :: 0 <= i < |cs| ==> IsPrinted(cs[i])) && (rest != [] ==> OtherLine(rest[0]))
    ensures CpuTicks(CpuLines(from, cs) + rest) == CountersOf(cs)
    decreases |cs|
  {
    if cs == [] {
      assert CpuLines(from, cs) + rest == rest;
    } else {
      var line, more := LineText("cpu" + Decimal(from), cs[0]), CpuLines(from + 1, cs[1..]) + rest;
      assert CpuLines(from, cs) + rest == [line] + more;
      TaggedLine(from, cs[0]);
      TicksStep(line, more);
      LinesRead(from + 1, cs[1..], rest);
    }
  }

  lemma ListedIs(summary: string, body: seq<string>)
    ensures Listed([summary] + body) == if CpuTicks(body) == [] then [ReadTicks(summary)] else CpuTicks(body)
  {
    assert ([summary] + body)[1..] == body;
  }

  /** The file: a summary line, the lines of the processors, and what follows them. */
  function FileText(summary: string, cs: seq<CpuLine>, rest: seq<string>): seq<string> {
    [summary] + (CpuLines(0, cs) + rest)
  }

  predicate IsFile(cs: seq<CpuLine>, rest: seq<string>) {
    (forall i :: 0 <= i < |cs| ==> IsPrinted(cs[i])) && (rest != [] ==> OtherLine(rest[0]))
  }

  /** Round trip of the file: the counters that make the list are those of all processor lines, in order, up to
      the first line with another tag; without any they are those of the summary line. */
  lemma FileRead(summary: string, cs: seq<CpuLine>, rest: seq<string>)
    requires IsFile(cs, rest)
    ensures Listed(FileText(summary, cs, rest)) == if cs == [] then [ReadTicks(summary)] else CountersOf(cs)
  {
    LinesRead(0, cs, rest);
    ListedIs(summary, CpuLines(0, cs) + rest);
    assert |CountersOf(cs)| == |cs|;
  }

  /** The kernel sets the counters of the summary line off by two spaces. */
  lemma SummaryRead(words: seq<string>, end: string)
    requires words != [] && Numbers(words) && EndsLine(end)
    ensures ReadTicks("cpu" + (" " + Spaced(words, end))) == NumbersAsTicks(words)
  {
    var line := Spaced(words, end);
    SkipWordOver("cpu", " " + line);
    assert SkipToken("cpu" + (" " + line)) == " " + line;
    SkipWordOver("cpu", line);
    SpacedEndsWord(words, end);
    assert SkipToken("cpu" + line) == line;
    StrToUlOver(words, end);
    assert |Spaced(words[1..], end)| < |line|;
    SpaceBefore(line);
    LineExact("cpu", words, end);
  }

  /** So the list of a file with `n` processor lines has `n` records divided by the group size, rounded up
      (`CoversIsCeil`), and their totals are together the milliseconds on all `n` lines. */
  lemma ListOfFile(list: seq<Cpu>, summary: string, cs: seq<CpuLine>, rest: seq<string>, size: nat, rate: nat)
    requires IsFile(cs, rest) && cs != [] && 0 < size && 0 < rate
    requires Grouped(list, Listed(FileText(summary, cs, rest)), size, rate)
    ensures Covers(|list|, |cs|, size) && SumTotals(list) == SumLines(CountersOf(cs), rate)
  {
    FileRead(summary, cs, rest);
    RollupConserves(list, CountersOf(cs), size, rate);
  }

  /** `sysm_cpu_list_get`: `/proc/stat` as an open that fails or its lines, the first of which is there. */
  method CpuListGet(handle: Handle, id: Cpuid, file: Result<seq<string>>) returns (r: Result<Cpus>)
    requires 0 < handle.rate && (file.Ok? ==> file.value != [])
    modifies handle
    ensures file.Err? ==> r == Err(file.errno)
    ensures handle.lcpu == if handle.hasCpuid then CoreCountOf(old(handle.lcpu), id) else old(handle.lcpu)
    ensures file.Ok? ==>
              && r.Ok? && fresh(r.value) && r.value.Valid()
              && var roll := handle.hasCpuid && RollupOf(old(handle.lcpu), handle.cores, id);
                 var ts := Listed(file.value);
                 (roll ==> handle.lcpu > 1) && Grouped(r.value.Contents(), ts, if roll then handle.lcpu else 1, handle.rate)
  {
    var roll := handle.CoreRollup(id);
    if file.Err? {
      return Err(file.errno);
    }
    var lcpu, rate := handle.lcpu, handle.rate;
    var list := new Cpus();
    TakeLines(list, file.value[1..], roll, lcpu, rate);
    if list.number == 0 {
      TakeTotal(list, file.value[0], rate);
      OneLine(list.Contents(), ReadTicks(file.value[0]), SizeOf(roll, lcpu), rate);
    }
    return Ok(list);
  }

  /** One line is one record, whatever the size of the groups. */
  lemma OneLine(list: seq<Cpu>, t: Ticks, size: nat, rate: nat)
    requires 0 < size && 0 < rate && Grouped(list, [t], 1, rate)
    ensures Grouped(list, [t], size, rate)
  {
    assert |list| == 1;
    assert Sums(list[0], Group([t], 0, 1), rate);
    assert Group([t], 0, 1) == Group([t], 0, size);
  }
}
