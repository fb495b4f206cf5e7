/** `/proc/<pid>/stat`: the split of its line, and the slot that remembers the last one read. */
module ProcStat {
  import opened Words
  import opened Text

  const NAME_LEN: nat := 128
  const EXPIRE: nat := 2
  const EINVAL: nat := 22

  /** Clock ticks a second, boot time in seconds, and bytes in a page. */
  datatype System = System(ticks: nat, bootTime: nat, pageSize: nat)

  datatype StatLine = StatLine(name: string, state: char, ppid: int, tty: int, minorFaults: nat, majorFaults: nat,
                               utime: nat, stime: nat, startTime: nat, vsize: nat, rss: nat, processor: int)

  function StartTime(v: nat, sys: System): nat
    requires sys.ticks > 0
  {
    ((v / sys.ticks + sys.bootTime) * 1000) % TWO64
  }

  /** It is that many whole seconds after the boot, in milliseconds. */
  lemma StartTimeIs(v: nat, seconds: nat, sys: System)
    requires sys.ticks > 0 && seconds * sys.ticks <= v < (seconds + 1) * sys.ticks
    requires (sys.bootTime + seconds) * 1000 < 0x1_0000_0000_0000_0000
    ensures StartTime(v, sys) == (sys.bootTime + seconds) * 1000
  {
    assert (seconds + 1) * sys.ticks == seconds * sys.ticks + sys.ticks;
    QuotientIs(v, seconds, sys.ticks);
  }

  /** `strrchr`. */
  function LastIndex(s: string, c: char): (r: Option<nat>)
    ensures r.Some? ==> r.value < |s| && s[r.value] == c
  {
    if s == [] then None
    else if s[|s| - 1] == c then Some(|s| - 1)
    else LastIndex(s[..|s| - 1], c)
  }

  // ---------------------------------------------------------------- the split

  function SkipTokens(s: string, n: nat): string
    decreases n
  {
    if n == 0 then s else SkipTokens(SkipToken(s), n - 1)
  }

  /** `sysm_skip_multiple_token`. */
  method SkipMultiple(s: string, count: nat) returns (p: string)
    ensures p == SkipTokens(s, count)
  {
    p := s;
    for i := 0 to count
      invariant SkipTokens(p, count - i) == SkipTokens(s, count)
    {
      p := SkipTokenFrom(p);
    }
  }

  /** State and parent. A line that ends early reads as NUL. */
  function ParseParent(s: string): (char, nat, string) {
    var s3 := SkipSpace(s);
    var state := if s3 == [] then NUL else s3[0];
    var (ppid, s4) := StrToUl(SkipSpace(if s3 == [] then [] else s3[1..]));
    (state, ppid, s4)
  }

  /** Terminal and faults. */
  function ParseFaults(s4: string): (nat, nat, nat, string) {
    var (tty, s7) := StrToUl(SkipTokens(s4, 2));
    var (minor, s10) := StrToUl(SkipTokens(s7, 2));
    var (major, s12) := StrToUl(SkipToken(s10));
    (tty, minor, major, s12)
  }

  /** Times in ticks. */
  function ParseTimes(s12: string): (nat, nat, string) {
    var (utime, s14) := StrToUl(SkipToken(s12));
    var (stime, s15) := StrToUl(s14);
    (utime, stime, s15)
  }

  /** Fields 3 to 15, then the rest of the line. */
  function ParseHead(s: string, line: StatLine, sys: System): (StatLine, string)
    requires sys.ticks > 0
  {
    var (state, ppid, s4) := ParseParent(s);
    var (tty, minor, major, s12) := ParseFaults(s4);
    var (utime, stime, s15) := ParseTimes(s12);
    (line.(state := state, ppid := ToInt(ppid), tty := ToInt(tty), minorFaults := minor, majorFaults := major,
           utime := TickToMsec(utime, sys.ticks), stime := TickToMsec(stime, sys.ticks)), s15)
  }

  function ParseTail(s: string, line: StatLine, sys: System): StatLine
    requires sys.ticks > 0
  {
    var (start, s22) := StrToUl(SkipTokens(s, 2));
    var (vsize, s23) := StrToUl(s22);
    var (rss, s24) := StrToUl(s23);
    var (processor, _) := StrToUl(SkipTokens(s24, 14));
    line.(startTime := StartTime(start, sys), vsize := vsize,
          rss := rss * sys.pageSize % TWO64, processor := ToInt(processor))
  }

  /** The name as it fits its buffer of 128 characters. */
  function Cut(name: string): (r: string)
    ensures r <= name && |r| == if |name| < 128 then |name| else 127
  {
    if |name| >= NAME_LEN then name[..NAME_LEN - 1] else name
  }

  function ParseFields(s: string, line: StatLine, sys: System): StatLine
    requires sys.ticks > 0
  {
    var (head, rest) := ParseHead(s, line, sys);
    ParseTail(rest, head, sys)
  }

  /** The name between the first opening and the last closing parenthesis, and what follows it. */
  function Locate(text: string): Option<(string, string)> {
    match FirstIndex(text, '(')
    case None => None
    case Some(open) =>
      var inner := text[open + 1..];
      match LastIndex(inner, ')')
      case None => None
      case Some(close) => Some((inner[..close], inner[close + 1..]))
  }

  function ParseStat(text: string, was: StatLine, sys: System): Result<StatLine>
    requires sys.ticks > 0
  {
    match Locate(text)
    case None => Err(EINVAL)
    case Some((name, rest)) => Ok(ParseFields(rest, was.(name := Cut(name)), sys))
  }

  /** A text without a name between parentheses is refused with `EINVAL`, which is 22. */
  lemma NoName(text: string, was: StatLine, sys: System)
    requires sys.ticks > 0 && ('(' !in text || ')' !in text)
    ensures ParseStat(text, was, sys) == Err(22)
  {
    var open := FirstIndex(text, '(');
    assert open.Some? ==> ')' !in text[open.value + 1..];
  }

  // ---------------------------------------------------------------- what the split finds

  lemma {:induction false} LastIndexAt(a: string, c: char, b: string)
    requires c !in b
    ensures LastIndex(a + [c] + b, c) == Some(|a|)
    decreases |b|
  {
    var s := a + [c] + b;
    if b != [] {
      assert s[|s| - 1] == b[|b| - 1];
      assert s[..|s| - 1] == a + [c] + b[..|b| - 1];
      LastIndexAt(a, c, b[..|b| - 1]);
    }
  }

  predicate AllWords(fs: seq<string>) {
    forall i :: 0 <= i < |fs| ==> IsWord(fs[i])
  }

  lemma SkipAt(fs: seq<string>, k: nat, end: string)
    requires k < |fs| && AllWords(fs) && EndsWord(end)
    ensures SkipToken(Spaced(fs[k..], end)) == Spaced(fs[k + 1..], end)
  {
    SkipTokenOver(fs[k..], end);
    assert fs[k..][1..] == fs[k + 1..];
  }

  lemma {:induction false} SkipManyAt(fs: seq<string>, k: nat, n: nat, end: string)
    requires k + n <= |fs| && AllWords(fs) && EndsWord(end)
    ensures SkipTokens(Spaced(fs[k..], end), n) == Spaced(fs[k + n..], end)
    decreases n
  {
    if n > 0 {
      SkipAt(fs, k, end);
      SkipManyAt(fs, k + 1, n - 1, end);
    }
  }

  lemma ReadAt(fs: seq<string>, k: nat, end: string)
    requires k < |fs| && IsInteger(fs[k]) && EndsWord(end)
    ensures StrToUl(Spaced(fs[k..], end)) == (ULong(fs[k]), Spaced(fs[k + 1..], end))
    ensures StrToUl(SkipSpace(Spaced(fs[k..], end))) == (ULong(fs[k]), Spaced(fs[k + 1..], end))
  {
    StrToUlOver(fs[k..], end);
    assert fs[k..][1..] == fs[k + 1..];
  }

  /** `fs[k]` is field `k + 3` of the line. Numbers stand where the code reads numbers. */
  predicate StatFields(fs: seq<string>) {
    && |fs| >= 33 && AllWords(fs) && |fs[0]| == 1
    && (forall k :: k in {1, 4, 7, 9, 11, 12, 15, 16, 17, 32} ==> IsInteger(fs[k]))
  }

  lemma ParentFields(fs: seq<string>, end: string)
    requires StatFields(fs) && EndsWord(end)
    ensures ParseParent(Spaced(fs, end)) == (fs[0][0], ULong(fs[1]), Spaced(fs[2..], end))
  {
    SpacedFirst(fs, end);
    assert SkipSpace(Spaced(fs, end))[1..] == Spaced(fs[1..], end);
    ReadAt(fs, 1, end);
  }

  lemma FaultFields(fs: seq<string>, end: string)
    requires StatFields(fs) && EndsWord(end)
    ensures ParseFaults(Spaced(fs[2..], end)) == (ULong(fs[4]), ULong(fs[7]), ULong(fs[9]), Spaced(fs[10..], end))
  {
    SkipManyAt(fs, 2, 2, end);
    ReadAt(fs, 4, end);
    SkipManyAt(fs, 5, 2, end);
    ReadAt(fs, 7, end);
    SkipAt(fs, 8, end);
    ReadAt(fs, 9, end);
  }

  lemma TimeFields(fs: seq<string>, end: string)
    requires StatFields(fs) && EndsWord(end)
    ensures ParseTimes(Spaced(fs[10..], end)) == (ULong(fs[11]), ULong(fs[12]), Spaced(fs[13..], end))
  {
    SkipAt(fs, 10, end);
    ReadAt(fs, 11, end);
    ReadAt(fs, 12, end);
  }

  lemma HeadFields(fs: seq<string>, end: string, line: StatLine, sys: System)
    requires StatFields(fs) && EndsWord(end) && sys.ticks > 0
    ensures ParseHead(Spaced(fs, end), line, sys)
         == (line.(state := fs[0][0], ppid := ToInt(ULong(fs[1])), tty := ToInt(ULong(fs[4])),
                   minorFaults := ULong(fs[7]), majorFaults := ULong(fs[9]),
                   utime := TickToMsec(ULong(fs[11]), sys.ticks), stime := TickToMsec(ULong(fs[12]), sys.ticks)),
             Spaced(fs[13..], end))
  {
    ParentFields(fs, end);
    FaultFields(fs, end);
    TimeFields(fs, end);
  }

  /** After field 15 only two tokens are skipped, so what is stored as the start time (field 22) is
      field 18, and the later fields shift with it. */
  lemma TailFields(fs: seq<string>, end: string, line: StatLine, sys: System)
    requires StatFields(fs) && EndsWord(end) && sys.ticks > 0
    ensures ParseTail(Spaced(fs[13..], end), line, sys)
         == line.(startTime := StartTime(ULong(fs[15]), sys), vsize := ULong(fs[16]),
                  rss := ULong(fs[17]) * sys.pageSize % TWO64, processor := ToInt(ULong(fs[32])))
  {
    SkipManyAt(fs, 13, 2, end);
    ReadAt(fs, 15, end);
    ReadAt(fs, 16, end);
    ReadAt(fs, 17, end);
    SkipManyAt(fs, 18, 14, end);
    ReadAt(fs, 32, end);
  }

  lemma FieldsSplit(fs: seq<string>, end: string, line: StatLine, sys: System)
    requires StatFields(fs) && EndsWord(end) && sys.ticks > 0
    ensures ParseFields(Spaced(fs, end), line, sys)
         == StatLine(line.name, fs[0][0], ToInt(ULong(fs[1])), ToInt(ULong(fs[4])), ULong(fs[7]), ULong(fs[9]),
                     TickToMsec(ULong(fs[11]), sys.ticks), TickToMsec(ULong(fs[12]), sys.ticks),
                     StartTime(ULong(fs[15]), sys), ULong(fs[16]), ULong(fs[17]) * sys.pageSize % TWO64,
                     ToInt(ULong(fs[32])))
  {
    HeadFields(fs, end, line, sys);
    TailFields(fs, end, ParseHead(Spaced(fs, end), line, sys).0, sys);
  }

  /** Whatever the process is called, with spaces and parentheses in any number, the name is found
      whole (cut to 127 characters) and the fields after it keep their positions. */
  lemma StatSplit(pidText: string, name: string, fs: seq<string>, end: string, was: StatLine, sys: System)
    requires '(' !in pidText && ')' !in Spaced(fs, end)
    requires StatFields(fs) && EndsWord(end) && sys.ticks > 0
    ensures ParseStat(pidText + "(" + name + ")" + Spaced(fs, end), was, sys)
         == Ok(StatLine(Cut(name), fs[0][0], ToInt(ULong(fs[1])), ToInt(ULong(fs[4])), ULong(fs[7]), ULong(fs[9]),
                        TickToMsec(ULong(fs[11]), sys.ticks), TickToMsec(ULong(fs[12]), sys.ticks),
                        StartTime(ULong(fs[15]), sys), ULong(fs[16]), ULong(fs[17]) * sys.pageSize % TWO64,
                        ToInt(ULong(fs[32]))))
  {
    NameSplit(pidText, name, Spaced(fs, end), was, sys);
    FieldsSplit(fs, end, was.(name := Cut(name)), sys);
  }

  lemma NameSplit(pidText: string, name: string, rest: string, was: StatLine, sys: System)
    requires '(' !in pidText && ')' !in rest && sys.ticks > 0
    ensures ParseStat(pidText + "(" + name + ")" + rest, was, sys)
         == Ok(ParseFields(rest, was.(name := Cut(name)), sys))
  {
    Located(pidText, name, rest);
  }

  lemma Located(pidText: string, name: string, rest: string)
    requires '(' !in pidText && ')' !in rest
    ensures Locate(pidText + "(" + name + ")" + rest) == Some((name, rest))
  {
    var text := pidText + "(" + name + ")" + rest;
    assert text == pidText + ['('] + (name + ")" + rest);
    FirstIndexAt(pidText, '(', name + ")" + rest);
    var inner := text[|pidText| + 1..];
    assert inner == name + [')'] + rest;
    LastIndexAt(name, ')', rest);
    assert inner[..|name|] == name && inner[|name| + 1..] == rest;
  }

  /** The stored start time is the real one, that of field 22, exactly when fields 18 and 22 name
      the same whole second. */
  lemma StartTimeExact(fs: seq<string>, sys: System)
    requires |fs| >= 20 && sys.ticks > 0
    requires ULong(fs[15]) / sys.ticks + sys.bootTime < TWO64 / 1000 && ULong(fs[19]) / sys.ticks + sys.bootTime < TWO64 / 1000
    ensures StartTime(ULong(fs[15]), sys) == StartTime(ULong(fs[19]), sys)
            <==> ULong(fs[15]) / sys.ticks == ULong(fs[19]) / sys.ticks
  {
    SameSecond(ULong(fs[15]) / sys.ticks, ULong(fs[19]) / sys.ticks, sys.bootTime);
  }

  lemma SameSecond(a: nat, b: nat, bootTime: nat)
    requires a + bootTime < TWO64 / 1000 && b + bootTime < TWO64 / 1000
    ensures (a + bootTime) * 1000 % TWO64 == (b + bootTime) * 1000 % TWO64 <==> a == b
  {
  }
}
