/** `last_proc_stat`: one slot remembers the last `stat` line read, for whatever process. */
module ProcSlot {
  import opened Words
  import opened Text
  import opened ProcStat

  datatype Slot<D> = Slot(pid: int, mtime: int, data: D)

  predicate Hits<D>(s: Slot<D>, pid: int, now: int) {
    s.pid == pid && now - s.mtime < EXPIRE
  }

  /** Pid and time are stamped before the read, whether or not it succeeds. */
  function ReadSlot<D>(s: Slot<D>, pid: int, now: int, read: Result<D>): (Slot<D>, nat) {
    if Hits(s, pid, now) then (s, 0)
    else (Slot(pid, now, if read.Ok? then read.value else s.data), if read.Ok? then 0 else read.errno)
  }

  class ProcReader {
    var pid: int
    var mtime: int
    var line: StatLine

    ghost function Value(): Slot<StatLine>
      reads this
    {
      Slot(pid, mtime, line)
    }

    constructor (mtime: int, line: StatLine)
      ensures Value() == Slot(-1, mtime, line)
    {
      this.pid, this.mtime, this.line := -1, mtime, line;
    }

    /** The fields before the start time, stored one by one as the pointer moves. */
    method StoreHead(s: string, sys: System) returns (p: string)
      requires sys.ticks > 0
      modifies this`line
      ensures (line, p) == ParseHead(s, old(line), sys)
    {
      p := SkipSpace(s);
      line := line.(state := if p == [] then NUL else p[0]);
      p := SkipSpace(if p == [] then [] else p[1..]);
      var n := StrToUl(p);
      line := line.(ppid := ToInt(n.0));
      p := SkipMultiple(n.1, 2);
      n := StrToUl(p);
      line := line.(tty := ToInt(n.0));
      p := SkipMultiple(n.1, 2);
      n := StrToUl(p);
      line := line.(minorFaults := n.0);
      p := SkipTokenFrom(n.1);
      n := StrToUl(p);
      line := line.(majorFaults := n.0);
      p := SkipTokenFrom(n.1);
      n := StrToUl(p);
      line := line.(utime := TickToMsec(n.0, sys.ticks));
      n := StrToUl(n.1);
      line := line.(stime := TickToMsec(n.0, sys.ticks));
      p := n.1;
    }

    /** The start time and what follows it. */
    method StoreTail(s: string, sys: System)
      requires sys.ticks > 0
      modifies this`line
      ensures line == ParseTail(s, old(line), sys)
    {
      var p := SkipMultiple(s, 2);
      var n := StrToUl(p);
      line := line.(startTime := StartTime(n.0, sys));
      n := StrToUl(n.1);
      line := line.(vsize := n.0);
      n := StrToUl(n.1);
      line := line.(rss := n.0 * sys.pageSize % TWO64);
      p := SkipMultiple(n.1, 14);
      n := StrToUl(p);
      line := line.(processor := ToInt(n.0));
    }

    /** The name, then the fields behind it. */
    method StoreFields(name: string, rest: string, sys: System)
      requires sys.ticks > 0
      modifies this`line
      ensures line == ParseFields(rest, old(line).(name := name), sys)
    {
      line := line.(name := name);
      var p := StoreHead(rest, sys);
      StoreTail(p, sys);
    }

    /** `strchr` and `strrchr` for the parentheses. */
    static method FindName(text: string) returns (found: Option<(string, string)>)
      ensures found == Locate(text)
    {
      var open := FirstIndex(text, '(');
      if open == None {
        return None;
      }
      var inner := text[open.value + 1..];
      var close := LastIndex(inner, ')');
      if close == None {
        return None;
      }
      return Some((inner[..close.value], inner[close.value + 1..]));
    }

    /** Splits the text and stores what it finds; nothing is stored of a text without a name. */
    method Store(text: string, sys: System) returns (status: nat)
      requires sys.ticks > 0
      modifies this`line
      ensures match ParseStat(text, old(line), sys)
              case Ok(l) => status == 0 && line == l
              case Err(e) => status == e && line == old(line)
    {
      var found := FindName(text);
      if found == None {
        return EINVAL;
      }
      StoreFields(Cut(found.value.0), found.value.1, sys);
      return 0;
    }

    /** `proc_stat_read` on the content of the file. */
    method Read(pid: int, now: int, file: Result<string>, sys: System) returns (status: nat)
      requires sys.ticks > 0
      modifies this
      ensures var read := match file case Ok(text) => ParseStat(text, old(line), sys) case Err(e) => Err(e);
              (Value(), status) == ReadSlot(old(Value()), pid, now, read)
    {
      if this.pid == pid {
        if now - mtime < EXPIRE {
          return 0;
        }
      }
      this.pid := pid;
      mtime := now;
      match file {
        case Err(e) =>
          return e;
        case Ok(text) =>
          status := Store(text, sys);
      }
    }
  }

  // ---------------------------------------------------------------- whose data is in the slot

  /** Content labelled with the process and the time it was read for. */
  datatype Tagged<D> = Tagged(pid: int, time: int, content: D)

  datatype Call<D> = Call(pid: int, now: int, read: Result<Tagged<D>>)

  ghost predicate Labelled<D>(calls: seq<Call<D>>) {
    forall c :: c in calls && c.read.Ok? ==> c.read.value.pid == c.pid && c.read.value.time == c.now
  }

  predicate Truthful<D>(s: Slot<Tagged<D>>) {
    s.data.pid == s.pid && s.data.time == s.mtime
  }

  function Served<D>(s: Slot<Tagged<D>>, calls: seq<Call<D>>): Slot<Tagged<D>>
    decreases |calls|
  {
    if calls == [] then s else Served(ReadSlot(s, calls[0].pid, calls[0].now, calls[0].read).0, calls[1..])
  }

  /** Every call of the run that does not hit reads its file successfully. */
  predicate ReadsSucceed<D>(s: Slot<Tagged<D>>, calls: seq<Call<D>>)
    decreases |calls|
  {
    calls == [] ||
    (&& (Hits(s, calls[0].pid, calls[0].now) || calls[0].read.Ok?)
     && ReadsSucceed(ReadSlot(s, calls[0].pid, calls[0].now, calls[0].read).0, calls[1..]))
  }

  /** In a run whose reads succeed, however processes alternate, the last call leaves data that was
      read for its own process less than two seconds before. */
  lemma {:induction false} SlotIsFresh<D>(s: Slot<Tagged<D>>, calls: seq<Call<D>>)
    requires Labelled(calls) && ReadsSucceed(s, calls) && calls != []
    requires Truthful(s) || (forall c :: c in calls ==> c.pid != s.pid)
    ensures var last := calls[|calls| - 1];
            var r := Served(s, calls);
            r.pid == last.pid && r.data.pid == last.pid && last.now - r.data.time < 2
    decreases |calls|
  {
    var r := ReadSlot(s, calls[0].pid, calls[0].now, calls[0].read).0;
    assert calls[0] in calls && Truthful(r);
    if |calls| > 1 {
      assert forall c :: c in calls[1..] ==> c in calls;
      SlotIsFresh(r, calls[1..]);
    } else {
      assert calls[1..] == [];
    }
  }

  /** A call that has to read reports what became of the read. The next call for that process within two
      seconds succeeds without reading. It serves that process's data, and data less than two seconds old,
      exactly when the first read succeeded. */
  lemma ServedAfterRead<D>(s: Slot<Tagged<D>>, first: Call<D>, second: Call<D>)
    requires Truthful(s) && !Hits(s, first.pid, first.now) && Labelled([first])
    requires second.pid == first.pid && first.now <= second.now < first.now + 2
    ensures var (r, was) := ReadSlot(s, first.pid, first.now, first.read);
            var (t, status) := ReadSlot(r, second.pid, second.now, second.read);
            && was == (if first.read.Ok? then 0 else first.read.errno)
            && status == 0 && (t.data.pid == second.pid && second.now - t.data.time < 2 <==> first.read.Ok?)
  {
    assert first in [first];
  }

  /** One failed read is enough, for another process: its calls are served what was read for the process
      before it. */
  lemma FailedReadServesAnother<D>(content: D, errno: Errno)
    ensures var r := ReadSlot(Slot(7, 0, Tagged(7, 0, content)), 8, 1, Err(errno)).0;
            var (t, status) := ReadSlot(r, 8, 2, Err(errno));
            status == 0 && t.data.pid == 7
  {
  }

  /** And for the same one: a process that has exited is reported by data six seconds old. */
  lemma FailedReadServesStale<D>(content: D, errno: Errno)
    ensures var r := ReadSlot(Slot(7, 0, Tagged(7, 0, content)), 7, 5, Err(errno)).0;
            var (t, status) := ReadSlot(r, 7, 6, Err(errno));
            status == 0 && t.data.pid == 7 && 6 - t.data.time == 6
  {
  }
}
