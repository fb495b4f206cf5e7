/** The per-process CPU meter: `sysm_proc_cpu_get` over the expiring cache of previous readings. */
module ProcCpu {
  import opened Words
  import opened CacheTable
  import opened CacheRefinement
  import opened CacheRuns
  import opened NativeCache
  import opened Text
  import opened ProcStat
  import opened ProcSlot

  const CLEANUP_PERIOD: nat := 1000 * 60 * 10
  const EXPIRE_PERIOD: nat := 1000 * 60 * 20
  const CACHE_SIZE: nat := 128

  /** `sysm_proc_cpu_t`; its first four fields are `sysm_proc_time_t`. */
  datatype Record = Record(startTime: nat, user: nat, sys: nat, total: nat, lastTime: nat, percent: real)

  datatype Times = Times(startTime: nat, user: nat, sys: nat, total: nat)

  const ZERO: Record := Record(0, 0, 0, 0, 0, 0.0)

  /** One call: what was cached, what is cached, the status, and what the caller's buffer holds.
      The cached copy is taken before the percentage is computed, so its `percent` is whatever the
      caller's buffer held. */
  datatype Outcome = Outcome(cached: Record, status: nat, result: Record)

  function Measure(prev: Record, now: nat, reading: Result<Times>, buffer: Record): Outcome {
    var diff := Elapsed(now, prev.lastTime);
    var stamped := prev.(lastTime := now);
    if diff == 0 then Outcome(stamped, 0, stamped)
    else match reading
      case Err(e) => Outcome(stamped, e, buffer.(lastTime := now))
      case Ok(t) =>
        var copied := Record(t.startTime, t.user, t.sys, t.total, now, buffer.percent);
        Outcome(copied, 0, WithPercent(copied, prev.total, diff))
  }

  /** A first reading, or one below the previous total, gives no percentage. */
  function WithPercent(r: Record, before: nat, diff: nat): Record
    requires diff > 0
  {
    var otime := if r.total < before then 0 else before;
    r.(percent := if otime == 0 then 0.0 else (r.total - otime) as real / diff as real)
  }

  /** A call in the same millisecond repeats the reading with the percentage of the earlier buffer;
      it repeats the earlier result exactly when that buffer already held it. */
  lemma SameMillisecond(prev: Record, now: nat, t: Times, buffer: Record, again: Result<Times>, buffer2: Record)
    requires Elapsed(now, prev.lastTime) != 0
    ensures var first := Measure(prev, now, Ok(t), buffer);
            var second := Measure(first.cached, now, again, buffer2);
            && second.status == 0
            && second.result == first.result.(percent := buffer.percent)
            && (second.result == first.result <==> buffer.percent == first.result.percent)
  {
    assert Elapsed(now, now) == 0;
  }

  /** A call that succeeds in a later millisecond gives the times that were read, and keeps them. */
  lemma MeasureCopies(prev: Record, now: nat, t: Times, buffer: Record)
    requires Elapsed(now, prev.lastTime) != 0
    ensures var o := Measure(prev, now, Ok(t), buffer);
            && o.status == 0 && o.result.lastTime == now && o.result == o.cached.(percent := o.result.percent)
            && o.result.startTime == t.startTime && o.result.user == t.user && o.result.sys == t.sys && o.result.total == t.total
  {
  }

  /** A failed reading reports its error and stamps the time all the same. The next success sets the rise since
      the last success against the time since the failure alone, so that its percentage is too high unless
      nothing has risen. */
  lemma AfterFailure(prev: Record, failed: nat, errno: Errno, buffer: Record, now: nat, t: Times, buffer2: Record)
    requires prev.lastTime < failed < now < TWO64 && 0 < prev.total <= t.total
    ensures var f := Measure(prev, failed, Err(errno), buffer);
            var rise, percent := (t.total - prev.total) as real, Measure(f.cached, now, Ok(t), buffer2).result.percent;
            && f.status == errno && f.cached == prev.(lastTime := failed) && f.result == buffer.(lastTime := failed)
            && percent * (now - failed) as real == rise
            && rise / (now - prev.lastTime) as real <= percent
            && (rise / (now - prev.lastTime) as real == percent <==> t.total == prev.total)
  {
    ShorterInterval(t.total - prev.total, now - failed, now - prev.lastTime);
  }

  lemma ShorterInterval(rise: nat, short: nat, long: nat)
    requires 0 < short < long
    ensures var r, s, l := rise as real, short as real, long as real;
            r / s * s == r && r / l <= r / s && (r / l == r / s <==> rise == 0)
  {
    var r, s, l := rise as real, short as real, long as real;
    var q := r / l;
    assert r / s * s == r && q * l == r;
    assert r / s - q == q * (l - s) / s;
    if rise > 0 {
      assert q > 0.0;
      assert q * (l - s) > 0.0;
    } else {
      assert q == 0.0 && r / s == 0.0;
    }
  }

  /** The busy time that one successful call reports: its percentage times the interval. */
  function Reported(prev: Record, now: nat, o: Outcome): real {
    if o.status == 0 then o.result.percent * (Elapsed(now, prev.lastTime) as real) else 0.0
  }

  /** A call reports the rise of the total since the previous success, unless there was none
      before or the total dropped. */
  lemma ReportedIsRise(prev: Record, now: nat, reading: Result<Times>, buffer: Record)
    ensures var o := Measure(prev, now, reading, buffer);
            Reported(prev, now, o) ==
              if prev.total == 0 || o.cached.total < prev.total then 0.0 else (o.cached.total - prev.total) as real
  {
    var diff := Elapsed(now, prev.lastTime) as real;
    var o := Measure(prev, now, reading, buffer);
    if diff == 0.0 {
      assert o.result.percent * diff == 0.0;
    } else if reading.Ok? {
      PercentTimes(o.cached, prev.total, Elapsed(now, prev.lastTime));
    }
  }

  lemma PercentTimes(r: Record, before: nat, diff: nat)
    requires diff > 0
    ensures WithPercent(r, before, diff).percent * diff as real
         == if before == 0 || r.total < before then 0.0 else (r.total - before) as real
  {
    var rise := (r.total - before) as real;
    assert rise / diff as real * diff as real == rise;
  }

  // ---------------------------------------------------------------- runs over interleaved processes

  /** A call of the meter: which process, the clock of the measurement, the two clock readings of
      the cache, the reading of the `stat` file, the caller's buffer, and the entry a miss makes. */
  datatype Sample<N> = Sample(pid: nat, now: nat, check: nat, stamp: nat, reading: Result<Times>, buffer: Record, node: N)

  /** The record that the table holds for `pid`. */
  ghost function RecordIn<N>(t: Table<N, Record>, pid: nat): Record
    requires |t.buckets| > 0
  {
    var c := Lookup(t.buckets, pid);
    if c.Some? && c.value.value.Some? then c.value.value.value else ZERO
  }

  ghost function Fetched<N>(cfg: Config, t: Table<N, Record>, c: Sample<N>): (g: Table<N, Record>)
    requires Inv(t)
    ensures Inv(g)
  {
    GetRefines(cfg, t, c.pid, c.check, c.stamp, c.node);
    Get(cfg, t, c.pid, c.check, c.stamp, c.node)
  }

  ghost function CallOutcome<N>(cfg: Config, t: Table<N, Record>, c: Sample<N>): Outcome
    requires Inv(t)
  {
    Measure(RecordIn(Fetched(cfg, t, c), c.pid), c.now, c.reading, c.buffer)
  }

  ghost function CallTable<N>(cfg: Config, t: Table<N, Record>, c: Sample<N>): (r: Table<N, Record>)
    requires Inv(t)
    ensures Inv(r)
  {
    StoreRefines(Fetched(cfg, t, c), c.pid, CallOutcome(cfg, t, c).cached);
    Store(Fetched(cfg, t, c), c.pid, CallOutcome(cfg, t, c).cached)
  }

  ghost function Final<N>(cfg: Config, t: Table<N, Record>, calls: seq<Sample<N>>): (r: Table<N, Record>)
    requires Inv(t)
    ensures Inv(r)
    decreases |calls|
  {
    if calls == [] then t else Final(cfg, CallTable(cfg, t, calls[0]), calls[1..])
  }

  /** The record of `pid` is neither evicted nor lost during the run: every `get` leaves it. */
  ghost predicate Kept<N>(cfg: Config, t: Table<N, Record>, calls: seq<Sample<N>>, pid: nat)
    requires Inv(t)
    decreases |calls|
  {
    calls == [] ||
    (&& RecordIn(Fetched(cfg, t, calls[0]), pid) == RecordIn(t, pid)
     && Kept(cfg, CallTable(cfg, t, calls[0]), calls[1..], pid))
  }

  /** Sum of percentage times interval over the successful calls for `pid`. */
  ghost function Busy<N>(cfg: Config, t: Table<N, Record>, calls: seq<Sample<N>>, pid: nat): real
    requires Inv(t)
    decreases |calls|
  {
    if calls == [] then 0.0
    else
      (if calls[0].pid == pid then
         Reported(RecordIn(Fetched(cfg, t, calls[0]), pid), calls[0].now, CallOutcome(cfg, t, calls[0]))
       else 0.0)
      + Busy(cfg, CallTable(cfg, t, calls[0]), calls[1..], pid)
  }

  /** The totals read for `pid`, from `total` on, are positive and never drop. */
  ghost predicate Rising<N>(total: nat, calls: seq<Sample<N>>, pid: nat)
    decreases |calls|
  {
    calls == [] ||
    if calls[0].pid == pid && calls[0].reading.Ok?
    then 0 < calls[0].reading.value.total && total <= calls[0].reading.value.total
         && Rising(calls[0].reading.value.total, calls[1..], pid)
    else Rising(total, calls[1..], pid)
  }

  /** Where the series starts: the total already cached, or else the first one measured. */
  ghost function Baseline<N>(cfg: Config, t: Table<N, Record>, calls: seq<Sample<N>>, pid: nat): nat
    requires Inv(t)
    decreases |calls|
  {
    if RecordIn(t, pid).total > 0 || calls == [] then RecordIn(t, pid).total
    else Baseline(cfg, CallTable(cfg, t, calls[0]), calls[1..], pid)
  }

  lemma StoredRecord<N>(t: Table<N, Record>, pid: nat, record: Record, other: nat)
    requires Inv(t) && Lookup(t.buckets, pid).Some?
    ensures Inv(Store(t, pid, record))
    ensures RecordIn(Store(t, pid, record), other) == if other == pid then record else RecordIn(t, other)
  {
    StoreRefines(t, pid, record);
    LookupIsIndex(t, pid);
    LookupIsIndex(t, other);
    LookupIsIndex(Store(t, pid, record), other);
  }

  lemma FetchedHas<N>(cfg: Config, t: Table<N, Record>, c: Sample<N>)
    requires Inv(t)
    ensures Lookup(Fetched(cfg, t, c).buckets, c.pid).Some?
  {
    CleanupRefines(cfg, t, c.check);
    ObtainRefines(cfg, Cleanup(cfg, t, c.check), c.pid, c.stamp, c.node);
    LookupIsIndex(Fetched(cfg, t, c), c.pid);
  }

  lemma CallRecord<N>(cfg: Config, t: Table<N, Record>, c: Sample<N>, pid: nat)
    requires Inv(t)
    ensures RecordIn(CallTable(cfg, t, c), pid)
         == if pid == c.pid then CallOutcome(cfg, t, c).cached else RecordIn(Fetched(cfg, t, c), pid)
  {
    FetchedHas(cfg, t, c);
    StoredRecord(Fetched(cfg, t, c), c.pid, CallOutcome(cfg, t, c).cached, pid);
  }

  /** Telescoping, as written or completed: however calls for other processes, failures and repeated calls
      are interleaved, the busy time reported for `pid` is its last total minus the first. */
  lemma {:induction false} MeterTelescopes<N>(cfg: Config, t: Table<N, Record>, calls: seq<Sample<N>>, pid: nat)
    requires Inv(t) && Kept(cfg, t, calls, pid) && Rising(RecordIn(t, pid).total, calls, pid)
    ensures Busy(cfg, t, calls, pid) == (RecordIn(Final(cfg, t, calls), pid).total - Baseline(cfg, t, calls, pid)) as real
    ensures RecordIn(Final(cfg, t, calls), pid).total >= RecordIn(t, pid).total
    decreases |calls|
  {
    if calls != [] {
      var c := calls[0];
      var t' := CallTable(cfg, t, c);
      CallRecord(cfg, t, c, pid);
      ReportedIsRise(RecordIn(t, pid), c.now, c.reading, c.buffer);
      StillRising(RecordIn(t, pid).total, RecordIn(t', pid).total, calls, pid);
      MeterTelescopes(cfg, t', calls[1..], pid);
    }
  }

  lemma {:induction false} RisingFromBelow<N>(low: nat, total: nat, calls: seq<Sample<N>>, pid: nat)
    requires low <= total && Rising(total, calls, pid)
    ensures Rising(low, calls, pid)
    decreases |calls|
  {
    if calls != [] && !(calls[0].pid == pid && calls[0].reading.Ok?) {
      RisingFromBelow(low, total, calls[1..], pid);
    }
  }

  lemma StillRising<N>(total: nat, after: nat, calls: seq<Sample<N>>, pid: nat)
    requires calls != [] && Rising(total, calls, pid)
    requires after == total || (calls[0].pid == pid && calls[0].reading.Ok? && after == calls[0].reading.value.total)
    ensures Rising(after, calls[1..], pid) && after >= total
  {
    if calls[0].pid == pid && calls[0].reading.Ok? {
      RisingFromBelow(after, calls[0].reading.value.total, calls[1..], pid);
    }
  }

  // ---------------------------------------------------------------- when a record is kept

  /** One call leaves a record that is there exactly when the cleanup period has not passed or the record is
      not expired, and no rehash of the call loses entries. */
  lemma KeptExact<N>(cfg: Config, t: Table<N, Record>, c: Sample<N>, pid: nat)
    requires Inv(t) && RecordIn(t, pid) != ZERO
    ensures pid in IndexOf(t).cells
    ensures RecordIn(Fetched(cfg, t, c), pid) == RecordIn(t, pid)
            <==> (cfg.cleanupPeriod == 0xFFFF_FFFF_FFFF_FFFF || Elapsed(c.check, t.lastCleanup) < cfg.cleanupPeriod
                  || Elapsed(c.check, IndexOf(t).cells[pid].access) <= cfg.expirePeriod) && !GetLoses(cfg, t, c.pid, c.check)
  {
    LookupIsIndex(t, pid);
    LookupIsIndex(Fetched(cfg, t, c), pid);
    var op := OpGet(c.pid, c.check, c.stamp, c.node);
    StepRefines(cfg, t, op);
    if GetLoses(cfg, t, c.pid, c.check) {
      LosingStep(cfg, t, op);
    }
  }

  /** The meter forgets no process within ten minutes of its last cleanup, and none that was measured within
      the last twenty, unless a rehash loses entries. */
  lemma TenAndTwentyMinutes<N>(t: Table<N, Record>, headStored: bool, c: Sample<N>, pid: nat)
    requires Inv(t) && RecordIn(t, pid) != ZERO
    ensures var cfg := Config(CLEANUP_PERIOD, EXPIRE_PERIOD, headStored);
            && pid in IndexOf(t).cells
            && (RecordIn(Fetched(cfg, t, c), pid) == RecordIn(t, pid) <==>
                  && (Elapsed(c.check, t.lastCleanup) < 600_000 || Elapsed(c.check, IndexOf(t).cells[pid].access) <= 1_200_000)
                  && !GetLoses(cfg, t, c.pid, c.check))
  {
    KeptExact(Config(CLEANUP_PERIOD, EXPIRE_PERIOD, headStored), t, c, pid);
  }

  /** A process measured at least every `EXPIRE_PERIOD`, by a clock that does not step back. */
  ghost predicate Regular<N>(cfg: Config, now: nat, access: nat, calls: seq<Sample<N>>, pid: nat)
    decreases |calls|
  {
    calls == [] ||
    (&& now <= calls[0].check <= calls[0].stamp < TWO64
     && calls[0].check <= access + cfg.expirePeriod
     && Regular(cfg, calls[0].stamp, if calls[0].pid == pid then calls[0].stamp else access, calls[1..], pid))
  }

  ghost predicate NoCallLoses<N>(cfg: Config, t: Table<N, Record>, calls: seq<Sample<N>>)
    requires Inv(t)
    decreases |calls|
  {
    calls == [] ||
    (!GetLoses(cfg, t, calls[0].pid, calls[0].check) && NoCallLoses(cfg, CallTable(cfg, t, calls[0]), calls[1..]))
  }

  lemma KeptCall<N>(cfg: Config, t: Table<N, Record>, c: Sample<N>, now: nat, pid: nat)
    requires Inv(t) && pid in IndexOf(t).cells && IndexOf(t).cells[pid].access <= now <= c.check <= c.stamp < TWO64
    requires c.check <= IndexOf(t).cells[pid].access + cfg.expirePeriod && !GetLoses(cfg, t, c.pid, c.check)
    ensures RecordIn(Fetched(cfg, t, c), pid) == RecordIn(t, pid)
    ensures pid in IndexOf(CallTable(cfg, t, c)).cells
    ensures IndexOf(CallTable(cfg, t, c)).cells[pid].access == if c.pid == pid then c.stamp else IndexOf(t).cells[pid].access
  {
    var g := Fetched(cfg, t, c);
    GetRefines(cfg, t, c.pid, c.check, c.stamp, c.node);
    LookupIsIndex(t, pid);
    LookupIsIndex(g, pid);
    StoreRefines(g, c.pid, CallOutcome(cfg, t, c).cached);
  }

  /** Such a process keeps its record while no rehash loses entries. */
  lemma {:induction false} RegularKept<N>(cfg: Config, t: Table<N, Record>, now: nat, calls: seq<Sample<N>>, pid: nat)
    requires Inv(t) && pid in IndexOf(t).cells && IndexOf(t).cells[pid].access <= now < TWO64
    requires Regular(cfg, now, IndexOf(t).cells[pid].access, calls, pid) && NoCallLoses(cfg, t, calls)
    ensures Kept(cfg, t, calls, pid)
    decreases |calls|
  {
    if calls != [] {
      KeptCall(cfg, t, calls[0], now, pid);
      RegularKept(cfg, CallTable(cfg, t, calls[0]), calls[0].stamp, calls[1..], pid);
    }
  }

  // ---------------------------------------------------------------- writing a record

  /** A second write to the same entry hides the first. */
  lemma StoreTwice<N>(t: Table<N, Record>, id: nat, first: Record, second: Record)
    requires |t.buckets| > 0
    ensures Store(Store(t, id, first), id, second) == Store(t, id, second)
  {
    SetTwice(t.buckets[id % |t.buckets|], id, first, second);
  }

  lemma {:induction false} SetTwice<N>(cs: Chain<N, Record>, id: nat, first: Record, second: Record)
    ensures SetValue(SetValue(cs, id, first), id, second) == SetValue(cs, id, second)
  {
    if cs != [] && cs[0].id != id {
      SetTwice(cs[1..], id, first, second);
      assert SetValue(cs, id, first)[1..] == SetValue(cs[1..], id, first);
    }
  }

  /** A reading of the times of `pid`, through the slot. */
  function ReadTimes(slot: Slot<StatLine>, pid: nat, sec: int, file: Result<string>, sys: System): (Slot<StatLine>, Result<Times>)
    requires sys.ticks > 0
  {
    var read := match file case Ok(text) => ParseStat(text, slot.data, sys) case Err(e) => Err(e);
    var (after, status) := ReadSlot(slot, pid, sec, read);
    var d := after.data;
    (after, if status != 0 then Err(status) else Ok(Times(d.startTime, d.utime, d.stime, d.utime + d.stime)))
  }

  // ---------------------------------------------------------------- down to the text of the file

  /** A line of `/proc/<pid>/stat`: the pid, the name in parentheses, and the fields behind it. */
  datatype Printed = Printed(pidText: string, name: string, fields: seq<string>, end: string)

  predicate IsPrinted(p: Printed) {
    '(' !in p.pidText && ')' !in Spaced(p.fields, p.end) && StatFields(p.fields) && EndsWord(p.end)
  }

  function LineText(p: Printed): string {
    p.pidText + "(" + p.name + ")" + Spaced(p.fields, p.end)
  }

  /** The times on a line in milliseconds: fields 14 and 15 of the file are the twelfth and thirteenth behind
      the name, in ticks. */
  function UserMsec(p: Printed, sys: System): nat
    requires |p.fields| > 12 && sys.ticks > 0
  {
    ULong(p.fields[11]) * 1000 / sys.ticks
  }

  function SysMsec(p: Printed, sys: System): nat
    requires |p.fields| > 12 && sys.ticks > 0
  {
    ULong(p.fields[12]) * 1000 / sys.ticks
  }

  /** What the meter reads from a printed line, when the slot has to read it. */
  lemma PrintedTimes(slot: Slot<StatLine>, pid: nat, sec: int, p: Printed, sys: System)
    requires IsPrinted(p) && sys.ticks > 0 && !Hits(slot, pid, sec)
    ensures var r := ReadTimes(slot, pid, sec, Ok(LineText(p)), sys).1;
            && r.Ok? && r.value.user == UserMsec(p, sys) && r.value.sys == SysMsec(p, sys)
            && r.value.total == UserMsec(p, sys) + SysMsec(p, sys)
            && r.value.startTime == StartTime(ULong(p.fields[15]), sys)
  {
    StatSplit(p.pidText, p.name, p.fields, p.end, slot.data, sys);
  }

  /** `times` is what the meter reads from the line `p`, in some second. */
  ghost predicate ReadFrom(times: Times, p: Printed, sys: System) {
    && IsPrinted(p) && sys.ticks > 0
    && exists slot: Slot<StatLine>, pid: nat, sec: int ::
         !Hits(slot, pid, sec) && Ok(times) == ReadTimes(slot, pid, sec, Ok(LineText(p)), sys).1
  }

  lemma ReadFromLine(times: Times, p: Printed, sys: System)
    requires ReadFrom(times, p, sys)
    ensures |p.fields| > 12 && sys.ticks > 0
    ensures times.user == UserMsec(p, sys) && times.sys == SysMsec(p, sys) && times.total == UserMsec(p, sys) + SysMsec(p, sys)
  {
    var slot: Slot<StatLine>, pid: nat, sec: int :|
      !Hits(slot, pid, sec) && Ok(times) == ReadTimes(slot, pid, sec, Ok(LineText(p)), sys).1;
    PrintedTimes(slot, pid, sec, p, sys);
  }

  /** The call of the run takes a reading for `pid`: it is for that process, not a repeat in the same
      millisecond, and succeeds. */
  ghost predicate Takes<N>(cfg: Config, t: Table<N, Record>, c: Sample<N>, pid: nat)
    requires Inv(t)
  {
    c.pid == pid && c.reading.Ok? && Elapsed(c.now, RecordIn(Fetched(cfg, t, c), pid).lastTime) != 0
  }

  /** The readings taken for `pid`, in order. */
  ghost function Taken<N>(cfg: Config, t: Table<N, Record>, calls: seq<Sample<N>>, pid: nat): seq<Times>
    requires Inv(t)
    decreases |calls|
  {
    if calls == [] then []
    else
      (if Takes(cfg, t, calls[0], pid) then [calls[0].reading.value] else [])
      + Taken(cfg, CallTable(cfg, t, calls[0]), calls[1..], pid)
  }

  /** From `was` on the totals are positive and never drop. */
  predicate RisingFrom(was: nat, xs: seq<Times>)
    decreases |xs|
  {
    xs == [] || (0 < xs[0].total && was <= xs[0].total && RisingFrom(xs[0].total, xs[1..]))
  }

  /** How far the totals rise: from `was`, if that is a total read before, or else from the first one. */
  function Rise(was: nat, xs: seq<Times>): int {
    if xs == [] then 0 else xs[|xs| - 1].total - if was > 0 then was else xs[0].total
  }

  lemma RiseStep(was: nat, x: Times, xs: seq<Times>)
    requires RisingFrom(was, [x] + xs)
    ensures RisingFrom(x.total, xs) && 0 < x.total && was <= x.total
    ensures Rise(was, [x] + xs) == (if was == 0 then 0 else x.total - was) + Rise(x.total, xs)
  {
    assert ([x] + xs)[1..] == xs;
  }

  /** What one call adds to the busy time: the rise since the total before, if there was one. */
  ghost function Gain<N>(cfg: Config, t: Table<N, Record>, c: Sample<N>, pid: nat): int
    requires Inv(t)
  {
    if Takes(cfg, t, c, pid) && RecordIn(t, pid).total > 0 then c.reading.value.total - RecordIn(t, pid).total else 0
  }

  lemma TakenBusy<N>(cfg: Config, t: Table<N, Record>, c: Sample<N>, pid: nat)
    requires Inv(t) && RecordIn(Fetched(cfg, t, c), pid) == RecordIn(t, pid)
    requires Takes(cfg, t, c, pid) ==> RecordIn(t, pid).total <= c.reading.value.total
    ensures RecordIn(CallTable(cfg, t, c), pid).total
         == if Takes(cfg, t, c, pid) then c.reading.value.total else RecordIn(t, pid).total
    ensures c.pid == pid ==> Reported(RecordIn(t, pid), c.now, CallOutcome(cfg, t, c)) == Gain(cfg, t, c, pid) as real
    ensures c.pid != pid ==> Gain(cfg, t, c, pid) == 0
  {
    CallRecord(cfg, t, c, pid);
    if c.pid == pid {
      ReportedIsRise(RecordIn(t, pid), c.now, c.reading, c.buffer);
    }
  }

  lemma TakenUnfold<N>(cfg: Config, t: Table<N, Record>, calls: seq<Sample<N>>, pid: nat)
    requires Inv(t) && calls != []
    ensures var rest := Taken(cfg, CallTable(cfg, t, calls[0]), calls[1..], pid);
            Taken(cfg, t, calls, pid) == if Takes(cfg, t, calls[0], pid) then [calls[0].reading.value] + rest else rest
  {
    var rest := Taken(cfg, CallTable(cfg, t, calls[0]), calls[1..], pid);
    assert [] + rest == rest;
  }

  lemma BusyUnfold<N>(cfg: Config, t: Table<N, Record>, calls: seq<Sample<N>>, pid: nat)
    requires Inv(t) && calls != [] && RecordIn(Fetched(cfg, t, calls[0]), pid) == RecordIn(t, pid)
    requires Takes(cfg, t, calls[0], pid) ==> RecordIn(t, pid).total <= calls[0].reading.value.total
    ensures Busy(cfg, t, calls, pid)
         == Gain(cfg, t, calls[0], pid) as real + Busy(cfg, CallTable(cfg, t, calls[0]), calls[1..], pid)
  {
    TakenBusy(cfg, t, calls[0], pid);
  }

  lemma TakenStep<N>(cfg: Config, t: Table<N, Record>, calls: seq<Sample<N>>, pid: nat)
    requires Inv(t) && calls != [] && RecordIn(Fetched(cfg, t, calls[0]), pid) == RecordIn(t, pid)
    requires RisingFrom(RecordIn(t, pid).total, Taken(cfg, t, calls, pid))
    ensures var r := CallTable(cfg, t, calls[0]);
            var after, rest := RecordIn(r, pid).total, Taken(cfg, r, calls[1..], pid);
            && RisingFrom(after, rest)
            && Rise(RecordIn(t, pid).total, Taken(cfg, t, calls, pid)) == Gain(cfg, t, calls[0], pid) + Rise(after, rest)
    ensures Takes(cfg, t, calls[0], pid) ==> RecordIn(t, pid).total <= calls[0].reading.value.total
  {
    TakenUnfold(cfg, t, calls, pid);
    if Takes(cfg, t, calls[0], pid) {
      RiseStep(RecordIn(t, pid).total, calls[0].reading.value, Taken(cfg, CallTable(cfg, t, calls[0]), calls[1..], pid));
    }
    TakenBusy(cfg, t, calls[0], pid);
  }

  /** The busy time of a kept process is the rise of the totals taken for it. */
  lemma {:induction false} TakenTelescopes<N>(cfg: Config, t: Table<N, Record>, calls: seq<Sample<N>>, pid: nat)
    requires Inv(t) && Kept(cfg, t, calls, pid) && RisingFrom(RecordIn(t, pid).total, Taken(cfg, t, calls, pid))
    ensures Busy(cfg, t, calls, pid) == Rise(RecordIn(t, pid).total, Taken(cfg, t, calls, pid)) as real
    decreases |calls|
  {
    if calls != [] {
      TakenStep(cfg, t, calls, pid);
      BusyUnfold(cfg, t, calls, pid);
      TakenTelescopes(cfg, CallTable(cfg, t, calls[0]), calls[1..], pid);
    }
  }

  /** Each reading comes from the line that stands beside it. */
  ghost predicate AllFrom(xs: seq<Times>, lines: seq<Printed>, sys: System) {
    |lines| == |xs| && forall i :: 0 <= i < |xs| ==> ReadFrom(xs[i], lines[i], sys)
  }

  /** How far field 14 plus field 15 rises, in milliseconds, from the first line to the last. */
  function TextRise(lines: seq<Printed>, sys: System): int
    requires sys.ticks > 0 && forall i :: 0 <= i < |lines| ==> |lines[i].fields| > 12
  {
    if lines == [] then 0
    else
      var first, last := lines[0], lines[|lines| - 1];
      UserMsec(last, sys) + SysMsec(last, sys) - UserMsec(first, sys) - SysMsec(first, sys)
  }

  lemma RiseOfLines(xs: seq<Times>, lines: seq<Printed>, sys: System)
    requires sys.ticks > 0 && AllFrom(xs, lines, sys)
    ensures forall i :: 0 <= i < |lines| ==> |lines[i].fields| > 12
    ensures Rise(0, xs) == TextRise(lines, sys)
  {
    forall i | 0 <= i < |lines| ensures |lines[i].fields| > 12 && xs[i].total == UserMsec(lines[i], sys) + SysMsec(lines[i], sys) {
      ReadFromLine(xs[i], lines[i], sys);
    }
  }

  /** Telescoping down to the texts: over any interleaving of calls, the sum of percentage times interval for
      a process first measured in the run is the rise of field 14 plus field 15, in milliseconds, from the
      first line that is read for it to the last. */
  lemma TextTelescopes<N>(cfg: Config, t: Table<N, Record>, calls: seq<Sample<N>>, lines: seq<Printed>, pid: nat, sys: System)
    requires sys.ticks > 0 && Inv(t) && Kept(cfg, t, calls, pid) && RecordIn(t, pid) == ZERO
    requires AllFrom(Taken(cfg, t, calls, pid), lines, sys) && RisingFrom(0, Taken(cfg, t, calls, pid))
    ensures forall i :: 0 <= i < |lines| ==> |lines[i].fields| > 12
    ensures Busy(cfg, t, calls, pid) == TextRise(lines, sys) as real
  {
    TakenTelescopes(cfg, t, calls, pid);
    RiseOfLines(Taken(cfg, t, calls, pid), lines, sys);
  }

  /** The rehash as written, in a meter of the initial size: a due cleanup that leaves between 1 and
      31 processes forgets them all, and only then does it differ from the plain map. */
  lemma LiteralMeterForgets<N>(t: Table<N, Record>, now: nat)
    requires Inv(t) && Tight(t) && |t.buckets| == CACHE_SIZE && CleanupDue(Config(CLEANUP_PERIOD, EXPIRE_PERIOD, false), t.lastCleanup, now)
    ensures var cfg := Config(CLEANUP_PERIOD, EXPIRE_PERIOD, false);
            var kept := IndexCleanup(cfg, IndexOf(t), now).cells;
            |Cleanup(cfg, t, now).buckets| > 0
            && IndexOf(Cleanup(cfg, t, now)).cells == if 0 < |kept| < 32 then map[] else kept
  {
    var cfg := Config(CLEANUP_PERIOD, EXPIRE_PERIOD, false);
    CleanupRefines(cfg, t, now);
    SweptRefines(cfg, t, now);
    SizeOfIndex(Swept(cfg, t, now));
  }

  // ---------------------------------------------------------------- the code

  class ProcMeter {
    var procCpu: Cache?<Record>
    const reader: ProcReader
    const headStored: bool

    ghost function Footprint(): set<object?>
      reads this, procCpu
    {
      if procCpu == null then {} else {procCpu, procCpu.entries} + procCpu.Repr
    }

    ghost predicate Valid()
      reads this, Footprint()
    {
      procCpu != null ==>
        procCpu.Valid() && procCpu.cfg == Config(CLEANUP_PERIOD, EXPIRE_PERIOD, headStored)
    }

    constructor (reader: ProcReader, headStored: bool)
      ensures Valid() && procCpu == null && this.reader == reader && this.headStored == headStored
    {
      procCpu := null;
      this.reader := reader;
      this.headStored := headStored;
    }

    /** `sysm_proc_time_get`. */
    method TimeGet(pid: nat, sec: int, file: Result<string>, sys: System) returns (r: Result<Times>)
      requires sys.ticks > 0
      modifies reader
      ensures (reader.Value(), r) == ReadTimes(old(reader.Value()), pid, sec, file, sys)
      ensures r.Ok? ==> r.value.user == reader.line.utime && r.value.sys == reader.line.stime
                        && r.value.total == r.value.user + r.value.sys && r.value.startTime == reader.line.startTime
    {
      var status := reader.Read(pid, sec, file, sys);
      if status != 0 {
        return Err(status);
      }
      var l := reader.line;
      return Ok(Times(l.startTime, l.utime, l.stime, l.utime + l.stime));
    }

    method Open(now: nat)
      requires Valid()
      modifies this
      ensures Valid() && procCpu != null && procCpu.table == old(TableBefore(now))
      ensures old(procCpu) != null ==> procCpu == old(procCpu)
      ensures old(procCpu) == null ==> fresh(Footprint())
    {
      if procCpu == null {
        procCpu := new Cache<Record>(CACHE_SIZE, CLEANUP_PERIOD, EXPIRE_PERIOD, headStored, now);
      }
    }

    /** The table before a call, whether or not the cache exists yet. */
    ghost function TableBefore(now: nat): Table<Entry<Record>, Record>
      reads this, procCpu
    {
      if procCpu == null then NewTable(CACHE_SIZE, now) else procCpu.table
    }

    /** Writes the cached record. */
    method Save(entry: Entry<Record>, record: Record)
      requires Valid() && procCpu != null && entry in procCpu.Repr && procCpu.Owns(entry)
      modifies procCpu`table, entry`value, entry`access
      ensures Valid() && procCpu.Owns(entry) && entry.value == Some(record)
      ensures procCpu.table == Store(old(procCpu.table), entry.id, record)
    {
      procCpu.Write(entry, record);
    }

    /** Makes the zero record of a new entry, and stamps the time of the call. */
    method Stamp(entry: Entry<Record>, now: nat) returns (prev: Record, diff: nat)
      requires Valid() && procCpu != null && entry in procCpu.Repr && procCpu.Owns(entry)
      modifies procCpu`table, entry`value, entry`access
      ensures Valid() && procCpu.Owns(entry)
      ensures var was := if old(entry.value).Some? then old(entry.value).value else ZERO;
              && prev == was.(lastTime := now) && diff == Elapsed(now, was.lastTime)
      ensures procCpu.table == Store(old(procCpu.table), entry.id, prev)
    {
      prev := ZERO;
      ghost var t := procCpu.table;
      if entry.value.Some? {
        prev := entry.value.value;
      } else {
        Save(entry, prev);
      }
      diff := Elapsed(now, prev.lastTime);
      StoreTwice(t, entry.id, prev, prev.(lastTime := now));
      prev := prev.(lastTime := now);
      Save(entry, prev);
    }

    /** Reads the times and keeps them before the percentage is known. */
    method Reread(entry: Entry<Record>, buffer: Record, prev: Record, diff: nat, sec: int, file: Result<string>, sys: System)
      returns (status: nat, result: Record, ghost reading: Result<Times>)
      requires Valid() && procCpu != null && entry in procCpu.Repr && procCpu.Owns(entry) && sys.ticks > 0 && diff > 0
      modifies procCpu`table, entry`value, entry`access, reader
      ensures Valid()
      ensures (reader.Value(), reading) == ReadTimes(old(reader.Value()), entry.id, sec, file, sys)
      ensures reading.Err? ==> status == reading.errno && result == buffer && procCpu.table == old(procCpu.table)
      ensures reading.Ok? ==>
                var t := reading.value;
                var r := Record(t.startTime, t.user, t.sys, t.total, buffer.lastTime, buffer.percent);
                && status == 0 && result == WithPercent(r, prev.total, diff)
                && procCpu.table == Store(old(procCpu.table), entry.id, r)
    {
      var r := TimeGet(entry.id, sec, file, sys);
      if r.Err? {
        return r.errno, buffer, r;
      }
      result := Record(r.value.startTime, r.value.user, r.value.sys, r.value.total, buffer.lastTime, buffer.percent);
      Save(entry, result);
      result := Percentage(result, prev.total, diff);
      return 0, result, r;
    }

    /** `sysm_proc_cpu_get` once the entry is there. */
    method MeasureEntry(entry: Entry<Record>, now: nat, sec: int, file: Result<string>, sys: System, buffer: Record)
      returns (status: nat, result: Record, ghost reading: Result<Times>)
      requires Valid() && procCpu != null && entry in procCpu.Repr && procCpu.Owns(entry) && sys.ticks > 0
      modifies procCpu`table, entry`value, entry`access, reader
      ensures Valid()
      ensures var was := if old(entry.value).Some? then old(entry.value).value else ZERO;
              var o := Measure(was, now, reading, buffer);
              && status == o.status && result == o.result
              && procCpu.table == Store(old(procCpu.table), entry.id, o.cached)
              && if Elapsed(now, was.lastTime) == 0 then reader.Value() == old(reader.Value())
                 else (reader.Value(), reading) == ReadTimes(old(reader.Value()), entry.id, sec, file, sys)
    {
      ghost var t := procCpu.table;
      var prev, diff := Stamp(entry, now);
      result := buffer.(lastTime := now);
      reading := Err(EINVAL);
      if diff == 0 {
        return 0, prev, reading;
      }
      status, result, reading := Reread(entry, result, prev, diff, sec, file, sys);
      if reading.Ok? {
        var v := reading.value;
        StoreTwice(t, entry.id, prev, Record(v.startTime, v.user, v.sys, v.total, now, buffer.percent));
      }
    }

    method Percentage(record: Record, before: nat, diff: nat) returns (r: Record)
      requires diff > 0
      ensures r == WithPercent(record, before, diff)
    {
      r := record;
      var otime := before;
      if r.total < otime {
        otime := 0;
      }
      if otime == 0 {
        r := r.(percent := 0.0);
        return;
      }
      var totalDiff := r.total - otime;
      r := r.(percent := totalDiff as real / diff as real);
    }

    /** The entry for `pid`, through a cache that is made on first use. */
    method Fetch(pid: nat, now: nat, check: nat, stamp: nat) returns (entry: Entry<Record>)
      requires Valid()
      modifies this, Footprint()
      ensures Valid() && procCpu != null && (procCpu == old(procCpu) || fresh(procCpu))
      ensures fresh(entry) || entry in old(Footprint())
      ensures entry in procCpu.Repr && procCpu.Owns(entry) && entry.id == pid
      ensures reader.Value() == old(reader.Value())
      ensures Inv(old(TableBefore(now))) && procCpu.table == Get(procCpu.cfg, old(TableBefore(now)), pid, check, stamp, entry)
      ensures RecordIn(procCpu.table, pid) == if entry.value.Some? then entry.value.value else ZERO
    {
      NewTableInv<Entry<Record>, Record>(CACHE_SIZE, now);
      Open(now);
      entry := procCpu.Get(pid, check, stamp);
      OwnedValue(procCpu, entry);
    }

    /** `sysm_proc_cpu_get`. `check` and `stamp` are the clock readings of the cache. Whatever a rehash
        does, a call is one call of the meter on the table. */
    method CpuGet(pid: nat, now: nat, check: nat, stamp: nat, sec: int, file: Result<string>, sys: System, buffer: Record)
      returns (status: nat, result: Record, ghost call: Sample<Entry<Record>>)
      requires Valid() && sys.ticks > 0
      modifies this, Footprint(), reader
      ensures Valid() && procCpu != null
      ensures call.pid == pid && call.now == now && call.check == check && call.stamp == stamp && call.buffer == buffer
      ensures Inv(old(TableBefore(now)))
      ensures var t := old(TableBefore(now));
              var o := CallOutcome(procCpu.cfg, t, call);
              && status == o.status && result == o.result && procCpu.table == CallTable(procCpu.cfg, t, call)
              && if Elapsed(now, RecordIn(Fetched(procCpu.cfg, t, call), pid).lastTime) == 0
                 then reader.Value() == old(reader.Value())
                 else (reader.Value(), call.reading) == ReadTimes(old(reader.Value()), pid, sec, file, sys)
    {
      var entry := Fetch(pid, now, check, stamp);
      ghost var reading;
      status, result, reading := MeasureEntry(entry, now, sec, file, sys, buffer);
      call := Sample(pid, now, check, stamp, reading, buffer, entry);
    }
  }
}
