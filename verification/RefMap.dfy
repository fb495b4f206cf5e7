/** ReferenceMap.java: a map of soft references that the collector may clear at any time and whose
    cleared references arrive on a queue at any later time. */
module RefMap {
  import opened Words

  // ---------------------------------------------------------------- the map on values

  /** `refs` are all references ever made; a reference is known by its place there. `entries` is the
      wrapped map, `cleared` the references without referent, `queue` those waiting to be polled. */
  datatype State<K, V> = State(refs: seq<(K, V)>, entries: map<K, nat>, cleared: set<nat>, enqueued: set<nat>, queue: seq<nat>)

  ghost predicate Inv<K, V>(s: State<K, V>) {
    && (forall k :: k in s.entries ==> s.entries[k] < |s.refs| && s.refs[s.entries[k]].0 == k)
    && (forall i :: i in s.cleared ==> i < |s.refs|)
    && (forall i :: i in s.queue ==> i < |s.refs| && i in s.cleared && i in s.enqueued)
  }

  /** What a key still leads to. */
  ghost function Live<K, V>(s: State<K, V>, k: K): Option<V> {
    if k in s.entries && s.entries[k] < |s.refs| && s.entries[k] !in s.cleared then Some(s.refs[s.entries[k]].1) else None
  }

  ghost function Poll<K, V>(s: State<K, V>): State<K, V>
    decreases |s.queue|
  {
    if s.queue == [] then s
    else Poll(s.(queue := s.queue[1..],
                 entries := if s.queue[0] < |s.refs| then s.entries - {s.refs[s.queue[0]].0} else s.entries))
  }

  /** A get that meets a cleared reference removes it; it does not poll. */
  ghost function Get<K, V>(s: State<K, V>, k: K): State<K, V> {
    if k in s.entries && s.entries[k] in s.cleared then s.(entries := s.entries - {k}) else s
  }

  ghost function Put<K, V>(s: State<K, V>, k: K, v: V): State<K, V> {
    var p := Poll(s);
    p.(refs := p.refs + [(k, v)], entries := p.entries[k := |p.refs|])
  }

  ghost function Remove<K, V>(s: State<K, V>, k: K): State<K, V> {
    var p := Poll(s);
    p.(entries := p.entries - {k})
  }

  ghost function Clear<K, V>(s: State<K, V>): State<K, V> {
    Poll(s).(entries := map[])
  }

  // ---------------------------------------------------------------- runs with a collector

  /** Calls of the map and steps of the collector, in any order. */
  datatype Event<K, V> =
    | EvGet(key: K)
    | EvPut(key: K, value: V)
    | EvRemove(key: K)
    | EvClear
    | EvSize
    | Collect(ref: nat)
    | Enqueue(ref: nat)

  /** A step of the collector that is not possible does nothing: a reference is enqueued once, after
      it was cleared. */
  ghost function Step<K, V>(s: State<K, V>, e: Event<K, V>): State<K, V> {
    match e
    case EvGet(k) => Get(s, k)
    case EvPut(k, v) => Put(s, k, v)
    case EvRemove(k) => Remove(s, k)
    case EvClear => Clear(s)
    case EvSize => Poll(s)
    case Collect(i) => if i < |s.refs| then s.(cleared := s.cleared + {i}) else s
    case Enqueue(i) =>
      if i < |s.refs| && i in s.cleared && i !in s.enqueued
      then s.(queue := s.queue + [i], enqueued := s.enqueued + {i}) else s
  }

  ghost function Run<K, V>(s: State<K, V>, es: seq<Event<K, V>>): State<K, V>
    decreases |es|
  {
    if es == [] then s else Run(Step(s, es[0]), es[1..])
  }

  ghost function Noted<K, V>(m: map<K, V>, e: Event<K, V>): map<K, V> {
    match e
    case EvPut(k, v) => m[k := v]
    case EvRemove(k) => m - {k}
    case EvClear => map[]
    case _ => m
  }

  /** The last value put for every key since it was last removed or the map cleared. */
  ghost function LastPut<K, V>(m: map<K, V>, es: seq<Event<K, V>>): map<K, V>
    decreases |es|
  {
    if es == [] then m else LastPut(Noted(m, es[0]), es[1..])
  }

  /** Whatever is mapped leads to the last value put. */
  ghost predicate Current<K, V>(s: State<K, V>, m: map<K, V>) {
    && Inv(s)
    && forall k :: k in s.entries ==> k in m && s.refs[s.entries[k]].1 == m[k]
  }

  /** A cleared reference for `k` is waiting on the queue. */
  ghost predicate Stale<K, V>(s: State<K, V>, k: K)
    requires Inv(s)
  {
    exists i :: i in s.queue && s.refs[i].0 == k
  }

  /** A poll removes exactly the keys with a stale reference, whether or not the key has been put
      again with a live one. */
  lemma {:induction false} PollExact<K, V>(s: State<K, V>)
    requires Inv(s)
    ensures var p := Poll(s);
            && Inv(p) && p == s.(queue := [], entries := p.entries)
            && (forall k :: k in p.entries <==> (k in s.entries && !Stale(s, k)))
            && (forall k :: k in p.entries ==> k in s.entries && p.entries[k] == s.entries[k])
    decreases |s.queue|
  {
    if s.queue != [] {
      var i := s.queue[0];
      assert i in s.queue;
      var t := s.(queue := s.queue[1..], entries := s.entries - {s.refs[i].0});
      PollExact(t);
      forall k ensures Stale(s, k) <==> (k == s.refs[i].0 || Stale(t, k)) {
        if Stale(s, k) && k != s.refs[i].0 {
          var j :| j in s.queue && s.refs[j].0 == k;
          assert j in t.queue;
        }
      }
    }
  }

  lemma StepCurrent<K, V>(s: State<K, V>, m: map<K, V>, e: Event<K, V>)
    requires Current(s, m)
    ensures Current(Step(s, e), Noted(m, e))
  {
    PollExact(s);
  }

  /** For every interleaving of calls and collector steps, what is mapped is the last value put. */
  lemma {:induction false} RunCurrent<K, V>(s: State<K, V>, m: map<K, V>, es: seq<Event<K, V>>)
    requires Current(s, m)
    ensures Current(Run(s, es), LastPut(m, es))
    decreases |es|
  {
    if es != [] {
      StepCurrent(s, m, es[0]);
      RunCurrent(Step(s, es[0]), Noted(m, es[0]), es[1..]);
    }
  }

  ghost function Empty<K, V>(): State<K, V> {
    State([], map[], {}, {}, [])
  }

  /** Safety of the lossy map: a get returns null or the last value put for the key since its last
      remove or clear. */
  lemma NeverWrong<K, V>(es: seq<Event<K, V>>, k: K)
    ensures var r := Live(Run(Empty<K, V>(), es), k);
            r == None || (k in LastPut(map[], es) && r == Some(LastPut(map[], es)[k]))
  {
    RunCurrent(Empty<K, V>(), map[], es);
  }

  /** Without the collector it is exactly a map. */
  lemma {:induction false} ExactWithoutCollector<K, V>(s: State<K, V>, m: map<K, V>, es: seq<Event<K, V>>, k: K)
    requires Current(s, m) && s.cleared == {} && s.entries.Keys == m.Keys
    requires forall e :: e in es ==> !e.Collect?
    ensures Live(Run(s, es), k) == if k in LastPut(m, es) then Some(LastPut(m, es)[k]) else None
    decreases |es|
  {
    if es != [] {
      var e := es[0];
      assert e in es;
      StepCurrent(s, m, e);
      PollExact(s);
      ExactWithoutCollector(Step(s, e), Noted(m, e), es[1..], k);
    }
  }

  /** A key survives a call exactly when it is mapped and that call does not find a stale reference
      for it, a cleared one, or a removal. */
  lemma MappedExact<K, V>(s: State<K, V>, e: Event<K, V>, k: K)
    requires Inv(s)
    ensures k in Step(s, e).entries <==>
              match e
              case EvGet(key) => k in s.entries && (key != k || s.entries[k] !in s.cleared)
              case EvPut(key, _) => key == k || (k in s.entries && !Stale(s, k))
              case EvRemove(key) => key != k && k in s.entries && !Stale(s, k)
              case EvClear => false
              case EvSize => k in s.entries && !Stale(s, k)
              case _ => k in s.entries
  {
    PollExact(s);
  }

  ghost function LossyRun(a: int, b: int): seq<Event<char, int>> {
    [EvPut('k', a), Collect(0), EvPut('k', b), Enqueue(0), EvSize]
  }

  /** A fresh mapping lost to a stale reference: put, clear, put again, enqueue, poll. The second
      value was never collected. */
  lemma FreshMappingLost(a: int, b: int)
    ensures Run(Empty<char, int>(), LossyRun(a, b)) == State([('k', a), ('k', b)], map[], {0}, {0}, [])
    ensures LastPut(map[], LossyRun(a, b)) == map['k' := b]
  {
    LossyStates(a, b);
    LossyPuts(a, b);
  }

  lemma LossyStates(a: int, b: int)
    ensures Run(Empty<char, int>(), LossyRun(a, b)) == State([('k', a), ('k', b)], map[], {0}, {0}, [])
  {
    var e := LossyRun(a, b);
    var s1 := State([('k', a)], map['k' := 0], {}, {}, []);
    var s2 := s1.(cleared := {0});
    var s3 := State([('k', a), ('k', b)], map['k' := 1], {0}, {}, []);
    var s4 := s3.(queue := [0], enqueued := {0});
    var s5 := s4.(queue := [], entries := map[]);
    assert Step(Empty<char, int>(), e[0]) == s1 && Step(s1, e[1]) == s2;
    assert Step(s2, e[2]) == s3 && Step(s3, e[3]) == s4;
    assert Poll(s4) == Poll(s5) == s5;
    RunUnfold(s4, e[4..]);
    RunUnfold(s3, e[3..]);
    RunUnfold(s2, e[2..]);
    RunUnfold(s1, e[1..]);
  }

  lemma RunUnfold<K, V>(s: State<K, V>, es: seq<Event<K, V>>)
    requires es != []
    ensures Run(s, es) == Run(Step(s, es[0]), es[1..])
  {
  }

  lemma LossyPuts(a: int, b: int)
    ensures LastPut(map[], LossyRun(a, b)) == map['k' := b]
  {
    var e := LossyRun(a, b);
    var m := map['k' := b];
    assert LastPut(m, e[4..]) == m;
    assert LastPut(m, e[3..]) == m;
    assert Noted(map['k' := a], e[2]) == m;
    assert LastPut(map['k' := a], e[2..]) == m;
    assert LastPut(map['k' := a], e[1..]) == m;
  }

  // ---------------------------------------------------------------- what stays reachable

  /** A put changes its own key, and polls only make keys unreachable. */
  lemma LiveAfterPut<K, V>(s: State<K, V>, key: K, v: V)
    requires Inv(s)
    ensures forall k :: Live(Put(s, key, v), k) == if k == key then Some(v) else Live(Poll(s), k)
    ensures forall k :: Live(Poll(s), k) == None || Live(Poll(s), k) == Live(s, k)
  {
    PollExact(s);
  }

  /** While nothing is cleared a put changes its own key only. */
  lemma PutWithoutCleared<K, V>(s: State<K, V>, key: K, v: V)
    requires Inv(s) && s.cleared == {}
    ensures forall k :: k != key ==> Live(Put(s, key, v), k) == Live(s, k)
  {
    PollExact(s);
  }
}
