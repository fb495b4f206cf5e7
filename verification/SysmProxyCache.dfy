/** SysmProxyCache.java in its own form: objects that are reset and filled in place, held by maps that
    the collector may empty at any moment. */
module SysmProxyCache {
  import opened Words
  import opened ReferenceMaps
  import opened ProxyCache
  import Spec = RefMap

  class CacheObject<R> {
    var timestamp: int
    var value: Option<R>

    constructor ()
      ensures timestamp == 0 && value == None
    {
      timestamp, value := 0, None;
    }
  }

  type Keys<!A(==,!new), !R> = ReferenceMap<Key<A>, CacheObject<R>>

  /** What the first-level map holds for a method. */
  datatype Slot<!A(==,!new), !R> = Direct(cached: CacheObject<R>) | PerKey(keys: Keys<A, R>)

  /** Steps of the collector on the first-level map, or on a second-level one. */
  datatype GcStep<!A(==,!new), !R> =
    | ClearsSlot(ref: nat)
    | EnqueuesSlot(ref: nat)
    | ClearsKey(keys: Keys<A, R>, ref: nat)
    | EnqueuesKey(keys: Keys<A, R>, ref: nat)

  class Handler<A(==,!new), R> {
    const cache: ReferenceMap<Method, Slot<A, R>>
    const expire: int
    /** The second-level maps made so far, each for one method. */
    ghost var owner: map<Keys<A, R>, Method>
    /** The one object that a lookup for a method and key may still find. */
    ghost var reach: map<(Method, Key<A>), CacheObject<R>>
    /** What a call may be answered with. */
    ghost var memo: Memo<A, R>
    /** The hash code of an argument. */
    const hash: A -> bv32
    /** The calls and clears so far, with their arguments. */
    ghost var history: seq<Call<A, R>>
    /** The collector has run. */
    ghost var collected: bool

    constructor (expire: int, hash: A -> bv32)
      ensures this.expire == expire && this.hash == hash && fresh(cache) && Valid() && history == [] && owner == map[] && !collected
    {
      this.expire, this.hash := expire, hash;
      cache := new ReferenceMap<Method, Slot<A, R>>();
      memo, owner, reach, history, collected := map[], map[], map[], [], false;
    }

    ghost predicate Reaches(m: Method, k: Key<A>, o: CacheObject<R>)
      reads this`reach
    {
      (m, k) in reach && reach[(m, k)] == o
    }

    ghost predicate KeysReach(keys: Keys<A, R>, m: Method)
      reads this`reach, keys
    {
      forall k :: keys.At(k).Some? ==> Reaches(m, k, keys.At(k).value)
    }

    ghost predicate SlotFits(m: Method, s: Slot<A, R>)
      reads this`reach, this`owner, owner.Keys
    {
      if s.Direct? then m.params == 0 && Reaches(m, NoArgs, s.cached)
      else m.params > 0 && s.keys in owner && owner[s.keys] == m && KeysReach(s.keys, m)
    }

    /** Lookups lead to the objects of `reach`, through slots that have the shape of the arity. */
    ghost predicate Structure()
      reads this`owner, this`reach, cache, owner.Keys
    {
      && cache.Valid()
      && (forall keys :: keys in owner ==> keys.Valid())
      && (forall m :: cache.At(m).Some? ==> SlotFits(m, cache.At(m).value))
    }

    /** No object serves two places, and what an object holds is what the memo holds. */
    ghost predicate Contents()
      reads this`reach, this`memo, reach.Values
    {
      && (forall a, b :: a in reach && b in reach && reach[a] == reach[b] ==> a == b)
      && (forall a :: a in reach && (assert reach[a] in reach.Values; reach[a].value.Some?) ==>
            a in memo && memo[a] == Stamped(reach[a].value.value, reach[a].timestamp))
    }

    /** What a lookup for a method and key finds. */
    ghost function Found(a: (Method, Key<A>)): Option<CacheObject<R>>
      reads this`owner, cache, owner.Keys
    {
      if cache.At(a.0).None? then None
      else match cache.At(a.0).value
        case Direct(o) => if a.1.NoArgs? then Some(o) else None
        case PerKey(keys) => if keys in owner then keys.At(a.1) else None
    }

    /** The collector has not cleared a reference. */
    ghost predicate NothingCleared()
      reads this`owner, cache, owner.Keys
    {
      cache.cleared == {} && forall keys :: keys in owner ==> keys.cleared == {}
    }

    /** A lookup finds the object of `a`, and the object has a value. */
    ghost predicate Lives(a: (Method, Key<A>))
      reads this`owner, this`reach, cache, owner.Keys, reach.Values
    {
      a in reach && Found(a) == Some(reach[a]) && (assert reach[a] in reach.Values; reach[a].value.Some?)
    }

    /** Whatever the memo holds can be found, except perhaps at `at`. */
    ghost predicate Others(at: (Method, Key<A>))
      reads this`owner, this`reach, this`memo, cache, owner.Keys, reach.Values
    {
      NothingCleared() && forall a :: a in memo && a != at ==> Lives(a)
    }

    /** Whatever the memo holds can be found. */
    ghost predicate Complete()
      reads this`owner, this`reach, this`memo, cache, owner.Keys, reach.Values
    {
      NothingCleared() && forall a :: a in memo ==> Lives(a)
    }

    ghost predicate Sound()
      reads this`owner, this`reach, this`memo, cache, owner.Keys, reach.Values
    {
      Structure() && Contents()
    }

    /** What every call keeps: sound maps, and a memo that is the outcome of a legal run. Until the collector
        has run, whatever the memo holds can be found, and calls were real only for want of it. */
    ghost predicate Valid()
      reads this, cache, owner.Keys, reach.Values
    {
      Sound() && Ran(history, memo, collected) && (!collected ==> Complete())
    }

    /** The memo is the outcome of the run, which is legal, and exact until the collector has run. */
    ghost predicate Ran(cs: seq<Call<A, R>>, m: Memo<A, R>, gc: bool) {
      && Legal(Keyed(cs, hash), expire) && m == MemoAfter(Keyed(cs, hash))
      && (!gc ==> Exact(Keyed(cs, hash), expire))
    }

    /** What a lookup for a method without arguments finds. */
    method FetchDirect(m: Method) returns (obj: Option<CacheObject<R>>)
      requires Structure() && m.params == 0
      modifies cache`entries
      ensures Structure() && forall x :: cache.At(x) == old(cache.At(x))
      ensures cache.At(m) == if obj.Some? then Some(Direct(obj.value)) else None
      ensures old(Others((m, NoArgs))) ==> Others((m, NoArgs))
    {
      var s := ReadSlot(m, NoArgs);
      obj := if s.Some? then Some(s.value.cached) else None;
    }

    method NewKeys(m: Method) returns (keys: Keys<A, R>)
      requires Structure()
      modifies this`owner
      ensures Structure() && fresh(keys) && owner == old(owner)[keys := m]
      ensures (forall k :: keys.At(k) == None) && keys.cleared == {}
    {
      keys := new ReferenceMap<Key<A>, CacheObject<R>>();
      Own(keys, m);
    }

    ghost method Own(keys: Keys<A, R>, m: Method)
      requires Structure() && keys !in owner && keys.Valid()
      modifies this`owner
      ensures Structure() && owner == old(owner)[keys := m]
    {
      owner := owner[keys := m];
    }

    /** A new second-level map; what can be found still can. */
    method AddKeys(m: Method, ghost k: Key<A>) returns (keys: Keys<A, R>)
      requires Structure()
      modifies this`owner
      ensures Structure() && fresh(keys) && owner == old(owner)[keys := m]
      ensures (forall k :: keys.At(k) == None) && KeysReach(keys, m)
      ensures old(Others((m, k))) ==> Others((m, k))
    {
      keys := NewKeys(m);
      if old(Others((m, k))) {
        forall a | a in memo && a != (m, k) ensures Lives(a) {
          assert old(Lives(a));
        }
      }
    }

    /** What the first level has for a method. */
    method ReadSlot(m: Method, ghost k: Key<A>) returns (s: Option<Slot<A, R>>)
      requires Structure()
      modifies cache`entries
      ensures Structure() && s == cache.At(m) && forall x :: cache.At(x) == old(cache.At(x))
      ensures old(Others((m, k))) ==> Others((m, k))
    {
      s := cache.Get(m);
    }

    /** The second-level map of a method: the one the first level has, or a new one. */
    method FetchKeys(m: Method, ghost k: Key<A>) returns (keys: Keys<A, R>)
      requires Structure() && m.params > 0
      modifies this`owner, cache`entries
      ensures Structure() && KeysReach(keys, m) && keys in owner && owner[keys] == m
      ensures old(Others((m, k))) ==> Others((m, k))
      ensures forall x :: cache.At(x) == old(cache.At(x))
      ensures if cache.At(m).Some? then cache.At(m).value == PerKey(keys) else forall k :: keys.At(k) == None
      ensures owner == old(owner)[keys := m] && (keys in old(owner) || fresh(keys))
    {
      var s := ReadSlot(m, k);
      if s.None? {
        keys := AddKeys(m, k);
      } else {
        keys := s.value.keys;
      }
    }

    method FetchKeyed(keys: Keys<A, R>, k: Key<A>) returns (obj: Option<CacheObject<R>>)
      requires Structure() && keys in owner && KeysReach(keys, owner[keys])
      modifies keys`entries
      ensures Structure() && KeysReach(keys, owner[keys])
      ensures obj == keys.At(k) == old(keys.At(k))
      ensures old(Others((owner[keys], k))) ==> Others((owner[keys], k))
    {
      obj := keys.Get(k);
    }

    // -------------------------------------------------------------- the collector

    method SlotStep(i: nat, clears: bool)
      requires Structure()
      modifies cache`cleared, cache`queue, cache`enqueued
      ensures Structure()
      ensures forall m :: cache.At(m) == None || cache.At(m) == old(cache.At(m))
    {
      if clears {
        cache.CollectorClears(i);
      } else {
        cache.CollectorEnqueues(i);
      }
    }

    method KeyCleared(keys: Keys<A, R>, i: nat, ghost k: Key<A>)
      requires Structure() && keys in owner
      modifies keys
      ensures Structure()
      ensures old(KeysReach(keys, owner[keys])) ==> KeysReach(keys, owner[keys])
      ensures keys.At(k) == None || keys.At(k) == old(keys.At(k))
    {
      keys.CollectorClears(i);
      assert old(KeysReach(keys, owner[keys])) ==> KeysReach(keys, owner[keys]);
      assert forall x :: x in owner && x != keys && old(KeysReach(x, owner[x])) ==> KeysReach(x, owner[x]);
    }

    method KeyEnqueued(keys: Keys<A, R>, i: nat, ghost k: Key<A>)
      requires Structure() && keys in owner
      modifies keys
      ensures Structure()
      ensures old(KeysReach(keys, owner[keys])) ==> KeysReach(keys, owner[keys])
      ensures keys.At(k) == None || keys.At(k) == old(keys.At(k))
    {
      keys.CollectorEnqueues(i);
      assert old(KeysReach(keys, owner[keys])) ==> KeysReach(keys, owner[keys]);
      assert forall x :: x in owner && x != keys && old(KeysReach(x, owner[x])) ==> KeysReach(x, owner[x]);
    }

    method KeyStep(keys: Keys<A, R>, i: nat, clears: bool, ghost k: Key<A>)
      requires Structure() && keys in owner
      modifies keys
      ensures Structure()
      ensures old(KeysReach(keys, owner[keys])) ==> KeysReach(keys, owner[keys])
      ensures keys.At(k) == None || keys.At(k) == old(keys.At(k))
    {
      if clears {
        KeyCleared(keys, i, k);
      } else {
        KeyEnqueued(keys, i, k);
      }
    }

    /** One step of the collector, at any moment. */
    method CollectorStep(s: GcStep<A, R>, ghost k: Key<A>)
      requires Structure() && Known(s)
      modifies cache`cleared, cache`queue, cache`enqueued, owner.Keys
      ensures Structure()
      ensures forall keys :: keys in owner && old(KeysReach(keys, owner[keys])) ==> KeysReach(keys, owner[keys])
      ensures forall keys :: keys in owner ==> keys.At(k) == None || keys.At(k) == old(keys.At(k))
      ensures forall m :: cache.At(m) == None || cache.At(m) == old(cache.At(m))
    {
      if s.ClearsSlot? || s.EnqueuesSlot? {
        SlotStep(s.ref, s.ClearsSlot?);
      } else {
        KeyStep(s.keys, s.ref, s.ClearsKey?, k);
      }
    }

    ghost predicate Known(s: GcStep<A, R>)
      reads this`owner
    {
      match s
      case ClearsKey(keys, _) => keys in owner
      case EnqueuesKey(keys, _) => keys in owner
      case _ => true
    }

    method CollectorRuns(steps: seq<GcStep<A, R>>, ghost k: Key<A>)
      requires Structure() && forall s :: s in steps ==> Known(s)
      modifies cache`cleared, cache`queue, cache`enqueued, owner.Keys
      ensures Structure()
      ensures forall keys :: keys in owner && old(KeysReach(keys, owner[keys])) ==> KeysReach(keys, owner[keys])
      ensures forall keys :: keys in owner ==> keys.At(k) == None || keys.At(k) == old(keys.At(k))
      ensures forall m :: cache.At(m) == None || cache.At(m) == old(cache.At(m))
    {
      for i := 0 to |steps|
        invariant Structure()
        invariant forall keys :: keys in owner && old(KeysReach(keys, owner[keys])) ==> KeysReach(keys, owner[keys])
        invariant forall keys :: keys in owner ==> keys.At(k) == None || keys.At(k) == old(keys.At(k))
        invariant forall m :: cache.At(m) == None || cache.At(m) == old(cache.At(m))
      {
        CollectorStep(steps[i], k);
      }
    }

    // -------------------------------------------------------------- one object

    /** Is the object an answer now? */
    predicate Fresh(o: CacheObject<R>, now: int)
      reads o
    {
      o.value.Some? && now - o.timestamp <= expire
    }

    /** A new object if none was found; an expired one is reset in place. */
    method Settle(m: Method, k: Key<A>, found: Option<CacheObject<R>>, now: int) returns (obj: CacheObject<R>)
      requires Contents() && (found.Some? ==> Reaches(m, k, found.value))
      modifies if found.Some? then {found.value} else {}
      ensures Contents()
      ensures if found.Some? then obj == found.value else fresh(obj)
      ensures obj.value == if found.Some? && old(Fresh(found.value, now)) then old(found.value.value) else None
      ensures found.Some? ==> obj.timestamp == old(found.value.timestamp)
      ensures old(Others((m, k))) ==> Others((m, k))
    {
      if found.Some? {
        obj := found.value;
      } else {
        obj := new CacheObject<R>();
      }
      if obj.value.Some? {
        if now - obj.timestamp > expire {
          obj.value := None;
        }
      }
    }

    /** The result of the real call goes into the object; a call that threw leaves it empty. */
    method Record(m: Method, k: Key<A>, obj: CacheObject<R>, o: Outcome<R>, now: int)
      requires Contents() && obj.value == None
      requires forall a :: a in reach && reach[a] == obj ==> a == (m, k)
      modifies obj, this`reach, this`memo
      ensures Contents() && reach == old(reach)[(m, k) := obj] && memo == Remembered(old(memo), (m, k), o, now)
      ensures o.Returns? ==> obj.value == o.value && obj.timestamp == now
      ensures o.Throws? ==> obj.value == None
      ensures old(Others((m, k))) ==> Others((m, k))
    {
      if o.Returns? {
        obj.value := o.value;
        obj.timestamp := now;
      }
      reach := reach[(m, k) := obj];
      memo := Remembered(memo, (m, k), o, now);
      if old(Others((m, k))) {
        forall a | a in memo && a != (m, k) ensures Lives(a) {
          assert old(Lives(a));
        }
      }
    }

    // -------------------------------------------------------------- invoke

    method RecordDirect(m: Method, obj: CacheObject<R>, o: Outcome<R>, now: int)
      requires Sound() && m.params == 0 && obj.value == None
      requires forall a :: a in reach && reach[a] == obj ==> a == (m, NoArgs)
      requires cache.At(m) == None || cache.At(m) == Some(Direct(obj))
      modifies obj, this`reach, this`memo
      ensures Sound() && reach == old(reach)[(m, NoArgs) := obj] && memo == Remembered(old(memo), (m, NoArgs), o, now)
      ensures o.Returns? ==> obj.value == o.value && obj.timestamp == now
      ensures old(Others((m, NoArgs))) ==> Others((m, NoArgs))
    {
      Record(m, NoArgs, obj, o, now);
      forall n | cache.At(n).Some? ensures SlotFits(n, cache.At(n).value) {
        assert old(SlotFits(n, cache.At(n).value));
      }
    }

    method StoreDirect(m: Method, obj: CacheObject<R>)
      requires Structure() && m.params == 0 && Reaches(m, NoArgs, obj)
      modifies cache`entries, cache`queue, cache`refs
      ensures Structure() && cache.At(m) == Some(Direct(obj))
      ensures old(Others((m, NoArgs))) ==> Others((m, NoArgs))
    {
      var replaced := cache.Put(m, Direct(obj));
    }

    /** The object of a method without arguments, empty unless it holds an answer. */
    method LookupDirect(m: Method, now: int) returns (obj: CacheObject<R>)
      requires Sound() && m.params == 0
      modifies cache`entries, reach.Values
      ensures Sound() && (obj in reach.Values || fresh(obj)) && forall a :: a in reach && reach[a] == obj ==> a == (m, NoArgs)
      ensures cache.At(m) == old(cache.At(m)) && (cache.At(m).Some? ==> cache.At(m) == Some(Direct(obj)))
      ensures obj.value == if cache.At(m).Some? && old(Fresh(cache.At(m).value.cached, now)) then old(cache.At(m).value.cached.value) else None
      ensures cache.At(m).Some? ==> obj.timestamp == old(cache.At(m).value.cached.timestamp)
      ensures old(Others((m, NoArgs))) ==> Others((m, NoArgs))
    {
      var found := FetchDirect(m);
      obj := Settle(m, NoArgs, found, now);
    }

    /** The real call of a method without arguments, with the collector running meanwhile. */
    method ComputeDirect(m: Method, obj: CacheObject<R>, now: int, outcome: Outcome<R>, during: seq<GcStep<A, R>>)
      requires Sound() && m.params == 0 && obj.value == None && forall s :: s in during ==> Known(s)
      requires forall a :: a in reach && reach[a] == obj ==> a == (m, NoArgs)
      requires cache.At(m).Some? ==> cache.At(m) == Some(Direct(obj))
      modifies this`reach, this`memo, cache, owner.Keys, obj
      ensures Sound() && reach == old(reach)[(m, NoArgs) := obj] && memo == Remembered(old(memo), (m, NoArgs), outcome, now)
      ensures outcome.Returns? ==> cache.At(m) == Some(Direct(obj)) && obj.value == outcome.value && obj.timestamp == now
      ensures during == [] && old(Others((m, NoArgs))) ==> Others((m, NoArgs))
    {
      if during != [] {
        CollectorRuns(during, NoArgs);
      }
      RecordDirect(m, obj, outcome, now);
      if outcome.Returns? {
        StoreDirect(m, obj);
      }
    }

    /** A lookup finds what the memo has, if nothing was collected. */
    lemma FoundIsMemo(a: (Method, Key<A>), now: int)
      requires Sound() && Complete()
      ensures FreshIn(memo, a, now, expire) <==> Finds(a, now)
    {
    }

    /** A lookup finds an object that is an answer. */
    ghost predicate Finds(a: (Method, Key<A>), now: int)
      reads this`owner, this`reach, cache, owner.Keys, reach.Values
    {
      Found(a).Some? && Found(a).value in reach.Values && Fresh(Found(a).value, now)
    }

    /** A lookup finds the result of a real call. */
    ghost predicate Keeps(a: (Method, Key<A>), o: Outcome<R>, now: int)
      reads this`owner, this`reach, cache, owner.Keys, reach.Values
    {
      o.Returns? ==>
        && Found(a).Some? && Found(a).value in reach.Values
        && Found(a).value.value == o.value && Found(a).value.timestamp == now
    }

    /** `invoke` for a method without arguments. */
    method InvokeDirect(m: Method, now: int, outcome: Outcome<R>, during: seq<GcStep<A, R>>) returns (r: Outcome<R>, made: bool)
      requires Sound() && m.params == 0 && forall s :: s in during ==> Known(s)
      modifies this`reach, this`memo, cache, owner.Keys, reach.Values
      ensures Sound()
      ensures forall o :: o in reach.Values ==> o in old(reach.Values) || fresh(o)
      ensures Answered((m, NoArgs), now, outcome, old(memo), r, made)
      ensures made <==> !old(Finds((m, NoArgs), now))
      ensures made ==> Keeps((m, NoArgs), outcome, now)
      ensures during == [] && old(Others((m, NoArgs))) ==> Complete()
    {
      var obj := LookupDirect(m, now);
      if obj.value.Some? {
        return Returns(obj.value), false;
      }
      ComputeDirect(m, obj, now, outcome, during);
      return outcome, true;
    }

    // -------------------------------------------------------------- methods with arguments

    ghost predicate HasKeys(m: Method, keys: Keys<A, R>)
      reads this`owner, this`reach, keys
    {
      m.params > 0 && keys in owner && owner[keys] == m && KeysReach(keys, m)
    }

    method SeekKeyed(m: Method, k: Key<A>) returns (keys: Keys<A, R>, found: Option<CacheObject<R>>)
      requires Structure() && m.params > 0
      modifies this`owner, cache`entries, owner.Keys
      ensures Structure() && HasKeys(m, keys)
      ensures old(Others((m, k))) ==> Others((m, k))
      ensures owner == old(owner)[keys := m] && (keys in old(owner) || fresh(keys))
      ensures cache.At(m) == None || cache.At(m) == Some(PerKey(keys))
      ensures Found((m, k)) == keys.At(k) == found == old(Found((m, k))) && (found.Some? ==> Reaches(m, k, found.value))
      ensures forall a :: a in reach ==>
                reach[a].value == old(reach[a].value) && reach[a].timestamp == old(reach[a].timestamp)
    {
      keys := FetchKeys(m, k);
      found := FetchKeyed(keys, k);
    }

    method FindKeyed(m: Method, k: Key<A>, ghost now: int) returns (keys: Keys<A, R>, found: Option<CacheObject<R>>)
      requires Sound() && m.params > 0
      modifies this`owner, cache`entries, owner.Keys
      ensures Sound() && HasKeys(m, keys)
      ensures old(Others((m, k))) ==> Others((m, k))
      ensures owner == old(owner)[keys := m] && (keys in old(owner) || fresh(keys))
      ensures cache.At(m) == None || cache.At(m) == Some(PerKey(keys))
      ensures keys.At(k) == found && (found.Some? ==> Reaches(m, k, found.value))
      ensures found.Some? && Fresh(found.value, now) <==> old(Finds((m, k), now))
      ensures Found((m, k)) == found && (found.Some? ==> found.value in reach.Values)
    {
      keys, found := SeekKeyed(m, k);
    }

    /** A value in the object is the one remembered for the method and key, and has not expired. */
    ghost predicate Answers(m: Method, k: Key<A>, obj: CacheObject<R>, now: int)
      reads this`memo, obj
    {
      obj.value.Some? ==>
        (m, k) in memo && memo[(m, k)] == Stamped(obj.value.value, obj.timestamp) && now - obj.timestamp <= expire
    }

    /** The second-level map and the object that a call with arguments works on. */
    ghost predicate Settled(m: Method, k: Key<A>, keys: Keys<A, R>, obj: CacheObject<R>, now: int)
      reads this`owner, this`reach, this`memo, cache, owner.Keys, reach.Values, keys, obj
    {
      && Sound() && HasKeys(m, keys)
      && (forall a :: a in reach && reach[a] == obj ==> a == (m, k))
      && (cache.At(m) == None || cache.At(m) == Some(PerKey(keys)))
      && (keys.At(k) == None || keys.At(k) == Some(obj))
      && Answers(m, k, obj, now) && (obj.value.Some? ==> Found((m, k)) == Some(obj))
    }

    method SettleKeyed(m: Method, k: Key<A>, keys: Keys<A, R>, found: Option<CacheObject<R>>, now: int)
      returns (obj: CacheObject<R>)
      requires Sound() && HasKeys(m, keys)
      requires Found((m, k)) == keys.At(k) == found && (found.Some? ==> Reaches(m, k, found.value))
      requires cache.At(m) == None || cache.At(m) == Some(PerKey(keys))
      modifies if found.Some? then {found.value} else {}
      ensures Settled(m, k, keys, obj, now)
      ensures old(Others((m, k))) ==> Others((m, k))
      ensures obj in reach.Values || fresh(obj)
      ensures obj.value.Some? <==> found.Some? && old(Fresh(found.value, now))
    {
      obj := Settle(m, k, found, now);
    }

    /** The second-level map and the object of a call with arguments, the object empty unless it
        holds an answer. */
    method LookupKeyed(m: Method, k: Key<A>, now: int) returns (keys: Keys<A, R>, obj: CacheObject<R>)
      requires Sound() && m.params > 0
      modifies this`owner, cache`entries, owner.Keys, reach.Values
      ensures Settled(m, k, keys, obj, now)
      ensures old(Others((m, k))) ==> Others((m, k))
      ensures owner == old(owner)[keys := m] && (keys in old(owner) || fresh(keys))
      ensures obj in reach.Values || fresh(obj)
      ensures obj.value.Some? <==> old(Finds((m, k), now))
    {
      var found;
      keys, found := FindKeyed(m, k, now);
      obj := SettleKeyed(m, k, keys, found, now);
    }

    method RecordKeyed(m: Method, k: Key<A>, keys: Keys<A, R>, obj: CacheObject<R>, o: Outcome<R>, now: int)
      requires Sound() && HasKeys(m, keys) && obj.value == None
      requires forall a :: a in reach && reach[a] == obj ==> a == (m, k)
      requires keys.At(k) == None || keys.At(k) == Some(obj)
      requires cache.At(m) == None || cache.At(m) == Some(PerKey(keys))
      modifies obj, this`reach, this`memo
      ensures Sound() && HasKeys(m, keys)
      ensures old(Others((m, k))) ==> Others((m, k))
      ensures o.Returns? ==> obj.value == o.value && obj.timestamp == now
      ensures reach == old(reach)[(m, k) := obj] && memo == Remembered(old(memo), (m, k), o, now)
    {
      Record(m, k, obj, o, now);
      forall n | cache.At(n).Some? ensures SlotFits(n, cache.At(n).value) {
        assert old(SlotFits(n, cache.At(n).value));
      }
    }

    method StoreKeyed(m: Method, k: Key<A>, keys: Keys<A, R>, obj: CacheObject<R>)
      requires Sound() && HasKeys(m, keys) && Reaches(m, k, obj)
      requires cache.At(m) == None || cache.At(m) == Some(PerKey(keys))
      modifies cache`entries, cache`queue, cache`refs, keys
      ensures Sound()
      ensures Found((m, k)) == Some(obj)
      ensures old(Others((m, k))) ==> Others((m, k))
    {
      KeepKey(m, k, keys, obj);
      assert Contents();
      KeepSlot(m, k, keys);
    }

    method PutSlot(m: Method, keys: Keys<A, R>)
      requires Structure() && HasKeys(m, keys)
      modifies cache`entries, cache`queue, cache`refs
      ensures Structure() && cache.At(m) == Some(PerKey(keys))
      ensures cache.Value() == Spec.Put(old(cache.Value()), m, PerKey(keys))
    {
      var dropped := cache.Put(m, PerKey(keys));
    }

    /** The second-level map is put under its method; what else could be found still can. */
    method KeepSlot(m: Method, ghost k: Key<A>, keys: Keys<A, R>)
      requires Structure() && HasKeys(m, keys) && (cache.At(m) == None || cache.At(m) == Some(PerKey(keys)))
      modifies cache`entries, cache`queue, cache`refs
      ensures Structure() && cache.At(m) == Some(PerKey(keys))
      ensures old(Others((m, k))) ==> Others((m, k))
    {
      PutSlot(m, keys);
      if old(Others((m, k))) {
        Spec.PutWithoutCleared(old(cache.Value()), m, PerKey(keys));
        forall a | a in memo && a != (m, k) ensures Lives(a) {
          assert old(Lives(a));
        }
      }
    }

    method PutKey(m: Method, k: Key<A>, keys: Keys<A, R>, obj: CacheObject<R>)
      requires Structure() && HasKeys(m, keys) && Reaches(m, k, obj)
      modifies keys
      ensures Structure() && HasKeys(m, keys) && keys.At(k) == Some(obj) && keys.cleared == old(keys.cleared)
      ensures keys.Value() == Spec.Put(old(keys.Value()), k, obj)
    {
      var replaced := keys.Put(k, obj);
      assert KeysReach(keys, m);
      assert forall x :: x in owner && x != keys && old(KeysReach(x, owner[x])) ==> KeysReach(x, owner[x]);
    }

    /** The object is put under its key; what else could be found still can. */
    method KeepKey(m: Method, k: Key<A>, keys: Keys<A, R>, obj: CacheObject<R>)
      requires Structure() && HasKeys(m, keys) && Reaches(m, k, obj)
      modifies keys
      ensures Structure() && HasKeys(m, keys) && keys.At(k) == Some(obj)
      ensures old(Others((m, k))) ==> Others((m, k))
    {
      PutKey(m, k, keys, obj);
      if old(Others((m, k))) {
        Spec.PutWithoutCleared(old(keys.Value()), k, obj);
        forall a | a in memo && a != (m, k) ensures Lives(a) {
          assert old(Lives(a));
        }
      }
    }

    /** The real call of a method with arguments, with the collector running meanwhile. */
    method ComputeKeyed(m: Method, k: Key<A>, keys: Keys<A, R>, obj: CacheObject<R>, now: int, outcome: Outcome<R>,
                        during: seq<GcStep<A, R>>)
      requires Sound() && HasKeys(m, keys) && obj.value == None && forall s :: s in during ==> Known(s)
      requires forall a :: a in reach && reach[a] == obj ==> a == (m, k)
      requires keys.At(k) == None || keys.At(k) == Some(obj)
      requires cache.At(m) == None || cache.At(m) == Some(PerKey(keys))
      modifies this`reach, this`memo, cache, owner.Keys, obj
      ensures Sound() && reach == old(reach)[(m, k) := obj]
      ensures during == [] && old(Others((m, k))) ==> Complete()
      ensures Keeps((m, k), outcome, now)
      ensures Answered((m, k), now, outcome, old(memo), outcome, true)
    {
      if during != [] {
        CollectKeyed(m, k, keys, obj, during);
      }
      RecordKeyed(m, k, keys, obj, outcome, now);
      if outcome.Returns? {
        StoreKeyed(m, k, keys, obj);
      }
    }

    method CollectKeyed(m: Method, k: Key<A>, keys: Keys<A, R>, obj: CacheObject<R>, during: seq<GcStep<A, R>>)
      requires Sound() && HasKeys(m, keys) && forall s :: s in during ==> Known(s)
      modifies cache`cleared, cache`queue, cache`enqueued, owner.Keys
      ensures Sound() && HasKeys(m, keys) && obj.value == old(obj.value)
      ensures forall s :: s in during ==> Known(s)
      ensures keys.At(k) == None || keys.At(k) == old(keys.At(k))
      ensures cache.At(m) == None || cache.At(m) == old(cache.At(m))
    {
      CollectorRuns(during, k);
    }

    /** The held value, or a real call. */
    method AnswerKeyed(m: Method, k: Key<A>, keys: Keys<A, R>, obj: CacheObject<R>, now: int, outcome: Outcome<R>,
                       during: seq<GcStep<A, R>>) returns (r: Outcome<R>, made: bool)
      requires Settled(m, k, keys, obj, now) && forall s :: s in during ==> Known(s)
      modifies this`reach, this`memo, cache, owner.Keys, obj
      ensures Sound() && reach.Values <= old(reach.Values) + {obj}
      ensures during == [] && old(Others((m, k))) ==> Complete()
      ensures made ==> Keeps((m, k), outcome, now)
      ensures Answered((m, k), now, outcome, old(memo), r, made)
      ensures made <==> old(obj.value) == None
    {
      if obj.value.Some? {
        return Returns(obj.value), false;
      }
      ComputeKeyed(m, k, keys, obj, now, outcome, during);
      return outcome, true;
    }

    /** `invoke` for a method with arguments. */
    method InvokeKeyed(m: Method, k: Key<A>, now: int, outcome: Outcome<R>, during: seq<GcStep<A, R>>)
      returns (r: Outcome<R>, made: bool, ghost keys: Keys<A, R>, ghost obj: CacheObject<R>)
      requires Sound() && m.params > 0 && forall s :: s in during ==> Known(s)
      modifies this`owner, this`reach, this`memo, cache, owner.Keys, reach.Values
      ensures Sound()
      ensures made ==> Keeps((m, k), outcome, now)
      ensures during == [] && old(Others((m, k))) ==> Complete()
      ensures owner == old(owner)[keys := m] && (keys in old(owner) || fresh(keys))
      ensures reach.Values <= old(reach.Values) + {obj} && (obj in old(reach.Values) || fresh(obj))
      ensures Answered((m, k), now, outcome, old(memo), r, made)
      ensures made <==> !old(Finds((m, k), now))
    {
      var ks, o := LookupKeyed(m, k, now);
      r, made := AnswerKeyed(m, k, ks, o, now, outcome, during);
      keys, obj := ks, o;
    }

    /** The XOR loop over the hash codes of several arguments. */
    method HashArgs(args: seq<A>) returns (h: bv32)
      ensures h == XorHash(args, hash)
    {
      h := 0;
      assert args[0..] == args;
      for i := 0 to |args|
        invariant XorFrom(h, args[i..], hash) == XorHash(args, hash)
      {
        assert args[i..][0] == args[i] && args[i..][1..] == args[i + 1..];
        h := h ^ hash(args[i]);
      }
    }

    /** The key of the arguments. */
    method KeyFor(args: seq<A>) returns (k: Key<A>)
      ensures k == KeyOf(args, hash)
    {
      if |args| == 0 {
        return NoArgs;
      }
      if |args| == 1 {
        return One(args[0]);
      }
      var h := HashArgs(args);
      return Many(h);
    }

    /** One call, for any key. */
    method InvokeAt(m: Method, k: Key<A>, now: int, outcome: Outcome<R>, during: seq<GcStep<A, R>>)
      returns (r: Outcome<R>, made: bool)
      requires Sound() && (m.params == 0 <==> k.NoArgs?) && forall s :: s in during ==> Known(s)
      modifies this`owner, this`reach, this`memo, cache, owner.Keys, reach.Values
      ensures Sound()
      ensures forall x :: x in owner ==> x in old(owner) || fresh(x)
      ensures forall o :: o in reach.Values ==> o in old(reach.Values) || fresh(o)
      ensures Answered((m, k), now, outcome, old(memo), r, made)
      ensures made <==> !old(Finds((m, k), now))
      ensures made ==> Keeps((m, k), outcome, now)
      ensures during == [] && old(Others((m, k))) ==> Complete()
    {
      if k.NoArgs? {
        r, made := InvokeDirect(m, now, outcome, during);
      } else {
        ghost var keys, obj;
        r, made, keys, obj := InvokeKeyed(m, k, now, outcome, during);
      }
    }

    /** One call is one step of the memo. Its result is kept for the next lookup, and while the memo is
        complete it is real only for want of an answer there. */
    method InvokeOn(m: Method, k: Key<A>, now: int, outcome: Outcome<R>, during: seq<GcStep<A, R>>)
      returns (r: Outcome<R>, made: bool)
      requires Sound() && (m.params == 0 <==> k.NoArgs?) && forall s :: s in during ==> Known(s)
      modifies this`owner, this`reach, this`memo, cache, owner.Keys, reach.Values
      ensures Sound()
      ensures forall x :: x in owner ==> x in old(owner) || fresh(x)
      ensures forall o :: o in reach.Values ==> o in old(reach.Values) || fresh(o)
      ensures Answered((m, k), now, outcome, old(memo), r, made)
      ensures made ==> Keeps((m, k), outcome, now)
      ensures old(Complete()) ==> (made <==> !FreshIn(old(memo), (m, k), now, expire))
      ensures during == [] && old(Complete()) ==> Complete()
    {
      if Complete() {
        FoundIsMemo((m, k), now);
      }
      r, made := InvokeAt(m, k, now, outcome, during);
    }

    /** `invoke`. The collector may run while the real call is under way. In any run of calls, clears and
        collector steps, an answer without a real call is what the last real call for the method and its
        arguments returned, at most `expire` before, with no clear and no other real call since; several
        arguments are told apart by the XOR of their hash codes only. A result is kept for the next lookup.
        Until the collector has run, a call is real only if there is no such answer. */
    method Invoke(m: Method, args: seq<A>, now: int, outcome: Outcome<R>, during: seq<GcStep<A, R>>)
      returns (r: Outcome<R>, made: bool)
      requires Valid() && |args| == m.params && forall s :: s in during ==> Known(s)
      modifies this`owner, this`reach, this`memo, this`history, this`collected, cache, owner.Keys, reach.Values
      ensures Valid() && history == old(history) + [Call(m, args, now, outcome, made)]
      ensures collected == (old(collected) || during != [])
      ensures forall x :: x in owner ==> x in old(owner) || fresh(x)
      ensures forall o :: o in reach.Values ==> o in old(reach.Values) || fresh(o)
      ensures if made then r == outcome else FreshFor(old(history), m, args, hash, now, expire, r)
      ensures made ==> Keeps((m, KeyOf(args, hash)), outcome, now)
      ensures !old(collected) ==> (made <==> !AnswerableFor(old(history), m, args, hash, now, expire))
    {
      var k := KeyFor(args);
      AnswerableForKey(history, m, args, hash, now, expire);
      FreshExact(Keyed(history, hash), (m, k), now, expire);
      r, made := InvokeNoted(m, args, k, now, outcome, during);
    }

    /** One call, up to its note in the history. */
    method InvokeStep(m: Method, args: seq<A>, k: Key<A>, now: int, outcome: Outcome<R>, during: seq<GcStep<A, R>>)
      returns (r: Outcome<R>, made: bool)
      requires Valid() && |args| == m.params && k == KeyOf(args, hash) && forall s :: s in during ==> Known(s)
      modifies this`owner, this`reach, this`memo, cache, owner.Keys, reach.Values
      ensures Sound() && Ran(history + [Call(m, args, now, outcome, made)], memo, collected || during != [])
      ensures !collected && during == [] ==> Complete()
      ensures forall x :: x in owner ==> x in old(owner) || fresh(x)
      ensures forall o :: o in reach.Values ==> o in old(reach.Values) || fresh(o)
      ensures if made then r == outcome else FreshFor(history, m, args, hash, now, expire, r)
      ensures made ==> Keeps((m, k), outcome, now)
      ensures !collected ==> (made <==> !FreshIn(MemoAfter(Keyed(history, hash)), (m, k), now, expire))
    {
      ghost var before := memo;
      r, made := InvokeOn(m, k, now, outcome, during);
      RunOn(history, before, collected, Call(m, args, now, outcome, made), r, memo, during != []);
    }

    method InvokeNoted(m: Method, args: seq<A>, k: Key<A>, now: int, outcome: Outcome<R>, during: seq<GcStep<A, R>>)
      returns (r: Outcome<R>, made: bool)
      requires Valid() && |args| == m.params && k == KeyOf(args, hash) && forall s :: s in during ==> Known(s)
      modifies this`owner, this`reach, this`memo, this`history, this`collected, cache, owner.Keys, reach.Values
      ensures Valid() && history == old(history) + [Call(m, args, now, outcome, made)]
      ensures collected == (old(collected) || during != [])
      ensures forall x :: x in owner ==> x in old(owner) || fresh(x)
      ensures forall o :: o in reach.Values ==> o in old(reach.Values) || fresh(o)
      ensures if made then r == outcome else FreshFor(old(history), m, args, hash, now, expire, r)
      ensures made ==> Keeps((m, k), outcome, now)
      ensures !old(collected) ==> (made <==> !FreshIn(MemoAfter(Keyed(old(history), hash)), (m, k), now, expire))
    {
      r, made := InvokeStep(m, args, k, now, outcome, during);
      Note(Call(m, args, now, outcome, made), during != []);
    }

    /** The run grows by one step, in which the collector may have run. */
    ghost method Note(c: Call<A, R>, more: bool)
      requires Sound() && Ran(history + [c], memo, collected || more) && (!collected && !more ==> Complete())
      modifies this`history, this`collected
      ensures Valid() && history == old(history) + [c] && collected == (old(collected) || more)
    {
      history, collected := history + [c], collected || more;
    }

    /** One allowed step more is a run again, and its answer is fresh in the run before it. */
    lemma RunOn(cs: seq<Call<A, R>>, before: Memo<A, R>, gc: bool, c: Call<A, R>, r: Outcome<R>, after: Memo<A, R>, more: bool)
      requires Ran(cs, before, gc)
      requires var e := EventOf(c, hash);
               && Allowed(before, e, expire) && after == After(before, e) && (c.Call? ==> r == Answer(before, e))
               && (!gc && c.Call? ==> (c.made <==> !FreshIn(before, e.at, c.now, expire)))
      ensures Ran(cs + [c], after, gc || more)
      ensures c.Call? ==> if c.made then r == c.outcome else FreshFor(cs, c.m, c.args, hash, c.now, expire, r)
    {
      var es, e := Keyed(cs, hash), EventOf(c, hash);
      KeyedSnoc(cs, c, hash);
      RunExtended(es, e, expire);
      ExactExtended(es, e, expire);
      if c.Call? && !c.made {
        assert (es + [e])[..|es|] == es;
        FreshSince(es + [e], |es|, expire, r);
        FreshForKey(cs, c.m, c.args, hash, c.now, expire, r);
      }
    }

    /** `clear`: nothing can be answered from the memo any more. */
    method Clear()
      requires Valid()
      modifies this`reach, this`memo, this`history, this`collected, cache
      ensures Valid() && memo == map[] && history == old(history) + [Cleared] && collected == old(collected)
    {
      RunOn(history, memo, collected, Cleared, Throws, map[], false);
      cache.Clear();
      reach := map[];
      memo := map[];
      Note(Cleared, false);
    }

    /** The collector, at any moment between calls. */
    method Collect(steps: seq<GcStep<A, R>>, ghost k: Key<A>)
      requires Valid() && forall s :: s in steps ==> Known(s)
      modifies this`collected, cache`cleared, cache`queue, cache`enqueued, owner.Keys
      ensures Valid() && collected
    {
      collected := true;
      CollectorRuns(steps, k);
    }

    /** The call is one step of the memo on values. */
    ghost predicate Answered(at: (Method, Key<A>), now: int, outcome: Outcome<R>, before: Memo<A, R>, r: Outcome<R>, made: bool)
      reads this`memo
    {
      var e := Event.Invoke(at, now, outcome, made);
      Allowed(before, e, expire) && r == Answer(before, e) && memo == After(before, e)
    }
  }
}
