/** ReferenceMap.java in its own form: a wrapped map and a queue, changed by every call. */
module ReferenceMaps {
  import opened Words
  import Spec = RefMap

  /** A soft reference is known by its place in `refs`, the references made so far. The collector
      owns `cleared` and `enqueued`. */
  class ReferenceMap<K(==,!new), V> {
    var refs: seq<(K, V)>
    var entries: map<K, nat>
    var queue: seq<nat>
    var cleared: set<nat>
    var enqueued: set<nat>

    ghost function Value(): Spec.State<K, V>
      reads this
    {
      Spec.State(refs, entries, cleared, enqueued, queue)
    }

    ghost predicate Valid()
      reads this
    {
      Spec.Inv(Value())
    }

    /** What a key leads to. */
    ghost function At(key: K): Option<V>
      reads this
    {
      Spec.Live(Value(), key)
    }

    constructor ()
      ensures Valid() && Value() == Spec.Empty()
      ensures cleared == {} && forall k :: At(k) == None
    {
      refs, entries, queue, cleared, enqueued := [], map[], [], {}, {};
    }

    method Poll()
      requires Valid()
      modifies this`entries, this`queue
      ensures Valid() && Value() == Spec.Poll(old(Value()))
    {
      while queue != []
        invariant Valid() && Spec.Poll(Value()) == Spec.Poll(old(Value()))
        decreases |queue|
      {
        var i := queue[0];
        assert i in queue && forall j :: j in queue[1..] ==> j in queue;
        queue := queue[1..];
        entries := entries - {refs[i].0};
      }
    }

    method Get(key: K) returns (r: Option<V>)
      requires Valid()
      modifies this`entries
      ensures Valid() && Value() == Spec.Get(old(Value()), key)
      ensures r == old(At(key)) && forall k :: At(k) == old(At(k))
    {
      if key !in entries {
        return None;
      }
      var i := entries[key];
      if i in cleared {
        entries := entries - {key};
        return None;
      }
      return Some(refs[i].1);
    }

    /** Returns the replaced reference, as `HashMap.put` does. */
    method Put(key: K, value: V) returns (replaced: Option<nat>)
      requires Valid()
      modifies this`entries, this`queue, this`refs
      ensures Valid() && Value() == Spec.Put(old(Value()), key, value)
      ensures forall k :: if k == key then At(k) == Some(value) else At(k) == None || At(k) == old(At(k))
      ensures cleared == {} ==> forall k :: k != key ==> At(k) == old(At(k))
      ensures replaced == var p := Spec.Poll(old(Value())); if key in p.entries then Some(p.entries[key]) else None
    {
      Spec.PollExact(Value());
      Spec.LiveAfterPut(Value(), key, value);
      Poll();
      replaced := if key in entries then Some(entries[key]) else None;
      entries := entries[key := |refs|];
      refs := refs + [(key, value)];
    }

    method Remove(key: K) returns (removed: Option<nat>)
      requires Valid()
      modifies this`entries, this`queue
      ensures Valid() && Value() == Spec.Remove(old(Value()), key)
      ensures removed == var p := Spec.Poll(old(Value())); if key in p.entries then Some(p.entries[key]) else None
    {
      Spec.PollExact(Value());
      Poll();
      removed := if key in entries then Some(entries[key]) else None;
      entries := entries - {key};
    }

    method Clear()
      requires Valid()
      modifies this`entries, this`queue
      ensures Valid() && Value() == Spec.Clear(old(Value())) && forall k :: At(k) == None
    {
      Spec.PollExact(Value());
      Poll();
      entries := map[];
    }

    method Size() returns (n: nat)
      requires Valid()
      modifies this`entries, this`queue
      ensures Valid() && Value() == Spec.Poll(old(Value()))
      ensures n == |Spec.Poll(old(Value())).entries|
    {
      Spec.PollExact(Value());
      Poll();
      n := |entries|;
    }

    /** The collector takes the referent of a reference. */
    method CollectorClears(i: nat)
      requires Valid()
      modifies this`cleared
      ensures Valid() && Value() == Spec.Step(old(Value()), Spec.Collect(i)) && old(cleared) <= cleared
      ensures forall k :: At(k) == None || At(k) == old(At(k))
      ensures cleared == {} ==> forall k :: At(k) == old(At(k))
    {
      if i < |refs| {
        cleared := cleared + {i};
      }
    }

    /** The collector hands over a cleared reference, once. */
    method CollectorEnqueues(i: nat)
      requires Valid()
      modifies this`queue, this`enqueued
      ensures Valid() && Value() == Spec.Step(old(Value()), Spec.Enqueue(i))
      ensures forall k :: At(k) == old(At(k))
    {
      if i < |refs| && i in cleared && i !in enqueued {
        queue := queue + [i];
        enqueued := enqueued + {i};
      }
    }
  }
}
