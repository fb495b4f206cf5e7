/** The cache of sysm_util.c in its own form: an array of chains of heap entries, changed in place. */
module NativeCache {
  import opened Words
  import opened CacheTable
  import Refinement = CacheRefinement

  class Entry<V> {
    const id: nat
    var value: Option<V>
    var access: nat
    var next: Entry?<V>

    constructor (key: nat, now: nat)
      ensures id == key && value == None && next == null && access == now
    {
      id, value, next, access := key, None, null, now;
    }
  }

  type Node<V> = Cell<Entry<V>, V>

  ghost function NodeSet<V>(cs: seq<Node<V>>): set<Entry<V>> {
    if cs == [] then {} else {cs[0].node} + NodeSet(cs[1..])
  }

  /** The cells name entries of `repr`, each with its own id. */
  ghost predicate Named<V>(cs: seq<Node<V>>, repr: set<Entry<V>>) {
    cs == [] || (cs[0].node in repr && cs[0].node.id == cs[0].id && Named(cs[1..], repr))
  }

  /** Following `next` from `head` meets the entries of `cs` with their contents, then `tail`. */
  ghost predicate Segment<V>(cs: seq<Node<V>>, head: Entry?<V>, tail: Entry?<V>)
    reads NodeSet(cs)
    decreases |cs|
  {
    if cs == [] then head == tail
    else
      && head == cs[0].node && cs[0].node.access == cs[0].access && cs[0].node.value == cs[0].value
      && Segment(cs[1..], cs[0].node.next, tail)
  }

  lemma {:induction false} NodesWithin<V>(cs: seq<Node<V>>, repr: set<Entry<V>>)
    requires Named(cs, repr)
    ensures NodeSet(cs) <= repr
  {
    if cs != [] {
      NodesWithin(cs[1..], repr);
    }
  }

  /** Entries are told apart by their ids. */
  lemma {:induction false} OtherId<V>(cs: seq<Node<V>>, repr: set<Entry<V>>, e: Entry<V>)
    requires Named(cs, repr) && Lacks(cs, e.id)
    ensures e !in NodeSet(cs)
  {
    if cs != [] {
      assert cs[0].id != e.id;
      assert forall j :: 0 <= j < |cs[1..]| ==> cs[1..][j] == cs[j + 1];
      OtherId(cs[1..], repr, e);
    }
  }

  lemma {:induction false} OtherIds<V>(cs: seq<Node<V>>, ds: seq<Node<V>>, repr: set<Entry<V>>)
    requires Named(cs, repr) && Named(ds, repr)
    requires forall j :: 0 <= j < |cs| ==> Lacks(ds, cs[j].id)
    ensures NodeSet(cs) !! NodeSet(ds)
  {
    if cs != [] {
      OtherId(ds, repr, cs[0].node);
      assert forall j :: 0 <= j < |cs[1..]| ==> cs[1..][j] == cs[j + 1];
      OtherIds(cs[1..], ds, repr);
    }
  }

  ghost predicate IsChain<V>(cs: seq<Node<V>>, head: Entry?<V>, repr: set<Entry<V>>)
    reads repr
  {
    Named(cs, repr) && (NodesWithin(cs, repr); Segment(cs, head, null))
  }

  ghost predicate Lacks<N, V>(cs: Chain<N, V>, id: nat) {
    forall j :: 0 <= j < |cs| ==> cs[j].id != id
  }

  class Cache<V> {
    var entries: array<Entry?<V>>
    var count: nat
    var size: nat
    const cfg: Config
    var lastCleanup: nat
    /** Every value handed to `free_value` so far. */
    var freed: seq<V>

    ghost var table: Table<Entry<V>, V>
    ghost var Repr: set<Entry<V>>

    ghost predicate Valid()
      reads this, entries, Repr
    {
      && size == entries.Length == |table.buckets|
      && count == table.count && lastCleanup == table.lastCleanup
      && Inv(table)
      && forall b :: 0 <= b < size ==> IsChain(table.buckets[b], entries[b], Repr)
    }

    constructor (size: nat, cleanupPeriod: nat, expirePeriod: nat, headStored: bool, now: nat)
      requires size > 0
      ensures Valid() && fresh(Repr) && fresh(entries)
      ensures cfg == Config(cleanupPeriod, expirePeriod, headStored)
      ensures table == Table(EmptyBuckets(size), 0, now) && freed == []
    {
      this.size := size;
      count := 0;
      entries := new Entry?<V>[size](_ => null);
      cfg := Config(cleanupPeriod, expirePeriod, headStored);
      lastCleanup := now;
      freed := [];
      table := Table(EmptyBuckets(size), 0, now);
      Repr := {};
      new;
      Refinement.LinkedEmpty(table.buckets);
    }

    /** One turn of the relinking loop. */
    method MoveEntry(entry: Entry<V>, slots: array<Entry?<V>>, ghost cs: seq<Node<V>>, ghost nb: Buckets<Entry<V>, V>)
      returns (next: Entry?<V>)
      requires slots.Length == |nb| > 0
      requires cs != [] && IsChain(cs, entry, Repr) && DistinctIds(cs)
      requires forall h :: 0 <= h < |nb| ==> IsChain(nb[h], slots[h], Repr) && Lacks(nb[h], entry.id)
      modifies slots, entry`next
      ensures IsChain(cs[1..], next, Repr)
      ensures forall h :: 0 <= h < |nb| ==>
                IsChain((if cfg.headStored then PushFront(cs[0], nb) else nb)[h], slots[h], Repr)
    {
      forall h | 0 <= h < |nb| ensures entry !in NodeSet(nb[h]) {
        OtherId(nb[h], Repr, entry);
      }
      OtherId(cs[1..], Repr, entry);
      next := entry.next;
      var hash := entry.id % slots.Length;
      entry.next := slots[hash];
      assert forall h :: 0 <= h < |nb| ==> IsChain(nb[h], slots[h], Repr);
      if cfg.headStored {
        slots[hash] := entry;
        assert ([cs[0]] + nb[hash])[1..] == nb[hash];
        assert IsChain([cs[0]] + nb[hash], entry, Repr);
      }
    }

    /** The inner loop: one old chain goes into the new table. */
    method MoveChain(head: Entry?<V>, slots: array<Entry?<V>>, ghost chain: seq<Node<V>>, ghost before: Buckets<Entry<V>, V>)
      requires slots.Length == |before| > 0
      requires IsChain(chain, head, Repr) && DistinctIds(chain)
      requires forall h :: 0 <= h < |before| ==> IsChain(before[h], slots[h], Repr)
      requires forall h, j :: 0 <= h < |before| && 0 <= j < |chain| ==> Lacks(before[h], chain[j].id)
      modifies slots, NodeSet(chain)`next
      ensures forall h :: 0 <= h < |before| ==>
                IsChain(Relink(chain, before, cfg.headStored)[h], slots[h], Repr)
    {
      ghost var cs := chain;
      ghost var nb := before;
      var entry := head;
      while entry != null
        modifies slots, NodeSet(chain)`next
        invariant |nb| == slots.Length && NodeSet(cs) <= NodeSet(chain)
        invariant IsChain(cs, entry, Repr) && DistinctIds(cs)
        invariant forall h :: 0 <= h < |nb| ==> IsChain(nb[h], slots[h], Repr)
        invariant forall h, j :: 0 <= h < |nb| && 0 <= j < |cs| ==> Lacks(nb[h], cs[j].id)
        invariant Relink(cs, nb, cfg.headStored) == Relink(chain, before, cfg.headStored)
        decreases |cs|
      {
        var next := MoveEntry(entry, slots, cs, nb);
        nb := if cfg.headStored then PushFront(cs[0], nb) else nb;
        cs := cs[1..];
        entry := next;
      }
    }

    /** The outer loop: all chains go into the empty table `slots`. */
    method MoveAll(slots: array<Entry?<V>>)
      requires Valid() && slots != entries && slots.Length > 0
      requires forall h :: 0 <= h < slots.Length ==> slots[h] == null
      modifies slots, Repr`next
      ensures var nb := RelinkAll(table.buckets, EmptyBuckets(slots.Length), cfg.headStored);
              forall h :: 0 <= h < slots.Length ==> IsChain(nb[h], slots[h], Repr)
    {
      ghost var bs := table.buckets;
      ghost var nb: Buckets<Entry<V>, V> := EmptyBuckets(slots.Length);
      ghost var goal := RelinkAll(bs, nb, cfg.headStored);
      assert bs[0..] == bs;
      for i := 0 to size
        modifies slots, Repr`next
        invariant |nb| == slots.Length
        invariant forall b :: i <= b < size ==> IsChain(bs[b], entries[b], Repr)
        invariant forall h :: 0 <= h < slots.Length ==> IsChain(nb[h], slots[h], Repr)
        invariant forall h, k :: 0 <= h < slots.Length && 0 <= k < |nb[h]| ==> nb[h][k].id % |bs| < i
        invariant RelinkAll(bs[i..], nb, cfg.headStored) == goal
      {
        assert bs[i..][1..] == bs[i + 1..];
        ChainsDisjoint(bs, i, i, Repr);
        MoveChain(entries[i], slots, bs[i], nb);
        RelinkIds(bs, i, nb, cfg.headStored);
        nb := Relink(bs[i], nb, cfg.headStored);
      }
    }

    method Rehash()
      requires Valid()
      modifies this`entries, this`size, this`table, Repr`next
      ensures Valid() && fresh(entries)
      ensures table == CacheTable.Rehash(cfg, old(table))
    {
      var newSize := count * 2 + 1;
      var newEntries := new Entry?<V>[newSize](_ => null);
      ghost var next := CacheTable.Rehash(cfg, table);
      assert next.buckets == RelinkAll(table.buckets, EmptyBuckets(newSize), cfg.headStored);
      MoveAll(newEntries);
      Refinement.RehashRefines(cfg, table);
      entries := newEntries;
      size := newSize;
      table := next;
    }

    /** Unlinks `entry`: the link before it, in an entry or in the table, skips it. */
    method Unlink(b: nat, prev: Entry?<V>, entry: Entry<V>, ghost kept: seq<Node<V>>, ghost todo: seq<Node<V>>)
      requires b < entries.Length && todo != [] && count > 0
      requires Scanning(kept, todo, entries[b], prev, entry, Repr)
      modifies this`count, this`freed, entries, NodeSet(kept)`next
      ensures Scanning(kept, todo[1..], entries[b], prev, todo[0].node.next, Repr) && todo[0].node == entry
      ensures entry.next == old(entry.next)
      ensures forall d :: 0 <= d < entries.Length && d != b ==> entries[d] == old(entries[d])
      ensures count == old(count) - 1
      ensures freed == old(freed) + if todo[0].value.Some? then [todo[0].value.value] else []
    {
      ghost var rest := todo[1..];
      assert kept + todo == kept + [todo[0]] + rest;
      DistinctWithout(kept, todo[0], rest);
      if entry.value.Some? {
        freed := freed + [entry.value.value];
      }
      count := count - 1;
      if prev != null {
        EndsApart(kept, todo, prev, Repr);
        prev.next := entry.next;
      } else {
        entries[b] := entry.next;
      }
    }

    /** The inner loop of the cleanup: unlinks the stale entries of one chain in place. */
    method SweepChain(b: nat, now: nat, ghost cs: seq<Node<V>>)
      requires b < entries.Length && IsChain(cs, entries[b], Repr) && DistinctIds(cs) && |cs| <= count
      modifies this`count, this`freed, entries, NodeSet(cs)`next
      ensures IsChain(Survivors(cfg, cs, now), entries[b], Repr)
      ensures forall d :: 0 <= d < entries.Length && d != b ==> entries[d] == old(entries[d])
      ensures count == old(count) - (|cs| - |Survivors(cfg, cs, now)|)
      ensures freed == old(freed) + ReleasedIn(cfg, cs, now)
    {
      var prev: Entry?<V> := null;
      var entry := entries[b];
      ghost var kept: seq<Node<V>> := [];
      ghost var todo := cs;
      ghost var goal := Scan(cfg, kept, todo, now, count, freed);
      ScanIs(cfg, kept, todo, now, count, freed);
      assert goal.chain == Survivors(cfg, cs, now);
      while entry != null
        modifies this`count, this`freed, entries, NodeSet(cs)`next
        invariant NodeSet(kept) + NodeSet(todo) <= NodeSet(cs)
        invariant Scanning(kept, todo, entries[b], prev, entry, Repr)
        invariant forall d :: 0 <= d < entries.Length && d != b ==> entries[d] == old(entries[d])
        invariant |todo| <= count
        invariant Scan(cfg, kept, todo, now, count, freed) == goal
        decreases |todo|
      {
        var idle := Elapsed(now, entry.access);
        var ptr := entry.next;
        if cfg.expirePeriod < idle {
          Unlink(b, prev, entry, kept, todo);
        } else {
          ScanKeeps(kept, todo, entries[b], prev, entry, Repr);
          kept := kept + [todo[0]];
          prev := entry;
        }
        todo := todo[1..];
        entry := ptr;
      }
      assert todo == [] && kept == goal.chain;
      if prev != null {
        EndsSegment(kept, entries[b], prev, null);
      }
    }

    /** One turn of the outer loop: bucket `i` is swept, the other buckets stay linked. */
    method SweepBucket(i: nat, now: nat, ghost cur: Buckets<Entry<V>, V>, ghost rest: Buckets<Entry<V>, V>)
      requires WellPlaced(cur) && |cur| == entries.Length && i < |cur|
      requires forall b :: 0 <= b < |cur| ==> IsChain(cur[b], entries[b], Repr)
      requires rest != [] && rest[0] == cur[i] && Linked(rest) <= count
      modifies this`count, this`freed, entries, Repr`next
      ensures WellPlaced(cur[i := Survivors(cfg, cur[i], now)])
      ensures forall b :: 0 <= b < |cur| ==> IsChain(cur[i := Survivors(cfg, cur[i], now)][b], entries[b], Repr)
      ensures Linked(rest[1..]) <= count
      ensures Account(cfg, rest[1..], now, count, freed) == Account(cfg, rest, now, old(count), old(freed))
    {
      ChainsDisjoint(cur, 0, i, Repr);
      SweptBucket(cfg, cur, i, now);
      SweepChain(i, now, cur[i]);
    }

    method SweepAll(now: nat)
      requires Valid()
      modifies this`count, this`freed, entries, Repr`next
      ensures forall b :: 0 <= b < size ==> IsChain(Sweep(cfg, table.buckets, now)[b], entries[b], Repr)
      ensures count == Swept(cfg, table, now).count
      ensures freed == old(freed) + Released(cfg, table.buckets, now)
    {
      ghost var bs := table.buckets;
      ghost var goal := Account(cfg, bs, now, count, freed);
      ghost var cur, rest := bs, bs;
      for i := 0 to size
        modifies this`count, this`freed, entries, Repr`next
        invariant WellPlaced(cur) && |cur| == size
        invariant rest == bs[i..]
        invariant forall b :: i <= b < size ==> cur[b] == bs[b]
        invariant forall b :: 0 <= b < i ==> cur[b] == Survivors(cfg, bs[b], now)
        invariant forall b :: 0 <= b < size ==> IsChain(cur[b], entries[b], Repr)
        invariant Linked(rest) <= count
        invariant Account(cfg, rest, now, count, freed) == goal
      {
        SweepBucket(i, now, cur, rest);
        cur := cur[i := Survivors(cfg, cur[i], now)];
        rest := rest[1..];
      }
      AccountIs(cfg, bs, now, old(count), old(freed));
      assert cur == Sweep(cfg, bs, now);
    }

    /** The sweep of a due cleanup, before it decides about a rehash. */
    method Purge(now: nat)
      requires Valid()
      modifies this`count, this`freed, this`lastCleanup, this`table, entries, Repr`next
      ensures Valid()
      ensures table == Swept(cfg, old(table), now)
      ensures freed == old(freed) + Released(cfg, old(table).buckets, now)
    {
      lastCleanup := now;
      table := table.(lastCleanup := now);
      SweepAll(now);
      Refinement.SweptLookup(cfg, table, now);
      table := Swept(cfg, table, now);
    }

    method Cleanup(now: nat)
      requires Valid()
      modifies this, entries, Repr`next
      ensures Valid() && Repr == old(Repr) && (entries == old(entries) || fresh(entries))
      ensures table == CacheTable.Cleanup(cfg, old(table), now)
      ensures freed == old(freed) + if CleanupDue(cfg, old(lastCleanup), now)
                                    then Released(cfg, old(table).buckets, now) else []
      ensures if cfg.cleanupPeriod == 0xFFFF_FFFF_FFFF_FFFF || Elapsed(now, old(lastCleanup)) < cfg.cleanupPeriod
              then table == old(table) && freed == old(freed) else lastCleanup == now
    {
      if cfg.cleanupPeriod == NEVER {
        return;
      }
      if Elapsed(now, lastCleanup) < cfg.cleanupPeriod {
        return;
      }
      Purge(now);
      if count < size / 4 {
        Rehash();
      }
    }

    /** The search loop: stops at the entry for `key`, or at the end of the chain. `prev` is the
        entry whose `next` is the link found, null when that link is the bucket itself. */
    method Seek(key: nat) returns (prev: Entry?<V>, entry: Entry?<V>)
      requires Valid()
      ensures var cs := table.buckets[key % size];
        var k := PositionOf(cs, key);
        && prev == (if k == 0 then null else cs[k - 1].node)
        && entry == (if k == |cs| then null else cs[k].node)
        && (k < |cs| ==> entry in Repr && entry.id == key && Owns(entry))
    {
      ghost var cs := table.buckets[key % size];
      ghost var k := 0;
      prev, entry := null, entries[key % size];
      assert cs[0..] == cs;
      while entry != null
        invariant k <= |cs| && PositionOf(cs, key) == k + PositionOf(cs[k..], key)
        invariant Named(cs[k..], Repr) && (NodesWithin(cs[k..], Repr); Segment(cs[k..], entry, null))
        invariant prev == if k == 0 then null else cs[k - 1].node
        decreases |cs| - k
      {
        assert cs[k..][0] == cs[k] && cs[k..][1..] == cs[k + 1..];
        if entry.id == key {
          return;
        }
        prev, entry, k := entry, entry.next, k + 1;
      }
    }

    /** `entry` is the one that the table holds for its id. */
    ghost predicate Owns(entry: Entry<V>)
      reads this
      requires |table.buckets| > 0
    {
      var r := Lookup(table.buckets, entry.id);
      r.Some? && r.value.node == entry
    }

    /** Contents of an entry change in place; the table follows if the entry is linked. */
    method Overwrite(entry: Entry<V>, access: nat, value: Option<V>)
      requires Valid() && entry in Repr
      modifies entry`access, entry`value, this`table
      ensures entry.access == access && entry.value == value
      ensures |table.buckets| == size
      ensures table == if old(Owns(entry)) then Replaced(old(table), entry.id, access, value) else old(table)
      ensures forall d :: 0 <= d < size ==> IsChain(table.buckets[d], entries[d], Repr)
    {
      ghost var b := entry.id % size;
      ghost var cs := table.buckets[b];
      ghost var k := PositionOf(cs, entry.id);
      if Owns(entry) {
        InOneChain(table.buckets, b, k, entries[b], Repr);
      } else {
        InNoChain(table.buckets, entry, Repr);
      }
      entry.access := access;
      entry.value := value;
      assert forall d :: 0 <= d < size && (d != b || !old(Owns(entry))) ==> IsChain(table.buckets[d], entries[d], Repr);
      if old(Owns(entry)) {
        ghost var c := cs[k].(access := access, value := value);
        ChainUpdate(cs, k, c, entries[b], Repr);
        table := Replaced(table, entry.id, access, value);
      }
    }

    /** A hit refreshes the access time. */
    method Refresh(entry: Entry<V>, now: nat)
      requires Valid() && entry in Repr && Owns(entry)
      modifies entry`access, entry`value, this`table
      ensures Valid() && entry.value == old(entry.value) && Owns(entry)
      ensures table == Touch(old(table), entry.id, now)
    {
      Refinement.SetAccessLookup(table.buckets[entry.id % size], entry.id, now);
      SetAccessAt(table.buckets[entry.id % size], entry.id, now);
      Refinement.TouchRefines(table, entry.id, now);
      MirroredAt(table.buckets[entry.id % size], entry.id, entries[entry.id % size], Repr);
      Overwrite(entry, now, entry.value);
    }

    /** A caller writes `entry->value` through a pointer it got from this cache. The entry must not have
        been freed: the table holds it, or nothing ever expires. */
    method Write(entry: Entry<V>, v: V)
      requires Valid() && entry in Repr && (Owns(entry) || cfg.cleanupPeriod == NEVER)
      modifies entry`access, entry`value, this`table
      ensures Valid() && entry.value == Some(v) && entry.access == old(entry.access)
      ensures table == if old(Owns(entry)) then Store(old(table), entry.id, v) else old(table)
      ensures old(Owns(entry)) <==> Owns(entry)
    {
      Refinement.SetValueLookup(table.buckets[entry.id % size], entry.id, v);
      if Owns(entry) {
        SetValueAt(table.buckets[entry.id % size], entry.id, v);
        Refinement.StoreRefines(table, entry.id, v);
        MirroredAt(table.buckets[entry.id % size], entry.id, entries[entry.id % size], Repr);
      }
      Overwrite(entry, entry.access, Some(v));
    }

    /** The link that ended the chain of bucket `b` now leads to the new entry. */
    method Attach(b: nat, prev: Entry?<V>, entry: Entry<V>)
      requires Valid() && b < size
      requires entry !in Repr && entry.next == null && entry.value == None
      requires var cs := table.buckets[b]; prev == if cs == [] then null else cs[|cs| - 1].node
      modifies entries, Repr`next
      ensures var c := Cell(entry, entry.id, entry.access, None);
              IsChain(table.buckets[b] + [c], entries[b], Repr + {entry})
      ensures forall d :: 0 <= d < size && d != b ==> IsChain(table.buckets[d], entries[d], Repr + {entry})
    {
      ghost var cs := table.buckets[b];
      ghost var c := Cell(entry, entry.id, entry.access, None);
      ChainsDisjoint(table.buckets, 0, b, Repr);
      forall d | 0 <= d < size ensures Named(table.buckets[d], Repr + {entry}) {
        NamedWidens(table.buckets[d], Repr, Repr + {entry});
      }
      NamedSnoc(cs, c, Repr + {entry});
      if prev != null {
        ChainSplit(cs, |cs| - 1, entries[b], Repr);
        DividedApart(cs, |cs| - 1, Repr);
        prev.next := entry;
        SegmentSnoc(cs[..|cs| - 1], entries[b], cs[|cs| - 1]);
        assert cs[..|cs| - 1] + [cs[|cs| - 1]] == cs;
      } else {
        entries[b] := entry;
      }
      SegmentSnoc(cs, entries[b], c);
    }

    /** The new entry goes to the end of its chain, where the walk for a free link stops. */
    method Append(key: nat, now: nat) returns (entry: Entry<V>)
      requires Valid() && Lookup(table.buckets, key).None? && Linked(table.buckets) < count
      modifies this`table, this`Repr, entries, Repr`next
      ensures Valid() && fresh(entry) && Repr == old(Repr) + {entry} && Owns(entry)
      ensures entry.id == key && entry.value == None && entry.access == now
      ensures var b := key % |old(table).buckets|;
              table == old(table).(buckets := old(table).buckets[b := old(table).buckets[b] + [Cell(entry, key, now, None)]])
    {
      var prev, end := Seek(key);
      ghost var b := key % size;
      ghost var bs := table.buckets;
      entry := new Entry(key, now);
      Attach(key % size, prev, entry);
      ghost var c := Cell(entry, key, now, None);
      Refinement.AppendRefines(table, c);
      Refinement.AppendLookup(bs[b], c);
      table := table.(buckets := bs[b := bs[b] + [c]]);
      Repr := Repr + {entry};
    }

    /** `++count`, then the growing rehash. */
    method Grow()
      requires Valid()
      modifies this`count, this`entries, this`size, this`table, Repr`next
      ensures Valid() && (entries == old(entries) || fresh(entries))
      ensures table == Grown(cfg, old(table))
    {
      count := count + 1;
      table := table.(count := count);
      if count > size {
        Rehash();
      }
    }

    /** `sysm_cache_get` after its cleanup. */
    method Obtain(key: nat, stamp: nat) returns (entry: Entry<V>)
      requires Valid()
      modifies this`count, this`entries, this`size, this`table, this`Repr, entries, Repr
      ensures Valid() && fresh(Repr - old(Repr)) && old(Repr) <= Repr
      ensures entries == old(entries) || fresh(entries)
      ensures table == CacheTable.Obtain(cfg, old(table), key, stamp, entry)
      ensures entry in Repr && entry.id == key && Owns(entry)
      ensures fresh(entry) <==> Lookup(old(table).buckets, key).None?
      ensures fresh(entry) ==> entry.value == None
      ensures forall e :: e in old(Repr) ==> e.value == old(e.value)
    {
      var prev, hit := Seek(key);
      if hit != null {
        entry := hit;
        Refresh(entry, stamp);
      } else {
        Refinement.GrownLacks(cfg, table, key);
        Grow();
        entry := Append(key, stamp);
      }
    }

    method Get(key: nat, check: nat, stamp: nat) returns (entry: Entry<V>)
      requires Valid()
      modifies this, entries, Repr
      ensures Valid() && fresh(Repr - old(Repr)) && old(Repr) <= Repr
      ensures entries == old(entries) || fresh(entries)
      ensures table == CacheTable.Get(cfg, old(table), key, check, stamp, entry)
      ensures entry in Repr && entry.id == key && Owns(entry)
      ensures fresh(entry) <==> Lookup(CacheTable.Cleanup(cfg, old(table), check).buckets, key).None?
      ensures fresh(entry) ==> entry.value == None
      ensures forall e :: e in old(Repr) ==> e.value == old(e.value)
      ensures freed == old(freed) + if CleanupDue(cfg, old(lastCleanup), check)
                                    then Released(cfg, old(table).buckets, check) else []
      ensures cfg.cleanupPeriod == 0xFFFF_FFFF_FFFF_FFFF || Elapsed(check, old(lastCleanup)) < cfg.cleanupPeriod ==>
                freed == old(freed) && (fresh(entry) <==> Lookup(old(table).buckets, key).None?)
    {
      Cleanup(check);
      entry := Obtain(key, stamp);
    }

    /** `sysm_cache_find` after its cleanup. */
    method Reach(key: nat, stamp: nat) returns (entry: Entry?<V>)
      requires Valid()
      modifies this`table, Repr
      ensures Valid()
      ensures table == Touch(old(table), key, stamp)
      ensures entry != null <==> Lookup(old(table).buckets, key).Some?
      ensures entry != null ==> entry.id == key && entry in Repr && Owns(entry)
      ensures forall e :: e in old(Repr) ==> e.value == old(e.value)
    {
      var prev, hit := Seek(key);
      entry := hit;
      if entry != null {
        Refresh(entry, stamp);
      } else {
        SetAccessAbsent(table.buckets[key % size], key, stamp);
      }
    }

    method Find(key: nat, check: nat, stamp: nat) returns (entry: Entry?<V>)
      requires Valid()
      modifies this, entries, Repr
      ensures Valid() && Repr == old(Repr) && (entries == old(entries) || fresh(entries))
      ensures table == CacheTable.Find(cfg, old(table), key, check, stamp)
      ensures entry != null <==> Lookup(CacheTable.Cleanup(cfg, old(table), check).buckets, key).Some?
      ensures entry != null ==> entry.id == key && entry in Repr && Owns(entry)
      ensures forall e :: e in old(Repr) ==> e.value == old(e.value)
      ensures freed == old(freed) + if CleanupDue(cfg, old(lastCleanup), check)
                                    then Released(cfg, old(table).buckets, check) else []
      ensures cfg.cleanupPeriod == 0xFFFF_FFFF_FFFF_FFFF || Elapsed(check, old(lastCleanup)) < cfg.cleanupPeriod ==>
                freed == old(freed) && (entry != null <==> Lookup(old(table).buckets, key).Some?)
    {
      Cleanup(check);
      entry := Reach(key, stamp);
    }

    /** Frees one chain at destruction. */
    method DropChain(head: Entry?<V>, ghost cs: seq<Node<V>>)
      requires IsChain(cs, head, Repr)
      modifies this`freed
      ensures freed == old(freed) + ValuesIn(cs)
    {
      var entry := head;
      ghost var todo := cs;
      while entry != null
        invariant IsChain(todo, entry, Repr)
        invariant freed + ValuesIn(todo) == old(freed) + ValuesIn(cs)
        decreases |todo|
      {
        DropStep(freed, todo);
        if entry.value.Some? {
          freed := freed + [entry.value.value];
        }
        entry := entry.next;
        todo := todo[1..];
      }
    }

    /** Every value still linked is freed, once for each entry, bucket by bucket. */
    method Destroy()
      requires Valid()
      modifies this`freed
      ensures freed == old(freed) + Values(table.buckets)
    {
      ghost var bs := table.buckets;
      assert bs[0..] == bs;
      for i := 0 to size
        invariant Valid() && table == old(table)
        invariant freed + Values(bs[i..]) == old(freed) + Values(bs)
      {
        assert bs[i..][0] == bs[i] && bs[i..][1..] == bs[i + 1..];
        DropChain(entries[i], bs[i]);
      }
    }
  }

  lemma DropStep<N, V>(freed: seq<V>, cs: Chain<N, V>)
    requires cs != []
    ensures freed + ValuesIn(cs)
         == (if cs[0].value.Some? then freed + [cs[0].value.value] else freed) + ValuesIn(cs[1..])
  {
  }

  lemma {:induction false} SetAccessAbsent<N, V>(cs: Chain<N, V>, id: nat, now: nat)
    requires FindIn(cs, id).None?
    ensures SetAccess(cs, id, now) == cs
  {
    if cs != [] {
      SetAccessAbsent(cs[1..], id, now);
    }
  }

  ghost function PositionOf<N, V>(cs: Chain<N, V>, id: nat): (k: nat)
    ensures k <= |cs| && Lacks(cs[..k], id)
    ensures FindIn(cs, id) == if k < |cs| then Some(cs[k]) else None
  {
    if cs == [] || cs[0].id == id then 0 else 1 + PositionOf(cs[1..], id)
  }

  ghost function Replaced<N, V>(t: Table<N, V>, id: nat, access: nat, value: Option<V>): Table<N, V>
    requires |t.buckets| > 0 && Lookup(t.buckets, id).Some?
  {
    var b := id % |t.buckets|;
    var k := PositionOf(t.buckets[b], id);
    t.(buckets := t.buckets[b := t.buckets[b][k := t.buckets[b][k].(access := access, value := value)]])
  }

  lemma UpdateTail<T>(s: seq<T>, k: nat, x: T)
    requires k + 1 < |s|
    ensures [s[0]] + s[1..][k := x] == s[k + 1 := x]
  {
  }

  lemma {:induction false} SetAccessAt<N, V>(cs: Chain<N, V>, id: nat, now: nat)
    requires FindIn(cs, id).Some?
    ensures var k := PositionOf(cs, id); SetAccess(cs, id, now) == cs[k := cs[k].(access := now)]
  {
    if cs[0].id != id {
      SetAccessAt(cs[1..], id, now);
      var k := PositionOf(cs[1..], id);
      UpdateTail(cs, k, cs[k + 1].(access := now));
    }
  }

  lemma {:induction false} SetValueAt<N, V>(cs: Chain<N, V>, id: nat, v: V)
    requires FindIn(cs, id).Some?
    ensures var k := PositionOf(cs, id); SetValue(cs, id, v) == cs[k := cs[k].(value := Some(v))]
  {
    if cs[0].id != id {
      SetValueAt(cs[1..], id, v);
      var k := PositionOf(cs[1..], id);
      UpdateTail(cs, k, cs[k + 1].(value := Some(v)));
    }
  }

  lemma MirroredAt<V>(cs: seq<Node<V>>, id: nat, head: Entry?<V>, repr: set<Entry<V>>)
    requires FindIn(cs, id).Some? && IsChain(cs, head, repr)
    ensures var c := cs[PositionOf(cs, id)]; c.node.value == c.value && c.node.access == c.access
  {
    ChainSplit(cs, PositionOf(cs, id), head, repr);
  }

  lemma {:induction false} NodeMember<V>(cs: seq<Node<V>>, e: Entry<V>) returns (j: nat)
    requires e in NodeSet(cs)
    ensures j < |cs| && cs[j].node == e
  {
    if cs[0].node == e {
      j := 0;
    } else {
      j := NodeMember(cs[1..], e);
      j := j + 1;
    }
  }

  /** An entry that the table does not hold for its id is in no chain. */
  lemma InNoChain<V>(bs: Buckets<Entry<V>, V>, e: Entry<V>, repr: set<Entry<V>>)
    requires WellPlaced(bs)
    requires forall b :: 0 <= b < |bs| ==> Named(bs[b], repr)
    requires Lookup(bs, e.id).Some? ==> Lookup(bs, e.id).value.node != e
    ensures forall b :: 0 <= b < |bs| ==> e !in NodeSet(bs[b]) && NodeSet(bs[b]) <= repr
  {
    forall b | 0 <= b < |bs| ensures e !in NodeSet(bs[b]) && NodeSet(bs[b]) <= repr {
      NodesWithin(bs[b], repr);
      if e in NodeSet(bs[b]) {
        var j := NodeMember(bs[b], e);
        NamedAt(bs[b], j, repr);
        Refinement.LookupMember(bs, b, bs[b][j]);
      }
    }
  }

  lemma {:induction false} NamedAt<V>(cs: seq<Node<V>>, j: nat, repr: set<Entry<V>>)
    requires Named(cs, repr) && j < |cs|
    ensures cs[j].node in repr && cs[j].node.id == cs[j].id
  {
    if j > 0 {
      NamedAt(cs[1..], j - 1, repr);
    }
  }

  lemma {:induction false} NamedWidens<V>(cs: seq<Node<V>>, small: set<Entry<V>>, large: set<Entry<V>>)
    requires Named(cs, small) && small <= large
    ensures Named(cs, large)
  {
    if cs != [] {
      NamedWidens(cs[1..], small, large);
    }
  }

  lemma {:induction false} ChainSplit<V>(cs: seq<Node<V>>, k: nat, head: Entry?<V>, repr: set<Entry<V>>)
    requires k < |cs| && IsChain(cs, head, repr)
    ensures Named(cs[..k], repr) && Named(cs[k + 1..], repr)
    ensures cs[k].node in repr && cs[k].node.id == cs[k].id
    ensures NodeSet(cs) == NodeSet(cs[..k]) + {cs[k].node} + NodeSet(cs[k + 1..]) <= repr
    ensures Segment(cs[..k], head, cs[k].node)
    ensures cs[k].node.access == cs[k].access && cs[k].node.value == cs[k].value
    ensures Segment(cs[k + 1..], cs[k].node.next, null)
    decreases |cs|
  {
    NodesWithin(cs, repr);
    if k > 0 {
      ChainSplit(cs[1..], k - 1, cs[0].node.next, repr);
      assert cs[1..][k - 1] == cs[k] && cs[1..][k..] == cs[k + 1..] && cs[1..][..k - 1] == cs[..k][1..];
    }
  }

  lemma DividedApart<V>(cs: seq<Node<V>>, k: nat, repr: set<Entry<V>>)
    requires k < |cs| && Named(cs, repr) && DistinctIds(cs) && cs[k].node.id == cs[k].id
    requires Named(cs[..k], repr) && Named(cs[k + 1..], repr)
    ensures cs[k].node !in NodeSet(cs[..k]) && cs[k].node !in NodeSet(cs[k + 1..])
  {
    OtherId(cs[..k], repr, cs[k].node);
    OtherId(cs[k + 1..], repr, cs[k].node);
  }

  /** Cell `k` of bucket `b` is linked from one place only, and the chain around it is known. */
  lemma InOneChain<V>(bs: Buckets<Entry<V>, V>, b: nat, k: nat, head: Entry?<V>, repr: set<Entry<V>>)
    requires WellPlaced(bs) && b < |bs| && k < |bs[b]| && IsChain(bs[b], head, repr)
    requires forall d :: 0 <= d < |bs| ==> Named(bs[d], repr)
    ensures var cs := bs[b];
            && cs[k].node in repr && cs[k].node.id == cs[k].id
            && cs[k].node !in NodeSet(cs[..k]) && cs[k].node !in NodeSet(cs[k + 1..])
            && NodeSet(cs[..k]) <= repr && NodeSet(cs[k + 1..]) <= repr
            && Segment(cs[..k], head, cs[k].node) && Segment(cs[k + 1..], cs[k].node.next, null)
    ensures forall d :: 0 <= d < |bs| && d != b ==> bs[b][k].node !in NodeSet(bs[d]) && NodeSet(bs[d]) <= repr
  {
    ChainsDisjoint(bs, 0, b, repr);
    ChainSplit(bs[b], k, head, repr);
    DividedApart(bs[b], k, repr);
  }

  lemma {:induction false} ChainUpdate<V>(cs: seq<Node<V>>, k: nat, c: Node<V>, head: Entry?<V>, repr: set<Entry<V>>)
    requires k < |cs| && Named(cs, repr) && c.node in repr && c.node.id == c.id
    requires Segment(cs[..k], head, c.node) && Segment(cs[k + 1..], c.node.next, null)
    requires c.node.access == c.access && c.node.value == c.value
    ensures IsChain(cs[k := c], head, repr)
    decreases k
  {
    var r := cs[k := c];
    if k == 0 {
      assert r[1..] == cs[1..];
    } else {
      assert cs[..k][1..] == cs[1..][..k - 1] && cs[1..][k..] == cs[k + 1..];
      assert r[1..] == cs[1..][k - 1 := c];
      ChainUpdate(cs[1..], k - 1, c, cs[0].node.next, repr);
    }
  }

  /** Count and released values as the outer loop accumulates them. */
  ghost function Account<N, V>(cfg: Config, bs: Buckets<N, V>, now: nat, count: int, freed: seq<V>): (int, seq<V>)
    decreases |bs|
  {
    if bs == [] then (count, freed)
    else Account(cfg, bs[1..], now, count - (|bs[0]| - |Survivors(cfg, bs[0], now)|), freed + ReleasedIn(cfg, bs[0], now))
  }

  lemma {:induction false} AccountIs<N, V>(cfg: Config, bs: Buckets<N, V>, now: nat, count: int, freed: seq<V>)
    ensures Account(cfg, bs, now, count, freed)
         == (count - (Linked(bs) - Linked(Sweep(cfg, bs, now))), freed + Released(cfg, bs, now))
    decreases |bs|
  {
    if bs == [] {
      assert freed + [] == freed;
    } else {
      assert Sweep(cfg, bs, now)[1..] == Sweep(cfg, bs[1..], now);
      assert freed + ReleasedIn(cfg, bs[0], now) + Released(cfg, bs[1..], now) == freed + Released(cfg, bs, now);
      AccountIs(cfg, bs[1..], now, count - (|bs[0]| - |Survivors(cfg, bs[0], now)|), freed + ReleasedIn(cfg, bs[0], now));
    }
  }

  lemma SweptBucket<N, V>(cfg: Config, bs: Buckets<N, V>, i: nat, now: nat)
    requires WellPlaced(bs) && i < |bs|
    ensures WellPlaced(bs[i := Survivors(cfg, bs[i], now)])
  {
    var cs: Chain<N, V> := Survivors(cfg, bs[i], now);
    Refinement.SurvivorsLookup(cfg, bs[i], now);
    forall j | 0 <= j < |cs| ensures cs[j].id % |bs| == i {
      Refinement.LookupMember(bs, i, cs[j]);
    }
    Refinement.ChainReplaced(bs, i, cs);
  }

  datatype Scanned<N, V> = Scanned(chain: Chain<N, V>, count: int, freed: seq<V>)

  ghost function Scan<N, V>(cfg: Config, kept: Chain<N, V>, todo: Chain<N, V>, now: nat, count: int, freed: seq<V>): Scanned<N, V>
    decreases |todo|
  {
    if todo == [] then Scanned(kept, count, freed)
    else if Alive(cfg, todo[0], now) then Scan(cfg, kept + [todo[0]], todo[1..], now, count, freed)
    else Scan(cfg, kept, todo[1..], now, count - 1, freed + if todo[0].value.Some? then [todo[0].value.value] else [])
  }

  lemma {:induction false} ScanIs<N, V>(cfg: Config, kept: Chain<N, V>, todo: Chain<N, V>, now: nat, count: int, freed: seq<V>)
    ensures Scan(cfg, kept, todo, now, count, freed)
         == Scanned(kept + Survivors(cfg, todo, now),
                    count - (|todo| - |Survivors(cfg, todo, now)|),
                    freed + ReleasedIn(cfg, todo, now))
    decreases |todo|
  {
    if todo != [] {
      if Alive(cfg, todo[0], now) {
        ScanIs(cfg, kept + [todo[0]], todo[1..], now, count, freed);
      } else {
        ScanIs(cfg, kept, todo[1..], now, count - 1, freed + if todo[0].value.Some? then [todo[0].value.value] else []);
      }
    }
  }

  /** The cleanup stands at `entry`: `kept` is linked from `head` up to `prev`, `todo` is ahead. */
  ghost predicate Scanning<V>(kept: seq<Node<V>>, todo: seq<Node<V>>, head: Entry?<V>,
                              prev: Entry?<V>, entry: Entry?<V>, repr: set<Entry<V>>)
    reads repr
  {
    && Named(kept, repr) && Named(todo, repr) && DistinctIds(kept + todo)
    && (NodesWithin(todo, repr); Segment(todo, entry, null))
    && (prev == null ==> kept == [] && head == entry)
    && (prev != null ==> prev in repr && (NodesWithin(kept, repr); Ends(kept, head, prev, entry)))
  }

  lemma ScanKeeps<V>(kept: seq<Node<V>>, todo: seq<Node<V>>, head: Entry?<V>,
                      prev: Entry?<V>, entry: Entry<V>, repr: set<Entry<V>>)
    requires todo != [] && Scanning(kept, todo, head, prev, entry, repr)
    ensures Scanning(kept + [todo[0]], todo[1..], head, entry, entry.next, repr)
    ensures NodeSet(kept + [todo[0]]) == NodeSet(kept) + {entry}
  {
    if prev != null {
      EndsSegment(kept, head, prev, entry);
    }
    NamedSnoc(kept, todo[0], repr);
    assert kept + todo == kept + [todo[0]] + todo[1..];
    assert (kept + [todo[0]])[..|kept|] == kept;
  }

  /** `prev` is the last entry of the segment `cs` from `head`, and points to `tail`. */
  ghost predicate Ends<V>(cs: seq<Node<V>>, head: Entry?<V>, prev: Entry<V>, tail: Entry?<V>)
    reads NodeSet(cs), prev
  {
    cs != [] &&
    (FrontNodes(cs);
    var front, last := cs[..|cs| - 1], cs[|cs| - 1];
    && Segment(front, head, prev)
    && last.node == prev && prev.access == last.access && prev.value == last.value && prev.next == tail)
  }

  lemma {:induction false} FrontNodes<V>(cs: seq<Node<V>>)
    requires cs != []
    ensures NodeSet(cs) == NodeSet(cs[..|cs| - 1]) + {cs[|cs| - 1].node}
  {
    if |cs| > 1 {
      FrontNodes(cs[1..]);
      assert cs[1..][..|cs| - 2] == cs[..|cs| - 1][1..];
    }
  }

  lemma {:induction false} SegmentSnoc<V>(cs: seq<Node<V>>, head: Entry?<V>, c: Node<V>)
    requires Segment(cs, head, c.node) && c.node.access == c.access && c.node.value == c.value
    ensures Segment(cs + [c], head, c.node.next)
  {
    if cs != [] {
      SegmentSnoc(cs[1..], cs[0].node.next, c);
      assert (cs + [c])[1..] == cs[1..] + [c];
    }
  }

  lemma EndsSegment<V>(cs: seq<Node<V>>, head: Entry?<V>, prev: Entry<V>, tail: Entry?<V>)
    requires Ends(cs, head, prev, tail)
    ensures Segment(cs, head, tail)
  {
    SegmentSnoc(cs[..|cs| - 1], head, cs[|cs| - 1]);
    assert cs[..|cs| - 1] + [cs[|cs| - 1]] == cs;
  }

  /** The entry whose link is redirected is met nowhere else. */
  lemma EndsApart<V>(cs: seq<Node<V>>, rest: seq<Node<V>>, prev: Entry<V>, repr: set<Entry<V>>)
    requires Named(cs, repr) && Named(rest, repr) && DistinctIds(cs + rest)
    requires cs != [] && cs[|cs| - 1].node == prev
    ensures prev !in NodeSet(cs[..|cs| - 1]) && prev !in NodeSet(rest) && prev in NodeSet(cs)
  {
    var front, last := cs[..|cs| - 1], cs[|cs| - 1];
    FrontNodes(cs);
    NamedSnoc(front, last, repr);
    assert front + [last] == cs;
    assert Lacks(front, last.id) by {
      forall j | 0 <= j < |front| ensures front[j].id != last.id {
        assert (cs + rest)[j].id != (cs + rest)[|cs| - 1].id;
      }
    }
    assert Lacks(rest, last.id) by {
      forall j | 0 <= j < |rest| ensures rest[j].id != last.id {
        assert (cs + rest)[|cs| - 1].id != (cs + rest)[|cs| + j].id;
      }
    }
    OtherId(front, repr, prev);
    OtherId(rest, repr, prev);
  }

  lemma {:induction false} NamedSnoc<V>(cs: seq<Node<V>>, c: Node<V>, repr: set<Entry<V>>)
    ensures Named(cs + [c], repr) <==> Named(cs, repr) && c.node in repr && c.node.id == c.id
    ensures NodeSet(cs + [c]) == NodeSet(cs) + {c.node}
  {
    if cs != [] {
      NamedSnoc(cs[1..], c, repr);
      assert (cs + [c])[1..] == cs[1..] + [c];
    }
  }

  lemma DistinctWithout<N, V>(cs: Chain<N, V>, c: Cell<N, V>, rest: Chain<N, V>)
    requires DistinctIds(cs + [c] + rest)
    ensures DistinctIds(cs + rest)
  {
    var all := cs + [c] + rest;
    forall i, j | 0 <= i < j < |cs + rest| ensures (cs + rest)[i].id != (cs + rest)[j].id {
      var i', j' := if i < |cs| then i else i + 1, if j < |cs| then j else j + 1;
      assert all[i'].id != all[j'].id;
    }
  }

  /** From bucket `from` on, other buckets share no entry with bucket `i`. */
  lemma ChainsDisjoint<V>(bs: Buckets<Entry<V>, V>, from: nat, i: nat, repr: set<Entry<V>>)
    requires WellPlaced(bs) && from <= i < |bs|
    requires forall b :: from <= b < |bs| ==> Named(bs[b], repr)
    ensures forall b :: from <= b < |bs| ==> NodeSet(bs[b]) <= repr
    ensures forall b :: from <= b < |bs| && b != i ==> NodeSet(bs[i]) !! NodeSet(bs[b])
  {
    forall b | from <= b < |bs|
      ensures NodeSet(bs[b]) <= repr
      ensures b != i ==> NodeSet(bs[i]) !! NodeSet(bs[b])
    {
      NodesWithin(bs[b], repr);
      if b != i {
        OtherIds(bs[i], bs[b], repr);
      }
    }
  }

  /** What has been relinked comes from the buckets passed so far. */
  lemma RelinkIds<N, V>(bs: Buckets<N, V>, i: nat, nb: Buckets<N, V>, headStored: bool)
    requires WellPlaced(bs) && i < |bs| && |nb| > 0
    requires forall h, k :: 0 <= h < |nb| && 0 <= k < |nb[h]| ==> nb[h][k].id % |bs| < i
    ensures forall h, k :: 0 <= h < |nb| && 0 <= k < |Relink(bs[i], nb, headStored)[h]| ==>
              Relink(bs[i], nb, headStored)[h][k].id % |bs| <= i
  {
    RelinkChainIds(bs[i], nb, headStored, |bs|, i);
  }

  lemma {:induction false} RelinkChainIds<N, V>(cs: Chain<N, V>, nb: Buckets<N, V>, headStored: bool, n: nat, i: nat)
    requires |nb| > 0 && n > 0
    requires forall j :: 0 <= j < |cs| ==> cs[j].id % n <= i
    requires forall h, k :: 0 <= h < |nb| && 0 <= k < |nb[h]| ==> nb[h][k].id % n <= i
    ensures forall h, k :: 0 <= h < |nb| && 0 <= k < |Relink(cs, nb, headStored)[h]| ==>
              Relink(cs, nb, headStored)[h][k].id % n <= i
  {
    if cs != [] {
      RelinkChainIds(cs[1..], if headStored then PushFront(cs[0], nb) else nb, headStored, n, i);
    }
  }

  /** What the table says about an owned entry is what the entry holds. */
  lemma OwnedValue<V>(cache: Cache<V>, entry: Entry<V>)
    requires cache.Valid() && cache.Owns(entry)
    ensures Lookup(cache.table.buckets, entry.id).value.value == entry.value
  {
    var b := entry.id % cache.size;
    MirroredAt(cache.table.buckets[b], entry.id, cache.entries[b], cache.Repr);
  }
}
