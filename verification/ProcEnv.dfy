/** `/proc/<pid>/environ`: the walk over `key=value` pieces and its two callbacks. */
module ProcEnv {
  import opened Words
  import opened ProcArgs
  import opened Text

  type Pair = (string, string)

  /** `strchr` of the piece for the `=`. */
  function EqualsAt(piece: string): (r: Option<nat>)
    ensures r.Some? ==> r.value < |piece| && piece[r.value] == '='
  {
    FirstIndex(piece, '=')
  }

  function PairOf(piece: string): Pair
    requires EqualsAt(piece).Some?
  {
    var i := EqualsAt(piece).value;
    (piece[..i], piece[i + 1..])
  }

  /** The pair at the front of the text, if its piece has a `=`. */
  function HeadPair(text: string): Option<Pair> {
    var piece := text[..StrLen(text)];
    if EqualsAt(piece).None? then None else Some(PairOf(piece))
  }

  function Next(text: string, used: nat): string {
    if used < |text| then text[used..] else []
  }

  /** The pairs the walk meets; it ends at the first piece without `=`. */
  function Pairs(text: string): seq<Pair>
    decreases |text|
  {
    if text == [] || HeadPair(text).None? then []
    else [HeadPair(text).value] + Pairs(Next(text, StrLen(text) + 1))
  }

  function Leading(pieces: seq<string>): seq<Pair> {
    if pieces == [] || EqualsAt(pieces[0]).None? then []
    else [PairOf(pieces[0])] + Leading(pieces[1..])
  }

  lemma PairsHead(piece: string, rest: string)
    requires NUL !in piece
    ensures Pairs(piece + [NUL] + rest) == if EqualsAt(piece).None? then [] else [PairOf(piece)] + Pairs(rest)
  {
    var text := piece + [NUL] + rest;
    assert text == piece + ([NUL] + rest);
    LenOver(piece, NUL, [NUL] + rest);
    assert text[..|piece|] == piece;
    assert Next(text, |piece| + 1) == rest;
  }

  /** Of any list of entries, the walk sees those before the first without `=`, all and in order. */
  lemma {:induction false} PairsOfJoined(pieces: seq<string>)
    requires NulFree(pieces)
    ensures Pairs(Join(pieces)) == Leading(pieces)
  {
    if pieces != [] {
      PairsHead(pieces[0], Join(pieces[1..]));
      PairsOfJoined(pieces[1..]);
    }
  }

  function Entry(p: Pair): string {
    p.0 + "=" + p.1
  }

  function Entries(ps: seq<Pair>): seq<string> {
    if ps == [] then [] else [Entry(ps[0])] + Entries(ps[1..])
  }

  predicate WellFormed(ps: seq<Pair>) {
    forall i :: 0 <= i < |ps| ==> '=' !in ps[i].0 && NUL !in ps[i].0 && NUL !in ps[i].1
  }

  lemma EqualsAtEntry(k: string, v: string)
    requires '=' !in k
    ensures EqualsAt(k + "=" + v) == Some(|k|)
  {
    FirstIndexAt(k, '=', v);
  }

  lemma {:induction false} LeadingEntries(ps: seq<Pair>)
    requires WellFormed(ps)
    ensures NulFree(Entries(ps)) && Leading(Entries(ps)) == ps
  {
    if ps != [] {
      var (k, v) := ps[0];
      EqualsAtEntry(k, v);
      assert Entry(ps[0])[..|k|] == k && Entry(ps[0])[|k| + 1..] == v;
      assert Entries(ps)[1..] == Entries(ps[1..]);
      LeadingEntries(ps[1..]);
      assert ps == [ps[0]] + ps[1..];
    }
  }

  /** Round trip: parsing the NUL-separated text of any list of pairs visits exactly those pairs. */
  lemma EnvRoundTrip(ps: seq<Pair>)
    requires WellFormed(ps)
    ensures Pairs(Join(Entries(ps))) == ps
  {
    LeadingEntries(ps);
    PairsOfJoined(Entries(ps));
  }

  // ---------------------------------------------------------------- all values, one value

  function FirstValue(ps: seq<Pair>, key: string): Option<string> {
    if ps == [] then None
    else if ps[0].0 == key then Some(ps[0].1)
    else FirstValue(ps[1..], key)
  }

  function LastValue(ps: seq<Pair>, key: string): Option<string> {
    if ps == [] then None
    else
      var later := LastValue(ps[1..], key);
      if later.Some? then later else if ps[0].0 == key then Some(ps[0].1) else None
  }

  function PutAll(m: map<string, string>, ps: seq<Pair>): map<string, string>
    decreases |ps|
  {
    if ps == [] then m else PutAll(m[ps[0].0 := ps[0].1], ps[1..])
  }

  /** The map of all values holds the last value of every key. */
  lemma {:induction false} PutAllIsLast(m: map<string, string>, ps: seq<Pair>, key: string)
    ensures key in PutAll(m, ps) <==> key in m || LastValue(ps, key).Some?
    ensures key in PutAll(m, ps) ==>
              PutAll(m, ps)[key] == if LastValue(ps, key).Some? then LastValue(ps, key).value else m[key]
    decreases |ps|
  {
    if ps != [] {
      PutAllIsLast(m[ps[0].0 := ps[0].1], ps[1..], key);
    }
  }

  lemma {:induction false} FirstAndLast(ps: seq<Pair>, key: string)
    ensures FirstValue(ps, key).Some? <==> LastValue(ps, key).Some?
  {
    if ps != [] {
      FirstAndLast(ps[1..], key);
    }
  }

  function InAll(ps: seq<Pair>, key: string): Option<string> {
    var all := PutAll(map[], ps);
    if key in all then Some(all[key]) else None
  }

  /** No key occurs with a first value that differs from its last. */
  ghost predicate Consistent(ps: seq<Pair>) {
    forall i, j | 0 <= i < |ps| && 0 <= j < |ps| && ps[i].0 == ps[j].0 && FirstAt(ps, i) && LastAt(ps, j) :: ps[i].1 == ps[j].1
  }

  /** The map of all values and the single lookup agree on every key exactly when no repeated key has
      differing first and last values. */
  lemma LookupsAgree(ps: seq<Pair>)
    ensures (forall key :: InAll(ps, key) == FirstValue(ps, key)) <==> Consistent(ps)
  {
    if forall key :: InAll(ps, key) == FirstValue(ps, key) {
      forall i, j | 0 <= i < |ps| && 0 <= j < |ps| && ps[i].0 == ps[j].0 && FirstAt(ps, i) && LastAt(ps, j)
        ensures ps[i].1 == ps[j].1
      {
        assert InAll(ps, ps[i].0) == FirstValue(ps, ps[i].0);
        PutAllIsLast(map[], ps, ps[i].0);
        FirstIs(ps, i);
        LastIs(ps, j);
      }
    }
    if Consistent(ps) {
      forall key: string ensures InAll(ps, key) == FirstValue(ps, key) {
        ConsistentKey(ps, key);
      }
    }
  }

  lemma ConsistentKey(ps: seq<Pair>, key: string)
    requires Consistent(ps)
    ensures InAll(ps, key) == FirstValue(ps, key)
  {
    PutAllIsLast(map[], ps, key);
    FirstAndLast(ps, key);
    if FirstValue(ps, key).Some? {
      var i := WhereFirst(ps, key);
      var j := WhereLast(ps, key);
    }
  }

  predicate FirstAt(ps: seq<Pair>, i: nat)
    requires i < |ps|
  {
    forall k :: 0 <= k < i ==> ps[k].0 != ps[i].0
  }

  predicate LastAt(ps: seq<Pair>, j: nat)
    requires j < |ps|
  {
    forall k :: j < k < |ps| ==> ps[k].0 != ps[j].0
  }

  lemma {:induction false} FirstIs(ps: seq<Pair>, i: nat)
    requires i < |ps| && FirstAt(ps, i)
    ensures FirstValue(ps, ps[i].0) == Some(ps[i].1)
  {
    if i > 0 {
      assert ps[0].0 != ps[i].0 && forall k :: 0 <= k < i - 1 ==> ps[1..][k] == ps[k + 1];
      FirstIs(ps[1..], i - 1);
    }
  }

  lemma {:induction false} LastIs(ps: seq<Pair>, j: nat)
    requires j < |ps| && LastAt(ps, j)
    ensures LastValue(ps, ps[j].0) == Some(ps[j].1)
  {
    if j > 0 {
      assert forall k :: j - 1 < k < |ps[1..]| ==> ps[1..][k] == ps[k + 1];
      LastIs(ps[1..], j - 1);
    } else if |ps| > 1 {
      NotLater(ps[1..], ps[0].0);
    }
  }

  lemma {:induction false} NotLater(ps: seq<Pair>, key: string)
    requires forall k :: 0 <= k < |ps| ==> ps[k].0 != key
    ensures LastValue(ps, key) == None
  {
    if ps != [] {
      NotLater(ps[1..], key);
    }
  }

  lemma {:induction false} WhereFirst(ps: seq<Pair>, key: string) returns (i: nat)
    requires FirstValue(ps, key).Some?
    ensures i < |ps| && ps[i].0 == key && FirstAt(ps, i) && FirstValue(ps, key) == Some(ps[i].1)
  {
    if ps[0].0 == key {
      i := 0;
    } else {
      var k := WhereFirst(ps[1..], key);
      i := k + 1;
      forall x | 0 <= x < i ensures ps[x].0 != ps[i].0 {
        if x > 0 {
          assert ps[1..][x - 1].0 != ps[1..][k].0;
        }
      }
    }
  }

  lemma {:induction false} WhereLast(ps: seq<Pair>, key: string) returns (j: nat)
    requires LastValue(ps, key).Some?
    ensures j < |ps| && ps[j].0 == key && LastAt(ps, j) && LastValue(ps, key) == Some(ps[j].1)
  {
    if LastValue(ps[1..], key).Some? {
      var k := WhereLast(ps[1..], key);
      j := k + 1;
      forall x | j < x < |ps| ensures ps[x].0 != ps[j].0 {
        assert ps[1..][x - 1].0 != ps[1..][k].0;
      }
    } else {
      j := 0;
      if |ps| > 1 {
        forall x | 0 < x < |ps| ensures ps[x].0 != key {
          if ps[x].0 == key {
            Occurs(ps[1..], x - 1);
          }
        }
      }
    }
  }

  lemma {:induction false} Occurs(ps: seq<Pair>, i: nat)
    requires i < |ps|
    ensures LastValue(ps, ps[i].0).Some?
  {
    if i > 0 {
      Occurs(ps[1..], i - 1);
    }
  }

  // ---------------------------------------------------------------- the code

  /** The callbacks of javasysm.c: `jni_env_getall` puts every pair into a map, `jni_env_getvalue`
      waits for one key and then stops the walk. */
  class Getter {
    const wanted: Option<string>
    var all: map<string, string>
    var val: Option<string>

    constructor (wanted: Option<string>)
      ensures this.wanted == wanted && all == map[] && val == None
    {
      this.wanted := wanted;
      all, val := map[], None;
    }

    method Visit(key: string, value: string) returns (more: bool)
      modifies this
      ensures wanted.None? ==> more && all == old(all)[key := value] && val == old(val)
      ensures wanted.Some? ==> all == old(all) && more == (key != wanted.value)
                               && val == if more then old(val) else Some(value)
    {
      if wanted.None? {
        all := all[key := value];
        return true;
      }
      if |wanted.value| == |key| && wanted.value == key {
        val := Some(value);
        return false;
      }
      return true;
    }
  }

  predicate ShortKeys(ps: seq<Pair>) {
    forall i :: 0 <= i < |ps| ==> |ps[i].0| < 128
  }

  /** The pairs that reach the callback: all of them, or those up to the wanted key. */
  function Reached(ps: seq<Pair>, wanted: Option<string>): seq<Pair> {
    if ps == [] then []
    else [ps[0]] + if wanted == Some(ps[0].0) then [] else Reached(ps[1..], wanted)
  }

  /** Keys that the walk comes to fit the buffer they are copied into. */
  predicate KeysFit(text: string, wanted: Option<string>) {
    ShortKeys(Reached(Pairs(text), wanted))
  }

  /** What the walk still owes: the pairs ahead decide both answers. */
  ghost predicate Owes(ahead: seq<Pair>, ps: seq<Pair>, wanted: Option<string>, all: map<string, string>) {
    && ShortKeys(Reached(ahead, wanted))
    && (wanted.None? ==> PutAll(all, ahead) == PutAll(map[], ps))
    && (wanted.Some? ==> FirstValue(ahead, wanted.value) == FirstValue(ps, wanted.value))
  }

  /** One visited pair. */
  lemma OwesStep(p: Pair, ahead: seq<Pair>, ps: seq<Pair>, wanted: Option<string>, all: map<string, string>)
    requires Owes([p] + ahead, ps, wanted, all)
    ensures |p.0| < 128
    ensures wanted.None? ==> Owes(ahead, ps, wanted, all[p.0 := p.1])
    ensures wanted.Some? && wanted.value != p.0 ==> Owes(ahead, ps, wanted, all)
    ensures wanted == Some(p.0) ==> FirstValue(ps, p.0) == Some(p.1)
  {
    var both := [p] + ahead;
    assert both[0] == p && both[1..] == ahead;
    assert Reached(both, wanted)[0] == p;
    if wanted != Some(p.0) {
      var later := Reached(ahead, wanted);
      assert forall i :: 0 <= i < |later| ==> Reached(both, wanted)[i + 1] == later[i];
    }
  }

  /** A pair and its separators are what the pointer moves over. */
  lemma PairLength(piece: string, klen: nat)
    requires EqualsAt(piece) == Some(klen)
    ensures klen < |piece| && PairOf(piece) == (piece[..klen], piece[klen + 1..])
    ensures klen + 1 + |PairOf(piece).1| == |piece|
  {
  }

  lemma NextShorter(text: string)
    requires text != []
    ensures |Next(text, StrLen(text) + 1)| < |text|
  {
  }

  lemma PairsUnfold(text: string)
    requires text != []
    ensures var piece, rest := text[..StrLen(text)], Next(text, StrLen(text) + 1);
            Pairs(text) == if EqualsAt(piece).None? then [] else [PairOf(piece)] + Pairs(rest)
  {
  }

  /** One piece of the buffer taken apart: the `strchr`, the key copied out, the value behind it, and
      where the pointer goes. */
  method TakePair(ptr: string) returns (pair: Option<Pair>, rest: string)
    requires ptr != []
    ensures pair.None? ==> Pairs(ptr) == []
    ensures pair.Some? ==> Pairs(ptr) == [pair.value] + Pairs(rest) && |rest| < |ptr|
  {
    PairsUnfold(ptr);
    NextShorter(ptr);
    var piece := ptr[..StrLen(ptr)];
    var eq := EqualsAt(piece);
    if eq == None {
      return None, ptr;
    }
    PairLength(piece, eq.value);
    var key, val := piece[..eq.value], piece[eq.value + 1..];
    rest := Next(ptr, eq.value + 1 + |val| + 1);
    return Some((key, val)), rest;
  }

  /** The walk of `sysm_proc_env_get` on what was read; a key behind the one where the walk stops may have any length. */
  method EnvWalk(text: string, getter: Getter)
    requires KeysFit(text, getter.wanted) && getter.all == map[] && getter.val == None
    modifies getter
    ensures getter.wanted.None? ==> getter.all == PutAll(map[], Pairs(text))
    ensures getter.wanted.Some? ==> getter.val == FirstValue(Pairs(text), getter.wanted.value)
  {
    ghost var ps := Pairs(text);
    var ptr := text;
    while ptr != []
      invariant Owes(Pairs(ptr), ps, getter.wanted, getter.all) && getter.val == None
      decreases |ptr|
    {
      var pair, rest := TakePair(ptr);
      if pair == None {
        break;
      }
      ptr := rest;
      OwesStep(pair.value, Pairs(ptr), ps, getter.wanted, getter.all);
      assert |pair.value.0| < 128;
      var more := getter.Visit(pair.value.0, pair.value.1);
      if !more {
        return;
      }
    }
  }

  /** `ProcessEnv_getAll`. */
  method GetAll(text: string) returns (all: map<string, string>)
    requires KeysFit(text, None)
    ensures forall key :: (if key in all then Some(all[key]) else None) == LastValue(Pairs(text), key)
  {
    var getter := new Getter(None);
    EnvWalk(text, getter);
    all := getter.all;
    forall key: string ensures (if key in all then Some(all[key]) else None) == LastValue(Pairs(text), key) {
      PutAllIsLast(map[], Pairs(text), key);
    }
  }

  /** `ProcessEnv_getValue`. */
  method GetValue(text: string, key: string) returns (val: Option<string>)
    requires KeysFit(text, Some(key))
    ensures val == FirstValue(Pairs(text), key)
  {
    var getter := new Getter(Some(key));
    EnvWalk(text, getter);
    val := getter.val;
  }
}
