/** SysmProxyCache.java: a two-level memo table with expiry, over maps that lose entries. */
module ProxyCache {
  import opened Words

  /** A method of the proxied interface; it is called without arguments exactly when it has none. */
  datatype Method = Method(name: string, params: nat)

  /** The argument key: nothing, the single argument, or the XOR of the hash codes of several. */
  datatype Key<A> = NoArgs | One(arg: A) | Many(hash: bv32)

  datatype Stamped<R> = Stamped(value: R, time: int)

  /** What the real call does: it returns a value or null, or throws. */
  datatype Outcome<R> = Returns(value: Option<R>) | Throws

  // ---------------------------------------------------------------- the memo on values

  type Memo<A(==), R> = map<(Method, Key<A>), Stamped<R>>

  /** After a real call: its value, or nothing if it gave none. */
  function Remembered<A(==), R>(m: Memo<A, R>, at: (Method, Key<A>), o: Outcome<R>, now: int): Memo<A, R> {
    if o.Returns? && o.value.Some? then m[at := Stamped(o.value.value, now)] else m - {at}
  }

  function XorFrom<A>(h: bv32, args: seq<A>, hash: A -> bv32): bv32
    decreases |args|
  {
    if args == [] then h else XorFrom(h ^ hash(args[0]), args[1..], hash)
  }

  function XorHash<A>(args: seq<A>, hash: A -> bv32): bv32 {
    XorFrom(0, args, hash)
  }

  lemma XorLaws(a: bv32, b: bv32)
    ensures (0 ^ a) ^ b == a ^ b && a ^ b == b ^ a && a ^ a == 0
  {
  }

  lemma XorPair<A>(x: A, y: A, hash: A -> bv32)
    ensures XorHash([x, y], hash) == hash(x) ^ hash(y)
  {
    assert [x, y][1..] == [y] && [y][1..] == [];
    assert XorFrom(0, [x, y], hash) == XorFrom(0 ^ hash(x), [y], hash) == XorFrom((0 ^ hash(x)) ^ hash(y), [], hash);
    XorLaws(hash(x), hash(y));
  }

  /** The hash of several arguments is the XOR of the hashes of the parts, and that of one is its hash code. */
  lemma {:induction false} XorOver<A>(a: seq<A>, b: seq<A>, hash: A -> bv32, h: bv32)
    ensures XorFrom(h, a + b, hash) == XorFrom(XorFrom(h, a, hash), b, hash)
    decreases |a|
  {
    if a == [] {
      assert a + b == b;
    } else {
      assert (a + b)[0] == a[0] && (a + b)[1..] == a[1..] + b;
      XorOver(a[1..], b, hash, h ^ hash(a[0]));
    }
  }

  lemma {:induction false} XorStart<A>(a: seq<A>, hash: A -> bv32, h: bv32)
    ensures XorFrom(h, a, hash) == h ^ XorHash(a, hash)
    decreases |a|
  {
    if a == [] {
      ZeroIsNeutral(h);
    } else {
      XorStart(a[1..], hash, h ^ hash(a[0]));
      XorStart(a[1..], hash, 0 ^ hash(a[0]));
      XorAssociates(h, hash(a[0]), XorHash(a[1..], hash));
    }
  }

  lemma ZeroIsNeutral(h: bv32)
    ensures h == h ^ 0 && h == 0 ^ h
  {
  }

  lemma XorAssociates(a: bv32, b: bv32, c: bv32)
    ensures (a ^ b) ^ c == a ^ ((0 ^ b) ^ c)
  {
  }

  lemma XorOfParts<A>(a: seq<A>, b: seq<A>, x: A, hash: A -> bv32)
    ensures XorHash(a + b, hash) == XorHash(a, hash) ^ XorHash(b, hash)
    ensures XorHash([x], hash) == hash(x)
  {
    XorOver(a, b, hash, 0);
    XorStart(b, hash, XorHash(a, hash));
    assert [x][1..] == [];
    assert XorFrom(0, [x], hash) == XorFrom(0 ^ hash(x), [], hash);
    ZeroIsNeutral(hash(x));
  }

  function KeyOf<A>(args: seq<A>, hash: A -> bv32): Key<A> {
    if |args| == 0 then NoArgs
    else if |args| == 1 then One(args[0])
    else Many(XorHash(args, hash))
  }

  /** A call of the proxy, answered by a real call (`made`) or from the memo, as far as the collector
      has left it; or a `clear`. */
  datatype Event<A, R> = Invoke(at: (Method, Key<A>), now: int, outcome: Outcome<R>, made: bool) | Reset

  /** A call may be answered from the memo only by a value that has not expired. */
  predicate Allowed<A(==), R>(m: Memo<A, R>, e: Event<A, R>, expire: int) {
    e.Invoke? && !e.made ==> FreshIn(m, e.at, e.now, expire)
  }

  /** The memo has a value that has not expired. */
  predicate FreshIn<A(==), R>(m: Memo<A, R>, at: (Method, Key<A>), now: int, expire: int) {
    at in m && now - m[at].time <= expire
  }

  function After<A(==), R>(m: Memo<A, R>, e: Event<A, R>): Memo<A, R> {
    match e
    case Invoke(at, now, outcome, made) => if made then Remembered(m, at, outcome, now) else m
    case Reset => map[]
  }

  function Answer<A(==), R>(m: Memo<A, R>, e: Event<A, R>): Outcome<R>
    requires e.Invoke? && (e.made || e.at in m)
  {
    if e.made then e.outcome else Returns(Some(m[e.at].value))
  }

  function MemoAfter<A(==), R>(es: seq<Event<A, R>>): Memo<A, R> {
    if es == [] then map[] else After(MemoAfter(es[..|es| - 1]), es[|es| - 1])
  }

  predicate Legal<A(==), R>(es: seq<Event<A, R>>, expire: int) {
    es == [] ||
    (Legal(es[..|es| - 1], expire) && Allowed(MemoAfter(es[..|es| - 1]), es[|es| - 1], expire))
  }

  predicate RealCall<A(==), R>(e: Event<A, R>, at: (Method, Key<A>)) {
    e.Invoke? && e.made && e.at == at
  }

  /** The place of the last real call for a method and key since the last clear. */
  function LastReal<A(==), R>(es: seq<Event<A, R>>, at: (Method, Key<A>)): (j: Option<nat>)
    ensures j.Some? ==> j.value < |es| && RealCall(es[j.value], at)
  {
    if es == [] || es[|es| - 1].Reset? then None
    else if RealCall(es[|es| - 1], at) then Some(|es| - 1)
    else LastReal(es[..|es| - 1], at)
  }

  /** The memo holds, for every method and key, what the last real call returned, if it did. */
  lemma {:induction false} MemoIsLastReal<A, R>(es: seq<Event<A, R>>, at: (Method, Key<A>))
    ensures var j := LastReal(es, at);
            && (at in MemoAfter(es) <==> j.Some? && es[j.value].outcome.Returns? && es[j.value].outcome.value.Some?)
            && (at in MemoAfter(es) ==> MemoAfter(es)[at] == Stamped(es[j.value].outcome.value.value, es[j.value].now))
    decreases |es|
  {
    if es != [] {
      MemoIsLastReal(es[..|es| - 1], at);
    }
  }

  /** Nothing after `j` cleared the cache or called the method again with the key. */
  predicate Untouched<A(==), R>(es: seq<Event<A, R>>, j: nat, i: nat, at: (Method, Key<A>))
    requires i <= |es|
  {
    forall k :: j < k < i ==> es[k].Invoke? && !RealCall(es[k], at)
  }

  lemma {:induction false} LastRealUntouched<A, R>(es: seq<Event<A, R>>, at: (Method, Key<A>))
    ensures LastReal(es, at).Some? ==> Untouched(es, LastReal(es, at).value, |es|, at)
    decreases |es|
  {
    if es != [] {
      LastRealUntouched(es[..|es| - 1], at);
    }
  }

  lemma {:induction false} LegalPrefix<A, R>(es: seq<Event<A, R>>, n: nat, expire: int)
    requires n <= |es| && Legal(es, expire)
    ensures Legal(es[..n], expire)
    decreases |es|
  {
    if n < |es| {
      LegalPrefix(es[..|es| - 1], n, expire);
      assert es[..|es| - 1][..n] == es[..n];
    } else {
      assert es[..n] == es;
    }
  }

  /** Freshness: in every legal run, a call that is not real answers with what the last real call for
      the same method and key returned, at most `expire` before; since that call there was no clear
      and no other real call, so none that threw. */
  lemma AnswersAreFresh<A, R>(es: seq<Event<A, R>>, i: nat, expire: int)
    requires i < |es| && Legal(es, expire) && es[i].Invoke? && !es[i].made
    ensures es[i].at in MemoAfter(es[..i])
    ensures exists j: nat :: j < i && RealCall(es[j], es[i].at)
              && Answer(MemoAfter(es[..i]), es[i]) == es[j].outcome
              && es[i].now - es[j].now <= expire
              && Untouched(es, j, i, es[i].at)
  {
    var before, at := es[..i], es[i].at;
    LegalPrefix(es, i + 1, expire);
    assert es[..i + 1][..i] == before;
    MemoIsLastReal(before, at);
    LastRealUntouched(before, at);
    var j := LastReal(before, at).value;
    forall k | j < k < i ensures es[k].Invoke? && !RealCall(es[k], at) {
      assert before[k] == es[k];
    }
  }

  /** `r` is what the last real call of a run for a method and key returned, at most `expire` before
      `now`; since that call there was no clear and no other real call. */
  ghost predicate FreshAnswer<A, R>(es: seq<Event<A, R>>, at: (Method, Key<A>), now: int, expire: int, r: Outcome<R>) {
    exists j: nat :: j < |es| && RealCall(es[j], at) && r == es[j].outcome && now - es[j].now <= expire && Untouched(es, j, |es|, at)
  }

  /** A legal run and one allowed step more are a legal run. */
  lemma RunExtended<A, R>(es: seq<Event<A, R>>, e: Event<A, R>, expire: int)
    requires Legal(es, expire) && Allowed(MemoAfter(es), e, expire)
    ensures Legal(es + [e], expire) && MemoAfter(es + [e]) == After(MemoAfter(es), e)
  {
    assert (es + [e])[..|es|] == es;
  }

  lemma FreshSince<A, R>(es: seq<Event<A, R>>, i: nat, expire: int, r: Outcome<R>)
    requires i < |es| && Legal(es, expire) && es[i].Invoke? && !es[i].made
    requires es[i].at in MemoAfter(es[..i]) && r == Answer(MemoAfter(es[..i]), es[i])
    ensures FreshAnswer(es[..i], es[i].at, es[i].now, expire, r)
  {
    AnswersAreFresh(es, i, expire);
    var j: nat :| j < i && RealCall(es[j], es[i].at)
              && Answer(MemoAfter(es[..i]), es[i]) == es[j].outcome
              && es[i].now - es[j].now <= expire
              && Untouched(es, j, i, es[i].at);
    assert es[..i][j] == es[j];
    assert Untouched(es[..i], j, i, es[i].at);
  }

  /** The last real call of a run for a method and key returned a value, at most `expire` before `now`;
      since that call there was no clear. */
  ghost predicate Answerable<A, R>(es: seq<Event<A, R>>, at: (Method, Key<A>), now: int, expire: int) {
    exists j: nat :: j < |es| && RealCall(es[j], at) && es[j].outcome.Returns? && es[j].outcome.value.Some?
                     && now - es[j].now <= expire && Untouched(es, j, |es|, at)
  }

  lemma {:induction false} LastIsUntouched<A, R>(es: seq<Event<A, R>>, at: (Method, Key<A>), j: nat)
    requires j < |es| && RealCall(es[j], at) && Untouched(es, j, |es|, at)
    ensures LastReal(es, at) == Some(j)
    decreases |es|
  {
    if j < |es| - 1 {
      assert es[|es| - 1].Invoke? && !RealCall(es[|es| - 1], at);
      LastIsUntouched(es[..|es| - 1], at, j);
    }
  }

  /** The memo has something fresh exactly then. */
  lemma FreshExact<A, R>(es: seq<Event<A, R>>, at: (Method, Key<A>), now: int, expire: int)
    ensures FreshIn(MemoAfter(es), at, now, expire) <==> Answerable(es, at, now, expire)
  {
    MemoIsLastReal(es, at);
    LastRealUntouched(es, at);
    if Answerable(es, at, now, expire) {
      var j: nat :| j < |es| && RealCall(es[j], at) && es[j].outcome.Returns? && es[j].outcome.value.Some?
                    && now - es[j].now <= expire && Untouched(es, j, |es|, at);
      LastIsUntouched(es, at, j);
    }
  }

  /** A run in which a call is real exactly when the memo has nothing fresh for it. */
  predicate Exact<A(==), R>(es: seq<Event<A, R>>, expire: int) {
    es == [] ||
    (var before, e := es[..|es| - 1], es[|es| - 1];
     Exact(before, expire) && (e.Invoke? ==> (e.made <==> !FreshIn(MemoAfter(before), e.at, e.now, expire))))
  }

  lemma ExactExtended<A, R>(es: seq<Event<A, R>>, e: Event<A, R>, expire: int)
    ensures Exact(es + [e], expire) <==>
              Exact(es, expire) && (e.Invoke? ==> (e.made <==> !FreshIn(MemoAfter(es), e.at, e.now, expire)))
  {
    assert (es + [e])[..|es|] == es;
  }

  lemma {:induction false} ExactPrefix<A, R>(es: seq<Event<A, R>>, n: nat, expire: int)
    requires n <= |es| && Exact(es, expire)
    ensures Exact(es[..n], expire)
    decreases |es|
  {
    if n < |es| {
      ExactPrefix(es[..|es| - 1], n, expire);
      assert es[..|es| - 1][..n] == es[..n];
    } else {
      assert es[..n] == es;
    }
  }

  /** In such a run a call is real if and only if no earlier real call answers it: two real calls for one
      method and key, the first of which returned a value, are more than `expire` apart or have a clear
      between them. */
  lemma RealExact<A, R>(es: seq<Event<A, R>>, i: nat, expire: int)
    requires i < |es| && Exact(es, expire) && es[i].Invoke?
    ensures es[i].made <==> !Answerable(es[..i], es[i].at, es[i].now, expire)
  {
    ExactPrefix(es, i + 1, expire);
    assert es[..i + 1][..i] == es[..i];
    FreshExact(es[..i], es[i].at, es[i].now, expire);
  }

  // ---------------------------------------------------------------- runs in terms of the arguments

  /** A call of the proxy with its arguments, or a clear. */
  datatype Call<A, R> = Call(m: Method, args: seq<A>, now: int, outcome: Outcome<R>, made: bool) | Cleared

  function EventOf<A, R>(c: Call<A, R>, hash: A -> bv32): Event<A, R> {
    if c.Call? then Invoke((c.m, KeyOf(c.args, hash)), c.now, c.outcome, c.made) else Reset
  }

  function Keyed<A, R>(cs: seq<Call<A, R>>, hash: A -> bv32): (es: seq<Event<A, R>>)
    ensures |es| == |cs| && forall i :: 0 <= i < |cs| ==> es[i] == EventOf(cs[i], hash)
  {
    seq(|cs|, i requires 0 <= i < |cs| => EventOf(cs[i], hash))
  }

  /** Arguments that the proxy does not tell apart: at most one argument is told apart from everything else,
      and several are told apart by the XOR of their hash codes. */
  ghost predicate SameArgs<A>(a: seq<A>, b: seq<A>, hash: A -> bv32) {
    if |a| <= 1 || |b| <= 1 then a == b else XorHash(a, hash) == XorHash(b, hash)
  }

  lemma KeyExact<A>(a: seq<A>, b: seq<A>, hash: A -> bv32)
    ensures KeyOf(a, hash) == KeyOf(b, hash) <==> SameArgs(a, b, hash)
  {
    if |a| == 1 && |b| == 1 {
      assert a == [a[0]] && b == [b[0]];
    }
  }

  /** A single argument is its own key. */
  lemma OneArgument<A>(x: A, y: A, more: seq<A>, hash: A -> bv32)
    ensures KeyOf([x], hash) == KeyOf([y], hash) <==> x == y
    ensures KeyOf([x], hash) != KeyOf([], hash)
    ensures |more| > 1 ==> KeyOf([x], hash) != KeyOf(more, hash) && KeyOf([], hash) != KeyOf(more, hash)
  {
    KeyExact([x], [y], hash);
    KeyExact([x], [], hash);
    KeyExact([x], more, hash);
    KeyExact([], more, hash);
    assert x == y ==> [x] == [y];
    assert [x] == [y] ==> [x][0] == [y][0];
  }

  /** A real call of the method with arguments that are not told apart from `args`. */
  ghost predicate RealFor<A, R>(c: Call<A, R>, m: Method, args: seq<A>, hash: A -> bv32) {
    c.Call? && c.made && c.m == m && SameArgs(c.args, args, hash)
  }

  ghost predicate UntouchedFor<A, R>(cs: seq<Call<A, R>>, j: nat, m: Method, args: seq<A>, hash: A -> bv32) {
    forall k :: j < k < |cs| ==> cs[k].Call? && !RealFor(cs[k], m, args, hash)
  }

  /** `r` is what the last real call for the method and its arguments returned, at most `expire` before `now`;
      since that call there was no clear and no other real call. */
  ghost predicate FreshFor<A, R>(cs: seq<Call<A, R>>, m: Method, args: seq<A>, hash: A -> bv32, now: int, expire: int, r: Outcome<R>) {
    exists j: nat :: j < |cs| && RealFor(cs[j], m, args, hash) && r == cs[j].outcome && now - cs[j].now <= expire
                     && UntouchedFor(cs, j, m, args, hash)
  }

  /** There is such a call, and it returned a value. */
  ghost predicate AnswerableFor<A, R>(cs: seq<Call<A, R>>, m: Method, args: seq<A>, hash: A -> bv32, now: int, expire: int) {
    exists j: nat :: j < |cs| && RealFor(cs[j], m, args, hash) && cs[j].outcome.Returns? && cs[j].outcome.value.Some?
                     && now - cs[j].now <= expire && UntouchedFor(cs, j, m, args, hash)
  }

  lemma RealForKey<A, R>(c: Call<A, R>, m: Method, args: seq<A>, hash: A -> bv32)
    ensures RealFor(c, m, args, hash) <==> RealCall(EventOf(c, hash), (m, KeyOf(args, hash)))
  {
    if c.Call? {
      KeyExact(c.args, args, hash);
    }
  }

  lemma UntouchedForKey<A, R>(cs: seq<Call<A, R>>, j: nat, m: Method, args: seq<A>, hash: A -> bv32)
    ensures UntouchedFor(cs, j, m, args, hash) <==> Untouched(Keyed(cs, hash), j, |cs|, (m, KeyOf(args, hash)))
  {
    forall k | j < k < |cs|
      ensures Keyed(cs, hash)[k].Invoke? <==> cs[k].Call?
      ensures RealFor(cs[k], m, args, hash) <==> RealCall(Keyed(cs, hash)[k], (m, KeyOf(args, hash)))
    {
      RealForKey(cs[k], m, args, hash);
    }
  }

  /** What is stated of keys is so stated of arguments. */
  lemma FreshForKey<A, R>(cs: seq<Call<A, R>>, m: Method, args: seq<A>, hash: A -> bv32, now: int, expire: int, r: Outcome<R>)
    requires FreshAnswer(Keyed(cs, hash), (m, KeyOf(args, hash)), now, expire, r)
    ensures FreshFor(cs, m, args, hash, now, expire, r)
  {
    var es, at := Keyed(cs, hash), (m, KeyOf(args, hash));
    var j: nat :| j < |es| && RealCall(es[j], at) && r == es[j].outcome && now - es[j].now <= expire && Untouched(es, j, |es|, at);
    RealForKey(cs[j], m, args, hash);
    UntouchedForKey(cs, j, m, args, hash);
  }

  lemma AnswerableForKey<A, R>(cs: seq<Call<A, R>>, m: Method, args: seq<A>, hash: A -> bv32, now: int, expire: int)
    ensures Answerable(Keyed(cs, hash), (m, KeyOf(args, hash)), now, expire) <==> AnswerableFor(cs, m, args, hash, now, expire)
  {
    var es, at := Keyed(cs, hash), (m, KeyOf(args, hash));
    forall j: nat | j < |cs|
      ensures RealFor(cs[j], m, args, hash) <==> RealCall(es[j], at)
      ensures UntouchedFor(cs, j, m, args, hash) <==> Untouched(es, j, |es|, at)
    {
      RealForKey(cs[j], m, args, hash);
      UntouchedForKey(cs, j, m, args, hash);
    }
    if Answerable(es, at, now, expire) {
      var j: nat :| j < |es| && RealCall(es[j], at) && es[j].outcome.Returns? && es[j].outcome.value.Some?
                    && now - es[j].now <= expire && Untouched(es, j, |es|, at);
      assert RealFor(cs[j], m, args, hash) && UntouchedFor(cs, j, m, args, hash);
    }
    if AnswerableFor(cs, m, args, hash, now, expire) {
      var j: nat :| j < |cs| && RealFor(cs[j], m, args, hash) && cs[j].outcome.Returns? && cs[j].outcome.value.Some?
                    && now - cs[j].now <= expire && UntouchedFor(cs, j, m, args, hash);
      assert RealCall(es[j], at) && Untouched(es, j, |es|, at);
    }
  }

  lemma KeyedSnoc<A, R>(cs: seq<Call<A, R>>, c: Call<A, R>, hash: A -> bv32)
    ensures Keyed(cs + [c], hash) == Keyed(cs, hash) + [EventOf(c, hash)]
  {
  }

  /** With two arguments the order does not matter, and equal arguments all share one key. */
  lemma KeysCollide<A>(x: A, y: A, hash: A -> bv32)
    ensures KeyOf([x, y], hash) == KeyOf([y, x], hash) && KeyOf([x, x], hash) == KeyOf([y, y], hash)
  {
    XorPair(x, y, hash);
    XorPair(y, x, hash);
    XorPair(x, x, hash);
    XorPair(y, y, hash);
    XorLaws(hash(x), hash(y));
    XorLaws(hash(y), hash(x));
  }
}