/** `/proc/<pid>/cmdline`: NUL-terminated pieces into a list that grows. */
module ProcArgs {
  import opened Text

  const ARGS_MAX: nat := 12

  /** `strlen` of a buffer that has a NUL behind its end. */
  function StrLen(s: string): (n: nat)
    ensures n <= |s|
    ensures n < |s| ==> s[n] == NUL
  {
    LenTo(s, NUL)
  }

  // ---------------------------------------------------------------- splitting and joining

  function Split(text: string): seq<string>
    decreases |text|
  {
    if text == [] then []
    else
      var n := StrLen(text);
      [text[..n]] + if n + 1 < |text| then Split(text[n + 1..]) else []
  }

  function Join(args: seq<string>): string {
    if args == [] then [] else args[0] + [NUL] + Join(args[1..])
  }

  predicate NulFree(args: seq<string>) {
    forall i :: 0 <= i < |args| ==> NUL !in args[i]
  }

  lemma SplitFirst(a: string, rest: string)
    requires NUL !in a
    ensures Split(a + [NUL] + rest) == [a] + Split(rest)
  {
    var text := a + [NUL] + rest;
    assert text == a + ([NUL] + rest);
    LenOver(a, NUL, [NUL] + rest);
    assert text[|a| + 1..] == rest && text[..|a|] == a;
  }

  /** Splitting undoes joining, for any arguments, empty ones included; a last piece without its NUL
      is kept whole. */
  lemma {:induction false} SplitJoin(args: seq<string>, last: string)
    requires NulFree(args) && NUL !in last
    ensures Split(Join(args) + last) == args + if last == [] then [] else [last]
  {
    if args == [] {
      assert Join(args) + last == last;
      LenOver(last, NUL, []);
      assert last + [] == last && last[..|last|] == last;
    } else {
      var rest := Join(args[1..]) + last;
      assert Join(args) + last == args[0] + [NUL] + rest;
      SplitFirst(args[0], rest);
      SplitJoin(args[1..], last);
      var tail := if last == [] then [] else [last];
      assert [args[0]] + (args[1..] + tail) == args + tail;
    }
  }

  lemma SplitUnfold(text: string)
    requires text != []
    ensures var n := StrLen(text);
            Split(text) == [text[..n]] + if n + 1 < |text| then Split(text[n + 1..]) else []
  {
  }

  lemma JoinFirst(a: string, rest: seq<string>)
    ensures Join([a] + rest) == a + [NUL] + Join(rest)
    ensures NUL !in a && NulFree(rest) ==> NulFree([a] + rest)
  {
    assert ([a] + rest)[1..] == rest;
  }

  function Ended(text: string): string {
    if text == [] || text[|text| - 1] == NUL then text else text + [NUL]
  }

  lemma EndedFirst(text: string, n: nat)
    requires n < |text| && text[n] == NUL
    ensures Ended(text) == text[..n] + [NUL] + Ended(text[n + 1..])
  {
    var rest := text[n + 1..];
    assert text == text[..n] + [NUL] + rest;
    if rest != [] {
      assert rest[|rest| - 1] == text[|text| - 1];
    }
  }

  /** Joining undoes splitting, up to the NUL that a last piece may lack; no piece holds a NUL. */
  lemma {:induction false} JoinSplit(text: string)
    ensures NulFree(Split(text)) && Join(Split(text)) == Ended(text)
    decreases |text|
  {
    if text != [] {
      var n := StrLen(text);
      SplitUnfold(text);
      LenFree(text, NUL);
      if n < |text| {
        var rest := text[n + 1..];
        JoinSplit(rest);
        JoinFirst(text[..n], Split(rest));
        EndedFirst(text, n);
        assert [text[..n]] + [] == [text[..n]];
      } else {
        assert text[..n] == text && text[|text| - 1] in text[..n];
        JoinFirst(text, []);
        assert [text] + [] == [text];
      }
    }
  }

  lemma SplitStep(done: seq<string>, text: string)
    requires text != []
    ensures var n := StrLen(text);
            done + Split(text) == (done + [text[..n]]) + if n + 1 < |text| then Split(text[n + 1..]) else []
  {
  }

  // ---------------------------------------------------------------- the code

  /** `sysm_proc_args_t`. */
  class ArgList {
    var data: array<string>
    var number: nat
    var size: nat

    ghost predicate Valid()
      reads this
    {
      number <= size == data.Length
    }

    ghost function Contents(): seq<string>
      reads this, data
      requires Valid()
    {
      data[..number]
    }

    constructor ()
      ensures Valid() && Contents() == [] && fresh(data)
    {
      data := new string[ARGS_MAX];
      number, size := 0, ARGS_MAX;
    }

    /** `sysm_proc_args_grow`: a larger block with the same contents. */
    method Grow()
      requires Valid()
      modifies this
      ensures Valid() && fresh(data) && number == old(number) && size == old(size) + ARGS_MAX
      ensures Contents() == old(Contents())
    {
      var more := new string[size + ARGS_MAX];
      forall i | 0 <= i < size {
        more[i] := data[i];
      }
      data := more;
      size := size + ARGS_MAX;
    }

    method Push(arg: string)
      requires Valid()
      modifies this, data
      ensures Valid() && (data == old(data) || fresh(data))
      ensures Contents() == old(Contents()) + [arg]
    {
      if number >= size {
        Grow();
      }
      data[number] := arg;
      number := number + 1;
    }
  }

  /** The loop of `sysm_os_proc_args_get` on what was read. `total` ends at -1 when the last piece has
      no NUL of its own. */
  method ArgsGet(text: string) returns (args: ArgList)
    ensures fresh(args) && args.Valid() && args.Contents() == Split(text)
  {
    args := new ArgList();
    var total: int := |text|;
    var ptr := text;
    while total > 0
      invariant fresh(args) && fresh(args.data) && args.Valid()
      invariant total > 0 ==> total == |ptr|
      invariant args.Contents() + (if total > 0 then Split(ptr) else []) == Split(text)
      decreases total
    {
      var alen := StrLen(ptr) + 1;
      SplitStep(args.Contents(), ptr);
      args.Push(ptr[..alen - 1]);
      total := total - alen;
      if total > 0 {
        ptr := ptr[alen..];
      }
    }
  }
}
