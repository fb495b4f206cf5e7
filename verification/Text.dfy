/** C text scanning on the rest of a line: a pointer into a string is the suffix it points to. */
module Text {
  import opened Words

  const NUL: char := '\0'

  predicate IsSpace(c: char) {
    c as int == 32 || 9 <= c as int <= 13
  }

  predicate IsDigit(c: char) {
    '0' <= c <= '9'
  }

  function SkipSpace(s: string): (r: string)
    ensures r == [] || !IsSpace(r[0])
  {
    if s != [] && IsSpace(s[0]) then SkipSpace(s[1..]) else s
  }

  function SkipWord(s: string): (r: string)
    ensures r == [] || IsSpace(r[0])
  {
    if s != [] && !IsSpace(s[0]) then SkipWord(s[1..]) else s
  }

  /** `sysm_skip_token`: spaces, then a word. */
  function SkipToken(s: string): string {
    SkipWord(SkipSpace(s))
  }

  /** `sysm_skip_token` with its two loops. */
  method SkipTokenFrom(s: string) returns (p: string)
    ensures p == SkipToken(s)
  {
    p := s;
    while p != [] && IsSpace(p[0])
      invariant SkipSpace(p) == SkipSpace(s)
    {
      p := p[1..];
    }
    while p != [] && !IsSpace(p[0])
      invariant SkipWord(p) == SkipToken(s)
    {
      p := p[1..];
    }
  }

  // ---------------------------------------------------------------- looking for a character

  /** `strchr`. */
  function FirstIndex(s: string, c: char): (r: Option<nat>)
    ensures r.Some? ==> r.value < |s| && s[r.value] == c
  {
    if s == [] then None
    else if s[0] == c then Some(0)
    else match FirstIndex(s[1..], c) case None => None case Some(i) => Some(i + 1)
  }

  lemma {:induction false} FirstIndexAt(a: string, c: char, b: string)
    requires c !in a
    ensures FirstIndex(a + [c] + b, c) == Some(|a|)
  {
    if a == [] {
      assert a + [c] + b == [c] + b;
    } else {
      assert (a + [c] + b)[1..] == a[1..] + [c] + b;
      FirstIndexAt(a[1..], c, b);
    }
  }

  /** How far it is to the next `c`, or to the end. */
  function LenTo(s: string, c: char): (n: nat)
    ensures n <= |s|
    ensures n < |s| ==> s[n] == c
  {
    if s == [] || s[0] == c then 0 else LenTo(s[1..], c) + 1
  }

  lemma {:induction false} LenFree(s: string, c: char)
    ensures c !in s[..LenTo(s, c)]
  {
    if s != [] && s[0] != c {
      LenFree(s[1..], c);
      assert s[..LenTo(s, c)] == [s[0]] + s[1..][..LenTo(s[1..], c)];
    }
  }

  lemma {:induction false} LenOver(w: string, c: char, rest: string)
    requires c !in w && (rest == [] || rest[0] == c)
    ensures LenTo(w + rest, c) == |w|
  {
    if w == [] {
      assert w + rest == rest;
    } else {
      assert (w + rest)[1..] == w[1..] + rest;
      LenOver(w[1..], c, rest);
    }
  }

  // ---------------------------------------------------------------- numbers

  function DigitsFrom(s: string, v: nat): (nat, string)
    decreases |s|
  {
    if s != [] && IsDigit(s[0]) then DigitsFrom(s[1..], v * 10 + (s[0] as int - '0' as int)) else (v, s)
  }

  /** `strtoul(s, &s, 10)`: spaces, a sign, digits; saturating; a string without digits is not
      consumed and gives 0. */
  function StrToUl(s: string): (nat, string) {
    var t := SkipSpace(s);
    var minus := t != [] && t[0] == '-';
    var u := if t != [] && (t[0] == '-' || t[0] == '+') then t[1..] else t;
    if u == [] || !IsDigit(u[0]) then (0, s)
    else
      var (v, rest) := DigitsFrom(u, 0);
      (if v >= TWO64 then TWO64 - 1 else if minus then (TWO64 - v) % TWO64 else v, rest)
  }

  /** A word as it stands between spaces. */
  predicate IsWord(w: string) {
    w != [] && forall i :: 0 <= i < |w| ==> !IsSpace(w[i])
  }

  predicate IsNumber(w: string) {
    w != [] && (forall i :: 0 <= i < |w| ==> IsDigit(w[i])) && Value(w) < TWO64
  }

  function ValueFrom(w: string, v: nat): nat {
    if w == [] then v
    else if IsDigit(w[0]) then ValueFrom(w[1..], v * 10 + (w[0] as int - '0' as int))
    else v
  }

  function Value(w: string): nat {
    ValueFrom(w, 0)
  }

  /** A number with or without a minus sign, and what `strtoul` makes of it. */
  predicate IsInteger(w: string) {
    IsNumber(w) || (w != [] && w[0] == '-' && IsNumber(w[1..]))
  }

  function ULong(w: string): nat {
    if w != [] && w[0] == '-' then (TWO64 - Value(w[1..])) % TWO64 else Value(w)
  }

  /** What `isspace` holds of. */
  lemma SpaceExact(c: char)
    ensures IsSpace(c) <==> c == ' ' || c == '\t' || c == '\n' || c as int == 11 || c as int == 12 || c == '\r'
  {
  }

  /** A minus sign gives the two's complement of the number. */
  lemma MinusWraps(w: string)
    requires IsNumber(w)
    ensures ULong(w) == Value(w)
    ensures ULong("-" + w) < 0x1_0000_0000_0000_0000 && (ULong("-" + w) + Value(w)) % 0x1_0000_0000_0000_0000 == 0
  {
    assert ("-" + w)[0] == '-' && ("-" + w)[1..] == w;
    assert w[0] != '-';
  }

  /** Words with one space before each, then what ends the line. */
  function Spaced(words: seq<string>, end: string): string {
    if words == [] then end else " " + words[0] + Spaced(words[1..], end)
  }

  predicate EndsWord(s: string) {
    s == [] || IsSpace(s[0])
  }

  lemma SpacedEndsWord(words: seq<string>, end: string)
    requires EndsWord(end)
    ensures EndsWord(Spaced(words, end))
  {
  }

  lemma {:induction false} SkipWordOver(w: string, rest: string)
    requires (forall i :: 0 <= i < |w| ==> !IsSpace(w[i])) && EndsWord(rest)
    ensures SkipWord(w + rest) == rest
  {
    if w == [] {
      assert w + rest == rest;
    } else {
      assert (w + rest)[1..] == w[1..] + rest;
      SkipWordOver(w[1..], rest);
    }
  }

  lemma SpacedFirst(words: seq<string>, end: string)
    requires words != [] && words[0] != [] && !IsSpace(words[0][0])
    ensures Spaced(words, end) == " " + (words[0] + Spaced(words[1..], end))
    ensures SkipSpace(Spaced(words, end)) == words[0] + Spaced(words[1..], end)
  {
    var t := words[0] + Spaced(words[1..], end);
    assert (" " + t)[1..] == t;
    assert t[0] == words[0][0];
    assert SkipSpace(t) == t;
  }

  /** Skipping a token consumes exactly one word. */
  lemma SkipTokenOver(words: seq<string>, end: string)
    requires words != [] && IsWord(words[0]) && EndsWord(end)
    ensures SkipToken(Spaced(words, end)) == Spaced(words[1..], end)
  {
    SpacedFirst(words, end);
    SpacedEndsWord(words[1..], end);
    SkipWordOver(words[0], Spaced(words[1..], end));
  }

  lemma {:induction false} DigitsOver(w: string, rest: string, v: nat)
    requires (forall i :: 0 <= i < |w| ==> IsDigit(w[i])) && EndsWord(rest)
    ensures DigitsFrom(w + rest, v) == (ValueFrom(w, v), rest)
    decreases |w|
  {
    if w == [] {
      assert w + rest == rest;
    } else {
      assert (w + rest)[1..] == w[1..] + rest;
      DigitsOver(w[1..], rest, v * 10 + (w[0] as int - '0' as int));
    }
  }

  lemma StrToUlHere(w: string, rest: string)
    requires IsInteger(w) && EndsWord(rest)
    ensures StrToUl(w + rest) == (ULong(w), rest)
  {
    assert (w + rest)[0] == w[0] && !IsSpace(w[0]);
    assert SkipSpace(w + rest) == w + rest;
    if w[0] == '-' {
      assert (w + rest)[1..] == w[1..] + rest;
      DigitsOver(w[1..], rest, 0);
    } else {
      assert IsDigit(w[0]);
      DigitsOver(w, rest, 0);
    }
  }

  /** Reading a number consumes exactly one word and gives its value. */
  lemma StrToUlOver(words: seq<string>, end: string)
    requires words != [] && IsInteger(words[0]) && EndsWord(end)
    ensures StrToUl(Spaced(words, end)) == (ULong(words[0]), Spaced(words[1..], end))
  {
    var w, rest := words[0], Spaced(words[1..], end);
    SpacedFirst(words, end);
    SpacedEndsWord(words[1..], end);
    StrToUlHere(w, rest);
    SpaceBefore(w + rest);
  }

  /** A number that does not fit gives the largest one that does, a plus sign changes nothing, and a word
      that is not a number is left alone and gives 0. */
  lemma StrToUlElse(w: string, rest: string)
    requires w != [] && (forall i :: 0 <= i < |w| ==> IsDigit(w[i])) && EndsWord(rest)
    ensures Value(w) >= 0x1_0000_0000_0000_0000 ==> StrToUl(w + rest) == (0xFFFF_FFFF_FFFF_FFFF, rest)
    ensures StrToUl("+" + w + rest) == StrToUl(w + rest)
  {
    assert (w + rest)[0] == w[0] && SkipSpace(w + rest) == w + rest;
    DigitsOver(w, rest, 0);
    assert ("+" + w + rest)[0] == '+' && ("+" + w + rest)[1..] == w + rest;
  }

  lemma StrToUlNone(s: string)
    requires s == [] || (!IsSpace(s[0]) && !IsDigit(s[0]) && s[0] != '-' && s[0] != '+')
    ensures StrToUl(s) == (0, s)
  {
  }

  lemma SpaceBefore(t: string)
    requires StrToUl(t).1 != t
    ensures StrToUl(" " + t) == StrToUl(t)
  {
    assert (" " + t)[1..] == t;
  }

  // ---------------------------------------------------------------- decimal printing

  function DigitChar(d: nat): char
    requires d < 10
  {
    ('0' as int + d) as char
  }

  function Decimal(n: nat): (w: string)
    ensures w != []
  {
    if n < 10 then [DigitChar(n)] else Decimal(n / 10) + [DigitChar(n % 10)]
  }

  lemma {:induction false} ValueSnoc(w: string, c: char, v: nat)
    requires (forall i :: 0 <= i < |w| ==> IsDigit(w[i])) && IsDigit(c)
    ensures ValueFrom(w + [c], v) == ValueFrom(w, v) * 10 + (c as int - '0' as int)
    decreases |w|
  {
    if w == [] {
      assert w + [c] == [c] && [c][1..] == [];
    } else {
      assert (w + [c])[1..] == w[1..] + [c];
      ValueSnoc(w[1..], c, v * 10 + (w[0] as int - '0' as int));
    }
  }

  /** Decimal text reads back as the number it was printed from. */
  lemma {:induction false} DecimalValue(n: nat)
    ensures forall i :: 0 <= i < |Decimal(n)| ==> IsDigit(Decimal(n)[i])
    ensures Value(Decimal(n)) == n
    ensures n < TWO64 ==> IsNumber(Decimal(n))
  {
    if n >= 10 {
      DecimalValue(n / 10);
      ValueSnoc(Decimal(n / 10), DigitChar(n % 10), 0);
    } else {
      assert [DigitChar(n)][1..] == [];
      assert ValueFrom([DigitChar(n)][1..], n) == n;
    }
  }
}
