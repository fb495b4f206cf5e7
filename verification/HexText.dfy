/** Hexadecimal words and addresses of `/proc/net/tcp`: `hex2int`, `convert_hex_address`. */
module HexText {
  import opened Words

  const HEX_ENT_LEN: nat := 8

  /** Bitwise or of two unsigned numbers of the given width. */
  function Or(a: nat, b: nat, bits: nat): nat {
    if bits == 0 then 0
    else (if a % 2 == 1 || b % 2 == 1 then 1 else 0) + 2 * Or(a / 2, b / 2, bits - 1)
  }

  function Pow2(bits: nat): nat {
    if bits == 0 then 1 else 2 * Pow2(bits - 1)
  }

  lemma Pow2Four(bits: nat)
    ensures Pow2(bits + 4) == 16 * Pow2(bits)
  {
    assert Pow2(bits + 4) == 2 * Pow2(bits + 3) && Pow2(bits + 2) == 2 * Pow2(bits + 1);
  }

  lemma TwentyEight()
    ensures Pow2(28) == 0x1000_0000
  {
    for i := 0 to 7
      invariant Pow2(4 * i) == [1, 0x10, 0x100, 0x1000, 0x1_0000, 0x10_0000, 0x100_0000, 0x1000_0000][i]
    {
      Pow2Four(4 * i);
    }
  }

  lemma {:induction false} OrZero(a: nat, bits: nat)
    requires a < Pow2(bits)
    ensures Or(a, 0, bits) == a
  {
    if bits > 0 {
      OrZero(a / 2, bits - 1);
    }
  }

  lemma OrBit(a: nat, b: nat, bits: nat)
    ensures Or(2 * a, b, bits + 1) == b % 2 + 2 * Or(a, b / 2, bits)
  {
  }

  lemma NibbleHalves(d: nat)
    requires d < 16
    ensures d / 2 / 2 == d / 4 && d / 4 / 2 == d / 8 && d / 8 / 2 == 0
  {
  }

  /** Or with a nibble adds it when the low four bits are clear. */
  lemma OrNibble(q: nat, d: nat)
    requires 16 * q < TWO32 && d < 16
    ensures Or(16 * q, d, 32) == 16 * q + d
  {
    TwentyEight();
    OrZero(q, 28);
    var d1, d2, d3 := d / 2, d / 4, d / 8;
    NibbleHalves(d);
    OrBit(q, d3, 28);
    OrBit(2 * q, d2, 29);
    OrBit(4 * q, d1, 30);
    OrBit(8 * q, d, 31);
  }

  predicate IsHex(c: char) {
    '0' <= c <= '9' || 'A' <= c <= 'F' || 'a' <= c <= 'f'
  }

  /** The number added for one character, as an `int`: any letter in upper case counts from `A`, and
      everything else as if from `a`. */
  function HexValue(c: char): (v: int)
    ensures IsHex(c) ==> 0 <= v < 16
  {
    if '0' <= c <= '9' then c as int - '0' as int
    else if 'A' <= c <= 'Z' then c as int - ('A' as int - 10)
    else c as int - ('a' as int - 10)
  }

  function Unsigned(v: int): (r: nat)
    ensures 0 <= v < TWO32 ==> r == v
  {
    v % TWO32
  }

  function HexStep(j: nat, c: char): nat {
    Or(Unsigned(j * 16), Unsigned(HexValue(c)), 32)
  }

  function HexFrom(s: string, j: nat): nat
    decreases |s|
  {
    if s == [] then j else HexFrom(s[1..], HexStep(j, s[0]))
  }

  /** `hex2int`. */
  function HexWord(s: string): nat {
    HexFrom(s, 0)
  }

  /** `hex2int` with its loop. */
  method Hex2Int(x: string, len: nat) returns (j: nat)
    requires len <= |x|
    ensures j == HexWord(x[..len])
  {
    j := 0;
    for i := 0 to len
      invariant HexFrom(x[..len][i..], j) == HexWord(x[..len])
    {
      var rest := x[..len][i..];
      assert rest[0] == x[i] && rest[1..] == x[..len][i + 1..];
      j := Or(Unsigned(j * 16), Unsigned(HexValue(x[i])), 32);
    }
  }

  // ---------------------------------------------------------------- meaning

  predicate AllHex(s: string) {
    forall i :: 0 <= i < |s| ==> IsHex(s[i])
  }

  /** The number a text of hexadecimal digits stands for, of any length. */
  function BaseFrom(s: string, v: nat): nat
    requires AllHex(s)
    decreases |s|
  {
    if s == [] then v else BaseFrom(s[1..], v * 16 + HexValue(s[0]))
  }

  lemma ShiftLeft(v: nat, d: nat)
    requires d < 16
    ensures v % TWO32 * 16 % TWO32 == 16 * (v % 0x1000_0000)
    ensures (v * 16 + d) % TWO32 == 16 * (v % 0x1000_0000) + d
  {
  }

  lemma HexStepAdds(j: nat, v: nat, c: char)
    requires j == v % TWO32 && IsHex(c)
    ensures HexStep(j, c) == (v * 16 + HexValue(c)) % TWO32
  {
    var d := HexValue(c);
    var q := v % 0x1000_0000;
    ShiftLeft(v, d);
    OrNibble(q, d);
    assert Unsigned(j * 16) == 16 * q && Unsigned(d) == d;
  }

  /** `hex2int` computes the number modulo 2^32, whatever the length and the case of the digits. */
  lemma {:induction false} HexIsValue(s: string, j: nat, v: nat)
    requires AllHex(s) && j == v % TWO32
    ensures HexFrom(s, j) == BaseFrom(s, v) % TWO32
    decreases |s|
  {
    if s != [] {
      HexStepAdds(j, v, s[0]);
      HexIsValue(s[1..], HexStep(j, s[0]), v * 16 + HexValue(s[0]));
    }
  }

  function HexChar(d: nat, upper: bool): (c: char)
    requires d < 16
    ensures IsHex(c) && HexValue(c) == d
  {
    if d < 10 then ('0' as int + d) as char
    else if upper then ('A' as int + d - 10) as char
    else ('a' as int + d - 10) as char
  }

  /** A number printed with `n` hexadecimal digits. */
  function Hex(w: nat, n: nat, upper: bool): (s: string)
    ensures |s| == n && AllHex(s)
  {
    if n == 0 then [] else Hex(w / 16, n - 1, upper) + [HexChar(w % 16, upper)]
  }

  lemma {:induction false} BaseSnoc(s: string, c: char, v: nat)
    requires AllHex(s) && IsHex(c)
    ensures AllHex(s + [c]) && BaseFrom(s + [c], v) == BaseFrom(s, v) * 16 + HexValue(c)
    decreases |s|
  {
    if s == [] {
      assert s + [c] == [c] && [c][1..] == [];
    } else {
      assert (s + [c])[1..] == s[1..] + [c];
      BaseSnoc(s[1..], c, v * 16 + HexValue(s[0]));
    }
  }

  function Pow16(n: nat): nat {
    if n == 0 then 1 else 16 * Pow16(n - 1)
  }

  lemma {:induction false} HexStandsFor(w: nat, n: nat, upper: bool)
    requires w < Pow16(n)
    ensures BaseFrom(Hex(w, n, upper), 0) == w
  {
    if n > 0 {
      HexStandsFor(w / 16, n - 1, upper);
      BaseSnoc(Hex(w / 16, n - 1, upper), HexChar(w % 16, upper), 0);
    }
  }

  /** `hex2int` inverts hexadecimal printing, in either case, of every word that fits the digits. */
  lemma HexRoundTrip(w: nat, n: nat, upper: bool)
    requires w < TWO32 && w < Pow16(n)
    ensures HexWord(Hex(w, n, upper)) == w
  {
    HexStandsFor(w, n, upper);
    WordOfValue(Hex(w, n, upper), w);
  }

  lemma WordOfValue(s: string, w: nat)
    requires AllHex(s) && BaseFrom(s, 0) == w < TWO32
    ensures HexWord(s) == w
  {
    HexIsValue(s, 0, 0);
  }

  // ---------------------------------------------------------------- addresses

  /** The addresses that `/proc/net/tcp` and its IPv6 sibling list. */
  predicate IsAddress(a: Address) {
    && (forall i :: 0 <= i < |a.words| ==> a.words[i] < TWO32)
    && match a.family
       case Inet => |a.words| == 1
       case Inet6 => |a.words| == 4
       case _ => false
  }

  predicate LongEnough(text: string, len: nat) {
    && (len == HEX_ENT_LEN ==> HEX_ENT_LEN <= |text|)
    && (len > HEX_ENT_LEN ==> 4 * HEX_ENT_LEN <= |text|)
  }

  /** `convert_hex_address`: which family it is depends on the length alone. */
  function AddressOf(text: string, len: nat): Address
    requires LongEnough(text, len)
  {
    if len > HEX_ENT_LEN
    then Address(Inet6, [HexWord(text[0..8]), HexWord(text[8..16]), HexWord(text[16..24]), HexWord(text[24..32])])
    else Address(Inet, [if len == HEX_ENT_LEN then HexWord(text[0..8]) else 0])
  }

  /** A text that is too short is the address 0. */
  lemma ShortAddress(text: string, len: nat)
    requires len < 8
    ensures AddressOf(text, len) == Address(Inet, [0])
  {
  }

  /** `convert_hex_address` with its loop over the four words. */
  method ConvertHexAddress(text: string, len: nat) returns (a: Address)
    requires LongEnough(text, len)
    ensures a == AddressOf(text, len)
  {
    if len > HEX_ENT_LEN {
      var in6 := new nat[4];
      var ptr := text;
      for i := 0 to 4
        invariant |text| >= 8 * i && ptr == text[8 * i..]
        invariant forall k :: 0 <= k < i ==> in6[k] == HexWord(text[8 * k..8 * k + 8])
      {
        var word := Hex2Int(ptr, HEX_ENT_LEN);
        assert ptr[..8] == text[8 * i..8 * i + 8];
        in6[i] := word;
        ptr := ptr[HEX_ENT_LEN..];
      }
      return Address(Inet6, [in6[0], in6[1], in6[2], in6[3]]);
    }
    if len == HEX_ENT_LEN {
      var word := Hex2Int(text, HEX_ENT_LEN);
      return Address(Inet, [word]);
    }
    return Address(Inet, [0]);
  }

  /** An address as the kernel prints it: eight digits a word, in host order. */
  function Printed(a: Address, upper: bool): (s: string)
    requires IsAddress(a)
    ensures AllHex(s) && |s| == if a.family.Inet? then 8 else 32
  {
    if a.family.Inet? then Hex(a.words[0], 8, upper)
    else Hex(a.words[0], 8, upper) + Hex(a.words[1], 8, upper) + Hex(a.words[2], 8, upper) + Hex(a.words[3], 8, upper)
  }

  /** Converting undoes printing for every address of both families, whatever follows. */
  lemma AddressRoundTrip(a: Address, upper: bool, rest: string)
    requires IsAddress(a)
    ensures LongEnough(Printed(a, upper) + rest, |Printed(a, upper)|)
    ensures AddressOf(Printed(a, upper) + rest, |Printed(a, upper)|) == a
  {
    var text := Printed(a, upper) + rest;
    HexRoundTrip(a.words[0], 8, upper);
    assert text[0..8] == Hex(a.words[0], 8, upper);
    if a.family.Inet6? {
      assert text[8..16] == Hex(a.words[1], 8, upper);
      assert text[16..24] == Hex(a.words[2], 8, upper) && text[24..32] == Hex(a.words[3], 8, upper);
      HexRoundTrip(a.words[1], 8, upper);
      HexRoundTrip(a.words[2], 8, upper);
      HexRoundTrip(a.words[3], 8, upper);
    }
  }
}
