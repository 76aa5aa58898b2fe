/** Decimal text of integers, as Java's `Integer.toString` writes it and
    `Integer.parseInt` reads it (radix 10). Values are unbounded here; the
    32-bit range of `int` is the subset type `Int32`, checked where the
    source can overflow. */
module Decimal {
  import opened Wrappers

  const MinInt32: int := -0x8000_0000
  const MaxInt32: int := 0x7FFF_FFFF

  /** The values of a Java `int`. */
  type Int32 = x: int | MinInt32 <= x <= MaxInt32

  predicate IsDigit(c: char) {
    '0' <= c <= '9'
  }

  predicate AllDigits(s: string) {
    forall i :: 0 <= i < |s| ==> IsDigit(s[i])
  }

  /** Text that matches `-?[0-9]+`: an optional minus sign and at least one digit. */
  predicate IsNumeral(s: string) {
    (|s| > 0 && AllDigits(s)) || (|s| > 1 && s[0] == '-' && AllDigits(s[1..]))
  }

  function DigitValue(c: char): (d: nat)
    requires IsDigit(c)
    ensures d < 10
  {
    c as int - '0' as int
  }

  function DigitChar(d: nat): (c: char)
    requires d < 10
    ensures IsDigit(c) && DigitValue(c) == d
  {
    ('0' as int + d) as char
  }

  /** The value of a run of digits, most significant first. */
  function DigitsValue(s: string): nat
    requires AllDigits(s)
  {
    if s == [] then 0 else DigitsValue(s[..|s| - 1]) * 10 + DigitValue(s[|s| - 1])
  }

  /** The value `Integer.parseInt` gives a numeral (leading zeros and "-0" allowed). */
  function NumeralValue(s: string): int
    requires IsNumeral(s)
  {
    if s[0] == '-' then -(DigitsValue(s[1..]) as int) else DigitsValue(s)
  }

  /** The shortest decimal form of a natural number: "0", or digits without a leading zero. */
  function NatToString(n: nat): (s: string)
    ensures |s| > 0 && AllDigits(s)
    ensures DigitsValue(s) == n
    ensures s[0] == '0' <==> n == 0
    ensures n == 0 ==> s == "0"
  {
    if n < 10 then [DigitChar(n)]
    else
      var init := NatToString(n / 10);
      var s := init + [DigitChar(n % 10)];
      assert s[..|s| - 1] == init;
      s
  }

  /** `Integer.toString`: a minus sign for negative values, then the magnitude in its
      shortest form (no leading zero; "0" only for zero, which has no sign). */
  function IntToString(n: int): (s: string)
    ensures IsNumeral(s) && NumeralValue(s) == n
    ensures s[0] == '-' <==> n < 0
    ensures var m := if n < 0 then s[1..] else s; m[0] == '0' ==> m == "0" && n == 0
  {
    if n < 0 then
      var s := "-" + NatToString(-n);
      assert s[1..] == NatToString(-n);
      s
    else NatToString(n)
  }

  /** A run of digits without a leading zero (other than "0" itself) is the shortest
      form of its value: decimal text in that form is unique. */
  lemma {:induction false} NatToStringUnique(d: string)
    requires |d| > 0 && AllDigits(d)
    requires d[0] == '0' ==> |d| == 1
    ensures d == NatToString(DigitsValue(d))
    decreases |d|
  {
    var n := DigitsValue(d);
    if |d| == 1 {
      assert d[..0] == [];
      assert DigitChar(DigitValue(d[0])) == d[0];
    } else {
      var init, last := d[..|d| - 1], d[|d| - 1];
      assert init[0] == d[0];
      NatToStringUnique(init);
      assert DigitsValue(init) != 0;
      assert n / 10 == DigitsValue(init) && n % 10 == DigitValue(last);
      assert DigitChar(DigitValue(last)) == last;
      assert d == init + [last];
    }
  }

  /** `Integer.toString` is the only numeral for `n` with no leading zero and no sign on zero. */
  lemma CanonicalNumeral(s: string, n: int)
    requires IsNumeral(s) && NumeralValue(s) == n
    requires s[0] == '-' ==> n < 0
    requires var m := if s[0] == '-' then s[1..] else s; m[0] == '0' ==> |m| == 1
    ensures s == IntToString(n)
  {
    if s[0] == '-' {
      NatToStringUnique(s[1..]);
      assert s == "-" + s[1..];
    } else {
      NatToStringUnique(s);
    }
  }

  /** The number of leading digits of `s`. */
  function DigitPrefix(s: string): (k: nat)
    ensures k <= |s| && AllDigits(s[..k])
    ensures k < |s| ==> !IsDigit(s[k])
  {
    if s == [] || !IsDigit(s[0]) then 0
    else
      var k := 1 + DigitPrefix(s[1..]);
      assert s[..k] == [s[0]] + s[1..][..k - 1];
      k
  }

  /** A numeral at the front of `s`: an optional minus sign and the longest run of
      digits after it, with its value and the text that follows; `None` when no
      digit comes. */
  function ParseIntPrefix(s: string): (r: Option<(int, string)>)
    ensures r.Some? ==> |r.value.1| < |s|
  {
    var sign := if s != [] && s[0] == '-' then 1 else 0;
    var k := DigitPrefix(s[sign..]);
    if k == 0 then None
    else
      var v: int := DigitsValue(s[sign..][..k]);
      Some((if sign == 1 then -v else v, s[sign + k..]))
  }

  /** Reading back what `IntToString` wrote stops exactly where the next non-digit starts. */
  lemma ParseIntToString(n: int, t: string)
    requires t == [] || !IsDigit(t[0])
    ensures ParseIntPrefix(IntToString(n) + t) == Some((n, t))
  {
    if n < 0 {
      ParseNegative(-n, t);
      assert IntToString(n) == "-" + NatToString(-n);
    } else {
      ParseNatural(n, t);
    }
  }

  lemma ParseNatural(n: nat, t: string)
    requires t == [] || !IsDigit(t[0])
    ensures ParseIntPrefix(NatToString(n) + t) == Some((n, t))
  {
    var d := NatToString(n);
    var s := d + t;
    assert s[0] == d[0];
    assert s[0..] == s;
    DigitPrefixOfDigits(d, t);
    assert s[..|d|] == d;
    assert s[|d|..] == t;
  }

  lemma ParseNegative(n: nat, t: string)
    requires t == [] || !IsDigit(t[0])
    ensures ParseIntPrefix("-" + NatToString(n) + t) == Some((-(n as int), t))
  {
    var d := NatToString(n);
    var s := "-" + d + t;
    assert s[1..] == d + t;
    DigitPrefixOfDigits(d, t);
    assert s[1..][..|d|] == d;
    assert s[1 + |d|..] == t;
  }

  lemma {:induction false} DigitPrefixOfDigits(d: string, t: string)
    requires AllDigits(d)
    requires t == [] || !IsDigit(t[0])
    ensures DigitPrefix(d + t) == |d|
  {
    if d != [] {
      assert (d + t)[1..] == d[1..] + t;
      DigitPrefixOfDigits(d[1..], t);
    }
  }
}
