/**
 * Decimal numerals: Python's `str(n)` for integers and `int(s)` for base-10
 * text (surrounding whitespace, an optional sign, digits with single
 * underscores between them).
 */
module Decimal {
  import opened Wrappers
  import Text

  predicate IsDigit(c: char) {
    '0' <= c <= '9'
  }

  predicate AllDigits(s: string) {
    forall i :: 0 <= i < |s| ==> IsDigit(s[i])
  }

  function DigitValue(c: char): (d: nat)
    requires IsDigit(c)
    ensures d < 10
  {
    c as int - '0' as int
  }

  function DigitChar(d: nat): (c: char)
    requires d < 10
    ensures IsDigit(c) && DigitValue(c) == d
  {
    ('0' as int + d) as char
  }

  /** The number a string of decimal digits denotes (leading zeros allowed). */
  function Value(s: string): nat
    requires AllDigits(s)
  {
    if s == [] then 0 else Value(s[..|s| - 1]) * 10 + DigitValue(s[|s| - 1])
  }

  /** `str(n)` for a natural number: digits, no leading zero. */
  function NatToString(n: nat): (r: string)
    ensures r != [] && AllDigits(r)
    ensures |r| > 1 ==> r[0] != '0'
  {
    if n < 10 then [DigitChar(n)] else NatToString(n / 10) + [DigitChar(n % 10)]
  }

  /** `str(i)` for any integer. */
  function IntToString(i: int): (r: string)
    ensures r != []
  {
    if i < 0 then "-" + NatToString(-i) else NatToString(i)
  }

  /** Reading back the digits `str(n)` prints gives `n`. */
  lemma {:induction false} ValueOfNatToString(n: nat)
    ensures Value(NatToString(n)) == n
  {
    var r := NatToString(n);
    if n >= 10 {
      ValueOfNatToString(n / 10);
      assert r[..|r| - 1] == NatToString(n / 10);
    }
  }

  lemma DigitCharOfValue(c: char)
    requires IsDigit(c)
    ensures DigitChar(DigitValue(c)) == c
  {
  }

  /** Digits that do not start with `0` denote a positive number. */
  lemma {:induction false} ValuePositive(t: string)
    requires t != [] && AllDigits(t) && t[0] != '0'
    ensures Value(t) >= 1
  {
    if |t| > 1 {
      ValuePositive(t[..|t| - 1]);
    }
  }

  /** Digits without a superfluous leading zero are what `str` prints for their value. */
  lemma {:induction false} NatToStringOfValue(t: string)
    requires t != [] && AllDigits(t) && (|t| > 1 ==> t[0] != '0')
    ensures NatToString(Value(t)) == t
  {
    var last := t[|t| - 1];
    DigitCharOfValue(last);
    if |t| > 1 {
      var u := t[..|t| - 1];
      NatToStringOfValue(u);
      ValuePositive(u);
      var v := Value(t);
      assert v == Value(u) * 10 + DigitValue(last);
      assert v / 10 == Value(u) && v % 10 == DigitValue(last);
      assert u + [last] == t;
    }
  }

  /** `str` is injective on naturals. */
  lemma NatToStringInjective(m: nat, n: nat)
    requires NatToString(m) == NatToString(n)
    ensures m == n
  {
    ValueOfNatToString(m);
    ValueOfNatToString(n);
  }

  /** Digits with single underscores between them, as Python's `int()` accepts. */
  predicate Numeral(s: string) {
    && s != []
    && IsDigit(s[0]) && IsDigit(s[|s| - 1])
    && DigitsOrUnderscores(s)
    && forall i, j :: 0 <= i && j == i + 1 < |s| && s[i] == '_' ==> IsDigit(s[j])
  }

  predicate DigitsOrUnderscores(s: string) {
    forall i :: 0 <= i < |s| ==> IsDigit(s[i]) || s[i] == '_'
  }

  /** The digits of a numeral with its underscores removed. */
  function DigitsOnly(s: string): (r: string)
    requires DigitsOrUnderscores(s)
    ensures AllDigits(r) && |r| <= |s|
  {
    if s == [] then [] else (if s[0] == '_' then [] else [s[0]]) + DigitsOnly(s[1..])
  }

  /** Python's `int(s)` in base 10; `None` stands for the `ValueError` it raises. */
  function ParseInt(s: string): (r: Option<int>)
    ensures r.Some? ==> Text.Strip(s) != []
  {
    var t := Text.Strip(s);
    if t == [] then None
    else
      var negative := t[0] == '-';
      var body := if t[0] == '-' || t[0] == '+' then t[1..] else t;
      if !Numeral(body) then None
      else
        var magnitude: int := Value(DigitsOnly(body));
        Some(if negative then -magnitude else magnitude)
  }

  lemma {:induction false} DigitsOnlyOfDigits(s: string)
    requires AllDigits(s)
    ensures DigitsOnly(s) == s
  {
    if s != [] {
      DigitsOnlyOfDigits(s[1..]);
      assert [s[0]] + s[1..] == s;
    }
  }

  /** A string that neither starts nor ends with whitespace is its own `strip()`. */
  lemma StripUnpadded(r: string)
    requires r != [] && !Text.IsSpace(r[0]) && !Text.IsSpace(r[|r| - 1])
    ensures Text.Strip(r) == r
  {
    assert Text.RStrip(r) == r;
    assert Text.LStrip(r) == r;
  }

  /** `int()` of an unpadded digit string is its value. */
  lemma ParseDigits(t: string)
    requires t != [] && AllDigits(t) && Text.Strip(t) == t
    ensures ParseInt(t) == Some(Value(t) as int)
  {
    DigitsOnlyOfDigits(t);
    assert Numeral(t);
  }

  /** `int()` of an unpadded minus sign and digits is the negated value. */
  lemma ParseNegativeDigits(t: string)
    requires |t| >= 2 && t[0] == '-' && AllDigits(t[1..]) && Text.Strip(t) == t
    ensures ParseInt(t) == Some(-(Value(t[1..]) as int))
  {
    DigitsOnlyOfDigits(t[1..]);
    assert Numeral(t[1..]);
  }

  /** `int(str(i)) == i`. */
  lemma ParseIntOfIntToString(i: int)
    ensures ParseInt(IntToString(i)) == Some(i)
  {
    if i < 0 {
      ParseIntOfNegative(i);
    } else {
      var r := IntToString(i);
      StripUnpadded(r);
      ValueOfNatToString(i);
      ParseDigits(r);
    }
  }

  lemma ParseIntOfNegative(i: int)
    requires i < 0
    ensures ParseInt(IntToString(i)) == Some(i)
  {
    var r := IntToString(i);
    var digits := NatToString(-i);
    assert r == "-" + digits;
    assert r[1..] == digits && r[|r| - 1] == digits[|digits| - 1];
    StripUnpadded(r);
    ValueOfNatToString(-i);
    assert Value(r[1..]) == -i;
    ParseNegativeDigits(r);
  }

  /** `int(str(n)) == n` for a natural number. */
  lemma ParseIntOfNatToString(n: nat)
    ensures ParseInt(NatToString(n)) == Some(n as int)
  {
    ParseIntOfIntToString(n);
  }

  /** `str` is injective on integers. */
  lemma IntToStringInjective(m: int, n: int)
    requires IntToString(m) == IntToString(n)
    ensures m == n
  {
    ParseIntOfIntToString(m);
    ParseIntOfIntToString(n);
  }
}
