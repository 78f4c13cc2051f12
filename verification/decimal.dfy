/** Decimal integers: Python's `int(text)` on an optionally signed run of
    ASCII digits, and `str(n)` for an integer. */
module Decimal {
  import opened Wrappers

  predicate IsDigit(c: char)
  {
    '0' <= c <= '9'
  }

  predicate AllDigits(s: string)
  {
    forall i :: 0 <= i < |s| ==> IsDigit(s[i])
  }

  predicate IsSign(c: char)
  {
    c == '+' || c == '-'
  }

  /** The text `int()` accepts here: an optional sign and at least one digit. */
  predicate IsIntLiteral(s: string)
  {
    if |s| > 0 && IsSign(s[0]) then |s| > 1 && AllDigits(s[1..])
    else |s| > 0 && AllDigits(s)
  }

  /** What `str(n)` prints for `n >= 0`: digits without a leading zero, except "0" itself. */
  predicate IsCanonicalNat(d: string)
  {
    |d| >= 1 && AllDigits(d) && (d[0] == '0' ==> d == "0")
  }

  /** What `str(i)` prints: canonical digits, preceded by '-' exactly for a negative value. */
  predicate IsCanonicalInt(s: string)
  {
    || IsCanonicalNat(s)
    || (|s| > 1 && s[0] == '-' && IsCanonicalNat(s[1..]) && s[1..] != "0")
  }

  function DigitValue(c: char): (d: nat)
    requires IsDigit(c)
    ensures d < 10
  {
    c as int - '0' as int
  }

  function DigitChar(d: nat): (c: char)
    requires d < 10
    ensures IsDigit(c) && DigitValue(c) == d
  {
    ('0' as int + d) as char
  }

  /** Value of a digit string read in base ten; leading zeros contribute nothing. */
  function DigitsValue(s: string): nat
    requires AllDigits(s)
  {
    if |s| == 0 then 0
    else DigitsValue(s[..|s| - 1]) * 10 + DigitValue(s[|s| - 1])
  }

  /** `int(s)`, or `None` where Python raises `ValueError`. */
  function ParseInt(s: string): (r: Option<int>)
    ensures r.Some? <==> IsIntLiteral(s)
    ensures r.Some? && s[0] == '-' ==> r.value <= 0
    ensures r.Some? && s[0] != '-' ==> r.value >= 0
  {
    if |s| > 0 && IsSign(s[0]) then
      if |s| > 1 && AllDigits(s[1..]) then
        var n: int := DigitsValue(s[1..]);
        Some(if s[0] == '-' then -n else n)
      else None
    else if |s| > 0 && AllDigits(s) then Some(DigitsValue(s))
    else None
  }

  /** `str(n)` for a non-negative integer: the shortest digit string of value `n`. */
  function NatToString(n: nat): (s: string)
    ensures IsCanonicalNat(s)
    ensures DigitsValue(s) == n
  {
    if n < 10 then [DigitChar(n)]
    else
      var prefix := NatToString(n / 10);
      var s := prefix + [DigitChar(n % 10)];
      assert s[..|s| - 1] == prefix;
      s
  }

  /** `str(i)` for any integer: a minus sign before the digits of a negative value. */
  function IntToString(i: int): (s: string)
    ensures IsCanonicalInt(s)
    ensures s[0] == '-' <==> i < 0
    ensures forall k :: 0 <= k < |s| ==> s[k] != '.'
    ensures ParseInt(s) == Some(i)
  {
    if i < 0 then
      var s := "-" + NatToString(-i);
      assert s[1..] == NatToString(-i);
      s
    else NatToString(i)
  }

  /** A leading zero does not change the value of a digit string. */
  lemma {:induction false} DigitsLeadingZero(d: string)
    requires AllDigits(d)
    ensures DigitsValue("0" + d) == DigitsValue(d)
  {
    if |d| > 0 {
      var t := "0" + d;
      assert t[..|t| - 1] == "0" + d[..|d| - 1];
      DigitsLeadingZero(d[..|d| - 1]);
    }
  }

  /** `int()` ignores leading zeros: `int("05") == int("5")`. */
  lemma LeadingZeroIgnored(d: string)
    requires |d| >= 1 && AllDigits(d)
    ensures ParseInt("0" + d) == ParseInt(d)
  {
    DigitsLeadingZero(d);
  }

  /** `int()` ignores a plus sign: `int("+5") == int("5")`. */
  lemma PlusSignIgnored(d: string)
    requires AllDigits(d)
    ensures ParseInt("+" + d) == ParseInt(d)
  {
    assert ("+" + d)[1..] == d;
  }

  /** `int()` negates after a minus sign: `int("-05") == -int("05") == -5`, `int("-0") == 0`. */
  lemma MinusSignNegates(d: string)
    requires |d| >= 1 && AllDigits(d)
    ensures ParseInt("-" + d) == Some(-ParseInt(d).value)
  {
    assert ("-" + d)[1..] == d;
  }

  /** Digits that do not start with '0' have a positive value. */
  lemma {:induction false} LeadingNonZeroPositive(d: string)
    requires |d| >= 1 && AllDigits(d) && d[0] != '0'
    ensures DigitsValue(d) >= 1
  {
    if |d| > 1 {
      LeadingNonZeroPositive(d[..|d| - 1]);
    }
  }

  /** A canonical digit string is the printed form of its own value. */
  lemma {:induction false} NatToStringOfCanonical(d: string)
    requires IsCanonicalNat(d)
    ensures NatToString(DigitsValue(d)) == d
  {
    if |d| > 1 {
      var prefix := d[..|d| - 1];
      LeadingNonZeroPositive(prefix);
      NatToStringOfCanonical(prefix);
      assert d == prefix + [d[|d| - 1]];
    }
  }

  /** `str(int(s)) == s` for every canonical integer text `s`: `str` is the
      one canonical spelling `int()` reads back as the same value. */
  lemma IntToStringOfParseInt(s: string)
    requires IsCanonicalInt(s)
    ensures ParseInt(s).Some?
    ensures IntToString(ParseInt(s).value) == s
  {
    if IsCanonicalNat(s) {
      NatToStringOfCanonical(s);
    } else {
      var d := s[1..];
      assert d[0] != '0';
      LeadingNonZeroPositive(d);
      NatToStringOfCanonical(d);
      assert s == "-" + d;
    }
  }
}
