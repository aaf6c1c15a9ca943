/**
  Decimal text of integers as printf's `%i` conversion writes it: an optional
  minus sign, then the digits, with no leading zeros and "0" for zero. A
  parser is given alongside as the formatter's inverse.
 */
module Decimal {
  import opened Wrappers

  /** A decimal digit character. */
  predicate IsDigit(c: char) {
    '0' <= c <= '9'
  }

  /** Every character of s is a decimal digit. */
  predicate AllDigits(s: string) {
    forall i :: 0 <= i < |s| ==> IsDigit(s[i])
  }

  /** The character of digit value d. */
  function DigitChar(d: nat): (c: char)
    requires d < 10
    ensures IsDigit(c)
  {
    "0123456789"[d]
  }

  /** The value of a digit character. */
  function DigitValue(c: char): (d: nat)
    requires IsDigit(c)
    ensures d < 10
  {
    (c as int) - ('0' as int)
  }

  /** Reading a digit character back gives its value. */
  lemma DigitValueOfDigitChar(d: nat)
    requires d < 10
    ensures DigitValue(DigitChar(d)) == d
  {
  }

  /** The digits of n, most significant first. */
  function NatToString(n: nat): (s: string)
    ensures |s| >= 1
    ensures AllDigits(s)
    ensures |s| > 1 ==> s[0] != '0'
    ensures s[0] == '0' <==> n == 0
    ensures n < 10 <==> |s| == 1
    decreases n
  {
    if n < 10 then [DigitChar(n)] else NatToString(n / 10) + [DigitChar(n % 10)]
  }

  /** `%i`: the digits of |n|, preceded by '-' when n is negative. */
  function IntToString(n: int): (s: string)
    ensures |s| >= 1
    ensures n < 0 <==> s[0] == '-'
    ensures n >= 0 ==> AllDigits(s)
    ensures n < 0 ==> |s| >= 2 && AllDigits(s[1..])
    ensures n > 0 ==> s[0] != '0'
    ensures n < 0 ==> s[1] != '0'
  {
    if n < 0 then "-" + NatToString(-n) else NatToString(n)
  }

  /** The value of a digit string, most significant digit first. */
  function ParseDigits(s: string): nat
    requires AllDigits(s)
  {
    if |s| == 0 then 0 else ParseDigits(s[..|s| - 1]) * 10 + DigitValue(s[|s| - 1])
  }

  /**
    Reads an optional minus sign followed by one or more digits; None on
    anything else. It is more lenient than `IntToString` is strict: leading
    zeros ("007") and "-0" are accepted too.
   */
  function ParseInt(s: string): (r: Option<int>)
    ensures r.Some? ==> |s| >= 1
  {
    if |s| >= 2 && s[0] == '-' && AllDigits(s[1..]) then Some(-(ParseDigits(s[1..]) as int))
    else if |s| >= 1 && AllDigits(s) then Some(ParseDigits(s))
    else None
  }

  /** The digits of n read back as n. */
  lemma {:induction false} ParseNatToString(n: nat)
    ensures ParseDigits(NatToString(n)) == n
    decreases n
  {
    var s := NatToString(n);
    if n < 10 {
      DigitValueOfDigitChar(n);
    } else {
      ParseNatToString(n / 10);
      assert s[..|s| - 1] == NatToString(n / 10);
      DigitValueOfDigitChar(n % 10);
    }
  }

  /** A minus sign followed by digits reads as the negated digit value. */
  lemma ParseMinusDigits(d: string)
    requires |d| >= 1 && AllDigits(d)
    ensures ParseInt("-" + d) == Some(-(ParseDigits(d) as int))
  {
  }

  /** The text of a negative number, -m, reads back as -m. */
  lemma ParseNegative(m: nat)
    requires m >= 1
    ensures ParseInt(IntToString(-(m as int))) == Some(-(m as int))
  {
    var d := NatToString(m);
    ParseNatToString(m);
    ParseMinusDigits(d);
    assert IntToString(-(m as int)) == "-" + d;
  }

  /** The text of a non-negative number, which is just its digits, reads back as the number. */
  lemma ParseNonNegative(n: int)
    requires n >= 0
    ensures ParseInt(IntToString(n)) == Some(n)
  {
    var d := NatToString(n);
    ParseNatToString(n);
    assert IntToString(n) == d;
  }

  /** Parsing the `%i` text of n gives n back. */
  lemma ParseIntToString(n: int)
    ensures ParseInt(IntToString(n)) == Some(n)
  {
    if n < 0 {
      ParseNegative(-n);
    } else {
      ParseNonNegative(n);
    }
  }

  /** Zero prints as the single digit "0". */
  lemma IntToStringZero()
    ensures IntToString(0) == "0"
  {
  }

  /** Distinct integers print differently. */
  lemma IntToStringInjective(a: int, b: int)
    requires IntToString(a) == IntToString(b)
    ensures a == b
  {
    ParseIntToString(a);
    ParseIntToString(b);
  }
}
