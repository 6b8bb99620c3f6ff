/** Decimal rendering of integers, as Python's `str(int)` produces it, and
    the canonical decoding that inverts it.  The year list of the statistics
    query and the download file name both print years this way. */
module Decimal {
  import opened Wrappers

  predicate IsDigit(c: char) {
    '0' <= c <= '9'
  }

  predicate AllDigits(s: string) {
    forall i :: 0 <= i < |s| ==> IsDigit(s[i])
  }

  /** A non-empty digit string without a redundant leading zero: exactly the
      strings `str(n)` yields for a natural number `n`. */
  predicate IsCanonical(s: string) {
    && |s| > 0
    && AllDigits(s)
    && (s[0] == '0' ==> |s| == 1)
  }

  function DigitValue(c: char): (d: nat)
    requires IsDigit(c)
    ensures d < 10
  {
    c as int - '0' as int
  }

  function DigitChar(d: nat): (c: char)
    requires d < 10
    ensures IsDigit(c) && DigitValue(c) == d
  {
    ('0' as int + d) as char
  }

  /** The value of a digit string, most significant digit first. */
  function DigitsValue(s: string): nat
    requires AllDigits(s)
  {
    if s == [] then 0 else DigitsValue(s[..|s| - 1]) * 10 + DigitValue(s[|s| - 1])
  }

  /** Python's `str(n)` for `n >= 0`. */
  function NatToDigits(n: nat): (s: string)
    ensures IsCanonical(s)
    ensures s[0] == '0' <==> n == 0
  {
    if n < 10 then [DigitChar(n)] else NatToDigits(n / 10) + [DigitChar(n % 10)]
  }

  /** Python's `str(n)` for any integer `n`. */
  function IntToStr(n: int): (s: string)
    ensures |s| > 0
    ensures s[0] == '-' <==> n < 0
  {
    if n < 0 then "-" + NatToDigits(-n) else NatToDigits(n)
  }

  /** Reads back exactly the strings `IntToStr` produces; anything else
      (empty, stray characters, leading zeros, "-0") is rejected. */
  function ParseInt(s: string): Option<int> {
    if |s| > 0 && s[0] == '-' then
      if IsCanonical(s[1..]) && s[1..] != "0" then Some(0 - DigitsValue(s[1..]) as int) else None
    else if IsCanonical(s) then Some(DigitsValue(s))
    else None
  }

  lemma {:induction false} NatToDigitsRoundTrip(n: nat)
    ensures DigitsValue(NatToDigits(n)) == n
  {
    if n >= 10 {
      var s := NatToDigits(n);
      NatToDigitsRoundTrip(n / 10);
      assert s[..|s| - 1] == NatToDigits(n / 10);
    }
  }

  /** A canonical digit string whose first digit is not zero denotes a
      positive number. */
  lemma {:induction false} LeadingDigitPositive(s: string)
    requires IsCanonical(s) && s[0] != '0'
    ensures DigitsValue(s) >= 1
  {
    if |s| > 1 {
      var p := s[..|s| - 1];
      assert p[0] == s[0];
      LeadingDigitPositive(p);
    }
  }

  lemma {:induction false} CanonicalRoundTrip(s: string)
    requires IsCanonical(s)
    ensures NatToDigits(DigitsValue(s)) == s
  {
    var p := s[..|s| - 1];
    var d := DigitValue(s[|s| - 1]);
    if |s| == 1 {
      assert DigitsValue(s) == d by { assert p == []; }
      assert DigitChar(d) == s[0];
    } else {
      assert p[0] == s[0];
      LeadingDigitPositive(p);
      CanonicalRoundTrip(p);
      var n := DigitsValue(s);
      assert n / 10 == DigitsValue(p) && n % 10 == d;
      assert DigitChar(d) == s[|s| - 1];
      assert s == p + [s[|s| - 1]];
    }
  }

  /** A minus sign before a canonical positive numeral decodes to its negation. */
  lemma ParseNegative(t: string)
    requires IsCanonical(t) && t[0] != '0'
    ensures ParseInt("-" + t) == Some(0 - DigitsValue(t) as int)
  {
  }

  /** A canonical numeral decodes to its value. */
  lemma ParseNonNegative(t: string)
    requires IsCanonical(t)
    ensures ParseInt(t) == Some(DigitsValue(t))
  {
  }

  /** Decoding undoes printing, for every integer. */
  lemma IntToStrRoundTrip(n: int)
    ensures ParseInt(IntToStr(n)) == Some(n)
  {
    if n < 0 {
      var t := NatToDigits(-n);
      NatToDigitsRoundTrip(-n);
      ParseNegative(t);
      assert IntToStr(n) == "-" + t;
    } else {
      var t := NatToDigits(n);
      NatToDigitsRoundTrip(n);
      ParseNonNegative(t);
      assert IntToStr(n) == t;
    }
  }

  /** Printing undoes decoding, for every string that decodes. */
  lemma ParseIntRoundTrip(s: string)
    requires ParseInt(s).Some?
    ensures IntToStr(ParseInt(s).value) == s
  {
    if |s| > 0 && s[0] == '-' {
      var t := s[1..];
      CanonicalRoundTrip(t);
      LeadingDigitPositive(t);
      assert s == "-" + t;
    } else {
      CanonicalRoundTrip(s);
    }
  }

  /** Distinct integers print differently. */
  lemma IntToStrInjective(a: int, b: int)
    ensures IntToStr(a) == IntToStr(b) <==> a == b
  {
    IntToStrRoundTrip(a);
    IntToStrRoundTrip(b);
  }

  /** A year printed, written out. */
  lemma Print2020()
    ensures IntToStr(2020) == "2020"
  {
  }
}
