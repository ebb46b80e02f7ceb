/** Decimal rendering of integers, as a JavaScript template literal
    `${n}` renders an integral number, and its inverse. The error thrown by
    `upvotePost` embeds the requested id this way. */
module Decimal {
  import opened Results

  predicate IsDigit(c: char) {
    '0' <= c <= '9'
  }

  predicate AllDigits(s: string) {
    forall i :: 0 <= i < |s| ==> IsDigit(s[i])
  }

  function DigitChar(d: int): (c: char)
    requires 0 <= d < 10
    ensures IsDigit(c)
  {
    ('0' as int + d) as char
  }

  function DigitValue(c: char): (d: int)
    requires IsDigit(c)
    ensures 0 <= d < 10 && DigitChar(d) == c
  {
    c as int - '0' as int
  }

  /** The shortest decimal digit string of `n`: no leading zero except for 0. */
  function NatDigits(n: nat): (s: string)
    ensures |s| >= 1 && AllDigits(s)
    ensures s[0] == '0' ==> n == 0
    decreases n
  {
    if n < 10 then [DigitChar(n)] else NatDigits(n / 10) + [DigitChar(n % 10)]
  }

  /** The value of a digit string read most significant digit first. */
  function DigitsValue(s: string): (n: nat)
    requires AllDigits(s)
    decreases |s|
  {
    if |s| == 0 then 0 else DigitsValue(s[..|s| - 1]) * 10 + DigitValue(s[|s| - 1])
  }

  /** The shape of `${n}` for an integral number: digits with no leading
      zero (0 itself aside), optionally after a minus sign, and never "-0". */
  predicate Canonical(s: string) {
    || (|s| >= 1 && AllDigits(s) && (|s| > 1 ==> s[0] != '0'))
    || (|s| >= 2 && s[0] == '-' && AllDigits(s[1..]) && s[1] != '0')
  }

  /** `${n}` for an integral number: a minus sign before the digits of |n|. */
  function ToDecimal(n: int): (s: string)
    ensures |s| >= 1
    ensures n < 0 <==> s[0] == '-'
    ensures n >= 0 ==> AllDigits(s)
    ensures n >= 0 && |s| > 1 ==> s[0] != '0'
    ensures n < 0 ==> |s| > 1 && s[1] != '0'
    ensures Canonical(s)
  {
    if n < 0 then "-" + NatDigits(-n) else NatDigits(n)
  }

  /** Reads back what `ToDecimal` writes; anything else is rejected. */
  function ParseDecimal(s: string): Option<int> {
    if |s| > 0 && s[0] == '-' then
      if |s| > 1 && AllDigits(s[1..]) then Some(0 - DigitsValue(s[1..]) as int) else None
    else if |s| > 0 && AllDigits(s) then Some(DigitsValue(s))
    else None
  }

  lemma {:induction false} NatDigitsRoundTrip(n: nat)
    ensures DigitsValue(NatDigits(n)) == n
    decreases n
  {
    var s := NatDigits(n);
    if n >= 10 {
      NatDigitsRoundTrip(n / 10);
      assert s[..|s| - 1] == NatDigits(n / 10);
    }
  }

  /** Rendering then parsing gives the number back, so the rendering of
      distinct ids differs. */
  lemma ToDecimalRoundTrip(n: int)
    ensures ParseDecimal(ToDecimal(n)) == Some(n)
  {
    if n < 0 {
      NatDigitsRoundTrip(-n);
      assert ToDecimal(n) == "-" + NatDigits(-n);
      assert ToDecimal(n)[1..] == NatDigits(-n);
    } else {
      NatDigitsRoundTrip(n);
    }
  }

  lemma ToDecimalInjective(a: int, b: int)
    requires ToDecimal(a) == ToDecimal(b)
    ensures a == b
  {
    ToDecimalRoundTrip(a);
    ToDecimalRoundTrip(b);
  }

  /** A digit string with a non-zero first digit has a positive value. */
  lemma {:induction false} LeadingDigitPositive(s: string)
    requires |s| >= 1 && AllDigits(s) && s[0] != '0'
    ensures DigitsValue(s) > 0
    decreases |s|
  {
    if |s| > 1 {
      LeadingDigitPositive(s[..|s| - 1]);
    }
  }

  /** Digits without a leading zero are exactly what `NatDigits` writes for
      their value. */
  lemma {:induction false} CanonicalDigitsAreNatDigits(s: string)
    requires |s| >= 1 && AllDigits(s) && (|s| > 1 ==> s[0] != '0')
    ensures NatDigits(DigitsValue(s)) == s
    decreases |s|
  {
    if |s| > 1 {
      var t := s[..|s| - 1];
      LeadingDigitPositive(t);
      CanonicalDigitsAreNatDigits(t);
      var n := DigitsValue(s);
      assert n / 10 == DigitsValue(t) && n % 10 == DigitValue(s[|s| - 1]);
      assert s == t + [s[|s| - 1]];
    }
  }

  /** `${n}` is the only canonical text that reads back as `n`: a message
      whose id suffix is canonical and parses to `n` is the template's
      rendering of `n`, character for character. */
  lemma CanonicalIsToDecimal(s: string, n: int)
    requires Canonical(s) && ParseDecimal(s) == Some(n)
    ensures s == ToDecimal(n)
  {
    if |s| >= 1 && s[0] == '-' {
      CanonicalDigitsAreNatDigits(s[1..]);
      LeadingDigitPositive(s[1..]);
      assert s == "-" + s[1..];
    } else {
      CanonicalDigitsAreNatDigits(s);
    }
  }
}
