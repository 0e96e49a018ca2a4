/**
 * Decimal rendering of integers, as Rust's `Display` for integer types
 * (`format!("{}", i)`) produces it: an optional '-' and the digits, with no
 * leading zeros.
 */
module Decimal {
  import W = Wrappers

  predicate IsDigit(c: char) {
    '0' <= c <= '9'
  }

  function DigitChar(d: nat): (c: char)
    requires d < 10
    ensures IsDigit(c) && (c as int) - ('0' as int) == d
  {
    ('0' as int + d) as char
  }

  /** Digits of `n`, most significant first. */
  function NatToString(n: nat): (s: string)
    decreases n
  {
    if n < 10 then [DigitChar(n)] else NatToString(n / 10) + [DigitChar(n % 10)]
  }

  function IntToString(i: int): (s: string) {
    if i < 0 then "-" + NatToString(-i) else NatToString(i)
  }

  /** The value of a string of decimal digits; the partner of NatToString. */
  function DigitsValue(s: string): (n: nat)
    requires forall k :: 0 <= k < |s| ==> IsDigit(s[k])
  {
    if s == [] then 0
    else
      assert IsDigit(s[|s| - 1]);
      10 * DigitsValue(s[..|s| - 1]) + ((s[|s| - 1] as int) - ('0' as int))
  }

  /** Parses an optional '-' followed by at least one digit. */
  function ParseInt(s: string): (r: W.Option<int>) {
    if |s| > 0 && s[0] == '-' then
      if |s| > 1 && forall k :: 1 <= k < |s| ==> IsDigit(s[k]) then W.Some(0 - DigitsValue(s[1..]) as int) else W.None
    else if |s| > 0 && forall k :: 0 <= k < |s| ==> IsDigit(s[k]) then W.Some(DigitsValue(s))
    else W.None
  }

  /** NatToString yields a canonical digit string whose value is `n`. */
  lemma {:induction false} NatToStringCorrect(n: nat)
    ensures var s := NatToString(n);
      && |s| > 0
      && (forall k :: 0 <= k < |s| ==> IsDigit(s[k]))
      && (|s| > 1 ==> s[0] != '0')
      && DigitsValue(s) == n
    decreases n
  {
    var s := NatToString(n);
    if n >= 10 {
      NatToStringCorrect(n / 10);
      var p := NatToString(n / 10);
      assert s == p + [DigitChar(n % 10)];
      assert s[..|s| - 1] == p;
      assert s[0] == p[0];
    }
  }

  /** Rendering then parsing an integer gives it back: no precision is lost. */
  lemma IntToStringRoundTrip(i: int)
    ensures ParseInt(IntToString(i)) == W.Some(i)
  {
    if i < 0 {
      NatToStringCorrect(-i);
      var s := IntToString(i);
      assert s[1..] == NatToString(-i);
    } else {
      NatToStringCorrect(i);
    }
  }

  /** Distinct integers render to distinct strings. */
  lemma IntToStringInjective(i: int, j: int)
    requires IntToString(i) == IntToString(j)
    ensures i == j
  {
    IntToStringRoundTrip(i);
    IntToStringRoundTrip(j);
  }
}
