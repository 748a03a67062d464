/**
 * How JavaScript writes an integer into text (`{year}`, `{month + 1}`,
 * `{dayInfo.dateText}`): an optional minus sign and decimal digits with no
 * leading zeros. Parsing gives the number back, which shows that the text
 * determines the number.
 */
module Decimal {
  import opened Wrappers

  predicate IsDigit(c: char) {
    '0' <= c <= '9'
  }

  predicate AllDigits(s: string) {
    forall i :: 0 <= i < |s| ==> IsDigit(s[i])
  }

  function DigitChar(d: int): (c: char)
    requires 0 <= d < 10
    ensures IsDigit(c)
  {
    ('0' as int + d) as char
  }

  function DigitValue(c: char): (d: int)
    requires IsDigit(c)
    ensures 0 <= d < 10
  {
    c as int - '0' as int
  }

  /** The decimal text of a natural number. */
  function FromNat(n: nat): (s: string)
    ensures |s| >= 1 && AllDigits(s)
    ensures (s[0] == '0') <==> n == 0
    decreases n
  {
    if n < 10 then [DigitChar(n)] else FromNat(n / 10) + [DigitChar(n % 10)]
  }

  /** The decimal text of an integer: a minus sign before a negative one. */
  function FromInt(i: int): (s: string)
    ensures |s| >= 1
    ensures (s[0] == '-') <==> i < 0
    ensures forall k :: 0 <= k < |s| ==> IsDigit(s[k]) || (k == 0 && s[k] == '-')
  {
    if i < 0 then "-" + FromNat(-i) else FromNat(i)
  }

  /** The value of a string of digits. */
  function ToNat(s: string): nat
    requires AllDigits(s)
  {
    if s == [] then 0 else 10 * ToNat(s[..|s| - 1]) + DigitValue(s[|s| - 1])
  }

  /** Reads back a number written by FromInt. */
  function ParseInt(s: string): Option<int> {
    if |s| >= 2 && s[0] == '-' && AllDigits(s[1..]) then Some(0 - ToNat(s[1..]) as int)
    else if |s| >= 1 && AllDigits(s) then Some(ToNat(s))
    else None
  }

  lemma {:induction false} NatRoundTrip(n: nat)
    ensures ToNat(FromNat(n)) == n
    decreases n
  {
    if n >= 10 {
      var s := FromNat(n);
      assert s[..|s| - 1] == FromNat(n / 10);
      NatRoundTrip(n / 10);
    }
  }

  /** Parsing the written-out text of any integer gives that integer back. */
  lemma IntRoundTrip(i: int)
    ensures ParseInt(FromInt(i)) == Some(i)
  {
    if i < 0 {
      assert FromInt(i)[1..] == FromNat(-i);
      NatRoundTrip(-i);
    } else {
      NatRoundTrip(i);
    }
  }

  /** Different numbers are written differently. */
  lemma FromIntInjective(i: int, j: int)
    requires FromInt(i) == FromInt(j)
    ensures i == j
  {
    IntRoundTrip(i);
    IntRoundTrip(j);
  }
}
