/**
 * The decimal rendering `str(n)` that turns the random OTP integer into the
 * code stored in the OTP record and mailed to the customer, and its inverse.
 */
module Decimal {

  predicate IsDigit(c: char) {
    '0' <= c <= '9'
  }

  predicate AllDigits(s: string) {
    forall i :: 0 <= i < |s| ==> IsDigit(s[i])
  }

  function DigitChar(d: nat): (c: char)
    requires d < 10
    ensures IsDigit(c)
  {
    ('0' as int + d) as char
  }

  function DigitValue(c: char): (d: nat)
    requires IsDigit(c)
    ensures d < 10
  {
    c as int - '0' as int
  }

  /** `str(n)` for a non-negative integer: the shortest decimal numeral of n. */
  function DecimalString(n: nat): (s: string)
    ensures 1 <= |s| && AllDigits(s)
    ensures |s| > 1 ==> s[0] != '0'
    decreases n
  {
    if n < 10 then [DigitChar(n)]
    else DecimalString(n / 10) + [DigitChar(n % 10)]
  }

  /** The value `int(s)` of a string of decimal digits. */
  function DecimalValue(s: string): nat
    requires AllDigits(s)
  {
    if s == [] then 0
    else DecimalValue(s[..|s| - 1]) * 10 + DigitValue(s[|s| - 1])
  }

  /** Reading back the rendered numeral gives the number: `int(str(n)) == n`. */
  lemma {:induction false} DecimalRoundTrip(n: nat)
    ensures DecimalValue(DecimalString(n)) == n
  {
    var s := DecimalString(n);
    if n >= 10 {
      DecimalRoundTrip(n / 10);
      assert s[..|s| - 1] == DecimalString(n / 10);
    }
  }

  /** Distinct numbers render to distinct codes. */
  lemma DecimalStringInjective(a: nat, b: nat)
    ensures DecimalString(a) == DecimalString(b) ==> a == b
  {
    DecimalRoundTrip(a);
    DecimalRoundTrip(b);
  }

  /** The OTP range [1000, 9999] renders to exactly four digits with no leading zero. */
  lemma FourDigitCode(n: nat)
    requires 1000 <= n <= 9999
    ensures |DecimalString(n)| == 4 && DecimalString(n)[0] != '0'
  {
    assert |DecimalString(n / 1000)| == 1;
    assert |DecimalString(n / 100)| == 2 by {
      assert (n / 100) / 10 == n / 1000;
    }
    assert |DecimalString(n / 10)| == 3 by {
      assert (n / 10) / 10 == n / 100;
    }
  }

  /** A numeral without a leading zero is the rendering of its value: `str(int(s)) == s`. */
  lemma {:induction false} NumeralRoundTrip(s: string)
    requires |s| >= 1 && AllDigits(s) && (|s| > 1 ==> s[0] != '0')
    ensures DecimalString(DecimalValue(s)) == s
  {
    var n := |s| - 1;
    if n == 0 {
      assert DecimalValue(s) == DigitValue(s[0]);
    } else {
      var p := s[..n];
      NumeralRoundTrip(p);
      assert p[0] == s[0];
      assert DecimalValue(s) / 10 == DecimalValue(p);
      assert DecimalValue(s) % 10 == DigitValue(s[n]);
      assert s == p + [s[n]];
    }
  }
}
