/**
 * Decimal rendering of a Kotlin `Int`, as a string template such as
 * `"[P$priorityLevel]"` or `"${index + 1}. "` produces it, together with a
 * parser that undoes it.
 */
module Decimal {

  /** Kotlin's `Int`: a 32-bit two's-complement integer. */
  type Int32 = x: int | -0x8000_0000 <= x < 0x8000_0000

  predicate IsDigit(c: char) {
    '0' <= c <= '9'
  }

  predicate AllDigits(s: string) {
    forall i :: 0 <= i < |s| ==> IsDigit(s[i])
  }

  function DigitChar(d: nat): (c: char)
    requires d < 10
    ensures IsDigit(c)
    ensures c == '0' <==> d == 0
  {
    "0123456789"[d]
  }

  function DigitValue(c: char): (d: nat)
    requires IsDigit(c)
    ensures d < 10
  {
    (c as int - '0' as int) as nat
  }

  /** The digits of `n`, most significant first, without leading zeros. */
  function NatDigits(n: nat): (s: string)
    ensures |s| >= 1 && IsDigit(s[0])
    ensures s[0] == '0' ==> n == 0
  {
    if n < 10 then [DigitChar(n)] else NatDigits(n / 10) + [DigitChar(n % 10)]
  }

  /** How `Int.toString()` renders `x`: a minus sign for negatives, then the digits. */
  function IntToDecimal(x: int): (s: string)
    ensures |s| >= 1
    ensures s[0] == '-' <==> x < 0
    ensures x >= 0 && s[0] == '0' ==> x == 0
    ensures x < 0 ==> |s| >= 2 && s[1] != '0'
  {
    if x < 0 then "-" + NatDigits(-x) else NatDigits(x)
  }

  /** The value of a non-empty run of decimal digits. */
  function ParseNat(s: string): nat
    requires |s| >= 1 && AllDigits(s)
  {
    if |s| == 1 then DigitValue(s[0])
    else ParseNat(s[..|s| - 1]) * 10 + DigitValue(s[|s| - 1])
  }

  /** The inverse of IntToDecimal on what IntToDecimal produces. */
  function ParseInt(s: string): int
    requires |s| >= 1
    requires s[0] == '-' ==> |s| >= 2 && AllDigits(s[1..])
    requires s[0] != '-' ==> AllDigits(s)
  {
    if s[0] == '-' then -(ParseNat(s[1..]) as int) else ParseNat(s)
  }

  lemma DigitRoundTrip(d: nat)
    requires d < 10
    ensures DigitValue(DigitChar(d)) == d
  {
  }

  lemma {:induction false} NatDigitsAreDigits(n: nat)
    ensures AllDigits(NatDigits(n))
  {
    if n >= 10 {
      NatDigitsAreDigits(n / 10);
    }
  }

  lemma {:induction false} NatDigitsRoundTrip(n: nat)
    ensures AllDigits(NatDigits(n)) && ParseNat(NatDigits(n)) == n
  {
    NatDigitsAreDigits(n);
    if n < 10 {
      DigitRoundTrip(n);
    } else {
      var s := NatDigits(n);
      assert s[..|s| - 1] == NatDigits(n / 10);
      NatDigitsRoundTrip(n / 10);
      DigitRoundTrip(n % 10);
    }
  }

  /** Parsing the rendering of any integer gives the integer back. */
  lemma IntToDecimalRoundTrip(x: int)
    ensures var s := IntToDecimal(x);
            (s[0] == '-' ==> |s| >= 2 && AllDigits(s[1..])) &&
            (s[0] != '-' ==> AllDigits(s)) &&
            ParseInt(s) == x
  {
    var s := IntToDecimal(x);
    if x < 0 {
      assert s[1..] == NatDigits(-x);
      NatDigitsRoundTrip(-x);
    } else {
      NatDigitsRoundTrip(x);
    }
  }

  /** Two different integers never render the same. */
  lemma IntToDecimalInjective(x: int, y: int)
    ensures IntToDecimal(x) == IntToDecimal(y) <==> x == y
  {
    if IntToDecimal(x) == IntToDecimal(y) {
      IntToDecimalRoundTrip(x);
      IntToDecimalRoundTrip(y);
    }
  }
}
