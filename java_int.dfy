/**
 * Decimal conversions of the Java platform as the services use them:
 * `String.valueOf(int)` / `Integer.toString` and `Integer.parseInt`.
 */
module JavaInt {
  import opened Wrappers

  const MinInt: int := -0x8000_0000
  const MaxInt: int := 0x7FFF_FFFF

  /** The range of a Java `int`. */
  predicate IsInt32(x: int) {
    MinInt <= x <= MaxInt
  }

  predicate IsDigit(c: char) {
    '0' <= c <= '9'
  }

  predicate AllDigits(s: string) {
    forall i :: 0 <= i < |s| ==> IsDigit(s[i])
  }

  function DigitValue(c: char): nat
    requires IsDigit(c)
  {
    c as int - '0' as int
  }

  function DigitChar(d: nat): (c: char)
    requires d < 10
    ensures IsDigit(c) && DigitValue(c) == d
  {
    ('0' as int + d) as char
  }

  /** Decimal digits of `n`, most significant first, without leading zeros. */
  function NatToString(n: nat): string
    decreases n
  {
    if n < 10 then [DigitChar(n)] else NatToString(n / 10) + [DigitChar(n % 10)]
  }

  /** `String.valueOf(int)`: an optional minus sign followed by the digits of the magnitude. */
  function IntToString(x: int): string {
    if x < 0 then "-" + NatToString(-x) else NatToString(x)
  }

  /** The value of a digit string, read most significant digit first. */
  function DigitsValue(s: string): nat
    requires AllDigits(s)
    decreases |s|
  {
    if s == [] then 0 else DigitsValue(s[..|s| - 1]) * 10 + DigitValue(s[|s| - 1])
  }

  /** An optional `+` or `-` followed by at least one ASCII digit, read without any range limit. */
  function ParseDecimal(s: string): Option<int> {
    if |s| == 0 then None
    else
      var signed := s[0] == '-' || s[0] == '+';
      var digits := if signed then s[1..] else s;
      if |digits| == 0 || !AllDigits(digits) then None
      else if s[0] == '-' then Some(0 - DigitsValue(digits) as int)
      else Some(DigitsValue(digits))
  }

  /**
   * `Integer.parseInt` restricted to ASCII digits: `None` is the `NumberFormatException`
   * thrown for an empty string, a sign without digits, a character that is not an ASCII
   * digit after the sign, or a value outside the `int` range. Other Unicode decimal
   * digits, which `Character.digit` also accepts, are rejected here.
   */
  function ParseInt(s: string): (r: Option<int>)
    ensures r.Some? ==> IsInt32(r.value) && ParseDecimal(s) == r
    ensures r.None? ==> ParseDecimal(s).None? || !IsInt32(ParseDecimal(s).value)
  {
    match ParseDecimal(s)
    case Some(v) => if IsInt32(v) then Some(v) else None
    case None => None
  }

  lemma {:induction false} NatToStringValue(n: nat)
    ensures |NatToString(n)| > 0 && AllDigits(NatToString(n))
    ensures DigitsValue(NatToString(n)) == n
    decreases n
  {
    if n >= 10 {
      NatToStringValue(n / 10);
      var s := NatToString(n);
      assert s[..|s| - 1] == NatToString(n / 10);
    }
  }

  /** Reading back the text of any integer yields that integer. */
  lemma ParseDecimalOfIntToString(x: int)
    ensures ParseDecimal(IntToString(x)) == Some(x)
  {
    if x < 0 {
      NatToStringValue(-x);
      assert IntToString(x)[1..] == NatToString(-x);
    } else {
      NatToStringValue(x);
      assert IsDigit(NatToString(x)[0]);
    }
  }

  /** The message body written by the publisher parses back to the same identifier. */
  lemma ParseIntRoundTrip(x: int)
    requires IsInt32(x)
    ensures ParseInt(IntToString(x)) == Some(x)
  {
    ParseDecimalOfIntToString(x);
  }

  /** Comparing decimal texts of two integers is comparing the integers. */
  lemma IntToStringInjective(a: int, b: int)
    ensures IntToString(a) == IntToString(b) <==> a == b
  {
    ParseDecimalOfIntToString(a);
    ParseDecimalOfIntToString(b);
  }
}
