/** The decimal rendering the formatters use: `String.format("%02d", n)` with
    ASCII digits, and the parser that reads such digits back. */
module Decimal {

  predicate IsDigit(c: char) {
    '0' <= c <= '9'
  }

  predicate AllDigits(s: string) {
    forall i :: 0 <= i < |s| ==> IsDigit(s[i])
  }

  function DigitChar(d: int): (c: char)
    requires 0 <= d < 10
    ensures IsDigit(c)
  {
    ('0' as int + d) as char
  }

  /** The shortest decimal spelling of `n`. */
  function Digits(n: nat): (s: string)
    ensures |s| >= 1 && AllDigits(s)
    ensures |s| == 1 <==> n < 10
    ensures |s| == 2 <==> 10 <= n < 100
    ensures s[0] == '0' <==> n == 0
    decreases n
  {
    if n < 10 then [DigitChar(n)] else Digits(n / 10) + [DigitChar(n % 10)]
  }

  /** The value of a string of decimal digits; leading zeros are allowed. */
  function ParseDecimal(s: string): nat
    requires AllDigits(s)
  {
    if s == [] then 0
    else ParseDecimal(s[..|s| - 1]) * 10 + (s[|s| - 1] as int - '0' as int)
  }

  /** Reading back a number's digits gives the number. */
  lemma {:induction false} ParseDigits(n: nat)
    ensures ParseDecimal(Digits(n)) == n
    decreases n
  {
    if n >= 10 {
      var s := Digits(n);
      assert s[..|s| - 1] == Digits(n / 10);
      ParseDigits(n / 10);
    }
  }

  /** Leading zeros do not change the value. */
  lemma {:induction false} ParseLeadingZero(s: string)
    requires AllDigits(s)
    ensures ParseDecimal("0" + s) == ParseDecimal(s)
    decreases |s|
  {
    if s != [] {
      assert ("0" + s)[..|"0" + s| - 1] == "0" + s[..|s| - 1];
      ParseLeadingZero(s[..|s| - 1]);
    }
  }

  /** `String.format("%02d", n)`: the decimal digits of `n`, zero-padded to
      two characters; a negative value is its sign followed by the digits of
      its magnitude (the sign already fills the width of two). */
  function Pad2(n: int): (s: string)
    ensures |s| >= 2
    ensures n >= 0 ==> AllDigits(s) && ParseDecimal(s) == n
    ensures n < 0 ==> s[0] == '-' && AllDigits(s[1..]) && ParseDecimal(s[1..]) == -n
    ensures |s| == 2 <==> -10 < n < 100
    ensures n >= 10 ==> s[0] != '0'
    ensures n < -9 ==> s[1] != '0'
  {
    if n < 0 then
      ParseDigits(-n);
      "-" + Digits(-n)
    else if n < 10 then
      ParseDigits(n);
      ParseLeadingZero(Digits(n));
      "0" + Digits(n)
    else
      ParseDigits(n);
      Digits(n)
  }
}
