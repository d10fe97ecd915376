/** Decimal rendering of integers, as Go's `fmt` verb `%d` writes them. */
module Decimal {

  predicate IsDigit(c: char) {
    '0' <= c <= '9'
  }

  predicate AllDigits(s: string) {
    forall i | 0 <= i < |s| :: IsDigit(s[i])
  }

  /** Characters that `%d` can produce: digits and the minus sign. */
  predicate IsDecimalChar(c: char) {
    IsDigit(c) || c == '-'
  }

  function DigitChar(d: nat): (c: char)
    requires d < 10
    ensures IsDigit(c) && c as int - '0' as int == d
  {
    ('0' as int + d) as char
  }

  function DigitValue(c: char): (d: nat)
    requires IsDigit(c)
    ensures d < 10
  {
    c as int - '0' as int
  }

  /** The shortest decimal numeral of `n`: no sign, no leading zero. */
  function NatToDecimal(n: nat): (s: string)
    ensures |s| > 0 && AllDigits(s)
    ensures s[0] == '0' ==> n == 0
    decreases n
  {
    if n < 10 then [DigitChar(n)] else NatToDecimal(n / 10) + [DigitChar(n % 10)]
  }

  /** `fmt.Sprintf("%d", n)`: a minus sign for negative values, then the numeral of |n|. */
  function IntToDecimal(n: int): (s: string)
    ensures |s| > 0
    ensures s[0] == '-' <==> n < 0
    ensures forall i | 0 < i < |s| :: IsDigit(s[i])
    ensures forall i | 0 <= i < |s| :: IsDecimalChar(s[i])
  {
    if n < 0 then "-" + NatToDecimal(-n) else NatToDecimal(n)
  }

  /** The value of a string of digits, most significant first. */
  function DecimalValue(s: string): nat
    requires AllDigits(s)
  {
    if s == [] then 0 else 10 * DecimalValue(s[..|s| - 1]) + DigitValue(s[|s| - 1])
  }

  /** Reading back the numeral that NatToDecimal writes gives the number. */
  lemma {:induction false} NatToDecimalRoundTrip(n: nat)
    ensures DecimalValue(NatToDecimal(n)) == n
    decreases n
  {
    var s := NatToDecimal(n);
    if n >= 10 {
      var p := NatToDecimal(n / 10);
      NatToDecimalRoundTrip(n / 10);
      assert s[..|s| - 1] == p;
      assert DecimalValue(s) == 10 * (n / 10) + n % 10;
    } else {
      assert s[..|s| - 1] == [];
    }
  }

  /** Different integers are written differently, so a rendered number identifies its value. */
  lemma IntToDecimalInjective(a: int, b: int)
    requires IntToDecimal(a) == IntToDecimal(b)
    ensures a == b
  {
    var s := IntToDecimal(a);
    if a < 0 {
      assert s[1..] == NatToDecimal(-a) == NatToDecimal(-b);
      NatToDecimalRoundTrip(-a);
      NatToDecimalRoundTrip(-b);
    } else {
      NatToDecimalRoundTrip(a);
      NatToDecimalRoundTrip(b);
    }
  }
}
