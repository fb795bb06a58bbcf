/** The decimal text JavaScript produces when a non-negative integer is
    concatenated to a string (`" (" + dupes.length + ")"`). */
module Decimal {

  predicate IsDigit(c: char)
  {
    '0' <= c <= '9'
  }

  predicate AllDigits(s: string)
  {
    forall i :: 0 <= i < |s| ==> IsDigit(s[i])
  }

  function DigitChar(d: nat): (c: char)
    requires d < 10
    ensures IsDigit(c) && c as int - '0' as int == d
  {
    ('0' as int + d) as char
  }

  /** Decimal digits of `n`, most significant first, without leading zeros. */
  function FromNat(n: nat): (r: string)
    ensures |r| >= 1
    ensures AllDigits(r)
    ensures r[0] == '0' ==> n == 0
  {
    if n < 10 then [DigitChar(n)] else FromNat(n / 10) + [DigitChar(n % 10)]
  }

  /** The value of a string of decimal digits. */
  function Value(s: string): nat
    requires AllDigits(s)
  {
    if s == [] then 0
    else 10 * Value(s[..|s| - 1]) + (s[|s| - 1] as int - '0' as int)
  }

  /** Reading the digits back gives the number. */
  lemma {:induction false} ValueOfFromNat(n: nat)
    ensures Value(FromNat(n)) == n
  {
    if n >= 10 {
      ValueOfFromNat(n / 10);
      var r := FromNat(n);
      assert r[..|r| - 1] == FromNat(n / 10);
    }
  }

  /** Distinct numbers have distinct decimal texts. */
  lemma FromNatInjective(n: nat, m: nat)
    requires FromNat(n) == FromNat(m)
    ensures n == m
  {
    ValueOfFromNat(n);
    ValueOfFromNat(m);
  }
}
