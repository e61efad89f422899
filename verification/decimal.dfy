/**
 Decimal text for non-negative integers. The assembler writes numbers as text
 in two places: `to_string` builds the register names `R0` .. `R15`, and `stoi`
 reads the operand handed to the binary encoder. Both are modelled here on
 plain digit strings (no sign, no surrounding spaces).
 */
module Decimal {

  predicate IsDigit(c: char) {
    '0' <= c <= '9'
  }

  function DigitValue(c: char): (d: nat)
    requires IsDigit(c)
    ensures d < 10
  {
    c as int - '0' as int
  }

  function DigitChar(d: nat): (c: char)
    requires d < 10
    ensures IsDigit(c) && DigitValue(c) == d
  {
    ('0' as int + d) as char
  }

  /** Every character is a decimal digit (the empty string included). */
  predicate AllDigits(s: string) {
    forall i :: 0 <= i < |s| ==> IsDigit(s[i])
  }

  /** A non-empty string of decimal digits. */
  predicate IsDecimal(s: string) {
    |s| > 0 && AllDigits(s)
  }

  /** Decimal text without superfluous leading zeros, as `to_string` writes it. */
  predicate IsCanonical(s: string) {
    IsDecimal(s) && (|s| == 1 || s[0] != '0')
  }

  function Pow10(k: nat): (r: nat)
    ensures r >= 1
  {
    if k == 0 then 1 else 10 * Pow10(k - 1)
  }

  /** The value of a digit string read most significant digit first: `stoi`
      restricted to strings of digits. A string of `k` digits denotes less
      than 10^k. */
  function Parse(s: string): (n: nat)
    requires AllDigits(s)
    ensures n < Pow10(|s|)
  {
    if |s| == 0 then 0 else Parse(s[..|s| - 1]) * 10 + DigitValue(s[|s| - 1])
  }

  /** `to_string` on a non-negative integer. */
  function ToDecimal(n: nat): (s: string)
    ensures IsCanonical(s)
    ensures Parse(s) == n
  {
    if n < 10 then [DigitChar(n)]
    else
      var p := ToDecimal(n / 10);
      var s := p + [DigitChar(n % 10)];
      assert s[..|s| - 1] == p;
      s
  }

  /** A digit string whose leading digit is not zero denotes at least one. */
  lemma {:induction false} ParsePositive(s: string)
    requires IsDecimal(s) && s[0] != '0'
    ensures Parse(s) >= 1
    decreases |s|
  {
    if |s| > 1 {
      var p := s[..|s| - 1];
      assert p[0] == s[0];
      ParsePositive(p);
    }
  }

  /** Reading back canonical decimal text and writing it again gives the same
      text: `to_string(stoi(s)) == s`. */
  lemma {:induction false} ToDecimalParse(s: string)
    requires IsCanonical(s)
    ensures ToDecimal(Parse(s)) == s
    decreases |s|
  {
    if |s| > 1 {
      var p := s[..|s| - 1];
      assert p[0] == s[0];
      ParsePositive(p);
      ToDecimalParse(p);
      assert s == p + [s[|s| - 1]];
    }
  }

  /** Distinct numbers have distinct decimal text. */
  lemma ToDecimalInjective(a: nat, b: nat)
    ensures ToDecimal(a) == ToDecimal(b) <==> a == b
  {
  }
}
