/** Decimal rendering of unsigned integers, as `to_string` on a Rust integer writes it,
    and the parse that reads it back. */
module Decimal {

  predicate IsDigit(c: char) {
    '0' <= c <= '9'
  }

  function DigitChar(d: nat): (c: char)
    requires d < 10
    ensures IsDigit(c) && c as int - '0' as int == d
  {
    (d + '0' as int) as char
  }

  function DigitValue(c: char): (d: nat)
    requires IsDigit(c)
    ensures d < 10 && DigitChar(d) == c
  {
    c as int - '0' as int
  }

  /** Most significant digit first, no leading zeros, "0" for zero. */
  function ToDecimal(n: nat): (s: string)
    decreases n
  {
    if n < 10 then [DigitChar(n)] else ToDecimal(n / 10) + [DigitChar(n % 10)]
  }

  /** Reads a string of digits, most significant first. */
  function ParseDecimal(s: string): (n: nat)
    requires forall i :: 0 <= i < |s| ==> IsDigit(s[i])
    decreases |s|
  {
    if s == [] then 0 else ParseDecimal(s[..|s| - 1]) * 10 + DigitValue(s[|s| - 1])
  }

  /** The rendering is a non-empty string of digits without a leading zero. */
  lemma {:induction false} ToDecimalWellFormed(n: nat)
    ensures |ToDecimal(n)| > 0
    ensures forall i :: 0 <= i < |ToDecimal(n)| ==> IsDigit(ToDecimal(n)[i])
    ensures ToDecimal(n)[0] == '0' ==> n == 0
  {
    if n >= 10 {
      ToDecimalWellFormed(n / 10);
      var s := ToDecimal(n / 10);
      assert ToDecimal(n) == s + [DigitChar(n % 10)];
      assert ToDecimal(n)[0] == s[0];
    }
  }

  /** Reading back the rendering gives the number. */
  lemma {:induction false} ParseToDecimal(n: nat)
    ensures forall i :: 0 <= i < |ToDecimal(n)| ==> IsDigit(ToDecimal(n)[i])
    ensures ParseDecimal(ToDecimal(n)) == n
  {
    ToDecimalWellFormed(n);
    var s := ToDecimal(n);
    if n < 10 {
      assert s[..0] == [];
    } else {
      var t := ToDecimal(n / 10);
      assert s[..|s| - 1] == t;
      ParseToDecimal(n / 10);
    }
  }

  /** Distinct numbers render differently. */
  lemma ToDecimalInjective(m: nat, n: nat)
    requires ToDecimal(m) == ToDecimal(n)
    ensures m == n
  {
    ParseToDecimal(m);
    ParseToDecimal(n);
  }
}
