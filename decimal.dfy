/**
 * Decimal rendering of non-negative integers, as produced by
 * `boost::lexical_cast<std::string>` on a `size_t` and by `operator<<` on a
 * non-negative `int64_t`: base ten, no sign, no leading zeros.
 */
module Decimal {

  predicate IsDigit(c: char) {
    '0' <= c <= '9'
  }

  function DigitChar(d: nat): (c: char)
    requires d < 10
    ensures IsDigit(c) && (c as int) - ('0' as int) == d
  {
    (('0' as int) + d) as char
  }

  function DigitValue(c: char): (d: nat)
    requires IsDigit(c)
    ensures d < 10 && DigitChar(d) == c
  {
    (c as int) - ('0' as int)
  }

  /** The decimal representation of `n`. */
  function DecimalString(n: nat): (s: string)
    ensures |s| >= 1
    ensures forall i :: 0 <= i < |s| ==> IsDigit(s[i])
    ensures s[0] == '0' ==> s == "0"
    decreases n
  {
    if n < 10 then [DigitChar(n)] else DecimalString(n / 10) + [DigitChar(n % 10)]
  }

  /** Reads a string of decimal digits back as a number (the inverse of DecimalString). */
  function ParseDecimal(s: string): nat
    requires forall i :: 0 <= i < |s| ==> IsDigit(s[i])
  {
    if |s| == 0 then 0 else ParseDecimal(s[..|s| - 1]) * 10 + DigitValue(s[|s| - 1])
  }

  lemma {:induction false} ParseDecimalString(n: nat)
    ensures ParseDecimal(DecimalString(n)) == n
    decreases n
  {
    var s := DecimalString(n);
    if n >= 10 {
      ParseDecimalString(n / 10);
      assert s[..|s| - 1] == DecimalString(n / 10);
    }
  }

  /** Distinct numbers have distinct decimal strings, so group indices give distinct keys. */
  lemma DecimalStringInjective(m: nat, n: nat)
    ensures DecimalString(m) == DecimalString(n) <==> m == n
  {
    if DecimalString(m) == DecimalString(n) {
      ParseDecimalString(m);
      ParseDecimalString(n);
    }
  }
}
