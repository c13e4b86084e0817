/**
 * Decimal text of non-negative integers, as JavaScript's `Number.prototype.toString()`
 * and template literals write them (no sign, no leading zeros).
 */
module Decimal {

  predicate IsDigit(c: char) {
    '0' <= c <= '9'
  }

  predicate AllDigits(s: string) {
    forall i :: 0 <= i < |s| ==> IsDigit(s[i])
  }

  function DigitChar(d: nat): (c: char)
    requires d < 10
    ensures IsDigit(c) && c as int - '0' as int == d
  {
    ('0' as int + d) as char
  }

  function DigitValue(c: char): (d: nat)
    requires IsDigit(c)
    ensures d < 10
  {
    c as int - '0' as int
  }

  function Pow10(k: nat): (p: nat)
    ensures p >= 1
  {
    if k == 0 then 1 else 10 * Pow10(k - 1)
  }

  /** The decimal representation of `n`. */
  function NatToString(n: nat): (s: string)
    ensures |s| >= 1 && AllDigits(s)
    ensures (s[0] == '0') <==> n == 0
    decreases n
  {
    if n < 10 then [DigitChar(n)] else NatToString(n / 10) + [DigitChar(n % 10)]
  }

  /** Reads a string of digits back as a number (the inverse of `NatToString`). */
  function ParseDecimal(s: string): nat
    requires AllDigits(s)
  {
    if s == [] then 0 else ParseDecimal(s[..|s| - 1]) * 10 + DigitValue(s[|s| - 1])
  }

  lemma {:induction false} ParseNatToString(n: nat)
    ensures ParseDecimal(NatToString(n)) == n
  {
    if n >= 10 {
      var s := NatToString(n);
      assert s[..|s| - 1] == NatToString(n / 10);
      ParseNatToString(n / 10);
    }
  }

  lemma NatToStringInjective(a: nat, b: nat)
    ensures NatToString(a) == NatToString(b) ==> a == b
  {
    ParseNatToString(a);
    ParseNatToString(b);
  }

  /** A number with exactly `k` digits, 10^(k-1) <= n < 10^k, is written with `k` characters. */
  lemma {:induction false} NatToStringLength(n: nat, k: nat)
    requires k >= 1 && Pow10(k - 1) <= n < Pow10(k)
    ensures |NatToString(n)| == k
  {
    if k == 1 {
      assert n < 10;
    } else {
      assert n >= 10 by { Pow10Grows(k - 1); }
      assert Pow10(k - 2) <= n / 10 < Pow10(k - 1);
      NatToStringLength(n / 10, k - 1);
    }
  }

  lemma {:induction false} Pow10Grows(k: nat)
    requires k >= 1
    ensures Pow10(k) >= 10
  {
    if k > 1 { Pow10Grows(k - 1); }
  }
}
