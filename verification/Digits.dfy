/**
 Decimal text: what `%lu` and `%1.15g` print for whole numbers, and reading it back.
 */
module Digits {

  predicate IsDigit(c: char) {
    '0' <= c <= '9'
  }

  function DigitValue(c: char): nat
    requires '0' <= c
  {
    c as int - '0' as int
  }

  function DigitChar(d: nat): (c: char)
    requires d < 10
    ensures IsDigit(c) && DigitValue(c) == d
  {
    '0' + d as char
  }

  predicate AllDigits(s: string) {
    forall i :: 0 <= i < |s| ==> IsDigit(s[i])
  }

  /** The digits of `n`, without leading zeros. */
  function Decimal(n: nat): (s: string)
    ensures |s| > 0 && AllDigits(s)
    ensures s[0] == '0' ==> n == 0 && |s| == 1
  {
    if n < 10 then [DigitChar(n)]
    else Decimal(n / 10) + [DigitChar(n % 10)]
  }

  /** Horner's rule over a run of digits, starting from `acc`. */
  function Accumulate(s: string, acc: nat): (r: nat)
    requires AllDigits(s)
    ensures r >= acc
  {
    if s == [] then acc
    else Accumulate(s[1..], 10 * acc + DigitValue(s[0]))
  }

  lemma {:induction false} AccumulateLast(s: string, c: char, acc: nat)
    requires AllDigits(s) && IsDigit(c)
    ensures AllDigits(s + [c])
    ensures Accumulate(s + [c], acc) == 10 * Accumulate(s, acc) + DigitValue(c)
  {
    if s == [] {
      assert (s + [c])[1..] == [];
    } else {
      assert (s + [c])[1..] == s[1..] + [c];
      AccumulateLast(s[1..], c, 10 * acc + DigitValue(s[0]));
    }
  }

  /** Reading the printed digits gives the number back. */
  lemma {:induction false} DecimalReadsBack(n: nat)
    ensures Accumulate(Decimal(n), 0) == n
  {
    if n < 10 {
      assert Decimal(n)[1..] == [];
    } else {
      DecimalReadsBack(n / 10);
      AccumulateLast(Decimal(n / 10), DigitChar(n % 10), 0);
    }
  }
}
