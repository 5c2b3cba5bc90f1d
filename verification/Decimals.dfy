/** Decimal numbers as text: how a number is written, and how its digits are read. */
module Decimals {
  import opened Powers

  function Digit(n: nat): char
    requires n < 10
  {
    "0123456789"[n]
  }

  /** `std::to_string`. */
  function Decimal(n: nat): (s: string)
    ensures s != []
  {
    if n < 10 then [Digit(n)] else Decimal(n / 10) + [Digit(n % 10)]
  }

  predicate IsDigit(c: char) { '0' <= c <= '9' }

  predicate AllDigitChars(s: string)
  {
    forall i :: 0 <= i < |s| ==> IsDigit(s[i])
  }

  /** The number that digits denote, each counted from the character 0. */
  function Reading(s: string): int
  {
    if s == "" then 0 else 10 * Reading(s[..|s| - 1]) + (s[|s| - 1] as int - '0' as int)
  }

  lemma DigitReads(n: nat)
    requires n < 10
    ensures IsDigit(Digit(n)) && Digit(n) as int - '0' as int == n
  {
  }

  /** A number is written in digits that denote it, the first of them not a zero unless it is the only one. */
  lemma {:induction false} DecimalReads(n: nat)
    ensures AllDigitChars(Decimal(n)) && Reading(Decimal(n)) == n
    ensures n > 0 ==> Decimal(n)[0] != '0'
  {
    hide Digit;
    if n < 10 {
      DigitReads(n);
      ReadingSnoc("", Digit(n));
      assert "" + [Digit(n)] == [Digit(n)];
    } else {
      DecimalReads(n / 10);
      DigitReads(n % 10);
      ReadingSnoc(Decimal(n / 10), Digit(n % 10));
      assert Decimal(n)[0] == Decimal(n / 10)[0];
    }
  }

  lemma ReadingSnoc(s: string, c: char)
    ensures Reading(s + [c]) == 10 * Reading(s) + (c as int - '0' as int)
  {
    assert (s + [c])[..|s|] == s;
  }

  lemma DecimalInjective(m: nat, n: nat)
    requires Decimal(m) == Decimal(n)
    ensures m == n
  {
    DecimalReads(m);
    DecimalReads(n);
  }

  /** How many digits a number has at most. */
  lemma {:induction false} DecimalLength(n: nat, k: nat)
    requires n < Pow(10, k) && k > 0
    ensures |Decimal(n)| <= k
  {
    hide Digit;
    if n >= 10 { DecimalLength(n / 10, k - 1); }
  }

  lemma DecimalPlain(n: nat, c: char)
    requires !IsDigit(c)
    ensures c !in Decimal(n)
  {
    DecimalReads(n);
  }
}
