/** The fixed-precision half of `format_dragon` (fmt/format.h): a given number of digits, correctly
    rounded, with carry propagation. */
module DragonFixed {
  import opened Powers
  import opened BigintModel
  import opened DecimalInterval
  import opened Dragon

  /** p is v / s rounded to the nearest integer, ties to even. */
  predicate RoundedHalfEven(p: nat, v: nat, s: nat)
  {
    && 2 * (p * s) <= 2 * v + s
    && 2 * v <= 2 * (p * s) + s
    && (2 * (p * s) == 2 * v + s || 2 * v == 2 * (p * s) + s ==> p % 2 == 0)
  }

  /** Rounding to nearest with ties to even has only one answer. */
  lemma RoundedHalfEvenUnique(p: nat, q: nat, v: nat, s: nat)
    requires s > 0 && RoundedHalfEven(p, v, s) && RoundedHalfEven(q, v, s)
    ensures p == q
  {
    Multiples(p, q, s);
    Multiples(q, p, s);
  }

  lemma {:induction false} DecUpdate(ds: seq<nat>, i: nat, d: nat)
    requires i < |ds|
    ensures Dec(ds[i := d]) == Dec(ds) + (d - ds[i]) * Pow(10, |ds| - 1 - i)
  {
    var n := |ds| - 1;
    if i == n {
      assert ds[i := d][..n] == ds[..n];
    } else {
      assert ds[i := d][..n] == ds[..n][i := d];
      DecUpdate(ds[..n], i, d);
      MulAssoc(10, d - ds[i], Pow(10, n - 1 - i));
      MulRotate(10, d - ds[i], Pow(10, n - 1 - i));
    }
  }

  /** All nines and one more: a one followed by zeros. */
  lemma {:induction false} DecZeros(ds: seq<nat>)
    requires ds != [] && forall i :: 1 <= i < |ds| ==> ds[i] == 0
    ensures Dec(ds) == ds[0] * Pow(10, |ds| - 1)
  {
    if |ds| > 1 {
      DecZeros(ds[..|ds| - 1]);
      MulAssoc(10, ds[0], Pow(10, |ds| - 2));
      MulRotate(10, ds[0], Pow(10, |ds| - 2));
    } else {
      assert ds[..0] == [];
    }
  }

  /** The last digit stands at ten; the carry moves up through the nines. When it leaves the first
      digit, the fixed format grows by a digit and the other formats bump the exponent. */
  method PropagateCarry(buf: seq<nat>, fixed: bool) returns (digits: seq<nat>, bump: bool)
    requires buf != [] && buf[|buf| - 1] == 10 && AllDigits(buf[..|buf| - 1])
    ensures AllDigits(digits) && Dec(digits) * (if bump then 10 else 1) == Dec(buf)
    ensures |digits| == |buf| || (fixed && |digits| == |buf| + 1 && Dec(buf) == Pow(10, |buf|))
    ensures bump ==> !fixed && Dec(buf) == Pow(10, |buf|)
  {
    hide Dec, Pow;
    digits, bump := buf, false;
    var i := |digits| - 1;
    assert forall j :: 0 <= j < i ==> digits[j] == buf[..i][j];
    while i > 0 && digits[i] == 10
      invariant 0 <= i < |digits| == |buf| && Dec(digits) == Dec(buf)
      invariant digits[i] <= 10
      invariant forall j :: 0 <= j < |digits| && j != i ==> digits[j] <= 9
      invariant forall j :: i < j < |digits| ==> digits[j] == 0
    {
      CarryUp(digits, i);
      digits := digits[i := 0];
      digits := digits[i - 1 := digits[i - 1] + 1];
      i := i - 1;
    }
    if digits[0] == 10 {
      TenTop(digits);
      digits := digits[0 := 1];
      if fixed {
        DecSnoc(digits, 0);
        digits := digits + [0];
      } else {
        bump := true;
      }
    }
  }

  /** A ten at the top with zeros behind it, and the one it becomes. */
  lemma TenTop(ds: seq<nat>)
    requires ds != [] && ds[0] == 10 && forall i :: 1 <= i < |ds| ==> ds[i] == 0
    ensures Dec(ds) == Pow(10, |ds|) == 10 * Dec(ds[0 := 1])
  {
    DecZeros(ds);
    DecZeros(ds[0 := 1]);
  }

  lemma CarryUp(ds: seq<nat>, i: nat)
    requires 0 < i < |ds| && ds[i] == 10
    ensures Dec(ds[i := 0][i - 1 := ds[i - 1] + 1]) == Dec(ds)
  {
    DecUpdate(ds, i, 0);
    DecUpdate(ds[i := 0], i - 1, ds[i - 1] + 1);
    assert Pow(10, |ds| - i) == 10 * Pow(10, |ds| - 1 - i);
  }

  /** Rounding the truncated quotient t with remainder r. */
  lemma RoundTruncated(v: nat, s: nat, t: nat, r: nat, p: nat)
    requires s > 0 && v == t * s + r && r <= s
    requires p == if 2 * r > s || (2 * r == s && t % 2 != 0) then t + 1 else t
    ensures RoundedHalfEven(p, v, s)
  {
    Multiples(t + 1, t, s);
  }

  /** Where the division misses a tie: at decimal place k the scaled numerator is the denominator, while its
      bigit exponent, en, is still the larger one. */
  predicate MissedAt(k: nat, r: nat, s: nat, en: nat, ed: nat)
  {
    en > ed && Scaled(k, r) == s
  }

  /** The digits are digits unless a tie was missed before the last place; one place further the quotient is
      then ten. */
  ghost predicate DigitsBut(digits: seq<nat>, r: nat, s: nat, en: nat, ed: nat)
  {
    && ((forall k: nat :: k + 2 <= |digits| ==> !MissedAt(k, r, s, en, ed)) ==> AllDigits(digits))
    && forall k: nat :: k + 2 <= |digits| && MissedAt(k, r, s, en, ed) ==> digits[k + 1] == 10
  }

  /** The state of the digit loop before decimal place |digits|. */
  ghost predicate Dividing(numerator: Bigint, denominator: Bigint, digits: seq<nat>, r: nat, en: nat)
    reads numerator, denominator
  {
    var s, ed, i := denominator.Value(), denominator.exp, |digits|;
    && numerator != denominator && numerator.Valid() && denominator.Valid() && s > 0 && r > 0
    && numerator.Value() + (10 * Dec(digits)) * s == Scaled(i, r) && numerator.Value() <= 10 * s
    && (numerator.Value() == 10 * s <==> i > 0 && MissedAt(i - 1, r, s, en, ed))
    && (if Dec(digits) == 0 then numerator.exp == en else numerator.exp <= ed)
    && DigitsBut(digits, r, s, en, ed)
  }

  lemma ScaledPositive(k: nat, r: nat)
    requires r > 0
    ensures Scaled(k, r) > 0
  {
  }

  /** A tie is met at most once, and before it there are only zeros. */
  lemma TieIsNow(numerator: Bigint, denominator: Bigint, digits: seq<nat>, r: nat, en: nat)
    requires Dividing(numerator, denominator, digits, r, en)
    ensures numerator.TieMissed(denominator) <==> MissedAt(|digits|, r, denominator.Value(), en, denominator.exp)
    ensures numerator.Value() == 0 ==> numerator.exp <= denominator.exp
  {
    hide Scaled, DigitsBut;
    var s, d := denominator.Value(), Dec(digits);
    ScaledPositive(|digits|, r);
    if d > 0 { MulLe(10, 10 * d, s); }
  }

  /** One more digit: the quotient, 0 at a missed tie, and 10 behind one. */
  lemma OneMoreDigit(digits: seq<nat>, d: nat, r: nat, s: nat, en: nat, ed: nat)
    requires DigitsBut(digits, r, s, en, ed)
    requires d == 10 || d <= 9
    requires d == 10 <==> |digits| > 0 && MissedAt(|digits| - 1, r, s, en, ed)
    ensures DigitsBut(digits + [d], r, s, en, ed)
  {
    hide MissedAt;
    var n, ds := |digits|, digits + [d];
    forall k: nat | k + 2 <= n + 1 && MissedAt(k, r, s, en, ed) ensures ds[k + 1] == 10 {
      if k + 2 <= n { assert ds[k + 1] == digits[k + 1]; }
    }
    if forall k: nat :: k + 2 <= n + 1 ==> !MissedAt(k, r, s, en, ed) {
      assert forall k: nat :: k + 2 <= n ==> !MissedAt(k, r, s, en, ed);
      assert AllDigits(digits);
      if n > 0 { assert (n - 1) + 2 <= n + 1; }
    }
  }

  method AppendDigit(numerator: Bigint, denominator: Bigint, prefix: seq<nat>, ghost r: nat, ghost en: nat)
    returns (digits: seq<nat>)
    requires Dividing(numerator, denominator, prefix, r, en)
    modifies numerator
    ensures numerator.Valid() && |digits| == |prefix| + 1
    ensures Scaled(|prefix|, r) == Dec(digits) * denominator.Value() + numerator.Value()
    ensures if MissedAt(|prefix|, r, denominator.Value(), en, denominator.exp)
            then numerator.Value() == denominator.Value() && Dec(digits) == 0
            else numerator.Value() < denominator.Value()
    ensures if Dec(digits) == 0 then numerator.exp == en else numerator.exp <= denominator.exp
    ensures numerator.Value() == 0 ==> numerator.exp <= denominator.exp
    ensures DigitsBut(digits, r, denominator.Value(), en, denominator.exp)
  {
    hide DigitsBut, Scaled;
    ghost var w, s := numerator.Value(), denominator.Value();
    TieIsNow(numerator, denominator, prefix, r, en);
    var digit := NextDigit(numerator, denominator);
    DigitStep(Scaled(|prefix|, r), w, Dec(prefix), digit, numerator.Value(), s);
    DecSnoc(prefix, digit);
    TenIsTenfold(w, digit, s, numerator.Value());
    OneMoreDigit(prefix, digit, r, s, en, denominator.exp);
    digits := prefix + [digit];
  }

  lemma TenIsTenfold(w: nat, d: nat, s: nat, r: nat)
    requires s > 0 && w == d * s + r && d <= (if w < 10 * s then 9 else 10) && (r < s || d == 0) && w <= 10 * s
    requires d == 0 ==> r <= s
    ensures d == 10 <==> w == 10 * s
  {
    if d <= 9 && d > 0 { MulLe(d, 9, s); }
  }

  /** The digit loop: m - 1 digits into the buffer, the last one still to be rounded. */
  method FixedDigits(numerator: Bigint, denominator: Bigint, m: nat) returns (digits: seq<nat>)
    requires numerator != denominator && numerator.Valid() && denominator.Valid()
    requires 0 < numerator.Value() < 10 * denominator.Value() && m >= 1
    modifies numerator
    ensures numerator.Valid() && |digits| == m
    ensures Scaled(m - 1, old(numerator.Value())) == Dec(digits) * denominator.Value() + numerator.Value()
    ensures if MissedAt(m - 1, old(numerator.Value()), denominator.Value(), old(numerator.exp), denominator.exp)
            then numerator.Value() == denominator.Value() else numerator.Value() < denominator.Value()
    ensures numerator.Value() == 0 ==> numerator.exp <= denominator.exp
    ensures DigitsBut(digits, old(numerator.Value()), denominator.Value(), old(numerator.exp), denominator.exp)
  {
    hide DigitsBut, Scaled;
    ghost var r, s, en := numerator.Value(), denominator.Value(), numerator.exp;
    digits := [];
    NoDigitsYet(r, s, en, denominator.exp);
    for i := 0 to m - 1
      invariant |digits| == i && Dividing(numerator, denominator, digits, r, en)
    {
      digits := AppendDigit(numerator, denominator, digits, r, en);
      ScaledStep(i, r);
      MulAssoc(10, Dec(digits), s);
      numerator.Multiply(10);
    }
    digits := AppendDigit(numerator, denominator, digits, r, en);
  }

  lemma NoDigitsYet(r: nat, s: nat, en: nat, ed: nat)
    ensures DigitsBut([], r, s, en, ed) && Scaled(0, r) == r
  {
  }

  /** The last digit is rounded up, with its carry, or left alone. */
  method RoundLast(buf: seq<nat>, up: bool, fixed: bool) returns (digits: seq<nat>, bump: bool)
    requires buf != [] && (up ==> AllDigits(buf))
    ensures Dec(digits) * (if bump then 10 else 1) == Dec(buf) + (if up then 1 else 0)
    ensures if up then AllDigits(digits) else digits == buf
    ensures |digits| == |buf| || (fixed && |digits| == |buf| + 1 && Dec(digits) == Pow(10, |buf|))
    ensures bump ==> !fixed && Dec(digits) * 10 == Pow(10, |buf|)
  {
    digits, bump := buf, false;
    if up {
      var n := |buf| - 1;
      var digit := buf[n];
      DecUpdate(buf, n, digit + 1);
      if digit == 9 {
        digits := digits[n := 10];
        assert digits[..n] == buf[..n];
        digits, bump := PropagateCarry(digits, fixed);
      } else {
        digits := digits[n := digit + 1];
      }
    }
  }

  /** The place the result is rounded to: m digits after (and including) the first, or, when m is not
      positive, 1 - m places above it. */
  function RoundedValue(m: int, r: nat): nat { if m >= 1 then Scaled(m - 1, r) else r }
  function RoundedUnit(m: int, s: nat): nat { if m >= 1 then s else Scaled(1 - m, s) }

  lemma FarBelowHalf(m: int, r: nat, s: nat)
    requires m < 0 && r < 10 * s
    ensures RoundedHalfEven(0, r, Scaled(1 - m, s))
  {
    ScaledStep(1 - m - 1, s);
    ScaledStep(1 - m - 2, s);
    PowMonotone(10, 0, -1 - m);
    MulLe(1, Pow(10, -1 - m), s);
  }

  /** No digit to generate: one character, 0 or 1, stands for the whole value. */
  method NoDigits(numerator: Bigint, denominator: Bigint, m: int) returns (digit: nat)
    requires m <= 0 && numerator != denominator && numerator.Valid() && denominator.Valid()
    requires 0 < numerator.Value() < 10 * denominator.Value()
    modifies denominator
    ensures digit <= 1 && RoundedHalfEven(digit, numerator.Value(), RoundedUnit(m, old(denominator.Value())))
  {
    ghost var r, s := numerator.Value(), denominator.Value();
    digit := 0;
    if m == 0 {
      ScaledStep(0, s);
      denominator.Multiply(10);
      var c := AddCompare(numerator, numerator, denominator);
      digit := if c > 0 then 1 else 0;
    } else {
      FarBelowHalf(m, r, s);
    }
  }

  /** Whether the digits generated so far are to be rounded up, by the remainder left in numerator. */
  method FixedRoundsUp(numerator: Bigint, denominator: Bigint, digits: seq<nat>, ghost v: nat) returns (up: bool)
    requires numerator.Valid() && denominator.Valid() && digits != [] && denominator.Value() > 0
    requires v == Dec(digits) * denominator.Value() + numerator.Value() && numerator.Value() <= denominator.Value()
    requires numerator.Value() == 0 ==> numerator.exp <= denominator.exp
    ensures RoundedHalfEven(if up then Dec(digits) + 1 else Dec(digits), v, denominator.Value())
    ensures numerator.Value() == 0 ==> !up
  {
    if numerator.Value() == 0 {
      AlignedZeroFits(numerator.bigits, numerator.exp, denominator.bigits, denominator.exp);
    }
    var result := AddCompare(numerator, numerator, denominator);
    up := result > 0 || (result == 0 && digits[|digits| - 1] % 2 != 0);
    RoundTruncated(v, denominator.Value(), Dec(digits), numerator.Value(), if up then Dec(digits) + 1 else Dec(digits));
  }

  /** Behind a missed tie the division is exact. */
  lemma ExactBehind(k: nat, m: nat, r: nat, s: nat, en: nat, ed: nat, t: nat, rest: nat)
    requires k + 2 <= m && MissedAt(k, r, s, en, ed) && s > 0 && Scaled(m - 1, r) == t * s + rest
    requires if MissedAt(m - 1, r, s, en, ed) then rest == s else rest < s
    ensures rest == 0
  {
    var n := m - 1 - k;
    PowAdd(10, n, k);
    MulAssoc(Pow(10, n), Pow(10, k), r);
    PowStrict(10, 0, n);
    MulLt(1, Pow(10, n), s);
    DivModUnique(Scaled(m - 1, r), s, t, rest);
    DivModUnique(Scaled(m - 1, r), s, Pow(10, n), 0);
  }

  /** The given number of digits, correctly rounded. They are digits exactly if no tie was missed before the
      last place; one place behind such a tie stands a ten. */
  method GenerateFixed(numerator: Bigint, denominator: Bigint, m: int, fixed: bool)
    returns (digits: seq<nat>, bump: bool)
    requires numerator != denominator && numerator.Valid() && denominator.Valid()
    requires 0 < numerator.Value() < 10 * denominator.Value()
    modifies numerator, denominator
    ensures digits != []
    ensures RoundedHalfEven(Dec(digits) * (if bump then 10 else 1),
                            RoundedValue(m, old(numerator.Value())), RoundedUnit(m, old(denominator.Value())))
    ensures m <= 0 ==> |digits| == 1
    ensures m >= 1 ==> |digits| == m || (fixed && |digits| == m + 1 && Dec(digits) == Pow(10, m))
    ensures bump ==> !fixed && m >= 1 && Dec(digits) * 10 == Pow(10, m)
    ensures AllDigits(digits) <==> forall k: nat :: k + 2 <= m ==>
              !MissedAt(k, old(numerator.Value()), old(denominator.Value()), old(numerator.exp), old(denominator.exp))
    ensures forall k: nat | k + 2 <= m &&
              MissedAt(k, old(numerator.Value()), old(denominator.Value()), old(numerator.exp), old(denominator.exp)) ::
              |digits| == m && digits[k + 1] == 10
  {
    bump := false;
    if m <= 0 {
      var digit := NoDigits(numerator, denominator, m);
      digits := [digit];
      assert digits[..0] == [];
      return;
    }
    ghost var r, s, en, ed := numerator.Value(), denominator.Value(), numerator.exp, denominator.exp;
    var buf := FixedDigits(numerator, denominator, m);
    var up := FixedRoundsUp(numerator, denominator, buf, Scaled(m - 1, r));
    hide Scaled;
    forall k: nat | k + 2 <= m && MissedAt(k, r, s, en, ed) ensures !up {
      ExactBehind(k, m, r, s, en, ed, Dec(buf), numerator.Value());
    }
    digits, bump := RoundLast(buf, up, fixed);
  }
}
