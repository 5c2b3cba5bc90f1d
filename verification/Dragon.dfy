/** Exact digit generation for floating-point numbers: `format_dragon` (fmt/format.h). */
module Dragon {
  import opened Powers
  import opened Limbs
  import opened BigintFacts
  import opened BigintModel
  import opened DecimalInterval

  /** x moved n decimal places up. */
  function Scaled(n: nat, x: nat): (r: nat)
    ensures n == 0 ==> r == x
    ensures x > 0 ==> r > 0
  {
    if x > 0 then MulLt(0, x, Pow(10, n)); Pow(10, n) * x else 0
  }

  lemma ScaledStep(n: nat, x: nat)
    ensures Scaled(n + 1, x) == 10 * Scaled(n, x)
  {
    MulAssoc(10, Pow(10, n), x);
  }

  /** The ratio r/s with the distances l/s and u/s to the ends of its rounding interval. */
  datatype Ratio = Ratio(r: nat, s: nat, l: nat, u: nat, lowClosed: bool, highClosed: bool, blind: nat)
  {
    /** The same interval seen n decimal places further down. */
    function At(n: nat): Level
    {
      Level(Scaled(n, r), s, Scaled(n, l), Scaled(n, u), lowClosed, highClosed, blind)
    }

    /** The first n decimal places have nothing to print. */
    ghost predicate BarrenBefore(n: nat)
    {
      forall j: nat :: j < n ==> At(j).Barren()
    }

    /** What the printed digits are, of all the decimals in the rounding interval. */
    ghost predicate Shortest(digits: seq<nat>)
    {
      && digits != []
      && AllDigits(digits)
      && At(|digits| - 1).Nearest(Dec(digits))
      && BarrenBefore(|digits| - 1)
    }
  }

  predicate AllDigits(digits: seq<nat>)
  {
    forall i :: 0 <= i < |digits| ==> digits[i] <= 9
  }

  /** Whether the test `compare(numerator, lower) - even < 0` lets a remainder equal to lower pass:
      the comparison answers by the exponents when the values agree. */
  predicate LowerEndTaken(numeratorExp: nat, lowerExp: nat, even: bool)
  {
    numeratorExp > lowerExp || (numeratorExp == lowerExp && even)
  }

  lemma LowTest(z: Level, r: nat, e: nat, l: nat, el: nat, even: bool, en: nat)
    requires z.l == l > 0 && z.lowClosed == LowerEndTaken(en, el, even) && z.blind == Pow(B, en)
    requires e == en || r > l
    ensures z.Low(r) <==> CompareResult(r, e, l, el) - (if even then 1 else 0) < 0
  {
  }

  /** A value within ten times another has at most one bigit more. */
  lemma TenfoldCount(s: seq<bigit>, e: nat, t: seq<bigit>, f: nat)
    requires Canonical(s) && 0 < Num(s, e) <= 10 * Num(t, f)
    ensures |s| + e <= |t| + f + 1
  {
    assert Num(t, f + 1) == B * Num(t, f) by {
      assert Pow(B, f + 1) == B * Pow(B, f);
      MulRotate(B, Pow(B, f), Val(t));
      MulRotate(Val(t), Pow(B, f), B);
    }
    CountMonotone(s, e, t, f + 1);
  }

  /** A zero that has been aligned with a nonzero divisor has no more bigits than it. */
  lemma AlignedZeroFits(s: seq<bigit>, e: nat, t: seq<bigit>, f: nat)
    requires Canonical(s) && Canonical(t) && Num(s, e) == 0 && e <= f
    ensures |s| + e <= |t| + f
  {
    NumPositive(s, e);
    ZeroIsOneBigit(s);
  }

  /** The exponent below which a divisor's value cannot lie. */
  lemma PowExpBound(t: seq<bigit>, f: nat, e: nat)
    requires Canonical(t) && Num(t, f) > 0 && e <= f
    ensures Pow(B, e) <= Num(t, f)
  {
    NumPositive(t, f);
    ZeroBelow(e, t, f);
  }

  /** One digit: the same invariant one decimal place further down. */
  lemma DigitStep(v: nat, w: nat, t: nat, d: nat, r: nat, s: nat)
    requires w + (10 * t) * s == v && w == d * s + r
    ensures v == (10 * t + d) * s + r
    ensures 10 * r + (10 * (10 * t + d)) * s == 10 * v
  {
    MulDistributes(10 * t, d, s);
    MulAssoc(10, 10 * t + d, s);
  }

  /** Division by the denominator inside the loop. The digit is 10 only for a numerator of ten times the
      denominator, and a tie that the comparison misses leaves digit 0 and the numerator as it is. */
  method NextDigit(numerator: Bigint, denominator: Bigint) returns (digit: nat)
    requires numerator != denominator && numerator.Valid() && denominator.Valid()
    requires denominator.Value() > 0 && numerator.Value() <= 10 * denominator.Value()
    requires numerator.Value() == 0 ==> numerator.exp <= denominator.exp
    modifies numerator
    ensures numerator.Valid()
    ensures old(numerator.Value()) == digit * denominator.Value() + numerator.Value()
    ensures old(numerator.TieMissed(denominator)) ==> digit == 0
    ensures !old(numerator.TieMissed(denominator)) ==> numerator.Value() < denominator.Value()
    ensures digit <= if old(numerator.Value()) < 10 * denominator.Value() then 9 else 10
    ensures numerator.exp == if digit == 0 then old(numerator.exp) else Min(old(numerator.exp), denominator.exp)
  {
    if numerator.Value() > 0 {
      TenfoldCount(numerator.bigits, numerator.exp, denominator.bigits, denominator.exp);
    } else {
      AlignedZeroFits(numerator.bigits, numerator.exp, denominator.bigits, denominator.exp);
    }
    ghost var w := numerator.Value();
    digit := numerator.DivmodAssign(denominator);
    DigitBound(w, digit, denominator.Value(), numerator.Value());
  }

  lemma DigitBound(w: nat, d: nat, s: nat, r: nat)
    requires w == d * s + r && s > 0 && w <= 10 * s
    ensures d <= if w < 10 * s then 9 else 10
  {
    if d > 9 { MulLe(10, d, s); }
    if d > 10 { MulLe(11, d, s); }
  }

  ghost predicate Operands(numerator: Bigint, denominator: Bigint, lower: Bigint, upper: Bigint)
    reads numerator, denominator, lower, upper
  {
    && numerator != denominator && numerator != lower && numerator != upper
    && denominator != lower && denominator != upper
    && numerator.Valid() && denominator.Valid() && lower.Valid() && upper.Valid()
    && denominator.Value() > 0 && lower.Value() > 0 && upper.Value() > 0
    && (numerator.Value() == 0 ==> numerator.exp <= denominator.exp)
  }

  /** The two end tests on the remainder left in numerator. */
  method EndTests(numerator: Bigint, denominator: Bigint, lower: Bigint, upper: Bigint, even: bool,
                  ghost z: Level, ghost en: nat) returns (low: bool, high: bool)
    requires Operands(numerator, denominator, lower, upper)
    requires z.s == denominator.Value() && z.l == lower.Value() && z.u == upper.Value()
    requires z.highClosed == even && z.lowClosed == LowerEndTaken(en, lower.exp, even) && z.blind == Pow(B, en)
    requires numerator.exp == en || numerator.Value() > lower.Value()
    ensures low == z.Low(numerator.Value()) && high == z.High(numerator.Value())
  {
    var e := if even then 1 else 0;
    var c := Compare(numerator, lower);
    LowTest(z, numerator.Value(), numerator.exp, lower.Value(), lower.exp, even, en);
    low := c - e < 0;
    if numerator.Value() == 0 {
      AlignedZeroFits(numerator.bigits, numerator.exp, denominator.bigits, denominator.exp);
    }
    var a := AddCompare(numerator, upper, denominator);
    high := a + e > 0;
  }

  /** Whether the last digit is incremented once one of the tests has fired. */
  method RoundsUp(numerator: Bigint, denominator: Bigint, low: bool, high: bool, digit: nat) returns (up: bool)
    requires numerator.Valid() && denominator.Valid() && denominator.Value() > 0
    requires numerator.Value() == 0 ==> numerator.exp <= denominator.exp
    ensures up == (!low || (high && (2 * numerator.Value() > denominator.Value() ||
                                     (2 * numerator.Value() == denominator.Value() && digit % 2 != 0))))
  {
    up := false;
    if !low {
      up := true;
    } else if high {
      if numerator.Value() == 0 {
        AlignedZeroFits(numerator.bigits, numerator.exp, denominator.bigits, denominator.exp);
      }
      var result := AddCompare(numerator, numerator, denominator);
      up := result > 0 || (result == 0 && digit % 2 != 0);
    }
  }

  /** A place decided: with t written down to it the remainder is r, and the tests say low and high. */
  ghost predicate Decided(r: nat, z: Level, t: nat, digit: nat, low: bool, high: bool)
  {
    && z.Valid() && digit <= 9 && low == z.Low(r) && high == z.High(r) && (r < z.s || z.Tie(r))
    && z.v == t * z.s + r && z.v > z.l
    && (digit * z.s + r + z.u < 10 * z.s || (digit * z.s + r + z.u == 10 * z.s && !z.highClosed))
  }

  /** The rounding decision picks the nearest element of the interval. */
  lemma PrintedNearest(z: Level, t: nat, r: nat, digit: nat, low: bool, high: bool, up: bool)
    requires Decided(r, z, t, digit, low, high) && (low || high)
    requires up == (!low || (high && (2 * r > z.s || (2 * r == z.s && t % 2 != 0))))
    ensures z.Nearest(if up then t + 1 else t)
  {
    if r == z.s {
      MulDistributes(t, 1, z.s);
      ExactNearest(z, t + 1);
    } else if low && high {
      LowAndHigh(z, t, r, if up then t + 1 else t);
    } else if low {
      LowOnly(z, t, r);
    } else {
      HighOnly(z, t, r);
    }
  }

  lemma ClosingDigit(z: Level, prefix: seq<nat>, t: nat, digit: nat, low: bool, high: bool, up: bool, r: nat)
    requires Decided(r, z, t, digit, low, high) && (up ==> high)
    ensures var d := if up then digit + 1 else digit;
            && d <= 9 && (AllDigits(prefix) ==> AllDigits(prefix + [d]))
            && Dec(prefix + [d]) == (if up then 10 * Dec(prefix) + digit + 1 else 10 * Dec(prefix) + digit)
  {
    hide Dec;
    if up { IncrementFits(z, digit, r); }
    DecSnoc(prefix, if up then digit + 1 else digit);
  }

  /** Closes the digit string once a test has fired. */
  method LastDigit(numerator: Bigint, denominator: Bigint, prefix: seq<nat>, digit: nat, low: bool, high: bool,
                   ghost z: Level, ghost t: nat)
    returns (digits: seq<nat>)
    requires numerator.Valid() && denominator.Valid() && denominator.Value() == z.s > 0
    requires numerator.Value() == 0 ==> numerator.exp <= denominator.exp
    requires Decided(numerator.Value(), z, t, digit, low, high) && (low || high) && t == 10 * Dec(prefix) + digit
    ensures |digits| == |prefix| + 1 && (AllDigits(prefix) ==> AllDigits(digits))
    ensures z.Nearest(Dec(digits))
  {
    hide Decided, Level.Nearest, Dec;
    var up := RoundsUp(numerator, denominator, low, high, digit);
    assert t % 2 == digit % 2;
    PrintedNearest(z, t, numerator.Value(), digit, low, high, up);
    ClosingDigit(z, prefix, t, digit, low, high, up, numerator.Value());
    digits := prefix + [if up then digit + 1 else digit];
  }

  /** Moves on to the next decimal place; upper is scaled once even when it is lower. */
  method TimesTen(numerator: Bigint, lower: Bigint, upper: Bigint)
    requires numerator != lower && numerator != upper
    requires numerator.Valid() && lower.Valid() && upper.Valid()
    modifies numerator`bigits, lower`bigits, upper`bigits
    ensures numerator.Valid() && lower.Valid() && upper.Valid()
    ensures numerator.Value() == 10 * old(numerator.Value())
    ensures lower.Value() == 10 * old(lower.Value()) && upper.Value() == 10 * old(upper.Value())
  {
    numerator.Multiply(10);
    lower.Multiply(10);
    if upper != lower { upper.Multiply(10); }
  }

  /** The state of the shortest mode before the digit at decimal place n: what is left of r0 after
      the digits written so far, and the scaled distances. */
  ghost predicate Generating(numerator: Bigint, denominator: Bigint, lower: Bigint, upper: Bigint,
                             z: Level, written: nat)
    reads numerator, denominator, lower, upper
  {
    && Operands(numerator, denominator, lower, upper)
    && z.Valid() && z.s == denominator.Value() && z.l == lower.Value() && z.u == upper.Value()
    && numerator.Value() + (10 * written) * z.s == z.v
    && (numerator.Value() + z.u < 10 * z.s || (numerator.Value() + z.u == 10 * z.s && !z.highClosed))
    && z.v > z.l
  }

  /** One round of the loop up to the decision: the digit and the outcome of the two tests. */
  method DigitAndTests(numerator: Bigint, denominator: Bigint, lower: Bigint, upper: Bigint, even: bool,
                       ghost z: Level, ghost en: nat, ghost written: nat)
    returns (digit: nat, low: bool, high: bool)
    requires Generating(numerator, denominator, lower, upper, z, written)
    requires z.highClosed == even && z.lowClosed == LowerEndTaken(en, lower.exp, even) && z.blind == Pow(B, en)
    requires en == Min(numerator.exp, denominator.exp)
    requires numerator.exp == en || (written == 0 && z.l >= z.blind)
    modifies numerator
    ensures Operands(numerator, denominator, lower, upper) && digit <= 9
    ensures Decided(numerator.Value(), z, 10 * written + digit, digit, low, high)
    ensures numerator.exp == if digit == 0 then old(numerator.exp) else en
  {
    ghost var w := numerator.Value();
    digit := NextDigit(numerator, denominator);
    DigitStep(z.v, w, written, digit, numerator.Value(), z.s);
    low, high := EndTests(numerator, denominator, lower, upper, even, z, en);
  }

  /** The remaining part of a round in which no test fired. */
  method NextPlace(numerator: Bigint, denominator: Bigint, lower: Bigint, upper: Bigint,
                   ghost ratio: Ratio, ghost n: nat, ghost t: nat, ghost digit: nat)
    requires Operands(numerator, denominator, lower, upper) && ratio.BarrenBefore(n)
    requires var z := ratio.At(n);
             && z.s == denominator.Value() && z.l == lower.Value() && z.u == upper.Value()
             && Decided(numerator.Value(), z, t, digit, false, false)
    modifies numerator`bigits, lower`bigits, upper`bigits
    ensures Generating(numerator, denominator, lower, upper, ratio.At(n + 1), t)
    ensures ratio.BarrenBefore(n + 1)
    ensures ratio.At(n).l < ratio.s + ratio.blind && ratio.At(n).l < ratio.At(n + 1).l
  {
    NextRound(ratio, n, t, numerator.Value());
    TimesTen(numerator, lower, upper);
  }

  /** The flags of a ratio as the tests decide them: en is the common bigit exponent. */
  ghost predicate Flagged(ratio: Ratio, en: nat, lowerExp: nat, even: bool)
  {
    ratio.highClosed == even && ratio.lowClosed == LowerEndTaken(en, lowerExp, even) && ratio.blind == Pow(B, en)
  }

  /** What the loop keeps. Before the numerator has been aligned all digits are zero. */
  ghost predicate Running(numerator: Bigint, denominator: Bigint, lower: Bigint, upper: Bigint,
                          ratio: Ratio, digits: seq<nat>, en: nat)
    reads numerator, denominator, lower, upper
  {
    && Generating(numerator, denominator, lower, upper, ratio.At(|digits|), Dec(digits))
    && AllDigits(digits) && ratio.BarrenBefore(|digits|)
    && en == Min(numerator.exp, denominator.exp)
    && (numerator.exp == en || (Dec(digits) == 0 && ratio.l >= ratio.blind))
  }

  lemma ScaledGrows(n: nat, x: nat)
    ensures Scaled(n, x) >= x
  {
    PowMonotone(10, 0, n);
    MulLe(1, Pow(10, n), x);
  }

  /** One round of the loop: the last digit, or one more and the next decimal place. */
  method OneRound(numerator: Bigint, denominator: Bigint, lower: Bigint, upper: Bigint, even: bool, digits: seq<nat>,
                  ghost ratio: Ratio, ghost en: nat)
    returns (done: bool, digits': seq<nat>)
    requires Running(numerator, denominator, lower, upper, ratio, digits, en)
    requires Flagged(ratio, en, lower.exp, even)
    modifies numerator, lower, upper
    ensures lower.exp == old(lower.exp)
    ensures done ==> ratio.Shortest(digits')
    ensures !done ==> Running(numerator, denominator, lower, upper, ratio, digits', en)
    ensures !done ==> |digits'| == |digits| + 1
    ensures !done ==> ratio.At(|digits|).l < ratio.s + ratio.blind && ratio.At(|digits|).l < ratio.At(|digits'|).l
  {
    hide Pow, Scaled, Decided, Level.Nearest, Level.Barren;
    ghost var z, t := ratio.At(|digits|), Dec(digits);
    ScaledGrows(|digits|, ratio.l);
    var digit, low, high := DigitAndTests(numerator, denominator, lower, upper, even, z, en, t);
    done := low || high;
    if done {
      digits' := LastDigit(numerator, denominator, digits, digit, low, high, z, 10 * t + digit);
    } else {
      NextPlace(numerator, denominator, lower, upper, ratio, |digits|, 10 * t + digit, digit);
      DecSnoc(digits, digit);
      digits' := digits + [digit];
    }
  }

  /** The loop of the shortest mode. lower and upper may be the same object. A numerator whose bigit exponent
      is above the denominator's may tie with it unnoticed, which costs nothing here as long as lower's
      exponent is not below the denominator's. */
  method GenerateShortest(numerator: Bigint, denominator: Bigint, lower: Bigint, upper: Bigint, even: bool)
    returns (digits: seq<nat>)
    requires Operands(numerator, denominator, lower, upper)
    requires numerator.Value() > lower.Value()
    requires numerator.Value() + upper.Value() < 10 * denominator.Value() ||
             (numerator.Value() + upper.Value() == 10 * denominator.Value() && !even)
    requires numerator.exp <= denominator.exp || denominator.exp <= lower.exp
    modifies numerator, lower, upper
    ensures var en := Min(old(numerator.exp), denominator.exp);
            Ratio(old(numerator.Value()), denominator.Value(), old(lower.Value()), old(upper.Value()),
                  LowerEndTaken(en, old(lower.exp), even), even, Pow(B, en)).Shortest(digits)
  {
    ghost var en := Min(numerator.exp, denominator.exp);
    ghost var ratio := Ratio(numerator.Value(), denominator.Value(), lower.Value(), upper.Value(),
                             LowerEndTaken(en, lower.exp, even), even, Pow(B, en));
    PowExpBound(denominator.bigits, denominator.exp, en);
    if numerator.exp > denominator.exp { PowExpBound(lower.bigits, lower.exp, en); }
    digits := [];
    assert Running(numerator, denominator, lower, upper, ratio, digits, en);
    hide Running, Pow, Scaled;
    var done := false;
    while !done
      invariant done ==> ratio.Shortest(digits)
      invariant !done ==> Running(numerator, denominator, lower, upper, ratio, digits, en)
      invariant lower.exp == old(lower.exp)
      decreases !done, ratio.s + ratio.blind - ratio.At(|digits|).l
    {
      done, digits := OneRound(numerator, denominator, lower, upper, even, digits, ratio, en);
    }
  }

  /** Neither test fired: this decimal place is barren, and the state moves to the next one. */
  lemma NextRound(ratio: Ratio, n: nat, t: nat, r: nat)
    requires var z := ratio.At(n);
             z.Valid() && z.v == t * z.s + r && r < z.s && !z.Low(r) && !z.High(r)
    requires ratio.BarrenBefore(n)
    ensures var z, z' := ratio.At(n), ratio.At(n + 1);
            && z.l < z.s + z.blind
            && z'.Valid() && z'.l == 10 * z.l && z'.u == 10 * z.u
            && 10 * r + (10 * t) * z.s == z'.v
            && (10 * r + z'.u < 10 * z.s || (10 * r + z'.u == 10 * z.s && !z.highClosed))
            && (z.v > z.l ==> z'.v > z'.l)
    ensures ratio.BarrenBefore(n + 1)
  {
    BothTestsFail(ratio.At(n), t, r);
    ScaledStep(n, ratio.r);
    ScaledStep(n, ratio.l);
    ScaledStep(n, ratio.u);
    MulAssoc(10, t, ratio.s);
  }
}
