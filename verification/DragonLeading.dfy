/** The first digit that `format_dragon` writes (fmt/format.h), after the exponent estimate and its fixup. */
module DragonLeading {
  import opened Powers
  import opened DecimalInterval
  import opened Dragon
  import opened DragonFixed
  import opened DecimalMeaning
  import opened FormatDragon
  import opened DragonEstimate
  import opened DragonTies

  /** The first of some digits is zero exactly if they denote less than a one in its place. */
  lemma {:induction false} FirstDigit(digits: seq<nat>)
    requires digits != [] && AllDigits(digits)
    ensures digits[0] == 0 <==> Dec(digits) < Pow(10, |digits| - 1)
  {
    var n := |digits| - 1;
    var init := digits[..n];
    if n > 0 {
      FirstDigit(init);
      assert Pow(10, n) == 10 * Pow(10, n - 1);
    }
  }

  /** f * 2^e is at least 10^x, ... */
  predicate Reaches(f: nat, e: int, x: int)
  {
    Unit(e, x) <= Product(4 * f, Quarter(e, x))
  }

  /** ... which shows at every lower place. */
  lemma ReachesBelow(f: nat, e: int, x: int, n: nat)
    ensures Reaches(f, e, x) <==> Product(Pow(10, n), Unit(e, x - n)) <= Product(4 * f, Quarter(e, x - n))
  {
    DecimalShift(e, x, n);
    hide Pow, Unit, Quarter;
    ReachesFactors(f, Unit(e, x), Quarter(e, x), Unit(e, x - n), Quarter(e, x - n), Pow(10, n));
  }

  lemma ReachesFactors(f: nat, u: nat, g: nat, u': nat, g': nat, p: nat)
    requires g > 0 && g' > 0 && u * g' == p * (g * u')
    ensures u <= (4 * f) * g <==> p * u' <= (4 * f) * g'
  {
    MulRotate(4 * f, g, g');
    MulRotate(p, g, u');
    MulRotate(p, u', g);
    MulCancel((4 * f) * g, u, g');
    MulCancel((4 * f) * g', p * u', g);
  }

  /** After the fixup the upper end of the interval reaches 10^x. */
  lemma FixupReaches(f: nat, e: int, x: int)
    requires f > 0 && EstimateNear(f, e, x)
    ensures !EstimateTooHigh(f, e, FixedExponent(f, e, true, x), f % 2 == 0)
  {
    if EstimateTooHigh(f, e, x, f % 2 == 0) {
      DecimalShift(e, x, 1);
      TenOnce();
      hide Pow, Unit, Quarter;
      NearFactors(f, Unit(e, x), Quarter(e, x), Unit(e, x - 1), Quarter(e, x - 1));
      MulDistributes(4 * f, 2, Quarter(e, x - 1));
    }
  }

  lemma NearFactors(f: nat, u: nat, g: nat, u': nat, g': nat)
    requires g > 0 && g' > 0 && u * g' == 10 * (g * u') && u <= 10 * ((4 * f) * g)
    ensures u' <= (4 * f) * g'
  {
    MulLe(u, 10 * ((4 * f) * g), g');
    MulRotate(4 * f, g, g');
    MulAssoc(10, (4 * f) * g, g');
    MulCancel((4 * f) * g', u', g);
  }

  /** Zero is in no rounding interval. */
  lemma ZeroOutside(f: nat, e: int, closer: bool, y: int, lowClosed: bool, highClosed: bool, unseen: bool)
    requires f > 0
    ensures !DecimalLevel(f, e, closer, y, lowClosed, highClosed, unseen).Contains(0)
  {
    MulLe(4, 4 * f, Quarter(e, y));
  }

  /** The shortest mode never writes a leading zero. */
  lemma ShortestLeads(digits: seq<nat>, y: int, f: nat, e: int, closer: bool, x: int, lowClosed: bool)
    requires f > 0 && (e >= 0 ==> x >= 0) && EstimateNear(f, e, x)
    requires ShortestDecimal(digits, y, f, e, closer, lowClosed, f % 2 == 0, HiddenPlaces(f, e, closer, true, x))
    requires y == FixedExponent(f, e, true, x) - (|digits| - 1)
    ensures digits != [] && digits[0] != 0
  {
    var x', n, d, even := FixedExponent(f, e, true, x), |digits| - 1, Dec(digits), f % 2 == 0;
    var hidden := HiddenPlaces(f, e, closer, true, x);
    var z := DecimalLevel(f, e, closer, y, lowClosed, even, y in hidden);
    assert z.Nearest(d);
    FirstDigit(digits);
    ZeroOutside(f, e, closer, y, lowClosed, even, y in hidden);
    if n > 0 && d < Pow(10, n) {
      FixupReaches(f, e, x);
      if Reaches(f, e, x') {
        ReachesBelow(f, e, x', n);
        PowerNearer(z, d, Pow(10, n));
      } else {
        var coarse := DecimalLevel(f, e, closer, x', lowClosed, even, x' in hidden);
        assert coarse.Barren();
        OneSeen(f, e, closer, x', lowClosed, x' in hidden);
      }
    }
  }

  /** A multiple between an element and the value is nearer. */
  lemma PowerNearer(z: Level, d: nat, p: nat)
    requires z.s > 0 && z.u > 0 && z.blind == 0 && z.Seen(d) && d < p && p * z.s <= z.v
    ensures !z.Nearest(d)
  {
    MulLt(d, p, z.s);
    assert z.Seen(p) && z.Distance(p) < z.Distance(d);
  }

  lemma OneSeen(f: nat, e: int, closer: bool, x: int, lowClosed: bool, unseen: bool)
    requires f > 0 && !Reaches(f, e, x) && !EstimateTooHigh(f, e, x, f % 2 == 0)
    ensures DecimalLevel(f, e, closer, x, lowClosed, f % 2 == 0, unseen).Seen(1)
  {
    MulDistributes(4 * f, 2, Quarter(e, x));
  }

  /** In the fixed mode f * 2^e lies more than half a unit of the last digit below 10^x, or just half a unit if it
      is the only digit. */
  predicate FallsShort(f: nat, e: int, x: int, m: int)
    requires m >= 1
  {
    var v, s := Product(4 * f, Quarter(e, x + 1 - m)), Unit(e, x + 1 - m);
    if m == 1 then 2 * v <= s else 2 * v + s < 2 * Product(Pow(10, m - 1), s)
  }

  /** The fixed mode writes a leading zero exactly if the value falls short of the power of ten that the fixup
      has left as its exponent. */
  lemma FixedLeads(digits: seq<nat>, y: int, f: nat, e: int, closer: bool, fixup: bool, fixed: bool, x: int, m: int)
    requires (e >= 0 ==> x >= 0) && m >= 1 && AllDigits(digits)
    requires FixedDecimal(digits, y, f, e, closer, fixup, fixed, x, m)
    ensures digits[0] == 0 <==> FallsShort(f, e, FixedExponent(f, e, fixup, x), m)
  {
    var place := FixedExponent(f, e, fixup, x) + 1 - m;
    var p := Scaled(y - place, Dec(digits));
    FirstDigit(digits);
    if m == 1 {
      RoundedToZero(p, Product(4 * f, Quarter(e, place)), Unit(e, place));
    } else {
      PowerEven(m - 1);
      RoundedBelow(p, Product(4 * f, Quarter(e, place)), Unit(e, place), Pow(10, m - 1));
    }
    Carried(digits, y - place, fixed, m);
  }

  /** That needs a value below 10^x whose interval reaches it. */
  lemma ShortIsBelow(f: nat, e: int, x: int, m: int)
    requires m >= 1 && FallsShort(f, e, x, m)
    ensures !Reaches(f, e, x)
  {
    ReachesBelow(f, e, x, m - 1);
    hide Unit, Quarter;
  }

  /** A single digit is never a zero after the fixup. */
  lemma OneDigitLeads(digits: seq<nat>, y: int, f: nat, e: int, closer: bool, fixed: bool, x: int)
    requires f > 0 && (e >= 0 ==> x >= 0) && EstimateNear(f, e, x)
    requires FixedDecimal(digits, y, f, e, closer, true, fixed, x, 1)
    ensures digits[0] != 0
  {
    FixupReaches(f, e, x);
    hide Unit, Quarter, Pow, EstimateNear;
    var x' := FixedExponent(f, e, true, x);
    assert AllDigits(digits);
    FixedLeads(digits, y, f, e, closer, true, fixed, x, 1);
    MoreThanHalf(4 * f, Quarter(e, x'), Unit(e, x'));
  }

  lemma MoreThanHalf(v: nat, g: nat, s: nat)
    requires v >= 4 && g > 0 && (v + 2) * g >= s
    ensures 2 * (v * g) > s
  {
    MulLe(4, v, g);
    MulDistributes(v, 2, g);
  }

  lemma RoundedToZero(p: nat, v: nat, s: nat)
    requires s > 0 && RoundedHalfEven(p, v, s)
    ensures p < 1 <==> 2 * v <= s
  {
    if p >= 1 { MulLe(1, p, s); }
    if p >= 2 { MulLe(2, p, s); }
  }

  /** Rounding half to even stays below an even number exactly more than a half below it. */
  lemma RoundedBelow(p: nat, v: nat, s: nat, t: nat)
    requires s > 0 && RoundedHalfEven(p, v, s) && t % 2 == 0
    ensures p < t <==> 2 * v + s < 2 * Product(t, s)
  {
    if p + 1 == t {
      MulDistributes(p, 1, s);
    } else if p < t {
      MulLe(p + 2, t, s);
      MulDistributes(p, 2, s);
    } else {
      MulLe(t, p, s);
    }
  }

  lemma PowerEven(m: nat)
    requires m >= 1
    ensures Pow(10, m) % 2 == 0
  {
    TenTimesEven(Pow(10, m - 1));
  }

  lemma TenTimesEven(a: nat)
    ensures (10 * a) % 2 == 0
  {
  }

  lemma Carried(digits: seq<nat>, bump: nat, fixed: bool, m: int)
    requires m >= 1 && CarriedOut(digits, bump, fixed, m)
    ensures Scaled(bump, Dec(digits)) < Pow(10, m - 1) <==> Dec(digits) < Pow(10, |digits| - 1)
  {
    assert Pow(10, m) == 10 * Pow(10, m - 1);
    ScaledStep(0, Dec(digits));
  }

  // The double below 10^23, 5960464477539062 * 2^24, asked for 17 digits: 10^23 itself is the upper end of its
  // interval, so the exponent stays 23.

  const SHORT_F: nat := 5960464477539062

  lemma ShortPowers()
    ensures Unit(24, 7) == 10000000 && Quarter(24, 7) == 4194304 && Unit(24, 23) == 100000000000000000000000
    ensures Quarter(24, 23) == 4194304 && Pow(10, 16) == 10000000000000000
  {
    assert Pow(2, 11) == 2048;
    PowAdd(2, 11, 11);
    assert Pow(10, 7) == 10000000 && Pow(10, 8) == 100000000;
    PowAdd(10, 8, 8);
    PowAdd(10, 16, 7);
  }

  /** A zero in front, where 9.9999999999999992e22 was asked for. */
  lemma LeadingZero(digits: seq<nat>, y: int)
    requires FixedDecimal(digits, y, SHORT_F, 24, false, true, false, 23, 17)
    ensures EstimatedAs(SHORT_F, 24, 53, 23) && EstimateHolds(SHORT_F, 24, 23, false) && EstimateNear(SHORT_F, 24, 23)
    ensures |digits| == 17 && digits[0] == 0
  {
    BinaryPowers();
    EstimatedOnce(SHORT_F, 24, 53, 23);
    hide EstimatedAs;
    ShortPowers();
    hide Pow, Unit, Quarter;
    assert FixedExponent(SHORT_F, 24, true, 23) == 23;
    assert FallsShort(SHORT_F, 24, 23, 17);
    assert EstimateHolds(SHORT_F, 24, 23, false);
    forall k: nat ensures !TieAt(k, SHORT_F, 24, false, true, 23) {
      TieFreeUpTo64Bits(k, SHORT_F, 24, false, true, 23);
    }
    assert AllDigits(digits);
    FixedLeads(digits, y, SHORT_F, 24, false, true, false, 23, 17);
  }
}
