/** Which significands meet the tie that the division of `format_dragon` misses, and what is then printed. */
module DragonTies {
  import opened Powers
  import opened Dragon
  import opened DecimalMeaning
  import opened FormatDragon
  import opened DragonEstimate

  /** A missed tie is an exact power of ten, with a binary exponent just below a multiple of 32. */
  lemma TieIsPower(k: nat, f: nat, e: int, closer: bool, fixup: bool, x: int)
    requires f > 0 && (e >= 0 ==> x >= 0) && EstimateHolds(f, e, x, false) && TieAt(k, f, e, closer, fixup, x)
    ensures var y := FixedExponent(f, e, fixup, x);
            e >= 30 && y >= 0 && (e + 2) / 32 > y / 32 && Scaled(k, Product(f, Pow(2, e))) == Pow(10, y)
  {
    TieExponents(k, f, e, closer, fixup, x);
    FourTimes(e - 2);
    var y := FixedExponent(f, e, fixup, x);
    UnitOf(e, y);
    hide Pow, Quarter, Unit, FixedExponent, EstimateHolds, TieAt, Scaled;
    ScaledGrows(k, Product(4 * f, Quarter(e, y)));
    PowerFactors(f, Pow(2, e - 2));
  }

  lemma TieExponents(k: nat, f: nat, e: int, closer: bool, fixup: bool, x: int)
    requires f > 0 && (e >= 0 ==> x >= 0) && EstimateHolds(f, e, x, false) && TieAt(k, f, e, closer, fixup, x)
    ensures var y := FixedExponent(f, e, fixup, x);
            e >= 30 && y >= -1 && (e + 2) / 32 > y / 32 && Scaled(k, Product(4 * f, Quarter(e, y))) == Unit(e, y)
  {
    hide Pow, Quarter, Unit, EstimateTooHigh, EstimateHolds, Scaled;
    if e < 0 { SmallAligned(f, e, closer, x); }
  }

  lemma PowerFactors(f: nat, two: nat)
    requires f > 0 && two > 0
    ensures Product(4 * f, two) == Product(f, 4 * two) && Product(4 * f, 10 * two) > 1
  {
    MulRotate(4, f, two);
    MulLe(4, 4 * f, 10 * two);
  }

  lemma UnitOf(e: int, y: int)
    requires e >= 2 && y >= -1
    ensures y >= 0 ==> Quarter(e, y) == Pow(2, e - 2) && Unit(e, y) == Pow(10, y)
    ensures y == -1 ==> Quarter(e, y) == 10 * Pow(2, e - 2) && Unit(e, y) == 1
  {
    assert Pow(10, 1) == 10 && Pow(10, 0) == 1 && Pow(2, 0) == 1;
    hide Pow;
  }

  lemma {:induction false} PowFiveOdd(n: nat)
    ensures Pow(5, n) % 2 == 1
  {
    if n > 0 { PowFiveOdd(n - 1); }
  }

  /** Significands of up to 64 bits (float, double and x87 long double) never meet it. */
  lemma TieFreeUpTo64Bits(k: nat, f: nat, e: int, closer: bool, fixup: bool, x: int)
    requires 0 < f < 0x1_0000_0000_0000_0000 && (e >= 0 ==> x >= 0) && EstimateHolds(f, e, x, false)
    ensures !TieAt(k, f, e, closer, fixup, x)
  {
    hide EstimateHolds, TieAt, FixedExponent;
    if TieAt(k, f, e, closer, fixup, x) {
      TieIsPower(k, f, e, closer, fixup, x);
      PowerOfTenIsLong(k, f, e, FixedExponent(f, e, fixup, x));
    }
  }

  /** f * 2^e can be a power of ten only with e at most its exponent and f at least that power of five. */
  lemma ExactPowerOfTen(f: nat, e: nat, j: nat)
    requires Product(f, Pow(2, e)) == Pow(10, j)
    ensures e <= j && f >= Pow(5, j)
  {
    PowDistributes(2, 5, j);
    if e > j {
      PowFiveOdd(j);
      PowAdd(2, e - j, j);
      EvenIsNotOdd(f, Pow(2, e - j - 1), Pow(2, j), Pow(5, j));
    } else {
      PowMonotone(2, e, j);
      LongFactor(f, Pow(2, e), Pow(2, j), Pow(5, j));
    }
  }

  lemma EvenIsNotOdd(f: nat, a: nat, b: nat, c: nat)
    requires b > 0 && f * ((2 * a) * b) == b * c
    ensures c % 2 == 0
  {
    assert f * ((2 * a) * b) == (2 * (f * a)) * b;
    MulCancel(2 * (f * a), c, b);
  }

  lemma PowerOfTenIsLong(k: nat, f: nat, e: nat, x: nat)
    requires f > 0 && Scaled(k, Product(f, Pow(2, e))) == Pow(10, x)
    ensures e <= x && (e >= 30 ==> f >= 0x1_0000_0000_0000_0000)
  {
    hide Pow, Scaled;
    Descaled(k, Product(f, Pow(2, e)), x);
    ExactPowerOfTen(f, e, x - k);
    if e >= 30 {
      PowMonotone(5, 30, x - k);
      PowerOfFive30();
    }
  }

  lemma Descaled(k: nat, v: nat, x: nat)
    requires v > 0 && Scaled(k, v) == Pow(10, x)
    ensures k <= x && v == Pow(10, x - k)
  {
    hide Pow;
    if k > x {
      PowStrict(10, x, k);
      MulLe(1, v, Pow(10, k));
    }
    PowAdd(10, k, x - k);
    MulCancel(v, Pow(10, x - k), Pow(10, k));
  }

  lemma LongFactor(f: nat, a: nat, b: nat, c: nat)
    requires f * a == b * c && 0 < a <= b
    ensures f >= c
  {
    MulLe(a, b, c);
    if f < c { MulLt(f, c, a); }
  }

  lemma PowerOfFive30()
    ensures Pow(5, 30) >= 0x1_0000_0000_0000_0000
  {
    assert Pow(5, 10) == 9765625;
    PowMul(5, 10, 3);
    assert Pow(9765625, 3) == 9765625 * 9765625 * 9765625;
  }

  /** ... and neither do significands of 75 bits and more, such as normalised ones of 113. */
  lemma TieFreeFrom75Bits(k: nat, f: nat, e: int, closer: bool, fixup: bool, x: int)
    requires TWO74 <= f < TWO128 && (e >= 0 ==> x >= 0) && EstimateHolds(f, e, x, false)
    ensures !TieAt(k, f, e, closer, fixup, x)
  {
    hide EstimateHolds, TieAt, FixedExponent;
    if TieAt(k, f, e, closer, fixup, x) {
      TieIsPower(k, f, e, closer, fixup, x);
      NoLongTie(k, f, e, FixedExponent(f, e, fixup, x));
    }
  }

  const TWO74: nat := 0x400_0000_0000_0000_0000
  const TWO128: nat := 0x1_0000_0000_0000_0000_0000_0000_0000_0000

  lemma NoLongTie(k: nat, f: nat, e: nat, x: nat)
    requires TWO74 <= f < TWO128 && (e + 2) / 32 > x / 32
    ensures Scaled(k, Product(f, Pow(2, e))) != Pow(10, x)
  {
    hide Pow;
    if Scaled(k, Product(f, Pow(2, e))) == Pow(10, x) {
      Descaled(k, Product(f, Pow(2, e)), x);
      var j := x - k;
      ExactPowerOfTen(f, e, j);
      if j <= 31 {
        PowMonotone(10, j, 31);
        PowMonotone(2, 30, e);
        MulLe(Pow(2, 30), Pow(2, e), f);
        MulLe(TWO74, f, Pow(2, 30));
        SmallPowers();
      } else {
        PowMonotone(5, 62, j);
        LargePower();
      }
    }
  }

  lemma SmallPowers()
    ensures Pow(2, 30) == 1073741824 && Pow(10, 31) < TWO74 * 1073741824
  {
    assert Pow(2, 10) == 1024;
    PowMul(2, 10, 3);
    assert Pow(1024, 3) == 1024 * 1024 * 1024;
    assert Pow(10, 10) == 10000000000;
    PowAdd(10, 10, 10);
    PowAdd(10, 20, 10);
    PowAdd(10, 30, 1);
    assert Pow(10, 1) == 10;
  }

  lemma LargePower()
    ensures Pow(5, 62) >= TWO128
  {
    PowerOfFive30();
    PowAdd(5, 30, 32);
    PowMonotone(5, 30, 32);
    MulLe(0x1_0000_0000_0000_0000, Pow(5, 30), Pow(5, 32));
    MulLe(0x1_0000_0000_0000_0000, Pow(5, 32), 0x1_0000_0000_0000_0000);
  }

  /** Between them there is one, 10^31 as 5^31 * 2^31: asked for two digits or more, the code prints a zero and
      the character after the nine. */
  lemma TiePrinted(digits: seq<nat>, y: int, fixup: bool, fixed: bool, m: int)
    requires m >= 2 && FixedDecimal(digits, y, Pow(5, 31), 31, false, fixup, fixed, 31, m)
    ensures EstimatedAs(Pow(5, 31), 31, 72, 31) && EstimateHolds(Pow(5, 31), 31, 31, false)
    ensures |digits| == m && digits[1] == 10 && !AllDigits(digits)
  {
    hide TieAt, Pow, EstimateHolds, RoundedDecimal, EstimatedAs;
    TieBits();
    EstimatedOnce(Pow(5, 31), 31, 72, 31);
    TieExists(fixup);
    assert TieAt(0, Pow(5, 31), 31, false, fixup, 31);
  }

  lemma TieBits()
    ensures Pow(2, 71) <= Pow(5, 31) < Pow(2, 72)
  {
    BinaryPowers();
    assert Pow(5, 1) == 5 && Pow(5, 10) == 9765625 && Pow(2, 4) == 16 && Pow(2, 3) == 8;
    hide Pow;
    PowSum(5, 10, 10, 9765625, 9765625, 95367431640625);
    PowSum(5, 20, 10, 95367431640625, 9765625, 931322574615478515625);
    PowSum(5, 30, 1, 931322574615478515625, 5, 4656612873077392578125);
    PowAdd(2, 71, 4);
    PowAdd(2, 72, 3);
  }

  lemma TieExists(fixup: bool)
    ensures EstimateHolds(Pow(5, 31), 31, 31, false) && TieAt(0, Pow(5, 31), 31, false, fixup, 31)
  {
    hide Pow, Quarter, Unit, EstimateHolds, TieAt;
    UnitOf(31, 31);
    FourTimes(29);
    PowDistributes(5, 2, 31);
    TieFactors31(Pow(5, 31), Pow(2, 29), Pow(10, 31));
    TieThere(Pow(5, 31), fixup);
  }

  lemma TieFactors31(five: nat, two: nat, ten: nat)
    requires ten == five * (4 * two) && ten > 0 && two > 0
    ensures Product(4 * five, two) == ten && (4 * five + 2) * two > ten
  {
    MulRotate(4, five, two);
    MulDistributes(4 * five, 2, two);
  }

  lemma TieThere(f: nat, fixup: bool)
    requires Product(4 * f, Quarter(31, 31)) == Unit(31, 31) && (4 * f + 2) * Quarter(31, 31) > Unit(31, 31)
    ensures EstimateHolds(f, 31, 31, false) && TieAt(0, f, 31, false, fixup, 31)
  {
    hide Quarter, Unit;
  }
}
