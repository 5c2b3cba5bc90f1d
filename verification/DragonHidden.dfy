/** Which numbers can meet an exact value that the shortest mode of `format_dragon` does not see (fmt/format.h):
    none of a supported type. */
module DragonHidden {
  import opened Powers
  import opened DecimalMeaning
  import opened FormatDragon
  import opened DragonEstimate
  import opened DragonPromise

  /** The common exponent gets above lower's only near the end of a bigit. */
  lemma ExponentsApart(e: int, closer: bool, x: int)
    requires (e >= 0 ==> x >= 0) && CommonExp(e, closer, x) > LowerExp(e, x)
    ensures e >= 0 && e % 32 >= (if closer then 30 else 31) && x >= 32 * (e / 32) + 32
  {
  }

  /** A value below 10^x together with half its gap: the fixup lowers the exponent. */
  lemma LoweredBelow(f: nat, bits: nat, e: int, x: int)
    requires f < Pow(2, bits) && e >= 2 && x >= 1 && 4004 * (bits + e) <= 13301 * x
    ensures FixedExponent(f, e, true, x) == x - 1
  {
    hide Pow, Quarter, Unit, FixedExponent;
    UpperFraction(13301, 4004);
    Crossed(2, 13301, 10, 4004, bits + e, x);
    PowAdd(2, bits + 2, e - 2);
    FourTimesPower(bits);
    UnitsOf(e, x);
    MulLt(4 * f + 2, 4 * Pow(2, bits), Pow(2, e - 2));
    Lowered(f, e, x);
  }

  lemma Lowered(f: nat, e: int, x: int)
    requires (4 * f + 2) * Quarter(e, x) < Unit(e, x)
    ensures FixedExponent(f, e, true, x) == x - 1
  {
    hide Quarter, Unit;
  }

  lemma UnitsOf(e: int, x: int)
    requires e >= 2 && x >= 1
    ensures Quarter(e, x) == Pow(2, e - 2) && Unit(e, x) == Pow(10, x)
  {
  }

  /** Up to 75 bits nothing is hidden, whatever the estimate. */
  lemma ShortNotHidden(f: nat, e: int, closer: bool, x: int)
    requires f < Pow(2, 75) && (e >= 0 ==> x >= 0)
    ensures HiddenPlaces(f, e, closer, true, x) == {}
  {
    hide Pow, FixedExponent, CommonExp, LowerExp;
    if CommonExp(e, closer, x) > LowerExp(e, x) {
      ExponentsApart(e, closer, x);
      LoweredBelow(f, 75, e, x);
    }
  }

  lemma HiddenIsLong(f: nat, e: int, closer: bool, x: int)
    requires (e >= 0 ==> x >= 0) && HiddenPlaces(f, e, closer, true, x) != {}
    ensures f >= Pow(2, 75) > 5
  {
    hide Pow, HiddenPlaces;
    if f < Pow(2, 75) { ShortNotHidden(f, e, closer, x); }
    PowMonotone(2, 3, 75);
    assert Pow(2, 3) == 8 by { Eight(); }
  }

  lemma Eight()
    ensures Pow(2, 3) == 8
  {
  }

  /** Nor for a power of two at the exponent 30. */
  lemma LoweredAt30(f: nat, x: int)
    requires f == Pow(2, 112) && x == 43
    ensures FixedExponent(f, 30, true, x) == x - 1
  {
    hide Pow, Quarter, Unit, FixedExponent;
    UpperFraction(13301, 4004);
    Crossed(2, 13301, 10, 4004, 139, 42);
    PowAdd(2, 112, 27);
    PowAdd(10, 42, 1);
    TenOnce();
    UnitsOf(30, x);
    PowersOfTwo();
    MulLt(4 * f + 2, 5 * f, 268435456);
    Lowered(f, 30, x);
  }

  lemma PowersOfTwo()
    ensures Pow(2, 27) == 134217728 && Pow(2, 28) == 268435456 && Pow(2, 112) > 2
  {
    assert Pow(2, 7) == 128 && Pow(2, 10) == 1024;
    PowAdd(2, 10, 10);
    PowAdd(2, 20, 7);
    PowAdd(2, 27, 1);
    PowMonotone(2, 2, 112);
  }

  /** With the caller's estimate nothing is hidden for up to 75 bits, for 113, or below one: float, double, x87 long
      double and binary128. The predecessor is closer only for a power of two. */
  lemma NeverHidden(f: nat, e: int, bits: nat, closer: bool, r: real)
    requires bits > 0 && Pow(2, bits - 1) <= f < Pow(2, bits) && (closer ==> f == Pow(2, bits - 1))
    requires Evaluated(r, e + bits - 1) && (bits <= 75 || bits == 113 || e < 0)
    ensures var x := Estimate(r);
            (e >= 0 ==> x >= 0) && HiddenPlaces(f, e, closer, true, x) == {} && !HiddenExact(f, e, closer, true, x)
  {
    hide Pow, Estimate, Evaluated, FixedExponent, CommonExp, LowerExp;
    EstimateIs(r, e + bits - 1);
    var x := Estimate(r);
    if CommonExp(e, closer, x) > LowerExp(e, x) {
      ExponentsApart(e, closer, x);
      if bits == 113 && e == 30 {
        LoweredAt30(f, x);
      } else {
        LoweredBelow(f, bits, e, x);
      }
    }
  }

  /** Up to 64 bits the excluded lower end is never taken either: the common exponent does not get above lower's. */
  lemma NeverTaken(f: nat, e: int, bits: nat, closer: bool, r: real)
    requires 0 < bits <= 64 && Pow(2, bits - 1) <= f < Pow(2, bits) && Evaluated(r, e + bits - 1)
    ensures var x := Estimate(r);
            && (e >= 0 ==> x >= 0) && CommonExp(e, closer, x) <= LowerExp(e, x)
            && (EndsKept(f, e, closer, x) <==>
                (CommonExp(e, closer, x) < LowerExp(e, x) && f % 2 == 0 ==> !EndMissed(f, e, closer)))
  {
    hide Pow, Estimate, Evaluated, CommonExp, LowerExp, EndMissed, EndTaken;
    EstimateIs(r, e + bits - 1);
    var x := Estimate(r);
    if CommonExp(e, closer, x) > LowerExp(e, x) { ExponentsApart(e, closer, x); }
  }
}
