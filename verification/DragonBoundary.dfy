/** Inputs on which the shortest mode of `format_dragon` does not print what it promises, each with the exponent
    that its caller estimates. */
module DragonBoundary {
  import opened Powers
  import opened DecimalInterval
  import opened Dragon
  import opened DecimalMeaning
  import opened FormatDragon
  import opened DragonPromise
  import opened DragonEstimate

  /** Values below one, and all others whose lower and numerator share a bigit exponent, keep the promise. */
  lemma AlignedKept(f: nat, e: int, closer: bool, fixup: bool, x: int)
    requires f > 0 && (e >= 0 ==> x >= 0) && EstimateHolds(f, e, x, false)
    requires e < 0 || CommonExp(e, closer, x) == e / 32
    ensures PromiseKept(f, e, closer, fixup, x)
  {
    if e < 0 { SmallAligned(f, e, closer, x); }
  }

  // The double 2^32 * 8344650268554688, about 3.584e25: its significand is even, and the lower end of its
  // interval is 3584 * 10^22.

  const BOUNDARY_F: nat := 8344650268554688

  lemma BoundaryPowers()
    ensures Pow(2, 30) == 1073741824 && Pow(10, 22) == 10000000000000000000000 && Pow(10, 26) == 10000 * Pow(10, 22)
    ensures Pow(2, 32) == 4294967296
  {
    assert Pow(2, 10) == 1024;
    PowMul(2, 10, 3);
    assert Pow(1024, 3) == 1024 * 1024 * 1024;
    PowAdd(2, 30, 2);
    assert Pow(2, 2) == 4;
    assert Pow(10, 11) == 100000000000;
    PowMul(10, 11, 2);
    assert Pow(100000000000, 2) == 100000000000 * 100000000000;
    PowAdd(10, 22, 4);
    assert Pow(10, 4) == 10000;
  }

  lemma BoundaryLevel(lowClosed: bool)
    ensures Interval(BOUNDARY_F, 32, false, 22, lowClosed) ==
            Level(4 * BOUNDARY_F * 1073741824, 10000000000000000000000, 2147483648, 2147483648, lowClosed, true, 0)
  {
    BoundaryPowers();
    assert Unit(32, 22) == Pow(10, 22) && Quarter(32, 22) == Pow(2, 30);
  }

  /** Without its lower end the interval holds no multiple of 10^22. */
  lemma BoundaryOpen(q: nat)
    ensures !Interval(BOUNDARY_F, 32, false, 22, false).Contains(q)
  {
    BoundaryLevel(false);
    hide Interval;
  }

  lemma BoundaryCoarser(y: int, q: nat)
    requires y > 22
    ensures !Interval(BOUNDARY_F, 32, false, y, false).Contains(q)
  {
    hide Quarter, Unit, Pow, Scaled, Level.Contains;
    var fine, coarse := Interval(BOUNDARY_F, 32, false, 22, false), Interval(BOUNDARY_F, 32, false, y, false);
    CoarserContains(fine, coarse, BOUNDARY_F, 32, false, 22, y - 22, false, true, q);
    BoundaryOpen(Scaled(y - 22, q));
  }

  /** The four-digit decimal 3584 * 10^22 is missed: whatever is printed is not what is promised. */
  lemma BoundaryMissed(digits: seq<nat>, y: int, fixup: bool)
    requires ShortestDecimal(digits, y, BOUNDARY_F, 32, false, LowerEndClosed(BOUNDARY_F, 32, false, 26), true,
                             HiddenPlaces(BOUNDARY_F, 32, false, fixup, 26))
    ensures EstimatedAs(BOUNDARY_F, 32, 53, 26) && EstimateHolds(BOUNDARY_F, 32, 26, true)
    ensures MissedDecimal(BOUNDARY_F, 32, false, 22, 3584) && !Promised(digits, y, BOUNDARY_F, 32, false)
  {
    BinaryPowers();
    EstimatedOnce(BOUNDARY_F, 32, 53, 26);
    BoundaryEstimate();
    BoundaryDecimal();
    hide MissedDecimal, ShortestDecimal, EstimateHolds, Promised, HiddenExact, EstimatedAs;
    PromiseKeptIff(digits, y, BOUNDARY_F, 32, false, fixup, 26);
  }

  lemma BoundaryDecimal()
    ensures MissedDecimal(BOUNDARY_F, 32, false, 22, 3584)
  {
    BoundaryLevel(false);
    assert LowerEndIs(BOUNDARY_F, 32, false, 22, 3584);
    hide Interval, LowerEndIs, Level.Contains, Level.Distance;
    forall k, q: nat | k >= 22 ensures !Interval(BOUNDARY_F, 32, false, k, false).Contains(q) {
      if k == 22 { BoundaryOpen(q); } else { BoundaryCoarser(k, q); }
    }
  }

  lemma BoundaryEstimate()
    ensures EstimateHolds(BOUNDARY_F, 32, 26, true)
  {
    BoundaryPowers();
    assert Unit(32, 26) == Pow(10, 26) && Quarter(32, 26) == Pow(2, 30);
  }

  // An odd significand of 113 bits, as binary128 has them, times 2^31. The lower end of its interval is
  // TAKEN_Q * 10^10.

  const TAKEN_F: nat := 5192296858534827628530496333007813
  const TAKEN_Q: nat := 1115037259926531157076785914445824

  lemma TakenPowers()
    ensures Pow(10, 10) == 10000000000 && Pow(10, 44) > 4 * TAKEN_F * 1073741824
    ensures Quarter(31, 10) == 536870912 && Unit(31, 10) == 10000000000
    ensures Quarter(31, 44) == 536870912 && Unit(31, 44) == Pow(10, 44)
  {
    SmallPowersOfTen();
    QuarterOf31();
    hide Pow;
    PowSum(10, 8, 2, 100000000, 100, 10000000000);
    PowSum(10, 8, 8, 100000000, 100000000, 10000000000000000);
    PowSum(10, 16, 16, 10000000000000000, 10000000000000000, 100000000000000000000000000000000);
    PowSum(10, 32, 10, 100000000000000000000000000000000, 10000000000, 1000000000000000000000000000000000000000000);
    PowSum(10, 42, 2, 1000000000000000000000000000000000000000000, 100, 100000000000000000000000000000000000000000000);
    UnitsAt31();
  }

  lemma SmallPowersOfTen()
    ensures Pow(10, 2) == 100 && Pow(10, 8) == 100000000
  {
  }

  lemma UnitsAt31()
    ensures Quarter(31, 10) == Pow(2, 29) && Unit(31, 10) == Pow(10, 10)
    ensures Quarter(31, 44) == Pow(2, 29) && Unit(31, 44) == Pow(10, 44)
    ensures Quarter(31, 32) == Pow(2, 29) && Unit(31, 32) == Pow(10, 32)
  {
    hide Pow;
  }

  lemma QuarterOf31()
    ensures Pow(2, 29) == 536870912
  {
    SmallPowersOfTwo();
    hide Pow;
    PowSum(2, 10, 10, 0x400, 0x400, 0x10_0000);
    PowSum(2, 20, 9, 0x10_0000, 0x200, 0x2000_0000);
  }

  lemma TakenLevel()
    ensures Interval(TAKEN_F, 31, false, 10, true) ==
            Level(4 * TAKEN_F * 536870912, 10000000000, 1073741824, 1073741824, true, false, 0)
  {
    TakenPowers();
    hide Quarter, Unit;
  }

  lemma TakenOnly(p: nat)
    ensures Interval(TAKEN_F, 31, false, 10, true).Contains(p) <==> p == TAKEN_Q
  {
    TakenLevel();
    hide Interval;
  }

  lemma TakenCoarser(y: int, q: nat)
    requires y > 10
    ensures !Interval(TAKEN_F, 31, false, y, true).Contains(q)
  {
    hide Quarter, Unit, Pow, Scaled, Level.Contains;
    var fine, coarse := Interval(TAKEN_F, 31, false, 10, true), Interval(TAKEN_F, 31, false, y, true);
    CoarserContains(fine, coarse, TAKEN_F, 31, false, 10, y - 10, true, false, q);
    hide Interval;
    TakenOnly(Scaled(y - 10, q));
    ScaledStep(y - 11, q);
  }

  lemma TakenHere()
    ensures TakenDecimal(TAKEN_F, 31, false, 10, TAKEN_Q)
  {
    TakenLevel();
    assert LowerEndIs(TAKEN_F, 31, false, 10, TAKEN_Q);
    hide Interval, LowerEndIs;
    forall k, q: nat | k > 10 ensures !Interval(TAKEN_F, 31, false, k, true).Contains(q) {
      TakenCoarser(k, q);
    }
    forall p: nat ensures Interval(TAKEN_F, 31, false, 10, true).Contains(p) <==> p == TAKEN_Q {
      TakenOnly(p);
    }
  }

  lemma TakenEstimate()
    ensures EstimateHolds(TAKEN_F, 31, 44, true)
  {
    TakenPowers();
    hide Quarter, Unit, Pow;
  }

  /** Its lower end, which does not belong to the interval, is printed. */
  lemma BoundaryTaken(digits: seq<nat>, y: int, fixup: bool)
    requires ShortestDecimal(digits, y, TAKEN_F, 31, false, LowerEndClosed(TAKEN_F, 31, false, 44), false,
                             HiddenPlaces(TAKEN_F, 31, false, fixup, 44))
    ensures EstimatedAs(TAKEN_F, 31, 113, 44) && EstimateHolds(TAKEN_F, 31, 44, true)
    ensures TakenDecimal(TAKEN_F, 31, false, 10, TAKEN_Q) && !Promised(digits, y, TAKEN_F, 31, false)
  {
    BinaryPowers();
    EstimatedOnce(TAKEN_F, 31, 113, 44);
    TakenEstimate();
    TakenHere();
    hide TakenDecimal, ShortestDecimal, EstimateHolds, Promised, HiddenExact, EstimatedAs;
    PromiseKeptIff(digits, y, TAKEN_F, 31, false, fixup, 44);
  }

  // 10^32 with a significand of 76 bits, which no supported type has.

  const HIDDEN_F: nat := 46566128730773925781250

  lemma HiddenPowers()
    ensures Quarter(31, 32) == 536870912 && Unit(31, 32) == 100000000000000000000000000000000
  {
    SmallPowersOfTen();
    QuarterOf31();
    hide Pow;
    PowSum(10, 8, 8, 100000000, 100000000, 10000000000000000);
    PowSum(10, 16, 16, 10000000000000000, 10000000000000000, 100000000000000000000000000000000);
    UnitsAt31();
  }

  lemma HiddenEstimate()
    ensures EstimateHolds(HIDDEN_F, 31, 32, true) && ExactAt(HIDDEN_F, 31, 32, 1)
    ensures !EstimateTooHigh(HIDDEN_F, 31, 32, true)
  {
    HiddenPowers();
    hide Quarter, Unit;
  }

  lemma HiddenThere(fixup: bool)
    ensures HiddenPlaces(HIDDEN_F, 31, false, fixup, 32) == {32} && LowerEndClosed(HIDDEN_F, 31, false, 32)
  {
    HiddenEstimate();
    hide EstimateTooHigh, Pow;
  }

  /** The exact one goes unseen, and ten is written a place further down. */
  lemma BoundaryHidden(digits: seq<nat>, y: int, fixup: bool)
    requires ShortestDecimal(digits, y, HIDDEN_F, 31, false, LowerEndClosed(HIDDEN_F, 31, false, 32), true,
                             HiddenPlaces(HIDDEN_F, 31, false, fixup, 32))
    ensures EstimatedAs(HIDDEN_F, 31, 76, 32) && EstimateHolds(HIDDEN_F, 31, 32, true)
    ensures HiddenExact(HIDDEN_F, 31, false, fixup, 32) && !Promised(digits, y, HIDDEN_F, 31, false)
    ensures y == 31 && Dec(digits) == 10
  {
    BinaryPowers();
    EstimatedOnce(HIDDEN_F, 31, 76, 32);
    HiddenEstimate();
    HiddenThere(fixup);
    hide EstimateHolds, EstimateTooHigh, ExactAt, ShortestDecimal, Promised, EstimatedAs, HiddenPlaces,
         LowerEndClosed;
    HiddenPrinted(digits, y, HIDDEN_F, 31, false, 32, true, 1);
    PromiseKeptIff(digits, y, HIDDEN_F, 31, false, fixup, 32);
  }
}
