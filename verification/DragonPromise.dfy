/** When the shortest mode of `format_dragon` prints what it promises: the nearest of the shortest decimals in
    the rounding interval of f * 2^e, closed at both ends exactly for even f. */
module DragonPromise {
  import opened Powers
  import opened DecimalInterval
  import opened Dragon
  import opened DecimalMeaning
  import opened FormatDragon

  /** The promise about the digits printed. */
  ghost predicate Promised(digits: seq<nat>, y: int, f: nat, e: int, closer: bool)
  {
    ShortestDecimal(digits, y, f, e, closer, f % 2 == 0, f % 2 == 0, {})
  }

  /** The rounding interval against the multiples of 10^k, with or without its lower end. */
  function Interval(f: nat, e: int, closer: bool, k: int, lowClosed: bool): (z: Level)
    ensures z.s > 0 && z.u > 0 && z.blind == 0 && (f > 0 ==> 0 < z.l < z.v)
    ensures z.lowClosed == lowClosed && z.highClosed == (f % 2 == 0)
  {
    IntervalShape(f, Quarter(e, k));
    DecimalLevel(f, e, closer, k, lowClosed, f % 2 == 0, false)
  }

  lemma IntervalShape(f: nat, g: nat)
    requires g > 0
    ensures f > 0 ==> 2 * g < (4 * f) * g
  {
    if f > 0 { MulLe(4, 4 * f, g); }
  }

  /** The lower end is q * 10^k. */
  predicate LowerEndIs(f: nat, e: int, closer: bool, k: int, q: nat)
  {
    var z := Interval(f, e, closer, k, false);
    q * z.s == z.v - z.l
  }

  /** No multiple of a power of ten above 10^k lies in the interval. */
  ghost predicate NoneCoarser(f: nat, e: int, closer: bool, k: int, lowClosed: bool)
  {
    forall y :: y > k ==> Interval(f, e, closer, y, lowClosed).Barren()
  }

  /** The lower end, though a decimal that wins over all others, is left out: every multiple of 10^k above it
      is farther from the value, or equally far and odd. */
  ghost predicate EndMissed(f: nat, e: int, closer: bool)
  {
    exists k: int, q: nat :: MissedDecimal(f, e, closer, k, q)
  }

  ghost predicate MissedDecimal(f: nat, e: int, closer: bool, k: int, q: nat)
  {
    var z := Interval(f, e, closer, k, false);
    && LowerEndIs(f, e, closer, k, q) && NoneCoarser(f, e, closer, k, false)
    && forall p: nat :: z.Contains(p) ==> z.Distance(p) > z.l || (z.Distance(p) == z.l && p % 2 == 1)
  }

  /** The lower end, though it does not belong to the interval, wins over all decimals in it. */
  ghost predicate EndTaken(f: nat, e: int, closer: bool)
  {
    exists k: int, q: nat :: TakenDecimal(f, e, closer, k, q)
  }

  ghost predicate TakenDecimal(f: nat, e: int, closer: bool, k: int, q: nat)
  {
    && LowerEndIs(f, e, closer, k, q) && NoneCoarser(f, e, closer, k, true)
    && Interval(f, e, closer, k, true).Nearest(q)
  }

  /** The value is a multiple of 10^x that goes unseen. */
  ghost predicate HiddenExact(f: nat, e: int, closer: bool, fixup: bool, x: int)
    requires e >= 0 ==> x >= 0
  {
    x in HiddenPlaces(f, e, closer, fixup, x) && exists d: nat :: ExactAt(f, e, x, d)
  }

  predicate ExactAt(f: nat, e: int, x: int, d: nat)
  {
    d * Unit(e, x) == (4 * f) * Quarter(e, x)
  }

  /** The condition, on the input alone. The bigit exponents decide which end is at risk. */
  ghost predicate EndsKept(f: nat, e: int, closer: bool, x: int)
    requires e >= 0 ==> x >= 0
  {
    && (CommonExp(e, closer, x) < LowerExp(e, x) && f % 2 == 0 ==> !EndMissed(f, e, closer))
    && (CommonExp(e, closer, x) > LowerExp(e, x) && f % 2 == 1 ==> !EndTaken(f, e, closer))
  }

  ghost predicate PromiseKept(f: nat, e: int, closer: bool, fixup: bool, x: int)
    requires e >= 0 ==> x >= 0
  {
    EndsKept(f, e, closer, x) && !HiddenExact(f, e, closer, fixup, x)
  }

  /** Closing the interval adds its end and nothing else. */
  lemma Closing(f: nat, e: int, closer: bool, k: int, p: nat)
    requires f > 0
    ensures var open, closed := Interval(f, e, closer, k, false), Interval(f, e, closer, k, true);
            && (closed.Seen(p) <==> open.Seen(p) || LowerEndIs(f, e, closer, k, p))
            && !(open.Seen(p) && LowerEndIs(f, e, closer, k, p))
            && open.Seen(p) == open.Contains(p) && closed.Distance(p) == open.Distance(p)
            && (LowerEndIs(f, e, closer, k, p) ==> open.Distance(p) == open.l)
  {
  }

  /** What was printed, said of the interval: the nearest multiple of 10^y, and none coarser. */
  ghost predicate Wins(d: nat, y: int, f: nat, e: int, closer: bool, lowClosed: bool)
  {
    Interval(f, e, closer, y, lowClosed).Nearest(d) && NoneCoarser(f, e, closer, y, lowClosed)
  }

  lemma WinsIs(digits: seq<nat>, y: int, f: nat, e: int, closer: bool, lowClosed: bool)
    ensures ShortestDecimal(digits, y, f, e, closer, lowClosed, f % 2 == 0, {}) <==>
            digits != [] && AllDigits(digits) && Wins(Dec(digits), y, f, e, closer, lowClosed)
  {
    hide Level.Nearest, Level.Barren, AllDigits;
    var none: set<int> := {};
    forall y'
      ensures DecimalLevel(f, e, closer, y', lowClosed, f % 2 == 0, y' in none) == Interval(f, e, closer, y', lowClosed)
    {
    }
    assert ShortestDecimal(digits, y, f, e, closer, lowClosed, f % 2 == 0, none) <==>
           digits != [] && AllDigits(digits) && Wins(Dec(digits), y, f, e, closer, lowClosed);
  }

  /** Without its lower end the interval has the same winner unless the end would have been it. */
  lemma MissedBreaks(d: nat, y: int, f: nat, e: int, closer: bool, k: int, q: nat)
    requires f > 0 && Wins(d, y, f, e, closer, false) && MissedDecimal(f, e, closer, k, q)
    ensures !Wins(d, y, f, e, closer, true)
  {
    hide Interval, LowerEndIs, Level.Seen, Level.Contains, Level.Distance;
    Closing(f, e, closer, k, q);
    Closing(f, e, closer, y, d);
  }

  /** An end that is a coarser decimal than the printed one is a missed one. */
  lemma MissedAbove(d: nat, y: int, f: nat, e: int, closer: bool, k: int, q: nat)
    requires f > 0 && Wins(d, y, f, e, closer, false) && k > y && LowerEndIs(f, e, closer, k, q)
    ensures MissedDecimal(f, e, closer, k, q)
  {
    hide Interval, LowerEndIs, Level.Seen, Level.Contains, Level.Distance;
    forall p: nat ensures !Interval(f, e, closer, k, false).Contains(p) {
      Closing(f, e, closer, k, p);
    }
  }

  /** An end that beats the printed decimal at its own place is a missed one. */
  lemma MissedBeside(d: nat, y: int, f: nat, e: int, closer: bool, q: nat)
    requires f > 0 && Wins(d, y, f, e, closer, false) && LowerEndIs(f, e, closer, y, q)
    requires var z := Interval(f, e, closer, y, false);
             !(z.Distance(d) < z.l || (z.Distance(d) == z.l && d % 2 == 0))
    ensures MissedDecimal(f, e, closer, y, q)
  {
    hide Interval, LowerEndIs, Level.Seen, Level.Contains, Level.Distance;
    var z := Interval(f, e, closer, y, false);
    forall p: nat | z.Contains(p) ensures z.Distance(p) > z.l || (z.Distance(p) == z.l && p % 2 == 1) {
      Closing(f, e, closer, y, p);
    }
  }

  lemma NotMissedKeeps(d: nat, y: int, f: nat, e: int, closer: bool)
    requires f > 0 && Wins(d, y, f, e, closer, false) && !EndMissed(f, e, closer)
    ensures Wins(d, y, f, e, closer, true)
  {
    hide Interval, LowerEndIs, MissedDecimal, Level.Seen, Level.Contains, Level.Distance;
    forall y', q: nat | y' > y ensures !Interval(f, e, closer, y', true).Seen(q) {
      Closing(f, e, closer, y', q);
      if LowerEndIs(f, e, closer, y', q) { MissedAbove(d, y, f, e, closer, y', q); }
    }
    Closing(f, e, closer, y, d);
    var open, closed := Interval(f, e, closer, y, false), Interval(f, e, closer, y, true);
    forall q: nat | closed.Seen(q) && q != d
      ensures closed.Distance(d) < closed.Distance(q) || (closed.Distance(d) == closed.Distance(q) && d % 2 == 0)
    {
      Closing(f, e, closer, y, q);
      if LowerEndIs(f, e, closer, y, q) && !(open.Distance(d) < open.l || (open.Distance(d) == open.l && d % 2 == 0)) {
        MissedBeside(d, y, f, e, closer, q);
      }
    }
  }

  /** A taken end is what is printed. */
  lemma TakenBreaks(d: nat, y: int, f: nat, e: int, closer: bool, k: int, q: nat)
    requires f > 0 && Wins(d, y, f, e, closer, true) && TakenDecimal(f, e, closer, k, q)
    ensures k == y && q == d && !Wins(d, y, f, e, closer, false)
  {
    hide Interval, LowerEndIs, Level.Seen, Level.Contains, Level.Distance;
    Closing(f, e, closer, y, d);
    assert Interval(f, e, closer, y, true).Seen(d) && Interval(f, e, closer, k, true).Seen(q);
    NearestUnique(Interval(f, e, closer, y, true), d, q);
  }

  lemma NotTakenKeeps(d: nat, y: int, f: nat, e: int, closer: bool)
    requires f > 0 && Wins(d, y, f, e, closer, true) && !EndTaken(f, e, closer)
    ensures Wins(d, y, f, e, closer, false)
  {
    hide Interval, LowerEndIs, Level.Seen, Level.Contains, Level.Distance;
    assert LowerEndIs(f, e, closer, y, d) ==> TakenDecimal(f, e, closer, y, d);
    forall y', q: nat
      ensures Interval(f, e, closer, y', false).Seen(q) ==> Interval(f, e, closer, y', true).Seen(q)
    {
      Closing(f, e, closer, y', q);
    }
    Closing(f, e, closer, y, d);
    forall q: nat ensures Interval(f, e, closer, y, false).Distance(q) == Interval(f, e, closer, y, true).Distance(q) {
      Closing(f, e, closer, y, q);
    }
  }

  /** By the estimate no multiple of a power of ten above 10^x lies in the interval. */
  lemma NoneAbove(f: nat, e: int, closer: bool, x: int, y: int, lowClosed: bool, q: nat)
    requires f > 0 && EstimateHolds(f, e, x, true) && y > x
    ensures !Interval(f, e, closer, y, lowClosed).Contains(q)
  {
    var fine := Interval(f, e, closer, x, lowClosed);
    CoarserContains(fine, Interval(f, e, closer, y, lowClosed), f, e, closer, x, y - x, lowClosed, f % 2 == 0, q);
    hide Pow, Quarter, Unit;
    TenfoldApart(fine, y - x, q) by { MulDistributes(4 * f, 2, Quarter(e, x)); }
  }

  lemma TenfoldApart(z: Level, m: nat, q: nat)
    requires z.s > 0 && z.v > z.l && z.v + z.u < 10 * z.s && m > 0
    ensures !z.Contains(Scaled(m, q))
  {
    if q > 0 {
      ScaledStep(m - 1, q);
      ScaledGrows(m - 1, q);
      MulLe(10, Scaled(m, q), z.s);
    }
  }

  /** The levels that the loop has searched, with the hidden place. */
  function Searched(f: nat, e: int, closer: bool, k: int, lowClosed: bool, hidden: set<int>): (z: Level)
  {
    DecimalLevel(f, e, closer, k, lowClosed, f % 2 == 0, k in hidden)
  }

  /** Hiding takes away an exact value and nothing else. */
  lemma Hiding(f: nat, e: int, closer: bool, k: int, lowClosed: bool, hidden: set<int>, q: nat)
    ensures var z, full := Searched(f, e, closer, k, lowClosed, hidden), Interval(f, e, closer, k, lowClosed);
            && z.Distance(q) == full.Distance(q) && (z.Seen(q) ==> full.Contains(q))
            && (z.Seen(q) <==> full.Seen(q) && !(k in hidden && ExactAt(f, e, k, q)))
  {
  }

  /** An exact value lies inside the interval and is the nearest to itself. */
  lemma ExactInside(f: nat, e: int, closer: bool, k: int, lowClosed: bool, d: nat, q: nat)
    requires f > 0 && ExactAt(f, e, k, d)
    ensures var z := Interval(f, e, closer, k, lowClosed);
            z.Seen(d) && z.Distance(d) == 0 && (z.Distance(q) == 0 ==> ExactAt(f, e, k, q))
  {
  }

  /** An exact value that goes unseen is not what is printed. */
  lemma HiddenBreaks(digits: seq<nat>, y: int, f: nat, e: int, closer: bool, x: int, lowClosed: bool, d: nat)
    requires f > 0 && EstimateHolds(f, e, x, true) && ExactAt(f, e, x, d)
    requires ShortestDecimal(digits, y, f, e, closer, lowClosed, f % 2 == 0, {x})
    ensures !Promised(digits, y, f, e, closer)
  {
    var p, even := Dec(digits), f % 2 == 0;
    assert Searched(f, e, closer, y, lowClosed, {x}).Nearest(p);
    hide Interval, Searched, ExactAt, Level.Seen, Level.Contains, Level.Distance, DecimalLevel,
         ShortestDecimal, EstimateHolds;
    Hiding(f, e, closer, y, lowClosed, {x}, p);
    ExactInside(f, e, closer, x, even, d, p);
    ExactInside(f, e, closer, x, lowClosed, d, p);
    WinsIs(digits, y, f, e, closer, even);
    SameDistance(f, e, closer, x, p);
    if y > x { NoneAbove(f, e, closer, x, y, lowClosed, p); }
  }

  /** With five units of the last place or more, the hidden value is printed all the same, with a zero behind. */
  lemma HiddenPrinted(digits: seq<nat>, y: int, f: nat, e: int, closer: bool, x: int, lowClosed: bool, d: nat)
    requires f >= 5 && EstimateHolds(f, e, x, true) && ExactAt(f, e, x, d)
    requires ShortestDecimal(digits, y, f, e, closer, lowClosed, f % 2 == 0, {x})
    ensures y == x - 1 && Dec(digits) == 10 * d
  {
    var p := Dec(digits);
    assert Searched(f, e, closer, y, lowClosed, {x}).Nearest(p);
    assert y < x - 1 ==> Searched(f, e, closer, x - 1, lowClosed, {x}).Barren();
    ExactBelow(f, e, x, d);
    OnlyExact(f, e, closer, x, lowClosed, d, p);
    hide Interval, Searched, ExactAt, DecimalLevel, EstimateHolds, ShortestDecimal,
         Level.Seen, Level.Contains, Level.Distance;
    Hiding(f, e, closer, y, lowClosed, {x}, p);
    Hiding(f, e, closer, x - 1, lowClosed, {x}, 10 * d);
    Hiding(f, e, closer, x - 1, lowClosed, {x}, p);
    ExactInside(f, e, closer, x - 1, lowClosed, 10 * d, p);
    if y > x { NoneAbove(f, e, closer, x, y, lowClosed, p); }
    if y == x - 1 { ExactOnce(f, e, y, p, 10 * d); }
  }

  lemma ExactBelow(f: nat, e: int, x: int, d: nat)
    requires ExactAt(f, e, x, d)
    ensures ExactAt(f, e, x - 1, 10 * d)
  {
    DecimalShift(e, x, 1);
    assert Pow(10, 1) == 10;
    hide Pow, Unit, Quarter;
    ExactFactors(d, Unit(e, x), Quarter(e, x), Unit(e, x - 1), Quarter(e, x - 1), 4 * f);
  }

  lemma ExactFactors(d: nat, u: nat, g: nat, u': nat, g': nat, v: nat)
    requires g > 0 && u * g' == 10 * (g * u') && d * u == v * g
    ensures (10 * d) * u' == v * g'
  {
    MulAssoc(d, u, g');
    MulRotate(v, g, g');
    MulRotate(d, 10, g * u');
    MulRotate(10 * d, g, u');
    MulCancel((10 * d) * u', v * g', g);
  }

  lemma OnlyExact(f: nat, e: int, closer: bool, x: int, lowClosed: bool, d: nat, p: nat)
    requires f >= 5 && EstimateHolds(f, e, x, true) && ExactAt(f, e, x, d)
    ensures Interval(f, e, closer, x, lowClosed).Contains(p) ==> p == d
  {
    var g, u := Quarter(e, x), Unit(e, x);
    hide Quarter, Unit;
    MulLe(22, 4 * f + 2, g);
    Multiples(p, d, u);
    Multiples(d, p, u);
  }

  lemma ExactOnce(f: nat, e: int, x: int, p: nat, d: nat)
    ensures ExactAt(f, e, x, p) && ExactAt(f, e, x, d) ==> p == d
  {
    MulCancel(p, d, Unit(e, x));
  }

  lemma SameDistance(f: nat, e: int, closer: bool, k: int, p: nat)
    ensures Interval(f, e, closer, k, false).Distance(p) == Interval(f, e, closer, k, true).Distance(p)
  {
  }

  /** A hidden place without an exact value hides nothing. */
  lemma HiddenHarmless(digits: seq<nat>, y: int, f: nat, e: int, closer: bool, lowClosed: bool, hidden: set<int>)
    requires ShortestDecimal(digits, y, f, e, closer, lowClosed, f % 2 == 0, hidden)
    requires forall k: int, d: nat :: k in hidden ==> !ExactAt(f, e, k, d)
    ensures ShortestDecimal(digits, y, f, e, closer, lowClosed, f % 2 == 0, {})
  {
    var p := Dec(digits);
    assert Searched(f, e, closer, y, lowClosed, hidden).Nearest(p);
    assert forall y' :: y' > y ==> Searched(f, e, closer, y', lowClosed, hidden).Barren();
    hide Interval, Searched, ExactAt, Level.Seen, Level.Contains, Level.Distance, DecimalLevel;
    forall k, q: nat
      ensures Interval(f, e, closer, k, lowClosed).Seen(q) == Searched(f, e, closer, k, lowClosed, hidden).Seen(q)
      ensures Interval(f, e, closer, k, lowClosed).Distance(q) ==
              Searched(f, e, closer, k, lowClosed, hidden).Distance(q)
    {
      Hiding(f, e, closer, k, lowClosed, hidden, q);
    }
    WinsIs(digits, y, f, e, closer, lowClosed);
  }

  /** For every output that `FormatDragon` may give in its shortest mode: it is the promised one exactly if the
      condition holds. */
  lemma PromiseKeptIff(digits: seq<nat>, y: int, f: nat, e: int, closer: bool, fixup: bool, x: int)
    requires f > 0 && (e >= 0 ==> x >= 0) && EstimateHolds(f, e, x, true)
    requires ShortestDecimal(digits, y, f, e, closer, LowerEndClosed(f, e, closer, x), f % 2 == 0,
                             HiddenPlaces(f, e, closer, fixup, x))
    ensures Promised(digits, y, f, e, closer) <==> PromiseKept(f, e, closer, fixup, x)
  {
    hide ShortestDecimal, EstimateHolds, NumeratorExp, DenominatorExp, LowerExp, ExactAt, EndMissed, EndTaken,
         Wins, FixedExponent;
    var low, even, hidden := LowerEndClosed(f, e, closer, x), f % 2 == 0, HiddenPlaces(f, e, closer, fixup, x);
    if HiddenExact(f, e, closer, fixup, x) {
      var d: nat :| ExactAt(f, e, x, d);
      assert hidden == {x};
      HiddenBreaks(digits, y, f, e, closer, x, low, d);
    } else {
      HiddenHarmless(digits, y, f, e, closer, low, hidden);
      WinsIs(digits, y, f, e, closer, low);
      WinsIs(digits, y, f, e, closer, even);
      if low != even { OtherEnd(Dec(digits), y, f, e, closer, low); }
    }
  }

  /** The wrong end: the winner stays exactly if the end is neither missed nor taken. */
  lemma OtherEnd(d: nat, y: int, f: nat, e: int, closer: bool, lowClosed: bool)
    requires f > 0 && Wins(d, y, f, e, closer, lowClosed)
    ensures Wins(d, y, f, e, closer, !lowClosed) <==>
            if lowClosed then !EndTaken(f, e, closer) else !EndMissed(f, e, closer)
  {
    hide Wins, MissedDecimal, TakenDecimal;
    if lowClosed {
      if EndTaken(f, e, closer) {
        var k, q :| TakenDecimal(f, e, closer, k, q);
        TakenBreaks(d, y, f, e, closer, k, q);
      } else {
        NotTakenKeeps(d, y, f, e, closer);
      }
    } else {
      if EndMissed(f, e, closer) {
        var k, q :| MissedDecimal(f, e, closer, k, q);
        MissedBreaks(d, y, f, e, closer, k, q);
      } else {
        NotMissedKeeps(d, y, f, e, closer);
      }
    }
  }
}
