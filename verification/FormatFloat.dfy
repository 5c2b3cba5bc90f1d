/** The part of `format_float` around `format_dragon` (fmt/format.h): the exponent estimate before it and the removal
    of trailing zeros after it. */
module FormatFloat {
  import opened Powers
  import opened DecimalInterval
  import opened Dragon
  import opened DecimalMeaning
  import opened FormatDragon
  import opened DragonEstimate
  import opened DragonLeading
  import opened DragonPromise
  import opened DragonHidden

  function BitLength(n: nat): nat
  {
    if n < 2 then 1 else 1 + BitLength(n / 2)
  }

  lemma {:induction false} BitLengthIs(n: nat)
    requires n > 0
    ensures BitLength(n) > 0 && Pow(2, BitLength(n) - 1) <= n < Pow(2, BitLength(n))
  {
    if n >= 2 { BitLengthIs(n / 2); }
  }

  /** `count_digits<1>`. */
  method CountBits(n: nat) returns (bits: nat)
    ensures bits == BitLength(n)
  {
    var m: nat := n / 2;
    bits := 1;
    while m != 0
      invariant BitLength(n) == if m == 0 then bits else bits + BitLength(m)
      decreases m
    {
      bits := bits + 1;
      m := m / 2;
    }
  }

  /** The digits without their trailing zeros, at the place of the last that is left. */
  predicate Trimmed(digits: seq<nat>, y: int, raw: seq<nat>, y0: int)
  {
    && digits <= raw && y == y0 + |raw| - |digits|
    && (forall i :: |digits| <= i < |raw| ==> raw[i] == 0) && (digits == [] || digits[|digits| - 1] != 0)
  }

  method Trim(raw: seq<nat>, y0: int) returns (digits: seq<nat>, y: int)
    ensures Trimmed(digits, y, raw, y0)
  {
    var n: nat := |raw|;
    y := y0;
    while n > 0 && raw[n - 1] == 0
      invariant n <= |raw| && y == y0 + |raw| - n && forall i :: n <= i < |raw| ==> raw[i] == 0
    {
      n := n - 1;
      y := y + 1;
    }
    digits := raw[..n];
  }

  /** Trimming does not change the number. */
  lemma {:induction false} TrimmedValue(digits: seq<nat>, y: int, raw: seq<nat>, y0: int)
    requires Trimmed(digits, y, raw, y0)
    ensures y0 <= y && Dec(raw) == Scaled(y - y0, Dec(digits))
    decreases |raw|
  {
    if |digits| == |raw| {
      assert digits == raw;
    } else {
      var init := raw[..|raw| - 1];
      TrimmedValue(digits, y, init, y0 + 1);
      ScaledStep(y - y0 - 1, Dec(digits));
    }
  }

  lemma TenfoldSeen(q: nat, y: int, f: nat, e: int, closer: bool, lowClosed: bool)
    requires f > 0
    ensures Interval(f, e, closer, y, lowClosed).Seen(10 * q) ==> Interval(f, e, closer, y + 1, lowClosed).Seen(q)
  {
    var fine, coarse := Interval(f, e, closer, y, lowClosed), Interval(f, e, closer, y + 1, lowClosed);
    CoarserContains(fine, coarse, f, e, closer, y, 1, lowClosed, f % 2 == 0, q);
    ScaledStep(0, q);
    hide Interval, Scaled, Level.Contains;
  }

  /** A winner does not end in a zero: a coarser place would have had it. */
  lemma WinnerUntrimmed(d: nat, y: int, f: nat, e: int, closer: bool, lowClosed: bool)
    requires f > 0 && Wins(d, y, f, e, closer, lowClosed)
    ensures d % 10 != 0
  {
    hide Interval, Level.Seen;
    if d % 10 == 0 {
      TenfoldSeen(d / 10, y, f, e, closer, lowClosed);
    }
  }

  lemma LastDigitOf(raw: seq<nat>)
    requires raw != [] && AllDigits(raw)
    ensures Dec(raw) % 10 == raw[|raw| - 1]
  {
  }

  /** The hidden exact value comes out right after all: the zero behind it is trimmed. */
  lemma HiddenTrimmed(digits: seq<nat>, y: int, raw: seq<nat>, y0: int, f: nat, e: int, closer: bool, x: int,
                      lowClosed: bool, d: nat)
    requires f >= 5 && EstimateHolds(f, e, x, true) && ExactAt(f, e, x, d)
    requires ShortestDecimal(raw, y0, f, e, closer, lowClosed, f % 2 == 0, {x}) && y0 == x - (|raw| - 1)
    requires Trimmed(digits, y, raw, y0)
    ensures Promised(digits, y, f, e, closer)
  {
    HiddenPrinted(raw, y0, f, e, closer, x, lowClosed, d);
    assert AllDigits(raw);
    ExactWins(f, e, closer, x, d);
    hide ShortestDecimal, Wins, EstimateHolds, ExactAt;
    TwoDigits(raw, d);
    WinnerUntrimmed(d, x, f, e, closer, f % 2 == 0);
    assert digits == [d] && y == x;
    WinsIs(digits, y, f, e, closer, f % 2 == 0);
    DecSnoc([], d);
    assert [] + [d] == [d];
  }

  lemma TwoDigits(raw: seq<nat>, d: nat)
    requires |raw| == 2 && AllDigits(raw) && Dec(raw) == 10 * d
    ensures raw == [d, 0]
  {
    assert raw[..1][..0] == [];
    assert Dec(raw[..1]) == raw[0];
  }

  /** An exact value at the place of the estimate is the promised one, whatever the lower end. */
  lemma ExactWins(f: nat, e: int, closer: bool, x: int, d: nat)
    requires f > 0 && EstimateHolds(f, e, x, true) && ExactAt(f, e, x, d)
    ensures Wins(d, x, f, e, closer, f % 2 == 0) && Wins(d, x, f, e, closer, true)
  {
    hide EstimateHolds, Interval, ExactAt, Level.Seen, Level.Contains, Level.Distance;
    forall low: bool ensures Wins(d, x, f, e, closer, low) {
      forall q: nat ensures q != d ==> Interval(f, e, closer, x, low).Distance(q) > 0 {
        ExactInside(f, e, closer, x, low, d, q);
        ExactOnce(f, e, x, q, d);
      }
      ExactInside(f, e, closer, x, low, d, d);
      forall y, q: nat | y > x ensures !Interval(f, e, closer, y, low).Seen(q) {
        NoneAbove(f, e, closer, x, y, low, q);
        SeenContained(Interval(f, e, closer, y, low), q);
      }
    }
  }

  lemma SeenContained(z: Level, q: nat)
    ensures z.Seen(q) ==> z.Contains(q)
  {
  }

  /** Then no end is taken in its stead. */
  lemma ExactNotTaken(f: nat, e: int, closer: bool, x: int, d: nat)
    requires f > 0 && EstimateHolds(f, e, x, true) && ExactAt(f, e, x, d)
    ensures !EndTaken(f, e, closer)
  {
    ExactWins(f, e, closer, x, d);
    ExactInside(f, e, closer, x, false, d, d);
    Closing(f, e, closer, x, d);
    hide EstimateHolds, ExactAt, Interval, Wins, TakenDecimal;
    if EndTaken(f, e, closer) {
      var k, q :| TakenDecimal(f, e, closer, k, q);
      TakenBreaks(d, x, f, e, closer, k, q);
      TakenEnd(f, e, closer, k, q);
    }
  }

  lemma TakenEnd(f: nat, e: int, closer: bool, k: int, q: nat)
    requires TakenDecimal(f, e, closer, k, q)
    ensures LowerEndIs(f, e, closer, k, q)
  {
  }

  /** What is left after trimming is the promised decimal exactly if the lower end is neither missed nor taken. */
  lemma TrimmedPromise(digits: seq<nat>, y: int, raw: seq<nat>, y0: int, f: nat, e: int, closer: bool, x: int)
    requires f > 0 && (e >= 0 ==> x >= 0) && EstimateHolds(f, e, x, true)
    requires ShortestDecimal(raw, y0, f, e, closer, LowerEndClosed(f, e, closer, x), f % 2 == 0,
                             HiddenPlaces(f, e, closer, true, x))
    requires y0 == FixedExponent(f, e, true, x) - (|raw| - 1) && Trimmed(digits, y, raw, y0)
    ensures Promised(digits, y, f, e, closer) <==> EndsKept(f, e, closer, x)
  {
    var low, hidden := LowerEndClosed(f, e, closer, x), HiddenPlaces(f, e, closer, true, x);
    if HiddenExact(f, e, closer, true, x) {
      var d: nat :| ExactAt(f, e, x, d);
      assert hidden == {x} && FixedExponent(f, e, true, x) == x;
      HiddenIsLong(f, e, closer, x);
      hide ShortestDecimal, ExactAt, EstimateHolds, EndTaken, EndMissed, Promised, Trimmed;
      HiddenTrimmed(digits, y, raw, y0, f, e, closer, x, low, d);
      ExactNotTaken(f, e, closer, x, d);
    } else {
      PromiseKeptIff(raw, y0, f, e, closer, true, x);
      assert raw != [] && AllDigits(raw);
      hide ShortestDecimal, ExactAt, EstimateHolds, EndTaken, EndMissed, Promised, Wins;
      HiddenHarmless(raw, y0, f, e, closer, low, hidden);
      WinsIs(raw, y0, f, e, closer, low);
      WinnerUntrimmed(Dec(raw), y0, f, e, closer, low);
      LastDigitOf(raw);
      assert digits == raw;
    }
  }

  /** The digits before trimming. */
  ghost predicate Raw(raw: seq<nat>, y0: int, f: nat, e: int, closer: bool, fixed: bool, precision: int, x: int)
    requires e >= 0 ==> x >= 0
  {
    if precision < 0 then
      && ShortestDecimal(raw, y0, f, e, closer, LowerEndClosed(f, e, closer, x), f % 2 == 0,
                         HiddenPlaces(f, e, closer, true, x))
      && y0 == FixedExponent(f, e, true, x) - (|raw| - 1) && raw[0] != 0
    else
      FixedDecimal(raw, y0, f, e, closer, true, fixed, x, DigitsAsked(f, e, true, fixed, Limited(precision), x))
  }

  /** The precision is cut at the number of digits that a double can have. */
  function Limited(precision: int): int
  {
    if precision > 767 then 767 else precision
  }

  lemma ExponentBound(f: nat, e: int, x: int)
    ensures x - 1 <= FixedExponent(f, e, true, x) <= x
  {
    hide EstimateTooHigh;
  }

  /** The path of numbers without a fast algorithm; r is what the estimate's expression evaluates to. It never
      fails. In the shortest form there is no leading zero, and what is printed is the promised decimal exactly
      if the lower end is neither missed nor taken. */
  method FormatFloat(f: nat, e: int, closer: bool, fixed: bool, alt: bool, precision: int, r: real)
    returns (digits: seq<nat>, y: int, ghost raw: seq<nat>, ghost y0: int)
    requires 0 < f < WORD * WORD
    requires -RANGE <= e + BitLength(f) - 1 <= RANGE && Evaluated(r, e + BitLength(f) - 1)
    ensures e >= 0 ==> Estimate(r) >= 0
    ensures Raw(raw, y0, f, e, closer, fixed, precision, Estimate(r))
    ensures if !fixed && !alt then Trimmed(digits, y, raw, y0) else digits == raw && y == y0
    ensures fixed && precision >= 0 ==> RoundedDecimal(digits, y, f, e, if precision <= 767 then -precision else -767)
    ensures !fixed && precision >= 1 ==> |raw| == if precision <= 767 then precision else 767
    ensures precision < 0 ==> digits != [] && digits[0] != 0
    ensures precision < 0 && !fixed && !alt ==>
              (Promised(digits, y, f, e, closer) <==> EndsKept(f, e, closer, Estimate(r)))
  {
    hide EstimateHolds, EstimateNear, ShortestDecimal, FixedDecimal, HiddenPlaces, FixedExponent, Pow, Estimate,
         Promised, EndsKept, RoundedDecimal;
    var bits := CountBits(f);
    BitLengthIs(f);
    var exp := Estimate(r);
    EstimateRight(f, e, bits, r);
    EstimateIs(r, e + bits - 1);
    EstimateWeaker(f, e, exp);
    ExponentBound(f, e, exp);
    var ok;
    ok, digits, y := FormatDragon.FormatDragon(f, e, closer, true, fixed, Limited(precision), exp);
    raw, y0 := digits, y;
    if precision < 0 { ShortestLeads(raw, y0, f, e, closer, exp, LowerEndClosed(f, e, closer, exp)); }
    if !fixed && !alt {
      digits, y := Trim(digits, y);
      if precision < 0 { TrimmedPromise(digits, y, raw, y0, f, e, closer, exp); }
    }
  }
}
