/** `format_dragon` (fmt/format.h) as a whole: operand setup, exponent fixup and both output modes. */
module FormatDragon {
  import opened Powers
  import opened Limbs
  import opened BigintFacts
  import opened BigintModel
  import opened DecimalInterval
  import opened Dragon
  import opened DragonFixed
  import opened DecimalMeaning

  const INT_MAX: int := 0x7FFF_FFFF
  const WORD: nat := B * B

  function Shift(closer: bool): nat { if closer then 2 else 1 }

  /** lower after the setup: 2^e in units of the denominator, up to the common shift. */
  function LowerUnit(e: int, x: int): (l: nat)
    ensures l > 0
  {
    if e >= 0 then Pow(2, e) else if x < 0 then Pow(10, -x) else 1
  }

  function DenominatorValue(e: int, x: int, shift: nat): (s: nat)
    requires e >= 0 ==> x >= 0
    ensures s > 0
  {
    if e >= 0 then Product(Pow(10, x), Pow(2, shift))
    else if x < 0 then Pow(2, shift - e)
    else Product(Pow(10, x), Pow(2, shift - e))
  }

  /** The bigit exponents the setup leaves on the operands. */
  function NumeratorExp(e: int, x: int, shift: nat): nat
  {
    if e >= 0 then (e + shift) / 32 else if x < 0 then -x / 32 else 0
  }

  function DenominatorExp(e: int, x: int, shift: nat): nat
    requires e >= 0 ==> x >= 0
  {
    if e >= 0 then x / 32 else if x < 0 then (shift - e) / 32 else x / 32 + (shift - e) / 32
  }

  function LowerExp(e: int, x: int): nat
  {
    if e >= 0 then e / 32 else if x < 0 then -x / 32 else 0
  }

  ghost predicate Prepared(numerator: Bigint, denominator: Bigint, lower: Bigint, upper: Bigint,
                           f: nat, e: int, closer: bool, x: int)
    requires e >= 0 ==> x >= 0
    reads numerator, denominator, lower, upper
  {
    var shift := Shift(closer);
    && numerator != denominator && numerator != lower && numerator != upper
    && denominator != lower && denominator != upper && (closer <==> lower != upper)
    && numerator.Valid() && denominator.Valid() && lower.Valid() && upper.Valid()
    && lower.Value() == LowerUnit(e, x) && upper.Value() == (if closer then 2 else 1) * LowerUnit(e, x)
    && numerator.Value() == f * ((if closer then 4 else 2) * LowerUnit(e, x))
    && denominator.Value() == DenominatorValue(e, x, shift)
    && numerator.exp == NumeratorExp(e, x, shift)
    && denominator.exp == DenominatorExp(e, x, shift)
    && lower.exp == LowerExp(e, x)
  }

  lemma ShiftFactor(closer: bool)
    ensures Pow(2, Shift(closer)) == if closer then 4 else 2
  {
    assert Pow(2, 2) == 4;
    assert Pow(2, 1) == 2;
  }

  /** n << shift in a new bigint. */
  method Shifted(n: nat, shift: nat) returns (b: Bigint)
    ensures fresh(b) && b.Valid() && b.Value() == n * Pow(2, shift) && b.exp == shift / 32
  {
    b := new Bigint();
    b.Assign(n);
    b.ShiftLeft(shift);
  }

  /** 10^x << shift in a new bigint. */
  method ShiftedPow10(x: nat, shift: nat) returns (b: Bigint)
    requires x <= INT_MAX
    ensures fresh(b) && b.Valid() && b.Value() == Product(Pow(10, x), Pow(2, shift)) && b.exp == x / 32 + shift / 32
  {
    b := new Bigint();
    b.AssignPow10(x);
    b.ShiftLeft(shift);
  }

  /** value.e >= 0. */
  method SetupLarge(f: nat, e: nat, closer: bool, x: nat)
    returns (numerator: Bigint, denominator: Bigint, lower: Bigint, upper: Bigint)
    requires 0 < f < WORD * WORD && x <= INT_MAX
    ensures fresh(numerator) && fresh(denominator) && fresh(lower) && fresh(upper)
    ensures Prepared(numerator, denominator, lower, upper, f, e, closer, x)
  {
    var shift := Shift(closer);
    ShiftFactor(closer);
    PowAdd(2, shift, e);
    numerator := Shifted(f, e + shift);
    lower := Shifted(1, e);
    upper := lower;
    if closer { upper := Shifted(1, e + 1); }
    denominator := ShiftedPow10(x, shift);
  }

  /** numerator *= value.f; numerator <<= shift. */
  method TimesShifted(numerator: Bigint, f: nat, closer: bool)
    requires numerator.Valid() && 0 < f < WORD * WORD
    modifies numerator
    ensures numerator.Valid() && numerator.exp == old(numerator.exp)
    ensures numerator.Value() == f * ((if closer then 4 else 2) * old(numerator.Value()))
  {
    ghost var p := numerator.Value();
    numerator.MultiplyWide(f, WORD);
    numerator.ShiftLeft(Shift(closer));
    ShiftFactor(closer);
    MulRotate(p, f, if closer then 4 else 2);
  }

  lemma TwiceIs()
    ensures Pow(2, 1) == 2
  {
  }

  /** value.e < 0 and exp10 < 0. */
  method SetupSmall(f: nat, e: int, closer: bool, x: int)
    returns (numerator: Bigint, denominator: Bigint, lower: Bigint, upper: Bigint)
    requires 0 < f < WORD * WORD && e < 0 && -INT_MAX <= x < 0
    ensures fresh(numerator) && fresh(denominator) && fresh(lower) && fresh(upper)
    ensures Prepared(numerator, denominator, lower, upper, f, e, closer, x)
  {
    hide Pow, Num, Canonical;
    var shift := Shift(closer);
    ShiftFactor(closer);
    TwiceIs();
    numerator := new Bigint();
    lower := new Bigint();
    upper := lower;
    numerator.AssignPow10(-x);
    lower.AssignFrom(numerator);
    if closer {
      upper := new Bigint();
      upper.AssignFrom(numerator);
      upper.ShiftLeft(1);
    }
    TimesShifted(numerator, f, closer);
    denominator := Shifted(1, shift - e);
  }

  /** value.e < 0 and exp10 >= 0. */
  method SetupMiddle(f: nat, e: int, closer: bool, x: nat)
    returns (numerator: Bigint, denominator: Bigint, lower: Bigint, upper: Bigint)
    requires 0 < f < WORD * WORD && e < 0 && x <= INT_MAX
    ensures fresh(numerator) && fresh(denominator) && fresh(lower) && fresh(upper)
    ensures Prepared(numerator, denominator, lower, upper, f, e, closer, x)
  {
    var shift := Shift(closer);
    ShiftFactor(closer);
    numerator := Shifted(f, shift);
    denominator := ShiftedPow10(x, shift - e);
    lower := new Bigint();
    lower.Assign(1);
    upper := lower;
    if closer {
      upper := new Bigint();
      upper.Assign(2);
    }
  }

  method Setup(f: nat, e: int, closer: bool, x: int)
    returns (numerator: Bigint, denominator: Bigint, lower: Bigint, upper: Bigint)
    requires 0 < f < WORD * WORD && -INT_MAX <= x <= INT_MAX && (e >= 0 ==> x >= 0)
    ensures fresh(numerator) && fresh(denominator) && fresh(lower) && fresh(upper)
    ensures Prepared(numerator, denominator, lower, upper, f, e, closer, x)
  {
    if e >= 0 {
      numerator, denominator, lower, upper := SetupLarge(f, e, closer, x);
    } else if x < 0 {
      numerator, denominator, lower, upper := SetupSmall(f, e, closer, x);
    } else {
      numerator, denominator, lower, upper := SetupMiddle(f, e, closer, x);
    }
  }

  /** The operands of the setup stand for f * 2^e and its half-gaps. */
  lemma SetupMeaning(e: int, closer: bool, x: int)
    requires e >= 0 ==> x >= 0
    ensures StandsFor((if closer then 4 else 2) * LowerUnit(e, x), DenominatorValue(e, x, Shift(closer)), e, x)
  {
    var shift, c := Shift(closer), if closer then 4 else 2;
    ShiftFactor(closer);
    if e >= 0 {
      UpShift(2, e, 2);
      assert Pow(2, 2) == 4;
      assert Up(10, x) == Pow(10, x) && Up(10, -x) == 1 && Up(2, e) == Pow(2, e);
      LargeFactors(c, Pow(2, e), Pow(10, x), Up(2, 2 - e), Up(2, e - 2));
    } else {
      PowAdd(2, shift, -e);
      PowAdd(2, 2, -e);
      assert Pow(2, 2) == 4;
      assert Up(2, 2 - e) == 4 * Pow(2, -e) && Up(2, e - 2) == 1;
      if x < 0 {
        SmallFactors(c, Pow(10, -x), 1, Pow(2, -e));
      } else {
        assert Up(10, x) == Pow(10, x) && Up(10, -x) == 1;
        SmallFactors(c, 1, Pow(10, x), Pow(2, -e));
      }
    }
  }

  lemma LargeFactors(c: int, t: int, p: int, a: int, b: int)
    requires t * a == 4 * b
    ensures (c * t) * (p * a) == (4 * b) * (p * c)
  {
    assert (c * t) * (p * a) == (c * p) * (t * a);
  }

  lemma SmallFactors(c: int, l: int, p: int, t: int)
    ensures (c * l) * (p * (4 * t)) == (4 * l) * (p * (c * t))
  {
    assert (c * l) * (p * (4 * t)) == 4 * ((c * l) * (p * t));
    assert (4 * l) * (p * (c * t)) == 4 * ((c * l) * (p * t));
  }

  /** A bound on the value that the exponent estimate must keep: f * 2^e below 10^(x+1), and in the
      shortest mode also the upper end of the rounding interval. */
  predicate EstimateHolds(f: nat, e: int, x: int, shortest: bool)
  {
    (4 * f + if shortest then 2 else 0) * Quarter(e, x) < 10 * Unit(e, x)
  }

  /** The upper end of the rounding interval does not reach 10^x: the estimate was one too high. */
  predicate EstimateTooHigh(f: nat, e: int, x: int, even: bool)
  {
    (4 * f + 2) * Quarter(e, x) < Unit(e, x) || ((4 * f + 2) * Quarter(e, x) == Unit(e, x) && !even)
  }

  lemma EstimateMeaning(f: nat, e: int, x: int, w: nat, s: nat, r: nat, u: nat)
    requires s > 0 && StandsFor(w, s, e, x) && r == f * w && 2 * u == w
    ensures r < 10 * s <==> EstimateHolds(f, e, x, false)
    ensures r + u < 10 * s <==> EstimateHolds(f, e, x, true)
    ensures r + u < s <==> (4 * f + 2) * Quarter(e, x) < Unit(e, x)
    ensures r + u == s <==> (4 * f + 2) * Quarter(e, x) == Unit(e, x)
  {
    LevelFactors(f, w, Unit(e, x), Quarter(e, x), s, r, u, u, false);
    MulDistributes(4 * f, 2, Quarter(e, x));
    EndsCompared(r, u, s, (4 * f) * Quarter(e, x), 2 * Quarter(e, x), Unit(e, x));
  }

  lemma EndsCompared(r: int, u: int, s: int, v: int, h: int, k: int)
    requires k > 0 && s > 0 && r * k == v * s && u * k == h * s
    ensures r < 10 * s <==> v < 10 * k
    ensures r + u < 10 * s <==> v + h < 10 * k
    ensures (r + u < s <==> v + h < k) && (r + u == s <==> v + h == k)
  {
    MulDistributes(r, u, k);
    MulDistributes(v, h, s);
    MulAssoc(10, s, k);
    MulAssoc(10, k, s);
    SameOrder(r, 10 * s, k, v, 10 * k, s);
    SameOrder(r + u, 10 * s, k, v + h, 10 * k, s);
    SameOrder(r + u, s, k, v + h, k, s);
  }

  /** Below 1 the exponents of the setup always leave numerator and lower aligned. */
  lemma SmallAligned(f: nat, e: int, closer: bool, x: int)
    requires e < 0 && f > 0 && EstimateHolds(f, e, x, false)
    ensures NumeratorExp(e, x, Shift(closer)) == LowerExp(e, x) <= DenominatorExp(e, x, Shift(closer))
  {
    if x < 0 && -x > -e {
      assert Quarter(e, x) == Pow(10, -x) && Unit(e, x) == Pow(2, 2 - e);
      assert Pow(10, -x) == 10 * Pow(10, -x - 1);
      assert Pow(2, 2 - e) == 4 * Pow(2, -e) by { PowAdd(2, 2, -e); assert Pow(2, 2) == 4; }
      PowBaseMonotone(2, 10, -x - 1);
      PowMonotone(2, -e, -x - 1);
      MulLe(4, 4 * f, Pow(10, -x));
    }
  }

  /** The setup never leaves the numerator's bigit exponent above the denominator's and that above lower's. */
  lemma ExponentsFit(f: nat, e: int, closer: bool, x: int)
    requires f > 0 && (e >= 0 ==> x >= 0) && EstimateHolds(f, e, x, false)
    ensures NumeratorExp(e, x, Shift(closer)) <= DenominatorExp(e, x, Shift(closer)) ||
            DenominatorExp(e, x, Shift(closer)) <= LowerExp(e, x)
  {
    if e < 0 { SmallAligned(f, e, closer, x); }
  }

  /** A tie that the division misses at decimal place k: f * 2^e is 10^(x - k), with the exponent x after the
      fixup, while the numerator's bigit exponent is above the denominator's. */
  predicate TieAt(k: nat, f: nat, e: int, closer: bool, fixup: bool, x0: int)
    requires e >= 0 ==> x0 >= 0
  {
    var x := FixedExponent(f, e, fixup, x0);
    NumeratorExp(e, x0, Shift(closer)) > DenominatorExp(e, x0, Shift(closer)) &&
    Scaled(k, Product(4 * f, Quarter(e, x))) == Unit(e, x)
  }

  /** The operands tie exactly where the decimals do. */
  lemma TieMeaning(k: nat, w: nat, s: nat, f: nat, e: int, x: int)
    requires s > 0 && StandsFor(w, s, e, x) && f * w >= 0
    ensures Scaled(k, f * w) == s <==> Scaled(k, Product(4 * f, Quarter(e, x))) == Unit(e, x)
  {
    hide Pow, Quarter, Unit;
    var u, g := Unit(e, x), Quarter(e, x);
    Multiple(f, w, u, g, s);
    TieFactors(Pow(10, k), f * w, u, Product(4 * f, g), s);
  }

  lemma TieFactors(p: nat, a: nat, u: nat, b: nat, s: nat)
    requires s > 0 && u > 0 && a * u == b * s
    ensures p * a == s <==> p * b == u
  {
    MulAssoc(p, a, u);
    MulAssoc(p, b, s);
    MulCancel(p * a, s, u);
    MulCancel(p * b, u, s);
    MulRotate(1, s, u);
  }

  /** The estimate is lowered by one when even the upper end of the interval stays below it. */
  method Fixup(numerator: Bigint, denominator: Bigint, lower: Bigint, upper: Bigint, even: bool, shortest: bool)
    returns (down: bool)
    requires Operands(numerator, denominator, lower, upper) && numerator.Value() > 0
    modifies numerator`bigits, lower`bigits, upper`bigits
    ensures Operands(numerator, denominator, lower, upper)
    ensures var r, u, s := old(numerator.Value()), old(upper.Value()), denominator.Value();
            down <==> r + u < s || (r + u == s && !even)
    ensures numerator.Value() == (if down then 10 else 1) * old(numerator.Value())
    ensures lower.Value() == (if down && shortest then 10 else 1) * old(lower.Value())
    ensures upper.Value() == (if down && shortest then 10 else 1) * old(upper.Value())
  {
    var c := AddCompare(numerator, upper, denominator);
    down := c + (if even then 1 else 0) <= 0;
    if down {
      numerator.Multiply(10);
      if shortest {
        lower.Multiply(10);
        if upper != lower { upper.Multiply(10); }
      }
    }
  }

  /** The exponent after the fixup. */
  function FixedExponent(f: nat, e: int, fixup: bool, x: int): int
  {
    if fixup && EstimateTooHigh(f, e, x, f % 2 == 0) then x - 1 else x
  }

  /** How many digits the fixed-precision mode is to generate. */
  function DigitsAsked(f: nat, e: int, fixup: bool, fixed: bool, numDigits: int, x: int): int
  {
    if fixup && fixed then numDigits + FixedExponent(f, e, fixup, x) + 1 else numDigits
  }

  /** Dec(digits) * 10^y is f * 2^e rounded to a multiple of 10^place, ties to even. */
  ghost predicate RoundedDecimal(digits: seq<nat>, y: int, f: nat, e: int, place: int)
  {
    && digits != [] && place <= y
    && RoundedHalfEven(Scaled(y - place, Dec(digits)), Product(4 * f, Quarter(e, place)), Unit(e, place))
  }

  lemma RoundedProportional(p: nat, v: nat, s: nat, v': nat, s': nat, k: nat, k': nat)
    requires k > 0 && k' > 0 && v * k == v' * k' && s * k == s' * k' && RoundedHalfEven(p, v, s)
    ensures RoundedHalfEven(p, v', s')
  {
    MulAssoc(p, s, k);
    MulAssoc(p, s', k');
    HalfEvenOrder(2 * (p * s), 2 * v, s, k, 2 * (p * s'), 2 * v', s', k');
  }

  lemma HalfEvenOrder(a: int, v: int, s: int, k: int, a': int, v': int, s': int, k': int)
    requires k > 0 && k' > 0 && a * k == a' * k' && v * k == v' * k' && s * k == s' * k'
    ensures (a <= v + s <==> a' <= v' + s') && (v <= a + s <==> v' <= a' + s')
    ensures (a == v + s <==> a' == v' + s') && (v == a + s <==> v' == a' + s')
  {
    MulDistributes(v, s, k);
    MulDistributes(v', s', k');
    MulDistributes(a, s, k);
    MulDistributes(a', s', k');
    SameOrder(a, v + s, k, a', v' + s', k');
    SameOrder(v, a + s, k, v', a' + s', k');
  }

  /** The rounding of the digit generator is the rounding of f * 2^e. */
  lemma FixedMeaning(p: nat, m: int, w: nat, s: nat, f: nat, e: int, x: int)
    requires s > 0 && StandsFor(w, s, e, x) && f * w >= 0
    requires RoundedHalfEven(p, RoundedValue(m, f * w), RoundedUnit(m, s))
    ensures RoundedHalfEven(p, Product(4 * f, Quarter(e, x + 1 - m)), Unit(e, x + 1 - m))
  {
    var y := x + 1 - m;
    if m >= 1 {
      StandsForDown(w, s, e, x, m - 1);
      ScaledTimes(m - 1, f, w);
      Multiple(f, Scaled(m - 1, w), Unit(e, y), Quarter(e, y), s);
      RoundedProportional(p, Scaled(m - 1, f * w), s, Product(4 * f, Quarter(e, y)), Unit(e, y), Unit(e, y), s);
    } else {
      StandsForUp(w, s, e, x, 1 - m);
      Multiple(f, w, Unit(e, y), Quarter(e, y), Scaled(1 - m, s));
      RoundedProportional(p, f * w, Scaled(1 - m, s), Product(4 * f, Quarter(e, y)), Unit(e, y), Unit(e, y),
                          Scaled(1 - m, s));
    }
  }

  /** Which ends of the rounding interval the shortest mode takes, by the bigit exponents of the setup. */
  function CommonExp(e: int, closer: bool, x: int): nat
    requires e >= 0 ==> x >= 0
  {
    Min(NumeratorExp(e, x, Shift(closer)), DenominatorExp(e, x, Shift(closer)))
  }

  predicate LowerEndClosed(f: nat, e: int, closer: bool, x: int)
    requires e >= 0 ==> x >= 0
  {
    LowerEndTaken(CommonExp(e, closer, x), LowerExp(e, x), f % 2 == 0)
  }

  /** The decimal places at which an exact value goes unseen: none, or the first, if the fixup has not scaled
      lower up to the common exponent. */
  function HiddenPlaces(f: nat, e: int, closer: bool, fixup: bool, x: int): (places: set<int>)
    requires e >= 0 ==> x >= 0
    ensures places <= {x}
  {
    if CommonExp(e, closer, x) > LowerExp(e, x) && FixedExponent(f, e, fixup, x) == x then {x} else {}
  }

  /** lower against the common exponent, above its own: at most one decimal place away. */
  lemma LowerBelow(e: nat, closer: bool, x: nat)
    requires CommonExp(e, closer, x) > LowerExp(e, x)
    ensures Pow(2, e) < Pow(B, CommonExp(e, closer, x)) <= 4 * Pow(2, e)
  {
    var el := e / 32;
    assert CommonExp(e, closer, x) == el + 1;
    BigitPower(el + 1);
    hide Pow;
    PowStrict(2, e, 32 * (el + 1));
    PowMonotone(2, 32 * (el + 1), e + 2);
    FourTimes(e);
  }

  lemma BigitPower(n: nat)
    ensures Pow(B, n) == Pow(2, 32 * n)
  {
    assert Pow(2, 8) == 256;
    PowMul(2, 8, 4);
    assert Pow(256, 4) == B;
    PowMul(2, 32, n);
  }

  lemma FourTimes(e: nat)
    ensures Pow(2, e + 2) == 4 * Pow(2, e)
  {
    assert Pow(2, 2) == 4;
    hide Pow;
    PowAdd(2, 2, e);
  }

  /** What the places hide: an exact value goes unseen at the first place only. */
  lemma HiddenMeaning(lower: Bigint, f: nat, e: int, closer: bool, fixup: bool, x: int)
    requires f > 0 && (e >= 0 ==> x >= 0) && EstimateHolds(f, e, x, false)
    requires lower.Valid() && lower.exp == LowerExp(e, x)
    requires lower.Value() == (if FixedExponent(f, e, fixup, x) < x then 10 else 1) * LowerUnit(e, x)
    ensures var p, xf := Pow(B, CommonExp(e, closer, x)), FixedExponent(f, e, fixup, x);
            && p <= 10 * lower.Value() && HiddenPlaces(f, e, closer, fixup, x) <= {xf}
            && (xf in HiddenPlaces(f, e, closer, fixup, x) <==> lower.Value() < p)
  {
    if e < 0 { SmallAligned(f, e, closer, x); }
    if CommonExp(e, closer, x) <= LowerExp(e, x) {
      PowExpBound(lower.bigits, lower.exp, CommonExp(e, closer, x));
    } else {
      LowerBelow(e, closer, x);
    }
  }

  method ShortestMode(numerator: Bigint, denominator: Bigint, lower: Bigint, upper: Bigint, even: bool,
                      ghost w: nat, ghost f: nat, ghost e: int, ghost closer: bool, x: int, ghost hidden: set<int>)
    returns (digits: seq<nat>, y: int)
    requires Operands(numerator, denominator, lower, upper) && f > 0
    requires numerator.exp <= denominator.exp || denominator.exp <= lower.exp
    requires StandsFor(w, denominator.Value(), e, x) && numerator.Value() == f * w
    requires 2 * upper.Value() == w && (if closer then 4 else 2) * lower.Value() == w
    requires numerator.Value() + upper.Value() < 10 * denominator.Value() ||
             (numerator.Value() + upper.Value() == 10 * denominator.Value() && !even)
    requires var p := Pow(B, Min(numerator.exp, denominator.exp));
             hidden <= {x} && p <= 10 * lower.Value() && (x in hidden <==> lower.Value() < p)
    modifies numerator, lower, upper
    ensures var en := Min(old(numerator.exp), denominator.exp);
            ShortestDecimal(digits, y, f, e, closer, LowerEndTaken(en, old(lower.exp), even), even, hidden)
    ensures y == x - (|digits| - 1)
  {
    ghost var en := Min(numerator.exp, denominator.exp);
    ghost var ratio := Ratio(numerator.Value(), denominator.Value(), lower.Value(), upper.Value(),
                             LowerEndTaken(en, lower.exp, even), even, Pow(B, en));
    MulLe(1, f, w);
    digits := GenerateShortest(numerator, denominator, lower, upper, even);
    ShortestMeaning(ratio, digits, w, f, e, closer, x, hidden);
    y := x - (|digits| - 1);
  }

  /** How many digits there are, and how far their place is bumped: a carry out of the first digit leaves a power
      of ten, with one more digit or a place further up. */
  predicate CarriedOut(digits: seq<nat>, bump: int, fixed: bool, m: int)
  {
    if m <= 0 then |digits| == 1 && bump == 0
    else if |digits| == m && bump == 0 then true
    else if fixed then |digits| == m + 1 && bump == 0 && Dec(digits) == Pow(10, m)
    else |digits| == m && bump == 1 && Dec(digits) * 10 == Pow(10, m)
  }

  /** The digits of the fixed mode, m of them asked for: the value rounded half to even at the place of the last
      one. They are digits exactly if the division misses no tie before the last; a place behind such a tie
      stands a ten. */
  ghost predicate FixedDecimal(digits: seq<nat>, y: int, f: nat, e: int, closer: bool, fixup: bool, fixed: bool,
                               x: int, m: int)
    requires e >= 0 ==> x >= 0
  {
    && RoundedDecimal(digits, y, f, e, FixedExponent(f, e, fixup, x) + 1 - m)
    && CarriedOut(digits, y - (FixedExponent(f, e, fixup, x) + 1 - m), fixed, m)
    && (AllDigits(digits) <==> forall k: nat :: k + 2 <= m ==> !TieAt(k, f, e, closer, fixup, x))
    && forall k: nat :: k + 2 <= m && TieAt(k, f, e, closer, fixup, x) ==> |digits| == m && digits[k + 1] == 10
  }

  method FixedMode(numerator: Bigint, denominator: Bigint, m: int, fixed: bool, x: int,
                   ghost w: nat, ghost f: nat, ghost e: int, ghost closer: bool, ghost fixup: bool, ghost x0: int)
    returns (digits: seq<nat>, y: int)
    requires numerator != denominator && numerator.Valid() && denominator.Valid()
    requires StandsFor(w, denominator.Value(), e, x) && numerator.Value() == f * w
    requires 0 < numerator.Value() < 10 * denominator.Value()
    requires (e >= 0 ==> x0 >= 0) && x == FixedExponent(f, e, fixup, x0)
    requires numerator.exp == NumeratorExp(e, x0, Shift(closer))
    requires denominator.exp == DenominatorExp(e, x0, Shift(closer))
    modifies numerator, denominator
    ensures FixedDecimal(digits, y, f, e, closer, fixup, fixed, x0, m)
  {
    hide Pow, Quarter, Unit, NumeratorExp, DenominatorExp, MissedAt, TieAt, FixedExponent, StandsFor, RoundedHalfEven;
    ghost var r, s, en, ed := numerator.Value(), denominator.Value(), numerator.exp, denominator.exp;
    TiesAgree(en, ed, w, s, f, e, closer, fixup, x0);
    var bump;
    digits, bump := GenerateFixed(numerator, denominator, m, fixed);
    FixedMeaning(Dec(digits) * (if bump then 10 else 1), m, w, s, f, e, x);
    y := x - (m - 1);
    if bump { y := y + 1; }
    BumpedPlace(Dec(digits), bump);
  }

  lemma BumpedPlace(p: nat, bump: bool)
    ensures Scaled(if bump then 1 else 0, p) == p * (if bump then 10 else 1)
  {
    ScaledStep(0, p);
  }

  lemma TiesAgree(en: nat, ed: nat, w: nat, s: nat, f: nat, e: int, closer: bool, fixup: bool, x0: int)
    requires (e >= 0 ==> x0 >= 0) && s > 0 && f * w >= 0 && StandsFor(w, s, e, FixedExponent(f, e, fixup, x0))
    requires en == NumeratorExp(e, x0, Shift(closer)) && ed == DenominatorExp(e, x0, Shift(closer))
    ensures forall k: nat :: MissedAt(k, f * w, s, en, ed) <==> TieAt(k, f, e, closer, fixup, x0)
  {
    hide Pow, Quarter, Unit, NumeratorExp, DenominatorExp, FixedExponent, StandsFor;
    forall k: nat ensures MissedAt(k, f * w, s, en, ed) <==> TieAt(k, f, e, closer, fixup, x0) {
      TieMeaning(k, w, s, f, e, FixedExponent(f, e, fixup, x0));
    }
  }

  /** The operands before digit generation: w is 2^e in units of 10^x over the denominator. */
  ghost predicate Ready(numerator: Bigint, denominator: Bigint, lower: Bigint, upper: Bigint, w: nat,
                        f: nat, e: int, closer: bool, x: int, shortest: bool)
    reads numerator, denominator, lower, upper
  {
    && Operands(numerator, denominator, lower, upper)
    && StandsFor(w, denominator.Value(), e, x) && numerator.Value() == f * w
    && 0 < numerator.Value() < 10 * denominator.Value()
    && (shortest ==>
          && 2 * upper.Value() == w && (if closer then 4 else 2) * lower.Value() == w
          && (numerator.Value() + upper.Value() < 10 * denominator.Value() ||
              (numerator.Value() + upper.Value() == 10 * denominator.Value() && f % 2 != 0)))
  }

  lemma EstimateWeaker(f: nat, e: int, x: int)
    ensures EstimateHolds(f, e, x, true) ==> EstimateHolds(f, e, x, false)
  {
    MulLe(4 * f, 4 * f + 2, Quarter(e, x));
  }

  lemma PreparedMeaning(numerator: Bigint, denominator: Bigint, lower: Bigint, upper: Bigint, w: nat,
                        f: nat, e: int, closer: bool, x: int, shortest: bool)
    requires f > 0 && (e >= 0 ==> x >= 0) && Prepared(numerator, denominator, lower, upper, f, e, closer, x)
    requires EstimateHolds(f, e, x, shortest)
    requires w == (if closer then 4 else 2) * LowerUnit(e, x)
    ensures Ready(numerator, denominator, lower, upper, w, f, e, closer, x, shortest)
    ensures 2 * upper.Value() == w && numerator.Value() > 0
  {
    SetupMeaning(e, closer, x);
    EstimateMeaning(f, e, x, w, denominator.Value(), numerator.Value(), upper.Value());
    EstimateWeaker(f, e, x);
    MulLe(1, f, w);
  }

  /** The fixup of the prepared operands: lowered by one decimal place or left alone. */
  method FixupPrepared(numerator: Bigint, denominator: Bigint, lower: Bigint, upper: Bigint, ghost w: nat,
                       f: nat, ghost e: int, ghost closer: bool, x: int, shortest: bool)
    returns (x': int, ghost w': nat)
    requires Ready(numerator, denominator, lower, upper, w, f, e, closer, x, shortest)
    requires 2 * upper.Value() == w && numerator.Value() > 0
    modifies numerator`bigits, lower`bigits, upper`bigits
    ensures Ready(numerator, denominator, lower, upper, w', f, e, closer, x', shortest)
    ensures x' == if EstimateTooHigh(f, e, x, f % 2 == 0) then x - 1 else x
    ensures shortest ==> lower.Value() == (if x' < x then 10 else 1) * old(lower.Value())
  {
    x', w' := x, w;
    EstimateMeaning(f, e, x, w, denominator.Value(), numerator.Value(), upper.Value());
    var down := Fixup(numerator, denominator, lower, upper, f % 2 == 0, shortest);
    if down {
      StandsForDown(w, denominator.Value(), e, x, 1);
      ScaledStep(0, w);
      MulAssoc(10, f, w);
      MulRotate(10, f, w);
      w' := 10 * w;
      x' := x - 1;
    }
  }

  /** Setup and fixup together. */
  method Prepare(f: nat, e: int, closer: bool, fixup: bool, shortest: bool, exp10: int)
    returns (numerator: Bigint, denominator: Bigint, lower: Bigint, upper: Bigint, x: int, ghost w: nat)
    requires 0 < f < WORD * WORD && -INT_MAX <= exp10 <= INT_MAX && (e >= 0 ==> exp10 >= 0)
    requires EstimateHolds(f, e, exp10, shortest)
    ensures fresh(numerator) && fresh(denominator) && fresh(lower) && fresh(upper)
    ensures Ready(numerator, denominator, lower, upper, w, f, e, closer, x, shortest)
    ensures numerator.exp == NumeratorExp(e, exp10, Shift(closer))
    ensures denominator.exp == DenominatorExp(e, exp10, Shift(closer)) && lower.exp == LowerExp(e, exp10)
    ensures x == FixedExponent(f, e, fixup, exp10) && exp10 - 1 <= x <= exp10
    ensures shortest ==> lower.Value() == (if x < exp10 then 10 else 1) * LowerUnit(e, exp10)
  {
    numerator, denominator, lower, upper := Setup(f, e, closer, exp10);
    x, w := exp10, (if closer then 4 else 2) * LowerUnit(e, exp10);
    PreparedMeaning(numerator, denominator, lower, upper, w, f, e, closer, exp10, shortest);
    if fixup {
      x, w := FixupPrepared(numerator, denominator, lower, upper, w, f, e, closer, exp10, shortest);
    }
  }

  /** Formats f * 2^e. The precision overflow that `adjust_precision` reports is ok == false. */
  method FormatDragon(f: nat, e: int, closer: bool, fixup: bool, fixed: bool, numDigits: int, exp10: int)
    returns (ok: bool, digits: seq<nat>, y: int)
    requires 0 < f < WORD * WORD && -INT_MAX <= exp10 <= INT_MAX && (e >= 0 ==> exp10 >= 0)
    requires EstimateHolds(f, e, exp10, numDigits < 0)
    ensures ok && numDigits < 0 ==>
              ShortestDecimal(digits, y, f, e, closer, LowerEndClosed(f, e, closer, exp10), f % 2 == 0,
                              HiddenPlaces(f, e, closer, fixup, exp10))
    ensures ok && numDigits < 0 ==> y == FixedExponent(f, e, fixup, exp10) - (|digits| - 1)
    ensures ok && numDigits >= 0 ==>
              FixedDecimal(digits, y, f, e, closer, fixup, fixed, exp10,
                           DigitsAsked(f, e, fixup, fixed, numDigits, exp10))
    ensures ok && fixup && fixed && numDigits >= 0 ==> RoundedDecimal(digits, y, f, e, -numDigits)
    ensures ok && !fixed && numDigits >= 1 ==> |digits| == numDigits
    ensures !ok <==> var x := FixedExponent(f, e, fixup, exp10);
                     fixup && fixed && x + 1 > 0 && numDigits > INT_MAX - (x + 1)
  {
    hide Pow, FixedDecimal, ShortestDecimal, EstimateHolds, EstimateTooHigh, LowerUnit, StandsFor;
    var numerator, denominator, lower, upper, x;
    ghost var w;
    numerator, denominator, lower, upper, x, w := Prepare(f, e, closer, fixup, numDigits < 0, exp10);
    ok, digits, y := true, [], x;
    var m := numDigits;
    if fixup && fixed {
      if x + 1 > 0 && m > INT_MAX - (x + 1) {
        ok := false;
        return;
      }
      m := m + (x + 1);
    }
    if numDigits < 0 {
      EstimateWeaker(f, e, exp10);
      ExponentsFit(f, e, closer, exp10);
      HiddenMeaning(lower, f, e, closer, fixup, exp10);
      digits, y := ShortestMode(numerator, denominator, lower, upper, f % 2 == 0, w, f, e, closer, x,
                                HiddenPlaces(f, e, closer, fixup, exp10));
    } else {
      digits, y := FixedMode(numerator, denominator, m, fixed, x, w, f, e, closer, fixup, exp10);
      FixedPlaces(digits, y, f, e, closer, fixup, fixed, exp10, m);
    }
  }

  /** Where the digits end, and how many they are. */
  lemma FixedPlaces(digits: seq<nat>, y: int, f: nat, e: int, closer: bool, fixup: bool, fixed: bool, x: int, m: int)
    requires (e >= 0 ==> x >= 0) && FixedDecimal(digits, y, f, e, closer, fixup, fixed, x, m)
    ensures RoundedDecimal(digits, y, f, e, FixedExponent(f, e, fixup, x) + 1 - m)
    ensures !fixed && m >= 1 ==> |digits| == m
  {
    hide RoundedDecimal, FixedExponent, TieAt;
  }
}
