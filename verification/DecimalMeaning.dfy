/** The rounding interval of a binary floating-point number against the multiples of a power of ten,
    in exact integers. */
module DecimalMeaning {
  import opened Powers
  import opened DecimalInterval
  import opened Dragon

  /** b^k for k >= 0, and 1 below: the part of a power that belongs in the numerator. */
  function Up(b: nat, k: int): (r: nat)
    ensures b > 0 ==> r > 0
  {
    if k > 0 then Pow(b, k) else 1
  }

  lemma UpShift(b: nat, x: int, n: nat)
    ensures Up(b, x) * Up(b, n - x) == Pow(b, n) * (Up(b, -x) * Up(b, x - n))
  {
    if x <= 0 {
      PowAdd(b, n, -x);
    } else if x <= n {
      PowAdd(b, x, n - x);
    } else {
      PowAdd(b, n, x - n);
    }
  }

  /** f * 2^e and the half-gaps to its neighbours, against the multiples of 10^y:
      v/s = f * 2^e / 10^y, u/s = 2^e/2 / 10^y, and l/s is u/s, or half of it when the predecessor is
      closer. An unseen exact value is the one the generation loop may pass over. */
  function DecimalLevel(f: nat, e: int, closer: bool, y: int, lowClosed: bool, highClosed: bool, unseen: bool): Level
  {
    var g := Quarter(e, y);
    MulLe(0, 4 * f, g);
    Level((4 * f) * g, Unit(e, y), if closer then g else 2 * g, 2 * g, lowClosed, highClosed,
          if unseen then 2 * g + 1 else 0)
  }

  /** A quarter of 2^e and 10^y over their common denominator. */
  function Quarter(e: int, y: int): (r: nat)
    ensures r > 0
  {
    MulLt(0, Up(2, e - 2), Up(10, -y));
    Up(2, e - 2) * Up(10, -y)
  }

  function Unit(e: int, y: int): (r: nat)
    ensures r > 0
  {
    MulLt(0, Up(10, y), Up(2, 2 - e));
    Up(10, y) * Up(2, 2 - e)
  }

  /** w / s * 10^x is 2^e. */
  predicate StandsFor(w: nat, s: nat, e: int, x: int)
  {
    w * Unit(e, x) == (4 * Quarter(e, x)) * s
  }

  lemma DecimalShift(e: int, x: int, n: nat)
    ensures Unit(e, x) * Quarter(e, x - n) == Pow(10, n) * (Quarter(e, x) * Unit(e, x - n))
  {
    UpShift(10, x, n);
    ShiftFactors(Up(10, x), Up(2, 2 - e), Up(2, e - 2), Up(10, n - x), Pow(10, n), Up(10, -x), Up(10, x - n));
  }

  lemma ShiftFactors(a: int, b: int, c: int, d: int, p: int, g: int, h: int)
    requires a * d == p * (g * h)
    ensures (a * b) * (c * d) == p * ((c * g) * (h * b))
  {
    assert (a * b) * (c * d) == (b * c) * (a * d);
    assert (b * c) * (p * (g * h)) == p * ((c * g) * (h * b));
  }

  /** The same quantity one or more decimal places down: w grows, ... */
  lemma StandsForDown(w: nat, s: nat, e: int, x: int, n: nat)
    requires StandsFor(w, s, e, x)
    ensures StandsFor(Scaled(n, w), s, e, x - n)
  {
    hide Pow, Unit, Quarter;
    DecimalShift(e, x, n);
    DownFactors(w, s, Unit(e, x), Quarter(e, x), Unit(e, x - n), Quarter(e, x - n), Pow(10, n));
  }

  lemma DownFactors(w: int, s: int, u: int, g: int, u': int, g': int, p: int)
    requires w * u == (4 * g) * s && u * g' == p * (g * u') && u > 0 && g > 0
    ensures (p * w) * u' == (4 * g') * s
  {
    assert ((p * w) * u') * g == w * (u * g');
    assert w * (u * g') == (w * u) * g';
    assert ((4 * g) * s) * g' == ((4 * g') * s) * g;
    MulCancel((p * w) * u', (4 * g') * s, g);
  }

  /** ... or up: s grows. */
  lemma StandsForUp(w: nat, s: nat, e: int, x: int, n: nat)
    requires StandsFor(w, s, e, x)
    ensures StandsFor(w, Scaled(n, s), e, x + n)
  {
    hide Pow, Unit, Quarter;
    DecimalShift(e, x + n, n);
    UpFactors(w, s, Unit(e, x), Quarter(e, x), Unit(e, x + n), Quarter(e, x + n), Pow(10, n));
  }

  lemma UpFactors(w: int, s: int, u: int, g: int, u': int, g': int, p: int)
    requires w * u == (4 * g) * s && u' * g == p * (g' * u) && u > 0 && g > 0
    ensures w * u' == (4 * g') * (p * s)
  {
    assert (w * u') * g == w * (p * (g' * u));
    assert w * (p * (g' * u)) == (p * g') * (w * u);
    assert (p * g') * ((4 * g) * s) == ((4 * g') * (p * s)) * g;
    MulCancel(w * u', (4 * g') * (p * s), g);
  }

  /** Two levels that describe the same interval in different units. */
  predicate Proportional(z1: Level, z2: Level, k1: nat, k2: nat)
  {
    && k1 > 0 && k2 > 0 && z1.v * k1 == z2.v * k2 && z1.s * k1 == z2.s * k2
    && z1.l * k1 == z2.l * k2 && z1.u * k1 == z2.u * k2
    && z1.lowClosed == z2.lowClosed && z1.highClosed == z2.highClosed
    && (z1.l < z1.blind <==> z2.l < z2.blind)
  }

  lemma ProportionalAt(z1: Level, z2: Level, k1: nat, k2: nat, q: nat)
    requires Proportional(z1, z2, k1, k2)
    ensures z1.Contains(q) == z2.Contains(q) && z1.Seen(q) == z2.Seen(q)
    ensures z1.Distance(q) * k1 == z2.Distance(q) * k2
    ensures q * z1.s == z1.v <==> q * z2.s == z2.v
  {
    MulAssoc(q, z1.s, k1);
    MulAssoc(q, z2.s, k2);
    SameOrder(z1.v - z1.l, q * z1.s, k1, z2.v - z2.l, q * z2.s, k2) by {
      MulDistributes(z1.v, z1.l, k1);
      MulDistributes(z2.v, z2.l, k2);
    }
    SameOrder(q * z1.s, z1.v + z1.u, k1, q * z2.s, z2.v + z2.u, k2) by {
      MulDistributes(z1.v, z1.u, k1);
      MulDistributes(z2.v, z2.u, k2);
    }
    SameOrder(q * z1.s, z1.v, k1, q * z2.s, z2.v, k2);
    MulDistributes(z1.v, q * z1.s, k1);
    MulDistributes(z2.v, q * z2.s, k2);
  }

  lemma SameOrder(a: int, b: int, k: int, a': int, b': int, k': int)
    requires k > 0 && k' > 0 && a * k == a' * k' && b * k == b' * k'
    ensures (a < b <==> a' < b') && (a == b <==> a' == b')
  {
    MulCancel(a, b, k);
    MulCancel(a', b', k');
  }

  lemma ProportionalNearest(z1: Level, z2: Level, k1: nat, k2: nat, p: nat)
    requires Proportional(z1, z2, k1, k2) && z1.Nearest(p)
    ensures z2.Nearest(p)
  {
    ProportionalAt(z1, z2, k1, k2, p);
    forall q: nat | z2.Seen(q) && q != p
      ensures z2.Distance(p) < z2.Distance(q) || (z2.Distance(p) == z2.Distance(q) && p % 2 == 0)
    {
      ProportionalAt(z1, z2, k1, k2, q);
      SameOrder(z1.Distance(p), z1.Distance(q), k1, z2.Distance(p), z2.Distance(q), k2);
    }
  }

  lemma ProportionalBarren(z1: Level, z2: Level, k1: nat, k2: nat)
    requires Proportional(z1, z2, k1, k2) && z1.Barren()
    ensures z2.Barren()
  {
    forall q: nat
      ensures !z2.Seen(q)
    {
      ProportionalAt(z1, z2, k1, k2, q);
    }
  }

  /** The operands of the generation loop are those of f * 2^e: with w / s * 10^x = 2^e, the
      numerator is f * w and the half-gaps are w/2, or w/4 towards a closer predecessor. */
  predicate OperandsOf(ratio: Ratio, w: nat, f: nat, e: int, closer: bool, x: int)
  {
    && ratio.s > 0 && StandsFor(w, ratio.s, e, x)
    && ratio.r == f * w && 2 * ratio.u == w && (if closer then 4 else 2) * ratio.l == w
  }

  lemma LevelIsDecimal(ratio: Ratio, w: nat, f: nat, e: int, closer: bool, x: int, n: nat, unseen: bool)
    requires OperandsOf(ratio, w, f, e, closer, x) && (Scaled(n, ratio.l) < ratio.blind <==> unseen)
    ensures Proportional(ratio.At(n), DecimalLevel(f, e, closer, x - n, ratio.lowClosed, ratio.highClosed, unseen),
                         Unit(e, x - n), ratio.s)
  {
    StandsForDown(w, ratio.s, e, x, n);
    var w', u, g := Scaled(n, w), Unit(e, x - n), Quarter(e, x - n);
    assert Scaled(n, ratio.r) == f * w' by { ScaledTimes(n, f, w); }
    assert 2 * Scaled(n, ratio.u) == w' by { ScaledTimes(n, 2, ratio.u); }
    assert (if closer then 4 else 2) * Scaled(n, ratio.l) == w' by { ScaledTimes(n, if closer then 4 else 2, ratio.l); }
    LevelFactors(f, w', u, g, ratio.s, Scaled(n, ratio.r), Scaled(n, ratio.u), Scaled(n, ratio.l), closer);
  }

  lemma ScaledTimes(n: nat, c: nat, x: nat)
    ensures c * x >= 0 && Scaled(n, c * x) == c * Scaled(n, x)
  {
    MulLe(0, c, x);
    assert Pow(10, n) * (c * x) == c * (Pow(10, n) * x);
  }

  lemma LevelFactors(f: nat, w: nat, u: nat, g: nat, s: nat, r: nat, up: nat, low: nat, closer: bool)
    requires w * u == (4 * g) * s && r == f * w && 2 * up == w && (if closer then 4 else 2) * low == w
    ensures r * u == ((4 * f) * g) * s && up * u == (2 * g) * s && low * u == (if closer then g else 2 * g) * s
  {
    Multiple(f, w, u, g, s);
    Part(2, up, w, u, 2 * g, s);
    if closer { Part(4, low, w, u, g, s); } else { Part(2, low, w, u, 2 * g, s); }
  }

  lemma Multiple(f: int, w: int, u: int, g: int, s: int)
    requires w * u == (4 * g) * s
    ensures (f * w) * u == ((4 * f) * g) * s
  {
    assert (f * w) * u == f * (w * u);
    assert f * ((4 * g) * s) == ((4 * f) * g) * s;
  }

  lemma Part(c: int, a: int, w: int, u: int, b: int, s: int)
    requires c > 0 && c * a == w && w * u == (c * b) * s
    ensures a * u == b * s
  {
    MulAssoc(c, a, u);
    MulAssoc(c, b, s);
    MulCancel(a * u, b * s, c);
  }

  /** The printed digits, against all decimals: they are the nearest multiple of 10^y in the rounding
      interval of f * 2^e, and no multiple of a higher power of ten lies in it. At the hidden places an exact
      value is not seen. */
  ghost predicate ShortestDecimal(digits: seq<nat>, y: int, f: nat, e: int, closer: bool,
                                  lowClosed: bool, highClosed: bool, hidden: set<int>)
  {
    && digits != [] && AllDigits(digits)
    && DecimalLevel(f, e, closer, y, lowClosed, highClosed, y in hidden).Nearest(Dec(digits))
    && forall y' :: y' > y ==> DecimalLevel(f, e, closer, y', lowClosed, highClosed, y' in hidden).Barren()
  }

  /** A multiple of a higher power of ten is a multiple of the lower one. */
  lemma CoarserContains(fine: Level, coarse: Level, f: nat, e: int, closer: bool, y: int, m: nat,
                        lowClosed: bool, highClosed: bool, q: nat)
    requires fine == DecimalLevel(f, e, closer, y, lowClosed, highClosed, false)
    requires coarse == DecimalLevel(f, e, closer, y + m, lowClosed, highClosed, false)
    ensures coarse.Contains(q) == fine.Contains(Scaled(m, q))
    ensures q * coarse.s == coarse.v <==> Scaled(m, q) * fine.s == fine.v
  {
    var g, g' := Quarter(e, y + m), Quarter(e, y);
    var z := fine.(s := Scaled(m, fine.s));
    assert Proportional(coarse, z, g', g) by {
      DecimalShift(e, y + m, m);
      CoarserUnit(coarse.s, g', Pow(10, m), g, fine.s);
      MulRotate(4 * f, g, g');
      MulRotate(2, g, g');
    }
    ProportionalAt(coarse, z, g', g, q);
    RescaledUnit(fine, z, m, q);
  }

  lemma RescaledUnit(fine: Level, z: Level, m: nat, q: nat)
    requires z == fine.(s := Scaled(m, fine.s))
    ensures Scaled(m, q) * fine.s == q * z.s
    ensures z.Contains(q) == fine.Contains(Scaled(m, q))
  {
    MulRotate(Pow(10, m), q, fine.s);
  }

  lemma CoarserUnit(u: int, g': int, p: int, g: int, u': int)
    requires u * g' == p * (g * u')
    ensures u * g' == (p * u') * g
  {
  }

  /** What GenerateShortest establishes, said about all decimals. Only the first place can be hidden. */
  lemma ShortestMeaning(ratio: Ratio, digits: seq<nat>, w: nat, f: nat, e: int, closer: bool, x: int, hidden: set<int>)
    requires ratio.Shortest(digits) && OperandsOf(ratio, w, f, e, closer, x) && ratio.r > ratio.l
    requires hidden <= {x} && (x in hidden <==> ratio.l < ratio.blind) && ratio.blind <= 10 * ratio.l
    requires ratio.r + ratio.u < 10 * ratio.s || (ratio.r + ratio.u == 10 * ratio.s && !ratio.highClosed)
    ensures ShortestDecimal(digits, x - (|digits| - 1), f, e, closer, ratio.lowClosed, ratio.highClosed, hidden)
  {
    hide Pow, Scaled, Quarter, Unit;
    var n, y := |digits| - 1, x - (|digits| - 1);
    HiddenOnlyFirst(ratio, x, n, hidden);
    LevelIsDecimal(ratio, w, f, e, closer, x, n, y in hidden);
    ProportionalNearest(ratio.At(n), DecimalLevel(f, e, closer, y, ratio.lowClosed, ratio.highClosed, y in hidden),
                        Unit(e, y), ratio.s, Dec(digits));
    forall y' | y' > y
      ensures DecimalLevel(f, e, closer, y', ratio.lowClosed, ratio.highClosed, y' in hidden).Barren()
    {
      var coarse := DecimalLevel(f, e, closer, y', ratio.lowClosed, ratio.highClosed, y' in hidden);
      if y' <= x {
        HiddenOnlyFirst(ratio, x, x - y', hidden);
        LevelIsDecimal(ratio, w, f, e, closer, x, x - y', y' in hidden);
        ProportionalBarren(ratio.At(x - y'), coarse, Unit(e, y'), ratio.s);
      } else {
        forall q: nat ensures !coarse.Contains(q) {
          AboveFirstDigit(ratio, w, f, e, closer, x, y' - x, q);
        }
      }
    }
  }

  lemma HiddenOnlyFirst(ratio: Ratio, x: int, n: nat, hidden: set<int>)
    requires hidden <= {x} && (x in hidden <==> ratio.l < ratio.blind) && ratio.blind <= 10 * ratio.l
    ensures x - n in hidden <==> Scaled(n, ratio.l) < ratio.blind
  {
    if n > 0 {
      ScaledStep(n - 1, ratio.l);
      ScaledGrows(n - 1, ratio.l);
    }
  }

  lemma AboveFirstDigit(ratio: Ratio, w: nat, f: nat, e: int, closer: bool, x: int, m: nat, q: nat)
    requires OperandsOf(ratio, w, f, e, closer, x) && ratio.r > ratio.l && m > 0
    requires ratio.r + ratio.u < 10 * ratio.s || (ratio.r + ratio.u == 10 * ratio.s && !ratio.highClosed)
    ensures !DecimalLevel(f, e, closer, x + m, ratio.lowClosed, ratio.highClosed, false).Contains(q)
  {
    var seen := ratio.(blind := 0);
    var fine := DecimalLevel(f, e, closer, x, ratio.lowClosed, ratio.highClosed, false);
    var coarse := DecimalLevel(f, e, closer, x + m, ratio.lowClosed, ratio.highClosed, false);
    LevelIsDecimal(seen, w, f, e, closer, x, 0, false);
    CoarserContains(fine, coarse, f, e, closer, x, m, ratio.lowClosed, ratio.highClosed, q);
    ProportionalAt(seen.At(0), fine, Unit(e, x), ratio.s, Scaled(m, q));
    TenfoldOutside(seen, m, q);
  }

  /** Apart from zero, which is too small, a multiple of ten units is beyond the upper end. */
  lemma TenfoldOutside(ratio: Ratio, m: nat, q: nat)
    requires ratio.s > 0 && ratio.r > ratio.l && m > 0
    requires ratio.r + ratio.u < 10 * ratio.s || (ratio.r + ratio.u == 10 * ratio.s && !ratio.highClosed)
    ensures !ratio.At(0).Contains(Scaled(m, q))
  {
    if q > 0 {
      PowMonotone(10, 1, m);
      assert Pow(10, 1) == 10;
      MulLe(10, Pow(10, m), q);
      MulLe(1, q, 10);
      MulLe(10, Scaled(m, q), ratio.s);
    }
  }

  /** The ends of the rounding interval lie halfway to the neighbours: to (f + 1) * 2^e above, and below to
      (f - 1) * 2^e, or to (2 f - 1) * 2^(e - 1) if the predecessor is closer. */
  lemma EndsAreMidpoints(f: nat, e: int, closer: bool, y: int, lowClosed: bool, highClosed: bool)
    requires f > 0
    ensures var z := DecimalLevel(f, e, closer, y, lowClosed, highClosed, false);
            && 2 * (z.v + z.u) == z.v + ValueAt(f + 1, e, y)
            && (!closer ==> 2 * (z.v - z.l) == z.v + ValueAt(f - 1, e, y))
            && (closer ==> (2 * (z.v - z.l) - z.v) * Unit(e - 1, y) == ValueAt(2 * f - 1, e - 1, y) * Unit(e, y))
  {
    HalfQuarter(e, y);
    hide Quarter, Unit;
    var g := Quarter(e, y);
    MulDistributes(4 * f, 4, g);
    MulDistributes(4 * f, -4, g);
    MulDistributes(4 * f, -2, g);
    MidpointFactors(4 * f - 2, g, Unit(e - 1, y), Quarter(e - 1, y), Unit(e, y));
  }

  /** f * 2^e in the units of a level. */
  function ValueAt(f: nat, e: int, y: int): nat
  {
    Product(4 * f, Quarter(e, y))
  }

  lemma HalfQuarter(e: int, y: int)
    ensures Quarter(e, y) * Unit(e - 1, y) == 2 * (Quarter(e - 1, y) * Unit(e, y))
  {
    UpShift(2, e - 2, 1);
    assert Pow(2, 1) == 2;
    HalfFactors(Up(2, e - 2), Up(2, 3 - e), Up(2, 2 - e), Up(2, e - 3), Up(10, -y), Up(10, y));
  }

  lemma HalfFactors(a: int, b: int, c: int, d: int, t: int, u: int)
    requires a * b == 2 * (c * d)
    ensures (a * t) * (u * b) == 2 * ((d * t) * (u * c))
  {
    assert (a * t) * (u * b) == (a * b) * (t * u);
    assert (2 * (c * d)) * (t * u) == 2 * ((d * t) * (u * c));
  }

  lemma MidpointFactors(v: int, g: int, s': int, g': int, s: int)
    requires g * s' == 2 * (g' * s)
    ensures (v * g) * s' == ((2 * v) * g') * s
  {
    MulAssoc(v, g, s');
    assert v * (2 * (g' * s)) == ((2 * v) * g') * s;
  }
}
