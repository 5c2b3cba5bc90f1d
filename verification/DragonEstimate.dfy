/** The exponent estimate of `format_float` (fmt/format.h), in real arithmetic, with room for the rounding of the
    floating-point expression. */
module DragonEstimate {
  import opened Powers
  import opened DecimalMeaning
  import opened FormatDragon

  // Powers of two against powers of ten. The fractions 643/2136 and 4004/13301 enclose log10(2) so closely that
  // only one fraction with a denominator up to 16500 lies between them.

  /** lo * 10^k <= 2^n <= hi * 10^k. */
  predicate Near(n: nat, k: nat, lo: nat, hi: nat)
  {
    lo * Pow(10, k) <= Pow(2, n) <= hi * Pow(10, k)
  }

  lemma NearProduct(n: nat, k: nat, lo: nat, hi: nat, n': nat, k': nat, lo': nat, hi': nat, t: nat, low: nat, high: nat)
    requires Near(n, k, lo, hi) && Near(n', k', lo', hi')
    requires low * Pow(10, t) <= lo * lo' && hi * hi' <= high * Pow(10, t)
    ensures Near(n + n', k + k' + t, low, high)
  {
    hide Pow;
    PowAdd(2, n, n');
    PowAdd(10, k, k');
    PowAdd(10, k + k', t);
    var p, q := Pow(10, k), Pow(10, k');
    Cross(lo, p, Pow(2, n), lo', q, Pow(2, n'), low, Pow(10, t), true);
    Cross(hi, p, Pow(2, n), hi', q, Pow(2, n'), high, Pow(10, t), false);
  }

  /** Two bounds multiplied and rounded off. */
  lemma Cross(a: nat, p: nat, x: nat, b: nat, q: nat, y: nat, c: nat, t: nat, below: bool)
    requires if below then a * p <= x && b * q <= y && c * t <= a * b else x <= a * p && y <= b * q && a * b <= c * t
    ensures if below then c * ((p * q) * t) <= x * y else x * y <= c * ((p * q) * t)
  {
    MulRotate(c, t, p * q);
    assert c * ((p * q) * t) == (c * t) * (p * q);
    Shuffle(a, b, p, q);
    MulLe(0, p, q);
    if below {
      MulLe(c * t, a * b, p * q);
      MulLe(a * p, x, b * q);
      MulLe(b * q, y, x);
    } else {
      MulLe(a * b, c * t, p * q);
      MulLe(x, a * p, y);
      MulLe(y, b * q, a * p);
    }
  }

  lemma Tens()
    ensures Pow(10, 0) == 1 && Pow(10, 3) == 1000 && Pow(10, 4) == 10000
    ensures Pow(10, 9) == 1000000000 && Pow(10, 10) == 10000000000
  {
  }

  lemma NearSmall()
    ensures Near(3, 0, 8, 8) && Near(10, 0, 1024, 1024)
  {
  }

  lemma Near93()
    ensures Near(10, 0, 1024, 1024) && Near(93, 18, 9903520288, 9903520328)
  {
    NearSmall();
    Tens();
    hide Pow, Near;
    NearProduct(10, 0, 1024, 1024, 10, 0, 1024, 1024, 0, 1048576, 1048576);
    NearProduct(20, 0, 1048576, 1048576, 20, 0, 1048576, 1048576, 3, 1099511627, 1099511628);
    NearProduct(40, 3, 1099511627, 1099511628, 40, 3, 1099511627, 1099511628, 9, 1208925817, 1208925821);
    NearProduct(80, 15, 1208925817, 1208925821, 10, 0, 1024, 1024, 3, 1237940036, 1237940041);
    NearProduct(3, 0, 8, 8, 90, 18, 1237940036, 1237940041, 0, 9903520288, 9903520328);
  }

  lemma Near485()
    ensures Near(196, 50, 1004336272, 1004336281) && Near(485, 136, 9989595219, 9989595448)
  {
    Near93();
    Tens();
    hide Pow, Near;
    NearProduct(93, 18, 9903520288, 9903520328, 93, 18, 9903520288, 9903520328, 10, 9807971409, 9807971489);
    NearProduct(186, 46, 9807971409, 9807971489, 10, 0, 1024, 1024, 4, 1004336272, 1004336281);
    NearProduct(196, 50, 1004336272, 1004336281, 196, 50, 1004336272, 1004336281, 9, 1008691347, 1008691366);
    NearProduct(392, 109, 1008691347, 1008691366, 93, 18, 9903520288, 9903520328, 9, 9989595219, 9989595448);
  }

  lemma Near2136(n: nat)
    requires n == 2136
    ensures Near(485, 136, 9989595219, 9989595448) && Near(n, 634, 1000162831, 1000162933)
  {
    Near485();
    Tens();
    hide Pow, Near;
    NearProduct(485, 136, 9989595219, 9989595448, 485, 136, 9989595219, 9989595448, 10, 9979201263, 9979201722);
    NearProduct(970, 282, 9979201263, 9979201722, 970, 282, 9979201263, 9979201722, 10, 9958445784, 9958446701);
    NearProduct(1940, 574, 9958445784, 9958446701, 196, 50, 1004336272, 1004336281, 10, 1000162831, 1000162933);
  }

  lemma Near13301(n: nat, k: nat)
    requires n == 13301 && k == 3994
    ensures Near(n, k, 9999358869, 9999365263)
  {
    hide Pow, Near;
    Near2136(2136);
    Tens();
    NearProduct(2136, 634, 1000162831, 1000162933, 2136, 634, 1000162831, 1000162933, 9, 1000325688, 1000325893);
    NearProduct(4272, 1277, 1000325688, 1000325893, 4272, 1277, 1000325688, 1000325893, 9, 1000651482, 1000651893);
    NearProduct(4272, 1277, 1000325688, 1000325893, 8544, 2563, 1000651482, 1000651893, 9, 1000977382, 1000977999);
    NearProduct(12816, 3849, 1000977382, 1000977999, 485, 136, 9989595219, 9989595448, 9, 9999358869, 9999365263);
  }

  /** 643/2136 is below log10(2), ... */
  lemma LowerFraction(n: nat, k: nat)
    requires n == 2136 && k == 643
    ensures Pow(10, k) <= Pow(2, n)
  {
    Tens();
    hide Pow;
    Near2136(n);
    PowAdd(10, k - 9, 9);
    MulLe(1000000000, 1000162831, Pow(10, k - 9));
  }

  /** ... 4004/13301 is above it, ... */
  lemma UpperFraction(n: nat, k: nat)
    requires n == 13301 && k == 4004
    ensures Pow(2, n) <= Pow(10, k)
  {
    Tens();
    hide Pow;
    Near13301(n, k - 10);
    PowAdd(10, k - 10, 10);
    MulLe(9999365263, 10000000000, Pow(10, k - 10));
  }

  /** ... and what lies between them, 4647/15437, is below. */
  lemma MiddleFraction(n: nat, k: nat)
    requires n == 15437 && k == 4647
    ensures Pow(10, k) <= Pow(2, n)
  {
    Tens();
    hide Pow;
    Near2136(2136);
    Near13301(13301, 3994);
    NearProduct(2136, 634, 1000162831, 1000162933, 13301, 3994, 9999358869, 9999365263, 10, 1000098707, 1000099449);
    PowAdd(10, k - 9, 9);
    MulLe(1000000000, 1000098707, Pow(10, k - 9));
  }

  lemma Between(n: nat, k: nat)
    requires n <= 16500 && 643 * n < 2136 * k && 13301 * k < 4004 * n
    ensures n == 15437 && k == 4647
  {
    assert n == 13301 * (2136 * k - 643 * n) + 2136 * (4004 * n - 13301 * k);
  }

  lemma {:induction false} PowBaseStrict(a: nat, b: nat, n: nat)
    requires a < b && n > 0
    ensures Pow(a, n) < Pow(b, n)
  {
    if n > 1 {
      PowBaseStrict(a, b, n - 1);
      MulLe(a, b, Pow(a, n - 1));
      MulLt(Pow(a, n - 1), Pow(b, n - 1), b);
    }
  }

  lemma PowSwap(b: nat, m: nat, n: nat)
    ensures Pow(Pow(b, m), n) == Pow(Pow(b, n), m)
  {
    PowMul(b, m, n);
    PowMul(b, n, m);
  }

  lemma PowerOfPower(b: nat, q: nat, n: nat, k: nat, p: nat)
    requires b > 0 && n * q <= p * k
    ensures Pow(Pow(b, q), n) <= Pow(Pow(b, k), p)
  {
    hide Pow;
    PowMul(b, q, n);
    PowMul(b, k, p);
    MulRotate(1, q, n);
    MulRotate(1, k, p);
    PowMonotone(b, Product(q, n), Product(k, p));
  }

  /** From a^p <= b^q to other powers of a and b whose exponents are no closer. */
  lemma Crossed(a: nat, p: nat, b: nat, q: nat, n: nat, k: nat)
    requires b > 0 && p > 0 && Pow(a, p) <= Pow(b, q) && n * q <= p * k
    ensures Pow(a, n) <= Pow(b, k)
  {
    hide Pow;
    PowSwap(a, n, p);
    PowBaseMonotone(Pow(a, p), Pow(b, q), n);
    PowerOfPower(b, q, n, k, p);
    if Pow(a, n) > Pow(b, k) { PowBaseStrict(Pow(b, k), Pow(a, n), p); }
  }

  /** a^n <= b^k for integers of either sign, over a common denominator. */
  predicate AtMost(a: nat, n: int, b: nat, k: int)
  {
    Up(a, n) * Up(b, -k) <= Up(b, k) * Up(a, -n)
  }

  lemma AtMostIs(a: nat, n: int, b: nat, k: int)
    requires a > 0 && b > 0
    requires n > 0 ==> k > 0 && Pow(a, n) <= Pow(b, k)
    requires n <= 0 && k < 0 ==> Pow(b, -k) <= Pow(a, -n)
    ensures AtMost(a, n, b, k)
  {
    if n <= 0 && k >= 0 { MulLe(1, Up(b, k), Up(a, -n)); }
  }

  // The estimate itself.

  const LOG10_2: real := 0.3010299956639812

  /** A value of the source's floating-point expression for a number of binary magnitude n. Its rounding errors
      stay far below the tolerance. */
  predicate Evaluated(r: real, n: int)
  {
    var exact := n as real * LOG10_2 - 0.0000000001;
    exact - 0.00000000001 <= r <= exact + 0.00000000001
  }

  /** Conversion to int drops the fraction. */
  function Truncated(r: real): int
  {
    if r >= 0.0 then r.Floor else -((-r).Floor)
  }

  function Estimate(r: real): int
  {
    var x := Truncated(r);
    if r > x as real then x + 1 else x
  }

  lemma EstimateIs(r: real, n: int)
    requires Evaluated(r, n)
    ensures RoundedUp(n, Estimate(r))
  {
    var x := Estimate(r);
    assert x as real - 1.0 < r <= x as real;
    assert (3010299956639812 * n) as real == 10000000000000000.0 * (n as real * LOG10_2);
  }

  const RANGE: int := 16500

  /** x is log10(2) * n rounded up, but for a trifle. */
  predicate RoundedUp(n: int, x: int)
  {
    3010299956639812 * n - 1100000 <= 10000000000000000 * x < 3010299956639812 * n - 900000 + 10000000000000000
  }

  /** 2^(n + 1) is at most 10^(x + 1), ... */
  lemma EstimateAbove(n: int, x: int)
    requires RoundedUp(n, x) && -RANGE <= n <= RANGE
    ensures AtMost(2, n + 1, 10, x + 1)
  {
    hide Pow, AtMost;
    if n + 1 > 0 {
      UpperFraction(13301, 4004);
      Crossed(2, 13301, 10, 4004, n + 1, x + 1);
    } else if x + 1 < 0 {
      LowerFraction(2136, 643);
      Crossed(10, 643, 2, 2136, -x - 1, -n - 1);
    }
    AtMostIs(2, n + 1, 10, x + 1);
  }

  /** ... and 2^n at least 10^(x - 1). */
  lemma EstimateBelow(n: int, x: int)
    requires RoundedUp(n, x) && -RANGE <= n <= RANGE
    ensures AtMost(10, x - 1, 2, n)
  {
    hide Pow, AtMost;
    if x - 1 > 0 {
      if 2136 * (x - 1) <= 643 * n {
        LowerFraction(2136, 643);
        Crossed(10, 643, 2, 2136, x - 1, n);
      } else {
        Between(n, x - 1);
        MiddleFraction(n, x - 1);
      }
    } else if n < 0 {
      UpperFraction(13301, 4004);
      Crossed(2, 13301, 10, 4004, -n, 1 - x);
    }
    AtMostIs(10, x - 1, 2, n);
  }

  /** Ten to the estimate minus one is at most f * 2^e. */
  predicate EstimateNear(f: nat, e: int, x: int)
  {
    Unit(e, x) <= 10 * Product(4 * f, Quarter(e, x))
  }

  /** 10^(x - 1) <= f * 2^e, and with the upper end of its interval it is below 10^(x + 1), as the comment on the
      estimate has it; n + 1 is the binary exponent of the highest bit. */
  lemma EstimateRight(f: nat, e: int, bits: nat, r: real)
    requires bits > 0 && Pow(2, bits - 1) <= f < Pow(2, bits)
    requires -RANGE <= e + bits - 1 <= RANGE && Evaluated(r, e + bits - 1)
    ensures var x := Estimate(r); EstimateHolds(f, e, x, true) && EstimateNear(f, e, x) && (e >= 0 ==> x >= 0)
  {
    var n, x := e + bits - 1, Estimate(r);
    EstimateIs(r, n);
    hide Pow, Up, Estimate;
    EstimateAbove(n, x);
    EstimateBelow(n, x);
    UpperBound(f, e, bits, x);
    LowerBound(f, e, bits, x);
  }

  lemma UpperBound(f: nat, e: int, bits: nat, x: int)
    requires bits > 0 && f < Pow(2, bits) && AtMost(2, e + bits, 10, x + 1)
    ensures EstimateHolds(f, e, x, true)
  {
    UpShift(2, e + bits, bits + 2);
    UpShift(10, x + 1, 1);
    FourTimesPower(bits);
    TenOnce();
    hide Pow, Up;
    BoundFactors(4 * Pow(2, bits), Up(2, e + bits), Up(2, -(e + bits)), Up(2, e - 2), Up(2, 2 - e),
                 10, Up(10, x + 1), Up(10, -(x + 1)), Up(10, x), Up(10, -x));
    MulLt(4 * f + 2, 4 * Pow(2, bits), Quarter(e, x));
  }

  lemma FourTimesPower(bits: nat)
    ensures Pow(2, bits + 2) == 4 * Pow(2, bits)
  {
  }

  lemma TenOnce()
    ensures Pow(10, 1) == 10
  {
  }

  /** An inequality of two powers, moved to the units of the estimate. */
  lemma BoundFactors(p: nat, a: nat, a': nat, b: nat, b': nat, t: nat, c: nat, c': nat, d: nat, d': nat)
    requires a' > 0 && c' > 0
    requires a * b' == p * (a' * b) && c * d' == t * (c' * d) && a * c' <= c * a'
    ensures p * (b * d') <= t * (d * b')
  {
    var k := Product(a', c');
    SixFactors(p, a', b, a, b', c', d');
    SixFactors(t, c', d, c, d', a', b');
    MulRotate(a', c', 1);
    MulLe(0, b', d');
    MulLe(a * c', c * a', b' * d');
    MulCancel(t * (d * b'), p * (b * d'), k);
  }

  lemma SixFactors(p: int, a': int, b: int, a: int, b': int, c': int, d': int)
    requires a * b' == p * (a' * b)
    ensures (p * (b * d')) * (a' * c') == (a * c') * (b' * d')
  {
    assert (p * (b * d')) * (a' * c') == (p * (a' * b)) * (d' * c') by {
      MulAssoc(p, b * d', a' * c');
      Swapped(b, d', a', c');
      MulAssoc(p, a' * b, d' * c');
    }
    Swapped(a, b', c', d');
    assert d' * c' == c' * d';
  }

  lemma Swapped(x: int, y: int, z: int, w: int)
    ensures (x * y) * (z * w) == (z * x) * (y * w) && (x * y) * (z * w) == (x * z) * (y * w)
  {
    MulAssoc(x, y, z * w);
    MulRotate(y, z, w);
    MulAssoc(x, z, y * w);
  }

  lemma LowerBound(f: nat, e: int, bits: nat, x: int)
    requires bits > 0 && Pow(2, bits - 1) <= f && AtMost(10, x - 1, 2, e + bits - 1)
    ensures EstimateNear(f, e, x)
  {
    var n := e + bits - 1;
    UpShift(2, n, bits + 1);
    UpShift(10, x, 1);
    FourTimesPower(bits - 1);
    TenOnce();
    hide Pow, Up;
    BoundFactors(1, Up(10, x - 1), Up(10, 1 - x), Up(10, x), 10 * Up(10, -x),
                 4 * Pow(2, bits - 1), Up(2, n), Up(2, -n), Up(2, e - 2), Up(2, 2 - e));
    MulRotate(4 * Pow(2, bits - 1), Up(2, e - 2), 10 * Up(10, -x));
    MulLe(4 * Pow(2, bits - 1), 4 * f, Quarter(e, x));
    RegroupTen(4 * Pow(2, bits - 1), Up(2, e - 2), Up(10, -x));
  }

  lemma RegroupTen(p: nat, q: nat, t: nat)
    ensures p * (q * (10 * t)) == 10 * (p * (q * t))
  {
    assert q * (10 * t) == 10 * (q * t);
    MulRotate(10, p, q * t);
  }

  /** x is the estimate for f * 2^e, whose significand has that many bits. */
  ghost predicate EstimatedAs(f: nat, e: int, bits: nat, x: int)
  {
    bits > 0 && Pow(2, bits - 1) <= f < Pow(2, bits) && forall r :: Evaluated(r, e + bits - 1) ==> Estimate(r) == x
  }

  lemma EstimatedOnce(f: nat, e: int, bits: nat, x: int)
    requires bits > 0 && Pow(2, bits - 1) <= f < Pow(2, bits)
    requires var n := e + bits - 1;
             3010299956639812 * n <= 10000000000000000 * x < 3010299956639812 * n + 9999999998000000
    ensures EstimatedAs(f, e, bits, x)
  {
    hide Pow, Evaluated, Estimate;
    forall r | Evaluated(r, e + bits - 1) ensures Estimate(r) == x {
      EstimateIs(r, e + bits - 1);
    }
  }

  lemma BinaryPowers()
    ensures Pow(2, 52) == 0x10_0000_0000_0000 && Pow(2, 53) == 0x20_0000_0000_0000
    ensures Pow(2, 75) == 0x800_0000_0000_0000_0000 && Pow(2, 76) == 0x1000_0000_0000_0000_0000
    ensures Pow(2, 112) == 0x1_0000_0000_0000_0000_0000_0000_0000
    ensures Pow(2, 113) == 0x2_0000_0000_0000_0000_0000_0000_0000
  {
    SmallPowersOfTwo();
    hide Pow;
    PowSum(2, 13, 13, 0x2000, 0x2000, 0x400_0000);
    PowSum(2, 26, 26, 0x400_0000, 0x400_0000, 0x10_0000_0000_0000);
    PowSum(2, 52, 1, 0x10_0000_0000_0000, 0x2, 0x20_0000_0000_0000);
    PowSum(2, 13, 9, 0x2000, 0x200, 0x40_0000);
    PowSum(2, 53, 22, 0x20_0000_0000_0000, 0x40_0000, 0x800_0000_0000_0000_0000);
    PowSum(2, 75, 1, 0x800_0000_0000_0000_0000, 0x2, 0x1000_0000_0000_0000_0000);
    PowSum(2, 26, 10, 0x400_0000, 0x400, 0x10_0000_0000);
    PowSum(2, 76, 36, 0x1000_0000_0000_0000_0000, 0x10_0000_0000, 0x1_0000_0000_0000_0000_0000_0000_0000);
    PowSum(2, 112, 1, 0x1_0000_0000_0000_0000_0000_0000_0000, 0x2, 0x2_0000_0000_0000_0000_0000_0000_0000);
  }

  lemma SmallPowersOfTwo()
    ensures Pow(2, 1) == 2 && Pow(2, 9) == 0x200 && Pow(2, 10) == 0x400 && Pow(2, 13) == 0x2000
  {
  }
}
