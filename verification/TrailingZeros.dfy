/** `remove_trailing_zeros` (fmt/format-inl.h): trailing decimal zeros removed by multiplication with
    modular inverses. Machine words are natural numbers below the word's modulus, and every wrap-around
    is written out. */
module TrailingZeros {
  import opened Powers

  /** How many zeros n ends in. */
  function Zeros(n: nat): nat
    requires n > 0
  {
    if n % 10 == 0 then 1 + Zeros(n / 10) else 0
  }

  /** n without them. */
  function Stripped(n: nat): (r: nat)
    requires n > 0
    ensures r > 0
  {
    if n % 10 == 0 then Stripped(n / 10) else n
  }

  /** n is m with z zeros behind it. */
  predicate Padded(n: nat, m: nat, z: nat)
  {
    n == m * Pow(10, z)
  }

  lemma {:induction false} StrippedIs(n: nat)
    requires n > 0
    ensures Padded(n, Stripped(n), Zeros(n)) && Stripped(n) % 10 != 0
  {
    if n % 10 == 0 {
      StrippedIs(n / 10);
      assert n == 10 * (n / 10);
      TenTimes(Stripped(n), Pow(10, Zeros(n / 10)));
    }
  }

  lemma TenTimes(m: nat, p: nat)
    ensures 10 * (m * p) == m * (10 * p)
  {
  }

  lemma OneMoreZero(n: nat)
    requires n > 0
    ensures Zeros(10 * n) == 1 + Zeros(n) && Stripped(10 * n) == Stripped(n)
  {
  }

  /** ... and that decomposition is the only one. */
  lemma {:induction false} StrippedUnique(n: nat, m: nat, z: nat)
    requires Padded(n, m, z) && m % 10 != 0
    ensures n > 0 && m == Stripped(n) && z == Zeros(n)
    decreases z
  {
    if z > 0 {
      var n' := m * Pow(10, z - 1);
      TenTimes(m, Pow(10, z - 1));
      MulLe(0, m, Pow(10, z - 1));
      StrippedUnique(n', m, z - 1);
      OneMoreZero(n');
    }
  }

  /** Bitwise or. */
  function Or(a: nat, b: nat): nat
  {
    if a == 0 then b else if b == 0 then a
    else 2 * Or(a / 2, b / 2) + if a % 2 == 1 || b % 2 == 1 then 1 else 0
  }

  /** Of numbers that share no bit it is the sum. */
  lemma {:induction false} OrDisjoint(a: nat, c: nat, k: nat)
    requires a < Pow(2, k)
    ensures Or(a, Product(c, Pow(2, k))) == a + Product(c, Pow(2, k))
    decreases k
  {
    var b := Product(c, Pow(2, k));
    if a > 0 && b > 0 {
      MulRotate(2, Pow(2, k - 1), c);
      assert b == 2 * Product(c, Pow(2, k - 1));
      hide Pow;
      OrDisjoint(a / 2, c, k - 1);
    }
  }

  /** Rotation of a word of the given number of bits to the right; the left shift drops what leaves the word. */
  function Rotr(n: nat, r: nat, bits: nat): (q: nat)
    requires 0 < r < bits
  {
    Or(n / Pow(2, r), n * Pow(2, bits - r) % Pow(2, bits))
  }

  /** The left-shifted part holds the bits that fell off on the right. */
  lemma RotrIs(n: nat, r: nat, bits: nat)
    requires 0 < r < bits && n < Pow(2, bits)
    ensures Rotr(n, r, bits) == n / Pow(2, r) + Product(n % Pow(2, r), Pow(2, bits - r))
  {
    hide Pow, Or;
    PowAdd(2, r, bits - r);
    ShiftedLeft(n, Pow(2, r), Pow(2, bits - r));
    ShiftedRight(n, Pow(2, r), Pow(2, bits - r));
    OrDisjoint(n / Pow(2, r), n % Pow(2, r), bits - r);
  }

  lemma ShiftedRight(n: nat, low: nat, high: nat)
    requires low > 0 && n < low * high
    ensures n / low < high
  {
    assert (n / low) * low <= n;
    if n / low >= high { MulLe(high, n / low, low); }
  }

  lemma ShiftedLeft(n: nat, low: nat, high: nat)
    requires low > 0 && high > 0
    ensures low * high > 0 && n * high % (low * high) == Product(n % low, high)
  {
    var q, t := n / low, n % low;
    MulLt(0, low, high);
    MulDistributes(q * low, t, high);
    MulAssoc(q, low, high);
    MulLt(t, low, high);
    DivModUnique(n * high, low * high, q, Product(t, high));
  }

  /** Multiplying by the inverse of odd undoes a multiplication by odd, modulo w. */
  lemma InverseUndoes(n: nat, inv: nat, odd: nat, w: nat)
    requires w > 0 && n < w && inv * odd % w == 1
    ensures (n * inv % w) * odd % w == n
  {
    var a, b := n * inv / w, inv * odd / w;
    var p := n * inv % w;
    MulDistributes(n * inv, a * w, odd);
    MulAssoc(n, inv, odd);
    MulDistributes(b * w, 1, n);
    MulAssoc(n, b, w);
    MulAssoc(a, w, odd);
    MulAssoc(a, odd, w);
    MulDistributes(n * b, a * odd, w);
    assert p * odd == (n * b - a * odd) * w + n;
    DivModUnique(p * odd, w, n * b - a * odd, n);
  }

  /** For a multiple the product with the inverse is the power-of-two part of the quotient. */
  lemma InverseOfMultiple(k: nat, inv: nat, odd: nat, two: nat, w: nat)
    requires w > 0 && inv * odd % w == 1 && k * two < w
    ensures ((k * two) * odd) * inv % w == k * two
  {
    var b, t := inv * odd / w, k * two;
    MulAssoc(t, odd, inv);
    MulDistributes(b * w, 1, t);
    MulAssoc(t, b, w);
    DivModUnique((t * odd) * inv, w, t * b, t);
  }

  /** A rotated product as the source forms it, with two = 2^r and high = 2^(bits - r). */
  predicate Candidate(q: nat, n: nat, inv: nat, two: nat, high: nat, w: nat)
    requires w > 0 && two > 0
  {
    var p := n * inv % w;
    q == p / two + Product(p % two, high)
  }

  /** A candidate within the limit is the exact quotient. */
  lemma SmallCandidate(q: nat, n: nat, inv: nat, odd: nat, two: nat, high: nat, w: nat, limit: nat)
    requires two > 0 && odd > 0 && w > n && inv * odd % w == 1 && Candidate(q, n, inv, two, high, w)
    requires limit < high && limit * (two * odd) < w && q <= limit
    ensures n == q * (two * odd)
  {
    var p := n * inv % w;
    if p % two >= 1 {
      MulLe(1, p % two, high);
    }
    assert p % two == 0;
    assert p == q * two;
    InverseUndoes(n, inv, odd, w);
    MulAssoc(q, two, odd);
    MulLe(q, limit, two * odd);
    NatTimes(p, odd);
    DivModUnique(p * odd, w, 0, p * odd);
  }

  lemma NatTimes(a: nat, b: nat)
    ensures a * b >= 0
  {
  }

  /** The candidate of a multiple is its quotient. */
  lemma CandidateOfMultiple(q: nat, k: nat, n: nat, inv: nat, odd: nat, two: nat, high: nat, w: nat)
    requires two > 0 && odd > 0 && w > n && inv * odd % w == 1 && Candidate(q, n, inv, two, high, w)
    requires n == k * (two * odd)
    ensures q == k
  {
    MulAssoc(k, two, odd);
    NatTimes(k, two);
    MulLe(1, odd, k * two);
    InverseOfMultiple(k, inv, odd, two, w);
    DivModUnique(k * two, two, k, 0);
    assert n * inv % w == k * two;
  }

  /** The divisibility test: the rotated product is small exactly on the multiples, and is then the
      quotient. */
  lemma ExactQuotient(q: nat, n: nat, inv: nat, odd: nat, two: nat, high: nat, w: nat, d: nat, limit: nat)
    requires two > 0 && odd > 0 && d == two * odd > 0 && w > n && inv * odd % w == 1
    requires limit == (w - 1) / d < high && Candidate(q, n, inv, two, high, w)
    ensures q <= limit <==> n % d == 0
    ensures q <= limit ==> n == q * d
  {
    hide Candidate;
    LimitBelow(w - 1, d);
    if q <= limit {
      SmallCandidate(q, n, inv, odd, two, high, w, limit);
      DivModUnique(n, d, q, 0);
    } else if n % d == 0 {
      ExactDivision(n, d);
      CandidateOfMultiple(q, n / d, n, inv, odd, two, high, w);
      QuotientsInOrder(n, w - 1, d);
    }
  }

  lemma LimitBelow(n: nat, d: nat)
    requires d > 0
    ensures n / d * d <= n
  {
  }

  lemma ExactDivision(n: nat, d: nat)
    requires d > 0 && n % d == 0
    ensures n == n / d * d
  {
  }

  lemma QuotientsInOrder(m: nat, n: nat, d: nat)
    requires m <= n && d > 0
    ensures m / d <= n / d
  {
    if n / d < m / d { MulLe(n / d + 1, m / d, d); }
  }

  /** The two word widths, with the constants of each overload. */
  datatype Width = W32 | W64
  {
    function Bits(): nat { if W32? then 32 else 64 }
    function Modulus(): nat { if W32? then 0x1_0000_0000 else 0x1_0000_0000_0000_0000 }
    function ModInv5(): nat { if W32? then 0xCCCC_CCCD else 0xCCCC_CCCC_CCCC_CCCD }
    function ModInv25(): nat { if W32? then 0xC28F_5C29 else 0x8F5C_28F5_C28F_5C29 }
  }

  lemma WidthPowers()
    ensures Pow(2, 32) == 0x1_0000_0000 && Pow(2, 31) == 0x8000_0000 && Pow(2, 30) == 0x4000_0000
    ensures Pow(2, 64) == 0x1_0000_0000_0000_0000 && Pow(2, 63) == 0x8000_0000_0000_0000
    ensures Pow(2, 62) == 0x4000_0000_0000_0000 && Pow(2, 1) == 2 && Pow(2, 2) == 4
  {
    assert Pow(2, 15) == 0x8000;
    PowAdd(2, 15, 15);
    PowAdd(2, 30, 1);
    PowAdd(2, 31, 1);
    PowAdd(2, 31, 31);
    PowAdd(2, 62, 1);
    PowAdd(2, 63, 1);
  }

  /** The rotated product by which the loop divides by 100. */
  function Hundredth(n: nat, width: Width): nat
  {
    Rotr(n * width.ModInv25() % width.Modulus(), 2, width.Bits())
  }

  /** ... and the one that divides by 10. */
  function Tenth(n: nat, width: Width): nat
  {
    Rotr(n * width.ModInv5() % width.Modulus(), 1, width.Bits())
  }

  /** Both tests, for a word of the given width. */
  lemma RotatedTest(n: nat, inv: nat, odd: nat, r: nat, bits: nat, w: nat, d: nat)
    requires 0 < r < bits && w == Pow(2, bits) > n && odd > 0 && d == Pow(2, r) * odd > 0 && inv * odd % w == 1
    requires (w - 1) / d < Pow(2, bits - r)
    ensures var q := Rotr(n * inv % w, r, bits);
            (q <= (w - 1) / d <==> n % d == 0) && (q <= (w - 1) / d ==> n == q * d)
  {
    hide Pow, Rotr;
    var q := Rotr(n * inv % w, r, bits);
    RotrIs(n * inv % w, r, bits);
    ExactQuotient(q, n, inv, odd, Pow(2, r), Pow(2, bits - r), w, d, (w - 1) / d);
  }

  lemma HundredTest(n: nat, width: Width)
    requires n < width.Modulus()
    ensures Hundredth(n, width) <= (width.Modulus() - 1) / 100 <==> n % 100 == 0
    ensures Hundredth(n, width) <= (width.Modulus() - 1) / 100 ==> n == Hundredth(n, width) * 100
  {
    WidthPowers();
    hide Pow, Rotr;
    if width.W32? {
      RotatedTest(n, 0xC28F_5C29, 25, 2, 32, 0x1_0000_0000, 100);
    } else {
      RotatedTest(n, 0x8F5C_28F5_C28F_5C29, 25, 2, 64, 0x1_0000_0000_0000_0000, 100);
    }
  }

  lemma TenTest(n: nat, width: Width)
    requires n < width.Modulus()
    ensures Tenth(n, width) <= (width.Modulus() - 1) / 10 <==> n % 10 == 0
    ensures Tenth(n, width) <= (width.Modulus() - 1) / 10 ==> n == Tenth(n, width) * 10
  {
    WidthPowers();
    hide Pow, Rotr;
    if width.W32? {
      RotatedTest(n, 0xCCCC_CCCD, 5, 1, 32, 0x1_0000_0000, 10);
    } else {
      RotatedTest(n, 0xCCCC_CCCC_CCCC_CCCD, 5, 1, 64, 0x1_0000_0000_0000_0000, 10);
    }
  }

  lemma TwoZerosOff(n: nat, q: nat)
    requires n > 0 && n == q * 100
    ensures 0 < q < n && Zeros(n) == Zeros(q) + 2 && Stripped(n) == Stripped(q)
  {
    OneMoreZero(q);
    OneMoreZero(10 * q);
  }

  lemma LastZeroOff(n: nat, q: nat)
    requires n > 0 && n == q * 10 && n % 100 != 0
    ensures q > 0 && Zeros(n) == 1 && Stripped(n) == q
  {
    OneMoreZero(q);
  }

  /** s | 1. */
  function OrOne(s: nat): nat
  {
    if s % 2 == 0 then s + 1 else s
  }

  /** The zeros, counted on from s: `s |= 1` counts the last single zero only when s is even. */
  function Counted(s: nat, zeros: nat): nat
  {
    if zeros % 2 == 0 then s + zeros else OrOne(s + zeros - 1)
  }

  lemma CountedFromEven(s: nat, zeros: nat)
    requires s % 2 == 0
    ensures Counted(s, zeros) == s + zeros
  {
  }

  /** The loop both overloads share: two zeros at a time, then a last one. */
  method StripZeros(n: nat, s: nat, width: Width) returns (m: nat, count: nat)
    requires 0 < n < width.Modulus()
    ensures m == Stripped(n) && count == Counted(s, Zeros(n))
  {
    hide Hundredth, Tenth, Zeros, Stripped, Counted, OrOne;
    m, count := n, s;
    ghost var pairs := 0;
    while true
      invariant 0 < m <= n && Stripped(m) == Stripped(n)
      invariant pairs >= 0 && count == s + 2 * pairs && Zeros(n) == Zeros(m) + 2 * pairs
      decreases m
    {
      var q := Hundredth(m, width);
      HundredTest(m, width);
      if q > (width.Modulus() - 1) / 100 { break; }
      TwoZerosOff(m, q);
      m := q;
      count := count + 2;
      pairs := pairs + 1;
    }
    CountedOn(s, pairs);
    var q := Tenth(m, width);
    TenTest(m, width);
    if q <= (width.Modulus() - 1) / 10 {
      LastZeroOff(m, q);
      m := q;
      count := OrOne(count);
    } else {
      NoZeros(m);
    }
  }

  lemma NoZeros(n: nat)
    requires n % 10 != 0
    ensures Zeros(n) == 0 && Stripped(n) == n
  {
  }

  lemma CountedOn(s: nat, pairs: nat)
    ensures Counted(s, 2 * pairs) == s + 2 * pairs && Counted(s, 2 * pairs + 1) == OrOne(s + 2 * pairs)
  {
  }

  /** The 32-bit overload. */
  method RemoveTrailingZeros32(n: nat, s: nat) returns (m: nat, count: nat)
    requires 0 < n < 0x1_0000_0000
    ensures Padded(n, m, Zeros(n)) && m % 10 != 0
    ensures count == Counted(s, Zeros(n)) && (s % 2 == 0 ==> count == s + Zeros(n))
  {
    hide Padded, Zeros, Stripped, Counted;
    m, count := StripZeros(n, s, W32);
    StrippedIs(n);
    if s % 2 == 0 { CountedFromEven(s, Zeros(n)); }
  }

  const LOW: nat := 0x1_0000_0000
  const WORD: nat := 0x1_0000_0000_0000_0000

  lemma HalfProducts(a: nat, b: nat, c: nat, d: nat)
    ensures (a * LOW + b) * (c * LOW + d) == (a * c) * WORD + (a * d + b * c) * LOW + b * d
  {
    MulDistributes(a * LOW, b, c * LOW + d);
    assert (a * LOW) * (c * LOW + d) == (a * c) * WORD + (a * d) * LOW;
    assert b * (c * LOW + d) == (b * c) * LOW + b * d;
  }

  lemma HalfProductBound(a: nat, c: nat)
    requires a < LOW && c < LOW
    ensures 0 <= a * c <= (LOW - 1) * (LOW - 1)
  {
    MulLe(a, LOW - 1, c);
    MulLe(c, LOW - 1, LOW - 1);
    NatTimes(a, c);
  }

  /** The portable `umul128` (fmt/format.h): no partial sum leaves its 64-bit word. */
  method Umul128(x: nat, y: nat) returns (high: nat, low: nat)
    requires x < WORD && y < WORD
    ensures high * WORD + low == x * y && high < WORD && low < WORD
  {
    var a, b, c, d := x / LOW, x % LOW, y / LOW, y % LOW;
    HalfProductBound(a, c);
    HalfProductBound(b, c);
    HalfProductBound(a, d);
    HalfProductBound(b, d);
    HalfProducts(a, b, c, d);
    var ac, bc, ad, bd := a * c, b * c, a * d, b * d;
    high, low := JoinHalves(ac, bc, ad, bd);
  }

  /** The sums of the partial products, each within its 64-bit type; `<<` drops what leaves the word. */
  method JoinHalves(ac: nat, bc: nat, ad: nat, bd: nat) returns (high: nat, low: nat)
    requires ac <= (LOW - 1) * (LOW - 1) && bc <= (LOW - 1) * (LOW - 1)
    requires ad <= (LOW - 1) * (LOW - 1) && bd <= (LOW - 1) * (LOW - 1)
    ensures high * WORD + low == ac * WORD + (ad + bc) * LOW + bd && high < WORD && low < WORD
  {
    var mid := (bd / LOW + ad % LOW + bc % LOW) % WORD;
    low := (mid * LOW % WORD + bd % LOW) % WORD;
    high := (ac + mid / LOW + ad / LOW + bc / LOW) % WORD;
    Joined(ac, bc, ad, bd);
  }

  lemma Joined(ac: nat, bc: nat, ad: nat, bd: nat)
    requires ac <= (LOW - 1) * (LOW - 1) && bc <= (LOW - 1) * (LOW - 1)
    requires ad <= (LOW - 1) * (LOW - 1) && bd <= (LOW - 1) * (LOW - 1)
    ensures var mid := (bd / LOW + ad % LOW + bc % LOW) % WORD;
            var low := (mid * LOW % WORD + bd % LOW) % WORD;
            var high := (ac + mid / LOW + ad / LOW + bc / LOW) % WORD;
            high * WORD + low == ac * WORD + (ad + bc) * LOW + bd && high < WORD && low < WORD
  {
    var mid := bd / LOW + ad % LOW + bc % LOW;
    Halves(bc);
    Halves(ad);
    Halves(bd);
    MiddleFits(bd / LOW, ad % LOW, bc % LOW);
    HighSumFits(ac, mid / LOW, ad / LOW, bc / LOW);
    LowHalf(mid, bd % LOW);
    Unwrapped(mid, ac + mid / LOW + ad / LOW + bc / LOW);
    JoinedValue(ac, bc, ad, bd, mid);
  }

  lemma Unwrapped(a: nat, b: nat)
    requires a < WORD && b < WORD
    ensures a % WORD == a && b % WORD == b
  {
  }

  lemma Halves(p: nat)
    requires p <= (LOW - 1) * (LOW - 1)
    ensures p / LOW <= LOW - 2 && p % LOW < LOW
  {
  }

  lemma MiddleFits(x: nat, y: nat, z: nat)
    requires x < LOW && y < LOW && z < LOW
    ensures x + y + z < WORD && (x + y + z) / LOW <= 2
  {
  }

  /** The largest high half there is: exactly the word's maximum. */
  lemma HighSumFits(ac: nat, mid: nat, ad: nat, bc: nat)
    requires ac <= (LOW - 1) * (LOW - 1) && mid <= 2 && ad <= LOW - 2 && bc <= LOW - 2
    ensures ac + mid + ad + bc < WORD
  {
  }

  lemma LowHalf(mid: nat, rest: nat)
    requires rest < LOW
    ensures (mid * LOW % WORD + rest) % WORD == mid % LOW * LOW + rest < WORD
  {
    assert mid * LOW == (mid / LOW) * WORD + mid % LOW * LOW;
    DivModUnique(mid * LOW, WORD, mid / LOW, mid % LOW * LOW);
  }

  lemma JoinedValue(ac: nat, bc: nat, ad: nat, bd: nat, mid: nat)
    requires mid == bd / LOW + ad % LOW + bc % LOW
    ensures (ac + mid / LOW + ad / LOW + bc / LOW) * WORD + (mid % LOW * LOW + bd % LOW) ==
            ac * WORD + (ad + bc) * LOW + bd
  {
  }

  /** ceil(2^90 / 10^8). */
  const MAGIC: nat := 12379400392853802749
  const EIGHT_ZEROS: nat := 1_0000_0000
  const TWO26: nat := 0x400_0000
  const TWO90: nat := 0x4000000_00000000_00000000

  /** What the magic number is too large by, times 10^8. */
  const SLACK: nat := 875776

  lemma MagicProduct(n: nat, k: nat, r: nat)
    requires n == k * EIGHT_ZEROS + r
    ensures n * MAGIC == k * TWO90 + (k * SLACK + r * MAGIC)
  {
  }

  /** Within 64 bits the slack never adds up to the magic number. */
  lemma MagicRemainder(n: nat, k: nat, r: nat)
    requires n < WORD && n == k * EIGHT_ZEROS + r && r < EIGHT_ZEROS
    ensures k * SLACK + r * MAGIC < TWO90
    ensures k * SLACK + r * MAGIC < MAGIC <==> r == 0
  {
  }

  lemma HighBits(high: nat, low: nat, k: nat, t: nat)
    requires high * WORD + low == k * TWO90 + t && low < WORD && t < TWO90
    ensures high / TWO26 == k && (high % TWO26) * WORD + low == t
  {
    var a, b := high / TWO26, high % TWO26;
    assert high * WORD + low == a * TWO90 + (b * WORD + low);
    DivModUnique(k * TWO90 + t, TWO90, k, t);
    DivModUnique(k * TWO90 + t, TWO90, a, b * WORD + low);
  }

  /** The divisibility test by multiplication: right for every 64-bit word. */
  lemma MagicTest(n: nat, high: nat, low: nat)
    requires n < WORD && high * WORD + low == n * MAGIC && low < WORD
    ensures high % TWO26 == 0 && low < MAGIC <==> n % EIGHT_ZEROS == 0
    ensures high / TWO26 == n / EIGHT_ZEROS
  {
    var k, r := n / EIGHT_ZEROS, n % EIGHT_ZEROS;
    MagicProduct(n, k, r);
    MagicRemainder(n, k, r);
    HighBits(high, low, k, k * SLACK + r * MAGIC);
  }

  /** What the 64-bit overload works on: of a multiple of 10^8 only 32 bits of the quotient. */
  function Kept(n: nat): nat
  {
    if n % EIGHT_ZEROS == 0 then n % (LOW * EIGHT_ZEROS) else n
  }

  lemma KeptIs(n: nat)
    ensures Kept(n) == n <==> n < LOW * EIGHT_ZEROS || n % EIGHT_ZEROS != 0
    ensures n % EIGHT_ZEROS == 0 ==> Kept(n) == n / EIGHT_ZEROS % LOW * EIGHT_ZEROS
  {
    if n % EIGHT_ZEROS == 0 {
      var k := n / EIGHT_ZEROS;
      assert n == (k / LOW) * (LOW * EIGHT_ZEROS) + k % LOW * EIGHT_ZEROS;
      DivModUnique(n, LOW * EIGHT_ZEROS, k / LOW, k % LOW * EIGHT_ZEROS);
    }
  }

  lemma KeptNonzero(n: nat)
    requires n % (LOW * EIGHT_ZEROS) != 0
    ensures n > 0 && (n % EIGHT_ZEROS == 0 ==> n / EIGHT_ZEROS % LOW > 0) && (n % EIGHT_ZEROS != 0 ==> Kept(n) == n)
  {
    KeptIs(n);
  }

  lemma EightMore(n: nat, k: nat, m: nat, z: nat)
    requires Padded(k, m, z) && n == k * EIGHT_ZEROS
    ensures Padded(n, m, 8 + z)
  {
    PowAdd(10, z, 8);
    assert Pow(10, 8) == EIGHT_ZEROS;
    MulAssoc(m, Pow(10, z), EIGHT_ZEROS);
  }

  /** The test for a multiple of 10^8, with the quotient cast to 32 bits. */
  method DivideByMagic(n: nat) returns (divisible: bool, n32: nat)
    requires n < WORD
    ensures divisible <==> n % EIGHT_ZEROS == 0
    ensures n32 == n / EIGHT_ZEROS % LOW
  {
    var high, low := Umul128(n, MAGIC);
    MagicTest(n, high, low);
    divisible := high % TWO26 == 0 && low < MAGIC;
    n32 := high / TWO26 % LOW;
  }

  lemma PaddedOnce(a: nat, b: nat, m: nat, z: nat)
    requires Padded(b, m, z)
    ensures Padded(a, m, z) <==> a == b
  {
  }

  /** The 64-bit overload. A multiple of 2^32 * 10^8 would break the 32-bit overload's own assertion. The
      result is that of n exactly when the quotient by 10^8 is not taken or fits in 32 bits. */
  method RemoveTrailingZeros64(n: nat) returns (m: nat, count: nat)
    requires n < WORD && n % (LOW * EIGHT_ZEROS) != 0
    ensures Padded(Kept(n), m, count) && m % 10 != 0
    ensures Padded(n, m, count) <==> n < LOW * EIGHT_ZEROS || n % EIGHT_ZEROS != 0
  {
    hide Padded, Zeros, Stripped, Kept, Counted;
    KeptIs(n);
    KeptNonzero(n);
    var divisible, n32 := DivideByMagic(n);
    if divisible {
      m, count := RemoveTrailingZeros32(n32, 8);
      EightMore(Kept(n), n32, m, Zeros(n32));
    } else {
      m, count := StripZeros(n, 0, W64);
      StrippedIs(n);
      CountedFromEven(0, Zeros(n));
    }
    PaddedOnce(n, Kept(n), m, count);
  }
}
