/** Powers of natural numbers and the few multiplication facts the exact arithmetic rests on. */
module Powers {

  function Pow(b: nat, n: nat): (r: nat)
    ensures b > 0 ==> r > 0
  {
    if n == 0 then 1 else b * Pow(b, n - 1)
  }

  lemma {:induction false} PowAdd(b: nat, m: nat, n: nat)
    ensures Pow(b, m + n) == Pow(b, m) * Pow(b, n)
  {
    if m == 0 {
    } else {
      PowAdd(b, m - 1, n);
      MulAssoc(b, Pow(b, m - 1), Pow(b, n));
    }
  }

  /** The same for powers that are known. */
  lemma PowSum(b: nat, m: nat, n: nat, x: nat, y: nat, z: nat)
    requires Pow(b, m) == x && Pow(b, n) == y && x * y == z
    ensures Pow(b, m + n) == z
  {
    PowAdd(b, m, n);
  }

  lemma {:induction false} PowMul(b: nat, m: nat, n: nat)
    ensures Pow(Pow(b, m), n) == Pow(b, m * n)
  {
    if n == 0 {
    } else {
      PowMul(b, m, n - 1);
      assert m + m * (n - 1) == m * n;
      PowAdd(b, m, m * (n - 1));
    }
  }

  lemma {:induction false} PowDistributes(a: nat, b: nat, n: nat)
    ensures Pow(a * b, n) == Pow(a, n) * Pow(b, n)
  {
    if n == 0 {
    } else {
      PowDistributes(a, b, n - 1);
      Shuffle(a, b, Pow(a, n - 1), Pow(b, n - 1));
    }
  }

  lemma Shuffle(a: nat, b: nat, x: nat, y: nat)
    ensures (a * b) * (x * y) == (a * x) * (b * y)
  {
    assert (a * b) * (x * y) == a * (b * (x * y));
    assert b * (x * y) == x * (b * y);
    assert a * (x * (b * y)) == (a * x) * (b * y);
  }

  lemma {:induction false} PowMonotone(b: nat, m: nat, n: nat)
    requires b >= 1 && m <= n
    ensures Pow(b, m) <= Pow(b, n)
    decreases n
  {
    if m < n {
      PowMonotone(b, m, n - 1);
      MulLe(1, b, Pow(b, n - 1));
    }
  }

  lemma {:induction false} PowStrict(b: nat, m: nat, n: nat)
    requires b >= 2 && m < n
    ensures Pow(b, m) < Pow(b, n)
  {
    PowMonotone(b, m + 1, n);
    MulLe(2, b, Pow(b, m));
  }

  lemma {:induction false} PowBaseMonotone(a: nat, b: nat, n: nat)
    requires a <= b
    ensures Pow(a, n) <= Pow(b, n)
  {
    if n > 0 {
      PowBaseMonotone(a, b, n - 1);
      MulLe(a, b, Pow(a, n - 1));
      MulLe(Pow(a, n - 1), Pow(b, n - 1), b);
    }
  }

  lemma MulLe(x: int, y: int, k: int)
    requires x <= y && 0 <= k
    ensures x * k <= y * k && k * x <= k * y
  {
  }

  lemma MulLt(x: int, y: int, k: int)
    requires x < y && 0 < k
    ensures x * k < y * k && k * x < k * y
  {
  }

  lemma MulAssoc(x: int, y: int, z: int)
    ensures (x * y) * z == x * (y * z)
  {
  }

  /** Three factors in another order. */
  lemma MulRotate(x: int, y: int, z: int)
    ensures (x * y) * z == y * (z * x) && (x * y) * z == y * (x * z) && (x * y) * z == (x * z) * y
  {
  }

  lemma MulDistributes(x: int, y: int, k: int)
    ensures (x + y) * k == x * k + y * k && k * (x + y) == k * x + k * y
    ensures (x - y) * k == x * k - y * k && k * (x - y) == k * x - k * y
  {
  }

  function Product(a: nat, b: nat): (r: nat)
    ensures r == a * b
    ensures a > 0 && b > 0 ==> r > 0
  {
    MulLe(0, a, b);
    if a > 0 && b > 0 then MulLt(0, a, b); a * b else a * b
  }

  /** Cancelling a positive factor. */
  lemma MulCancel(x: int, y: int, k: int)
    requires 0 < k
    ensures x * k < y * k <==> x < y
    ensures x * k == y * k <==> x == y
  {
    if x < y { MulLt(x, y, k); } else if y < x { MulLt(y, x, k); }
  }

  /** The quotient and remainder of a division are the only ones there are. */
  lemma DivModUnique(n: int, d: int, q: int, r: int)
    requires 0 < d && 0 <= r < d && n == q * d + r
    ensures n / d == q && n % d == r
  {
    var q', r' := n / d, n % d;
    assert n == q' * d + r';
    assert (q - q') * d == r' - r;
    if q < q' { MulLe(q + 1, q', d); } else if q' < q { MulLe(q' + 1, q, d); }
  }
}
