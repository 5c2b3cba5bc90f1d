/** The product of two bigit sequences as the sum of its diagonals. */
module Convolution {
  import opened Powers
  import opened Limbs

  function At(s: seq<nat>, i: int): nat
  {
    if 0 <= i < |s| then s[i] else 0
  }

  /** The first n terms a[i] * b[k - i] of diagonal k. */
  function DiagonalPart(a: seq<nat>, b: seq<nat>, k: int, n: nat): nat
  {
    if n == 0 then 0 else DiagonalPart(a, b, k, n - 1) + Term(a, b, k, n - 1)
  }

  function Term(a: seq<nat>, b: seq<nat>, k: int, i: int): nat
  {
    MulLe(0, At(a, i), At(b, k - i));
    At(a, i) * At(b, k - i)
  }

  function Diagonal(a: seq<nat>, b: seq<nat>, k: nat): nat
  {
    DiagonalPart(a, b, k, k + 1)
  }

  /** The m lowest diagonals, each at its weight. */
  function DiagonalVal(a: seq<nat>, b: seq<nat>, m: nat): nat
  {
    if m == 0 then 0 else DiagonalVal(a, b, m - 1) + Weighted(Diagonal(a, b, m - 1), m - 1)
  }

  function Weighted(d: nat, i: nat): nat
  {
    MulLe(0, d, Pow(B, i));
    d * Pow(B, i)
  }

  function TruncVal(b: seq<nat>, m: nat): nat
  {
    if m == 0 then 0 else TruncVal(b, m - 1) + Weighted(At(b, m - 1), m - 1)
  }

  lemma {:induction false} TruncValAll(b: seq<nat>, m: nat)
    requires m <= |b|
    ensures TruncVal(b, m) == Val(b[..m])
  {
    if m > 0 {
      TruncValAll(b, m - 1);
      ValTake(b, m - 1);
    }
  }

  lemma {:induction false} TruncValPast(b: seq<nat>, m: nat)
    requires m >= |b|
    ensures TruncVal(b, m) == Val(b)
  {
    if m == |b| {
      TruncValAll(b, m);
      assert b[..m] == b;
    } else {
      TruncValPast(b, m - 1);
    }
  }

  lemma {:induction false} DiagonalShift(a: seq<nat>, b: seq<nat>, k: int, n: nat)
    requires a != []
    ensures DiagonalPart(a, b, k, n + 1) == a[0] * At(b, k) + DiagonalPart(a[1..], b, k - 1, n)
  {
    if n == 0 {
      assert DiagonalPart(a, b, k, 1) == DiagonalPart(a, b, k, 0) + Term(a, b, k, 0);
    } else {
      DiagonalShift(a, b, k, n - 1);
      assert At(a, n) == At(a[1..], n - 1);
      assert Term(a, b, k, n) == Term(a[1..], b, k - 1, n - 1);
    }
  }

  lemma {:induction false} DiagonalValShift(a: seq<nat>, b: seq<nat>, m: nat)
    requires a != []
    ensures DiagonalVal(a, b, m + 1) == a[0] * TruncVal(b, m + 1) + B * DiagonalVal(a[1..], b, m)
  {
    DiagonalShift(a, b, m, m);
    var x, y, d := a[0], At(b, m), DiagonalPart(a[1..], b, m - 1, m);
    if m == 0 {
      assert TruncVal(b, 1) == TruncVal(b, 0) + Weighted(At(b, 0), 0);
      assert DiagonalVal(a, b, 1) == DiagonalVal(a, b, 0) + Weighted(Diagonal(a, b, 0), 0);
    } else {
      DiagonalValShift(a, b, m - 1);
      ShiftTerm(x, y, d, Pow(B, m - 1), TruncVal(b, m), DiagonalVal(a[1..], b, m - 1));
    }
  }

  lemma ShiftTerm(x: int, y: int, d: int, p: int, t: int, v: int)
    ensures x * t + B * v + (x * y + d) * (B * p) == x * (t + y * (B * p)) + B * (v + d * p)
  {
    MulDistributes(x * y, d, B * p);
    MulAssoc(x, y, B * p);
    MulDistributes(t, y * (B * p), x);
    assert d * (B * p) == B * (d * p);
  }

  lemma {:induction false} DiagonalValEmpty(b: seq<nat>, m: nat)
    ensures DiagonalVal([], b, m) == 0
  {
    if m > 0 {
      DiagonalValEmpty(b, m - 1);
      DiagonalPastEnd([], b, m - 1, m);
    }
  }

  /** All diagonals together are the product. */
  lemma {:induction false} ProductIsDiagonals(a: seq<nat>, b: seq<nat>, m: nat)
    requires m >= |a| + |b|
    ensures DiagonalVal(a, b, m) == Val(a) * Val(b)
  {
    if a == [] {
      DiagonalValEmpty(b, m);
    } else {
      DiagonalValShift(a, b, m - 1);
      ProductIsDiagonals(a[1..], b, m - 1);
      TruncValPast(b, m);
      MulDistributes(a[0], B * Val(a[1..]), Val(b));
      MulAssoc(B, Val(a[1..]), Val(b));
    }
  }

  /** Terms whose first factor lies past the end of a add nothing. */
  lemma {:induction false} DiagonalPastEnd(a: seq<nat>, b: seq<nat>, k: int, n: nat)
    requires n >= |a|
    ensures DiagonalPart(a, b, k, n) == DiagonalPart(a, b, k, |a|)
    decreases n
  {
    if n > |a| {
      DiagonalPastEnd(a, b, k, n - 1);
      assert Term(a, b, k, n - 1) == 0;
    }
  }

  /** Terms whose second factor lies past the end of b add nothing. */
  lemma {:induction false} DiagonalBeforeStart(a: seq<nat>, b: seq<nat>, k: int, n: nat)
    requires n <= k - |b| + 1
    ensures DiagonalPart(a, b, k, n) == 0
  {
    if n > 0 {
      DiagonalBeforeStart(a, b, k, n - 1);
      assert At(b, k - (n - 1)) == 0;
    }
  }
}
