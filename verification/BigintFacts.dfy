/** What the bigit sequence and exponent of a bigint say about its value. */
module BigintFacts {
  import opened Powers
  import opened Limbs

  /** The number bigits * 2^(32 * exp). */
  function Num(s: seq<nat>, e: nat): nat
  {
    Val(s) * Pow(B, e)
  }

  /** No leading zero bigit, except that zero is the single bigit 0. */
  predicate Canonical(s: seq<bigit>)
  {
    |s| > 0 && (|s| == 1 || s[|s| - 1] != 0)
  }

  function Sign(x: int): int
  {
    if x > 0 then 1 else if x < 0 then -1 else 0
  }

  /** The exact result of `compare` on canonical operands of values v1, v2 and exponents e1, e2. */
  function CompareResult(v1: nat, e1: nat, v2: nat, e2: nat): int
  {
    if v1 > 0 && v2 > 0 then (if v1 != v2 then Sign(v1 - v2) else Sign(e2 - e1))
    else if v2 > 0 then (if v2 < Pow(B, e1) then 1 else -1)
    else if v1 > 0 then (if v1 < Pow(B, e2) then -1 else 1)
    else Sign(e1 - e2)
  }

  lemma ZeroIsOneBigit(s: seq<bigit>)
    requires Canonical(s)
    ensures Val(s) == 0 <==> s == [0]
  {
    if s[|s| - 1] != 0 { ValTop(s); } else { assert s == [0]; }
  }

  /** A canonical nonzero value lies between the powers its bigit count names. */
  lemma Magnitude(s: seq<bigit>, e: nat)
    requires Canonical(s) && Val(s) != 0
    ensures Pow(B, |s| + e - 1) <= Num(s, e) < Pow(B, |s| + e)
  {
    ZeroIsOneBigit(s);
    assert s[|s| - 1] != 0;
    ValTop(s);
    ValBound(s);
    PowAdd(B, |s| - 1, e);
    PowAdd(B, |s|, e);
    MulLe(Pow(B, |s| - 1), Val(s), Pow(B, e));
    MulLt(Val(s), Pow(B, |s|), Pow(B, e));
  }

  lemma NumPositive(s: seq<nat>, e: nat)
    ensures Num(s, e) == 0 <==> Val(s) == 0
  {
    if Val(s) > 0 { MulLe(1, Val(s), Pow(B, e)); }
  }

  /** Two numbers whose bigit counts differ, as `compare` decides them by the counts alone. */
  lemma CompareByCount(s: seq<bigit>, e: nat, t: seq<bigit>, f: nat)
    requires Canonical(s) && Canonical(t) && |s| + e < |t| + f
    ensures CompareResult(Num(s, e), e, Num(t, f), f) == -1
    ensures CompareResult(Num(t, f), f, Num(s, e), e) == 1
  {
    ZeroIsOneBigit(s);
    ZeroIsOneBigit(t);
    NumPositive(s, e);
    NumPositive(t, f);
    if Val(s) != 0 { Magnitude(s, e); }
    if Val(t) != 0 { Magnitude(t, f); }
    if Val(s) != 0 && Val(t) != 0 {
      PowMonotone(B, |s| + e, |t| + f - 1);
    } else if Val(s) != 0 {
      PowMonotone(B, |s| + e, f);
    } else if Val(t) != 0 {
      PowMonotone(B, e, |t| + f - 1);
    }
  }

  function Zeros(d: nat): (z: seq<bigit>)
    ensures |z| == d && forall i :: 0 <= i < d ==> z[i] == 0
  {
    seq(d, _ => 0)
  }

  lemma ValPadded(t: seq<nat>, d: nat)
    ensures Val(Zeros(d) + t) == Pow(B, d) * Val(t)
  {
    ValZeros(Zeros(d));
    ValAppend(Zeros(d), t);
  }

  /** Lowering the exponent by d is prefixing d zero bigits. */
  lemma Padded(t: seq<nat>, d: nat, e: nat)
    ensures Num(Zeros(d) + t, e) == Num(t, e + d)
  {
    ValPadded(t, d);
    PowAdd(B, e, d);
    MulRotate(Pow(B, d), Val(t), Pow(B, e));
  }

  /** Equal bigit counts, and the tops agree down to the lowest bigit of the shorter one. */
  lemma CompareEqualTops(s: seq<bigit>, e: nat, t: seq<bigit>, f: nat)
    requires Canonical(s) && Canonical(t) && |s| + e == |t| + f && |s| >= |t|
    requires s[|s| - |t|..] == t
    ensures CompareResult(Num(s, e), e, Num(t, f), f) == Sign(|s| - |t|)
    ensures CompareResult(Num(t, f), f, Num(s, e), e) == -Sign(|s| - |t|)
  {
    var d := |s| - |t|;
    ZeroIsOneBigit(s);
    ZeroIsOneBigit(t);
    NumPositive(s, e);
    NumPositive(t, f);
    assert s[|s| - 1] == t[|t| - 1];
    if d == 0 {
      assert s == t;
    } else {
      Padded(t, d, e);
      assert Val(s) >= Val(Zeros(d) + t) by { ValSplit(s, d); ValPadded(t, d); }
      MulLe(Val(Zeros(d) + t), Val(s), Pow(B, e));
    }
  }

  /** Equal bigit counts, and bigit i of s is the first from the top to differ. */
  lemma CompareAtDifference(s: seq<bigit>, e: nat, t: seq<bigit>, f: nat, i: nat)
    requires Canonical(s) && Canonical(t) && |s| + e == |t| + f && |s| >= |t|
    requires |s| - |t| <= i < |s|
    requires s[i] != t[i - (|s| - |t|)] && s[i + 1..] == t[i + 1 - (|s| - |t|)..]
    ensures CompareResult(Num(s, e), e, Num(t, f), f) == Sign(s[i] as int - t[i - (|s| - |t|)] as int)
    ensures CompareResult(Num(t, f), f, Num(s, e), e) == -Sign(s[i] as int - t[i - (|s| - |t|)] as int)
  {
    var d := |s| - |t|;
    var u: seq<bigit> := Zeros(d) + t;
    Padded(t, d, e);
    assert Num(u, e) == Num(t, f);
    assert u[i] == t[i - d] && u[i + 1..] == t[i + 1 - d..];
    if s[i] < u[i] { ValLess(s, u, i); } else { ValLess(u, s, i); }
    MulCancel(Val(s), Val(u), Pow(B, e));
    ZeroIsOneBigit(s);
    ZeroIsOneBigit(t);
    NumPositive(s, e);
    NumPositive(t, f);
    if Val(s) == 0 { ZeroBelow(e, t, f); }
    if Val(t) == 0 { ZeroBelow(f, s, e); }
  }

  /** A zero of no larger bigit count is below every nonzero value in `compare`'s eyes too. */
  lemma ZeroBelow(e: nat, t: seq<bigit>, f: nat)
    requires Canonical(t) && Val(t) != 0 && 1 + e <= |t| + f
    ensures Num(t, f) >= Pow(B, e)
  {
    Magnitude(t, f);
    PowMonotone(B, e, |t| + f - 1);
  }

  lemma CountDecides(s: seq<bigit>, e: nat, t: seq<bigit>, f: nat)
    requires Canonical(t) && Val(t) != 0 && |s| + e < |t| + f
    ensures Num(s, e) < Num(t, f)
  {
    NumBound(s, e);
    Magnitude(t, f);
    PowMonotone(B, |s| + e, |t| + f - 1);
  }

  /** Bigit i of the number, counted from the units, as `get_bigit` reads it. */
  function BigitAt(s: seq<bigit>, e: nat, i: nat): bigit
  {
    if e <= i < |s| + e then s[i - e] else 0
  }

  /** The number without its i lowest bigits. */
  function High(s: seq<bigit>, e: nat, i: nat): nat
  {
    if i <= e then Val(s) * Pow(B, e - i)
    else if i - e <= |s| then Val(s[i - e..])
    else 0
  }

  lemma HighStep(s: seq<bigit>, e: nat, i: nat)
    ensures High(s, e, i) == High(s, e, i + 1) * B + BigitAt(s, e, i)
  {
    if i < e {
      assert Pow(B, e - i) == B * Pow(B, e - i - 1);
      MulRotate(B, Pow(B, e - i - 1), Val(s));
    } else if i < |s| + e {
      assert i == e ==> Pow(B, e - i) == 1 && s[i - e..] == s;
      assert s[i - e..][1..] == s[i + 1 - e..];
    } else if i == |s| + e {
      assert s[i - e..] == [];
      assert s == [] ==> Val(s) == 0;
    }
  }

  lemma HighTop(s: seq<bigit>, e: nat, i: nat)
    requires i >= |s| + e
    ensures High(s, e, i) == 0
  {
    assert s == [] ==> Val(s) == 0;
    if i - e == |s| { assert s[i - e..] == []; }
  }

  lemma HighExact(s: seq<bigit>, e: nat, i: nat)
    requires i <= e
    ensures Num(s, e) == High(s, e, i) * Pow(B, i)
  {
    PowAdd(B, e - i, i);
    MulAssoc(Val(s), Pow(B, e - i), Pow(B, i));
  }

  lemma NumBound(s: seq<bigit>, e: nat)
    ensures Num(s, e) < Pow(B, |s| + e)
  {
    ValBound(s);
    PowAdd(B, |s|, e);
    MulLt(Val(s), Pow(B, |s|), Pow(B, e));
  }

  lemma HighInside(s: seq<bigit>, e: nat, i: nat)
    requires e < i <= |s| + e
    ensures High(s, e, i) * Pow(B, i) <= Num(s, e) < (High(s, e, i) + 1) * Pow(B, i)
  {
    hide Val, Pow;
    ValSplit(s, i - e);
    ValBound(s[..i - e]);
    PowAdd(B, i - e, e);
    ScaleBounds(Val(s[..i - e]), Val(s[i - e..]), Pow(B, i - e), Pow(B, e));
  }

  lemma HighBounds(s: seq<bigit>, e: nat, i: nat)
    ensures High(s, e, i) * Pow(B, i) <= Num(s, e) < (High(s, e, i) + 1) * Pow(B, i)
  {
    if i <= e {
      HighExact(s, e, i);
      MulLt(High(s, e, i), High(s, e, i) + 1, Pow(B, i));
    } else if i - e <= |s| {
      HighInside(s, e, i);
    } else {
      NumBound(s, e);
      PowMonotone(B, |s| + e, i);
    }
  }

  lemma ScaleBounds(low: nat, h: nat, p: nat, q: nat)
    requires low < p && 0 < q
    ensures h * (p * q) <= (low + p * h) * q < (h + 1) * (p * q)
  {
    assert (low + p * h) * q == low * q + h * (p * q);
    MulLt(low, p, q);
    assert (h + 1) * (p * q) == h * (p * q) + p * q;
  }

  /** How far the sum of two numbers falls short of a third, above bigit i. */
  function Gap(s: seq<bigit>, e: nat, t: seq<bigit>, f: nat, u: seq<bigit>, g: nat, i: nat): int
  {
    High(u, g, i) - High(s, e, i) - High(t, f, i)
  }

  lemma GapStep(s: seq<bigit>, e: nat, t: seq<bigit>, f: nat, u: seq<bigit>, g: nat, i: nat)
    ensures Gap(s, e, t, f, u, g, i) ==
            Gap(s, e, t, f, u, g, i + 1) * B + BigitAt(u, g, i) - BigitAt(s, e, i) - BigitAt(t, f, i)
  {
    HighStep(s, e, i);
    HighStep(t, f, i);
    HighStep(u, g, i);
  }

  /** A gap outside 0..1 decides the comparison without looking further down. */
  lemma GapDecides(s: seq<bigit>, e: nat, t: seq<bigit>, f: nat, u: seq<bigit>, g: nat, i: nat)
    ensures Gap(s, e, t, f, u, g, i) < 0 ==> Num(s, e) + Num(t, f) > Num(u, g)
    ensures Gap(s, e, t, f, u, g, i) > 1 ==> Num(s, e) + Num(t, f) < Num(u, g)
  {
    HighBounds(s, e, i);
    HighBounds(t, f, i);
    HighBounds(u, g, i);
    SumDecided(Num(s, e), High(s, e, i), Num(t, f), High(t, f, i), Num(u, g), High(u, g, i), Pow(B, i));
  }

  lemma SumDecided(x: nat, hx: nat, y: nat, hy: nat, z: nat, hz: nat, p: nat)
    requires p > 0
    requires hx * p <= x < (hx + 1) * p && hy * p <= y < (hy + 1) * p && hz * p <= z < (hz + 1) * p
    ensures hx + hy > hz ==> x + y > z
    ensures hz - (hx + hy) > 1 ==> x + y < z
  {
    if hx + hy > hz {
      MulLe(hz + 1, hx + hy, p);
    }
    if hz - (hx + hy) > 1 {
      MulLe(hx + hy + 2, hz, p);
    }
  }

  lemma GapExact(s: seq<bigit>, e: nat, t: seq<bigit>, f: nat, u: seq<bigit>, g: nat, i: nat)
    requires i <= e && i <= f && i <= g
    ensures Sign(Num(s, e) + Num(t, f) - Num(u, g)) == Sign(-Gap(s, e, t, f, u, g, i))
  {
    HighExact(s, e, i);
    HighExact(t, f, i);
    HighExact(u, g, i);
    MulDistributes(High(s, e, i), High(t, f, i), Pow(B, i));
    MulCancel(High(s, e, i) + High(t, f, i), High(u, g, i), Pow(B, i));
  }

  lemma DoublePower(m: nat)
    ensures Pow(B, m) + Pow(B, m) <= Pow(B, m + 1)
  {
    MulLe(2, B, Pow(B, m));
  }

  lemma SumOfSmall(s: seq<bigit>, e: nat, t: seq<bigit>, f: nat, u: seq<bigit>, g: nat)
    requires Canonical(u) && Val(u) != 0
    requires |s| + e + 1 < |u| + g && |t| + f + 1 < |u| + g
    ensures Num(s, e) + Num(t, f) < Num(u, g)
  {
    hide Pow, Num, Val, Canonical;
    var m := |u| + g - 2;
    DoublePower(m);
    NumBound(s, e);
    NumBound(t, f);
    PowMonotone(B, |s| + e, m);
    PowMonotone(B, |t| + f, m);
    Magnitude(u, g);
  }

  /** The same number read with a smaller exponent. */
  lemma NumLowered(t: seq<nat>, f: nat, e: nat)
    requires e <= f
    ensures Num(t, f) == Num(t, f - e) * Pow(B, e)
  {
    PowAdd(B, f - e, e);
    MulAssoc(Val(t), Pow(B, f - e), Pow(B, e));
  }

  /** One column of the aligned subtraction: s[i] becomes d, and other[j] has been taken off. */
  lemma SubtractColumn(s: seq<nat>, i: nat, d: nat, o: seq<nat>, j: nat, off: nat, borrow: nat, borrow': nat)
    requires i < |s| && j < |o| && i == off + j
    requires d == s[i] - o[j] - borrow + borrow' * B
    ensures Val(s[i := d]) + Num(o[..j + 1], off) - borrow' * Pow(B, i + 1) ==
            Val(s) + Num(o[..j], off) - borrow * Pow(B, i)
  {
    ValUpdate(s, i, d);
    ValTake(o, j);
    PowAdd(B, j, off);
    ColumnArithmetic(s[i], o[j], borrow, borrow', d, Val(o[..j]), Pow(B, j), Pow(B, off), Pow(B, i));
  }

  lemma ColumnArithmetic(x: int, y: int, borrow: int, borrow': int, d: int, v: int, pj: int, po: int, p: int)
    requires d == x - y - borrow + borrow' * B && p == pj * po
    ensures (d - x) * p + (v + y * pj) * po - borrow' * (B * p) == v * po - borrow * p
  {
    assert (v + y * pj) * po == v * po + y * p by { MulDistributes(v, y * pj, po); MulAssoc(y, pj, po); }
    assert (d - x) * p == (borrow' * B - y - borrow) * p;
    MulDistributes(borrow' * B - y, borrow, p);
    MulDistributes(borrow' * B, y, p);
    MulAssoc(borrow', B, p);
  }

  /** The minuend of an aligned subtraction covers every column of the subtrahend. */
  lemma SubtractRoom(s: seq<bigit>, e: nat, o: seq<bigit>, f: nat)
    requires Canonical(o) && e <= f && 0 < Num(o, f) <= Num(s, e)
    ensures |s| + e >= |o| + f
    ensures Num(o, f - e) <= Val(s)
  {
    NumPositive(o, f);
    if |s| + e < |o| + f { CountDecides(s, e, o, f); }
    NumLowered(o, f, e);
    MulCancel(Val(s), Num(o, f - e), Pow(B, e));
  }

  /** A borrow out of the last column of the subtrahend finds a nonzero bigit above it. */
  lemma BorrowAbsorbed(s: seq<bigit>, w: nat, v: nat, o: nat)
    requires w <= |s| && o <= v && Val(s) + o - Pow(B, w) == v
    ensures w < |s|
    ensures s[w] > 0 ==> Val(s[w := s[w] - 1]) == v - o
  {
    hide Val, Pow;
    ValBound(s);
    if s[w] > 0 { ValUpdate(s, w, s[w] - 1); }
  }

  lemma SubtractDone(s: seq<nat>, s': seq<nat>, e: nat, o: seq<nat>, f: nat)
    requires e <= f && Val(s') == Val(s) - Num(o, f - e)
    ensures Num(s', e) == Num(s, e) - Num(o, f)
  {
    NumLowered(o, f, e);
    MulDistributes(Val(s), Num(o, f - e), Pow(B, e));
  }

  /** The first i bigits of t have been multiplied by v, in place, with a carry into bigit i. */
  ghost predicate Multiplied(s: seq<nat>, t: seq<nat>, i: nat, v: nat, carry: nat)
  {
    && i <= |s| == |t| && s[i..] == t[i..]
    && Val(s) + carry * Pow(B, i) - (v - 1) * Val(t[..i]) == Val(t)
  }

  lemma NothingMultiplied(t: seq<nat>, v: nat)
    ensures Multiplied(t, t, 0, v, 0)
  {
    assert t[..0] == [];
  }

  /** One column of a multiplication by v: s[i] becomes d and the carry moves up. */
  lemma MultiplyColumn(s: seq<nat>, i: nat, d: nat, t: seq<nat>, v: nat, carry: nat, carry': nat)
    requires i < |s| && Multiplied(s, t, i, v, carry) && d + carry' * B == s[i] * v + carry
    ensures Multiplied(s[i := d], t, i + 1, v, carry')
  {
    assert s[i..][0] == t[i..][0] && s[i..][1..] == t[i..][1..];
    hide Val;
    ValUpdate(s, i, d);
    ValTake(t, i);
    MultiplyArithmetic(t[i], d, v, carry, carry', Val(t[..i]), Pow(B, i));
  }

  lemma MultiplyArithmetic(x: int, d: int, v: int, carry: int, carry': int, w: int, p: int)
    requires d + carry' * B == x * v + carry
    ensures (d - x) * p + carry' * (B * p) - (v - 1) * (w + x * p) == carry * p - (v - 1) * w
  {
    MulDistributes(w, x * p, v - 1);
    MulAssoc(v - 1, x, p);
    MulAssoc(carry', B, p);
    MulDistributes(d, x, p);
    MulDistributes(d, carry' * B, p);
    MulDistributes(x * v, carry, p);
    MulDistributes(x * v, x, p);
    assert (v - 1) * x == x * v - x;
  }

  /** The product of t by v is complete once the last carry stands above all bigits. */
  lemma MultiplyCarried(s: seq<bigit>, t: seq<bigit>, e: nat, v: nat, carry: nat, c: seq<nat>)
    requires Multiplied(s, t, |t|, v, carry) && Val(c) == carry
    ensures Num(s + c, e) == Num(t, e) * v
  {
    assert t[..|t|] == t;
    hide Val, Pow;
    ValAppend(s, c);
    CarriedArithmetic(Val(s), Pow(B, |t|), carry, Val(t), v, Pow(B, e));
  }

  lemma CarriedArithmetic(a: int, p: int, c: int, b: int, v: int, q: int)
    requires a + c * p - (v - 1) * b == b
    ensures (a + p * c) * q == (b * q) * v
  {
    ProductArithmetic(a, c * p, b, v, q);
    MulRotate(1, c, p);
  }

  lemma MultiplyNotCarried(s: seq<bigit>, t: seq<bigit>, e: nat, v: nat)
    requires Multiplied(s, t, |t|, v, 0) && v > 0 && Canonical(t)
    ensures Num(s, e) == Num(t, e) * v && Canonical(s)
  {
    assert t[..|t|] == t;
    hide Val, Pow;
    ProductArithmetic(Val(s), 0, Val(t), v, Pow(B, e));
    ProductTop(s, t, v);
  }

  lemma ProductArithmetic(a: int, c: int, b: int, v: int, q: int)
    requires a + c - (v - 1) * b == b
    ensures a + c == b * v && (a + c) * q == (b * q) * v
  {
    MulAssoc(b, v, q);
    MulAssoc(b, q, v);
  }

  /** A product with a positive factor keeps the top bigit nonzero. */
  lemma ProductTop(s: seq<bigit>, t: seq<bigit>, v: nat)
    requires Canonical(t) && |s| == |t| && Val(s) == Val(t) * v && v > 0
    ensures Canonical(s)
  {
    if |t| > 1 && s[|s| - 1] == 0 {
      var n := |s| - 1;
      assert s[..n + 1] == s;
      ValTake(s, n);
      ValBound(s[..n]);
      ValTop(t);
      MulLe(1, v, Val(t));
    }
  }

  /** One column of the 32-bit multiplication: the new bigit and the new carry. */
  function NarrowStep(b: bigit, value: bigit, carry: bigit): (r: (bigit, bigit))
    ensures r.0 as int + r.1 as int * B == b as int * value as int + carry as int
  {
    var result := b as int * value as int + carry as int;
    MulLe(b as int, B - 1, value as int);
    (result % B, result / B)
  }

  /** One column of the wide multiplication: the new bigit and the new carry. The factor is split
      into halves of the word, and every operation is reduced to the word, as the machine type does. */
  function WideColumn(b: bigit, lower: nat, upper: nat, k: nat, word: nat, carry: nat): (bigit, nat)
    requires word > 0
  {
    MulLe(0, lower, b);
    var result := (lower * b + carry % B) % word;
    MulLe(0, upper, b);
    MulLe(0, (upper * b) % word, k);
    (result % B, (((upper * b) % word * k) % word + result / B + carry / B) % word)
  }

  function WideStep(b: bigit, value: nat, h: nat, carry: nat): (bigit, nat)
    requires h > 0
  {
    WideColumn(b, value % h, value / h, h / B, h * h, carry)
  }

  /** Nothing wraps: the carry never exceeds the factor, which is the inductive bound. */
  lemma WideStepExact(b: bigit, value: nat, h: nat, carry: nat)
    requires (h == B || h == B * B) && value < h * h && carry <= value
    ensures var (d, carry') := WideStep(b, value, h, carry);
            carry' <= value && d + carry' * B == b * value + carry
  {
    WideColumnExact(b, value % h, value / h, h / B, h, value, carry);
  }

  lemma WideColumnExact(b: bigit, lower: nat, upper: nat, k: nat, h: nat, value: nat, carry: nat)
    requires k > 0 && h == k * B && value == upper * h + lower && lower < h && value < h * h && carry <= value
    ensures var (d, carry') := WideColumn(b, lower, upper, k, h * h, carry);
            carry' <= value && d + carry' * B == b * value + carry
  {
    WideResult(lower, b, carry % B, h);
    var result := lower * b + carry % B;
    WideTotal(lower, upper, b, k, h, value, carry);
    WideBound(b, value, carry, upper * b * k + result / B + carry / B);
    WideNoWrap(upper * b, k, result, carry, h * h);
  }

  lemma WideNoWrap(u: nat, k: nat, result: nat, carry: nat, word: nat)
    requires k > 0 && result < word && u * k + result / B + carry / B < word
    ensures result % word == result
    ensures (u % word * k) % word + result / B + carry / B == u * k + result / B + carry / B
    ensures (u * k + result / B + carry / B) % word == u * k + result / B + carry / B
  {
    MulLe(1, k, u);
    SmallMod(u, word);
    SmallMod(u * k, word);
    SmallMod(result, word);
    SmallMod(u * k + result / B + carry / B, word);
  }

  lemma SmallMod(x: nat, m: nat)
    requires x < m
    ensures x % m == x
  {
  }

  lemma WideResult(lower: nat, b: bigit, c: bigit, h: nat)
    requires lower < h && B <= h
    ensures 0 <= lower * b + c < h * h
  {
    MulLe(0, lower, b);
    MulLe(lower + 1, h, b);
    MulDistributes(lower, 1, b);
    MulLe(b + 1, h, h);
    MulDistributes(b, 1, h);
  }

  lemma WideTotal(lower: nat, upper: nat, b: nat, k: nat, h: nat, value: nat, carry: nat)
    requires h == k * B && value == upper * h + lower
    ensures var result := lower * b + carry % B;
            upper * b >= 0 && result >= 0 && upper * b * k >= 0 &&
            result % B + (upper * b * k + result / B + carry / B) * B == b * value + carry
  {
    var result := lower * b + carry % B;
    assert upper * b * k * B == b * (upper * h) by {
      MulAssoc(upper * b, k, B);
      MulRotate(upper, b, h);
      assert h * upper == upper * h;
    }
    MulDistributes(upper * h, lower, b);
    MulLe(0, upper, b);
    MulLe(0, upper * b, k);
  }

  lemma WideBound(b: bigit, value: nat, carry: nat, carry': int)
    requires carry <= value && carry' * B <= b * value + carry
    ensures carry' <= value
  {
    MulLe(b, B - 1, value);
    if carry' > value { MulLe(value + 1, carry', B); }
  }

  lemma AppendArithmetic(c: nat, p: nat)
    ensures c * p == (c % B) * p + (c / B) * (B * p)
  {
    MulDistributes(c % B, (c / B) * B, p);
    MulAssoc(c / B, B, p);
  }

  /** The lowest bigit of c moved on top of s. */
  lemma AppendOne(s: seq<bigit>, c: nat)
    ensures Val(s + [c % B]) + (c / B) * Pow(B, |s| + 1) == Val(s) + c * Pow(B, |s|)
  {
    ValSnoc(s, c % B);
    AppendArithmetic(c, Pow(B, |s|));
  }

  lemma NothingAppended(s: seq<bigit>, c: nat)
    ensures Val(s[|s|..]) + c * Pow(B, 0) == c
  {
  }

  /** One column of a left shift by s < 32 bits, in 32-bit arithmetic: new bigit and carry. */
  function ShiftStep(b: bigit, s: nat, carry: nat): (nat, nat)
  {
    (ShiftedLow(b, Pow(2, s)) + carry, if s <= 32 then Quotient(b, Pow(2, 32 - s)) else 0)
  }

  function ShiftedLow(b: bigit, m: nat): nat
  {
    Product(b, m) % B
  }

  function Quotient(b: nat, n: nat): nat
    requires n > 0
  {
    b / n
  }

  lemma ShiftStepExact(b: bigit, s: nat, carry: nat)
    requires 0 < s < 32 && carry < Pow(2, s)
    ensures var (d, c) := ShiftStep(b, s, carry);
            c < Pow(2, s) && d < B && d + c * B == b * Pow(2, s) + carry
  {
    var m, n := Pow(2, s), Pow(2, 32 - s);
    Pow2Is32(s);
    ShiftArithmetic(b, m, n, carry);
  }

  lemma PowWord()
    ensures Pow(2, 32) == B
  {
    assert Pow(2, 8) == 256;
    PowMul(2, 8, 4);
    assert Pow(256, 4) == B by {
      assert Pow(256, 2) == 65536;
      PowAdd(256, 2, 2);
    }
  }

  lemma Pow2Is32(s: nat)
    requires s <= 32
    ensures Pow(2, s) * Pow(2, 32 - s) == B
  {
    PowAdd(2, s, 32 - s);
    PowWord();
  }

  lemma ShiftArithmetic(b: bigit, m: nat, n: nat, carry: nat)
    requires m > 0 && n > 0 && m * n == B && carry < m
    ensures b / n < m && (b * m) % B + carry < B
    ensures (b * m) % B + carry + (b / n) * B == b * m + carry
  {
    var q, r := b / n, b % n;
    assert b == q * n + r;
    MulDistributes(q * n, r, m);
    MulAssoc(q, n, m);
    MulLe(r, n - 1, m);
    MulDistributes(n, 1, m);
    MulLe(0, r, m);
    DivModUnique(b * m, B, q, r * m);
    if q >= m { MulLe(m, q, n); }
  }

  /** Shifting by 32 * k + s bits: k bigits of exponent and a factor 2^s. */
  lemma ShiftSplit(t: seq<nat>, e: nat, shift: nat)
    ensures Num(t, e) * Pow(2, shift) == Num(t, e + shift / 32) * Pow(2, shift % 32)
  {
    var k, s := shift / 32, shift % 32;
    assert Pow(2, shift) == Pow(B, k) * Pow(2, s) by {
      PowWord();
      PowMul(2, 32, k);
      PowAdd(2, 32 * k, s);
    }
    assert Num(t, e + k) == Num(t, e) * Pow(B, k) by {
      PowAdd(B, e, k);
      MulAssoc(Val(t), Pow(B, e), Pow(B, k));
    }
    MulAssoc(Num(t, e), Pow(B, k), Pow(2, s));
  }

  /** A value no larger has no more bigits. */
  lemma CountMonotone(s: seq<bigit>, e: nat, t: seq<bigit>, f: nat)
    requires Canonical(s) && 0 < Num(s, e) <= Num(t, f)
    ensures |s| + e <= |t| + f
  {
    NumPositive(s, e);
    if |s| + e > |t| + f { CountDecides(t, f, s, e); }
  }

  /** Aligned operands compare exactly as far as the division loop asks. */
  lemma CompareAligned(s: seq<bigit>, e: nat, t: seq<bigit>, f: nat)
    requires Canonical(s) && Canonical(t) && e <= f && Num(t, f) > 0
    ensures CompareResult(Num(s, e), e, Num(t, f), f) >= 0 <==> Num(s, e) >= Num(t, f)
  {
    NumPositive(t, f);
    if Num(s, e) == 0 {
      ZeroIsOneBigit(t);
      ZeroBelow(e, t, f);
    }
  }

  /** 5^q needs no more than q / 3 + 1 bigits. */
  lemma PowerOfFiveBigits(s: seq<bigit>, e: nat, q: nat)
    requires Canonical(s) && Num(s, e) == Pow(5, q)
    ensures 3 * (|s| - 1) <= q
  {
    NumPositive(s, e);
    Magnitude(s, e);
    if 3 * (|s| - 1) > q {
      var m := |s| - 1;
      PowMonotone(B, m, m + e);
      assert Pow(5, 3) == 125;
      PowMul(5, 3, m);
      PowBaseMonotone(125, B, m);
      PowStrict(5, q, 3 * m);
    }
  }

  /** The position of the highest set bit of n. */
  function TopBit(n: nat): (k: nat)
    requires n > 0
    ensures Pow(2, k) <= n < 2 * Pow(2, k)
  {
    if n == 1 then 0 else TopBit(n / 2) + 1
  }

  /** n without its k lowest bits. */
  function BitsAbove(n: nat, k: nat): (q: nat)
    ensures q <= n
  {
    var q := n / Pow(2, k);
    MulLe(1, Pow(2, k), q);
    assert q * Pow(2, k) <= n;
    q
  }

  /** Reading the exponent one bit further down. */
  lemma NextBit(n: nat, k: nat)
    ensures BitsAbove(n, k) == 2 * BitsAbove(n, k + 1) + BitsAbove(n, k) % 2
  {
    var m := Pow(2, k);
    var q, r := n / m, n % m;
    assert n == q * m + r;
    var h, b := q / 2, q % 2;
    assert n == h * (2 * m) + (b * m + r) by {
      MulDistributes(2 * h, b, m);
      MulAssoc(h, 2, m);
    }
    MulLe(b, 1, m);
    MulLe(0, b, m);
    DivModUnique(n, 2 * m, h, b * m + r);
  }

  lemma TopQuotient(n: nat, k: nat)
    requires Pow(2, k) <= n < 2 * Pow(2, k)
    ensures BitsAbove(n, k) == 1
  {
    DivModUnique(n, Pow(2, k), 1, n - Pow(2, k));
  }
}
