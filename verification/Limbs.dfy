/** Little-endian sequences of 32-bit big digits and the natural numbers they denote. */
module Limbs {
  import opened Powers

  const B: nat := 0x1_0000_0000

  type bigit = x: nat | x < B

  /** The number written by s, least significant bigit first. */
  function Val(s: seq<nat>): nat
  {
    if s == [] then 0 else s[0] + B * Val(s[1..])
  }

  lemma {:induction false} ValAppend(s: seq<nat>, t: seq<nat>)
    ensures Val(s + t) == Val(s) + Pow(B, |s|) * Val(t)
  {
    if s == [] {
      assert s + t == t;
    } else {
      assert (s + t)[1..] == s[1..] + t;
      ValAppend(s[1..], t);
      AppendStep(B, Val(s[1..]), Pow(B, |s| - 1), Val(t));
    }
  }

  lemma AppendStep(b: nat, x: nat, p: nat, v: nat)
    ensures b * (x + p * v) == b * x + (b * p) * v
  {
    MulDistributes(x, p * v, b);
    MulAssoc(b, p, v);
  }

  lemma {:induction false} ValSnoc(s: seq<nat>, d: nat)
    ensures Val(s + [d]) == Val(s) + d * Pow(B, |s|)
  {
    ValAppend(s, [d]);
    assert Val([d]) == d;
  }

  lemma ValTake(s: seq<nat>, i: nat)
    requires i < |s|
    ensures Val(s[..i + 1]) == Val(s[..i]) + s[i] * Pow(B, i)
  {
    assert s[..i + 1] == s[..i] + [s[i]];
    ValSnoc(s[..i], s[i]);
  }

  lemma ValSplit(s: seq<nat>, i: nat)
    requires i <= |s|
    ensures Val(s) == Val(s[..i]) + Pow(B, i) * Val(s[i..])
  {
    assert s == s[..i] + s[i..];
    ValAppend(s[..i], s[i..]);
  }

  /** Writing one bigit changes the number by its weight. */
  lemma ValUpdate(s: seq<nat>, i: nat, d: nat)
    requires i < |s|
    ensures Val(s[i := d]) == Val(s) + (d - s[i]) * Pow(B, i)
  {
    var a, b, p := s[..i], s[i + 1..], Pow(B, i);
    assert s == a + ([s[i]] + b) && s[i := d] == a + ([d] + b);
    ValAppend(a, [s[i]] + b);
    ValAppend(a, [d] + b);
    assert Val([s[i]] + b) == s[i] + B * Val(b);
    assert Val([d] + b) == d + B * Val(b);
    hide Pow, Val;
    MulDistributes(d + B * Val(b), s[i] + B * Val(b), p);
  }

  lemma {:induction false} ValBound(s: seq<bigit>)
    ensures Val(s) < Pow(B, |s|)
  {
    if s != [] {
      ValBound(s[1..]);
      assert Val(s[1..]) + 1 <= Pow(B, |s| - 1);
    }
  }

  /** A nonzero top bigit fixes the magnitude from below. */
  lemma ValTop(s: seq<bigit>)
    requires s != [] && s[|s| - 1] != 0
    ensures Pow(B, |s| - 1) <= Val(s)
  {
    var n := |s| - 1;
    assert s[..n + 1] == s;
    ValTake(s, n);
    MulLe(1, s[n], Pow(B, n));
  }

  lemma {:induction false} ValZeros(s: seq<nat>)
    requires forall i :: 0 <= i < |s| ==> s[i] == 0
    ensures Val(s) == 0
  {
    if s != [] { ValZeros(s[1..]); }
  }

  lemma ValAt(s: seq<nat>, i: nat)
    requires i < |s|
    ensures Val(s) == Val(s[..i]) + s[i] * Pow(B, i) + Pow(B, i + 1) * Val(s[i + 1..])
  {
    ValSplit(s, i + 1);
    ValTake(s, i);
  }

  lemma LowPartYields(a: int, b: int, x: int, y: int, p: int)
    requires 0 <= a < p && 0 <= b && x < y
    ensures a + x * p < b + y * p
  {
    MulLe(x + 1, y, p);
  }

  /** The first bigit in which two equally long numbers differ, from the top, decides. */
  lemma ValLess(s: seq<bigit>, t: seq<bigit>, i: nat)
    requires |s| == |t| && i < |s| && s[i] < t[i] && s[i + 1..] == t[i + 1..]
    ensures Val(s) < Val(t)
  {
    ValAt(s, i);
    ValAt(t, i);
    ValBound(s[..i]);
    LowPartYields(Val(s[..i]), Val(t[..i]), s[i], t[i], Pow(B, i));
  }
}
