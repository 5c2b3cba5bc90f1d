/** Which multiples of a unit lie in a rounding interval, and which of them digit generation may print. */
module DecimalInterval {
  import opened Powers

  /** The number written by decimal digits, most significant first. */
  function Dec(ds: seq<nat>): nat
  {
    if ds == [] then 0 else 10 * Dec(ds[..|ds| - 1]) + ds[|ds| - 1]
  }

  lemma DecSnoc(ds: seq<nat>, d: nat)
    ensures Dec(ds + [d]) == 10 * Dec(ds) + d
  {
    assert (ds + [d])[..|ds|] == ds;
  }

  /** A value v with its distances to the ends of its rounding interval, all in units of 1/s. An end
      belongs to the interval when it is closed. A remainder of zero is not noticed while l < blind. */
  datatype Level = Level(v: nat, s: nat, l: nat, u: nat, lowClosed: bool, highClosed: bool, blind: nat)
  {
    predicate Valid() { s > 0 && l > 0 && u > 0 && blind <= s }

    /** q * s lies in the rounding interval. */
    predicate Contains(q: nat)
    {
      (v - l < q * s || (v - l == q * s && lowClosed)) && (q * s < v + u || (q * s == v + u && highClosed))
    }

    /** The two tests of the generation loop, on the remainder r. */
    predicate Low(r: nat) { (r < l || (r == l && lowClosed)) && !Unseen(r) }
    predicate High(r: nat) { r + u > s || (r + u == s && highClosed) }
    predicate Unseen(r: nat) { r == 0 && l < blind }

    /** A remainder as large as the divisor, which the division has missed. */
    predicate Tie(r: nat) { r == s && s > l >= blind }

    function Distance(q: nat): nat { if q * s <= v then v - q * s else q * s - v }

    /** An element of the interval that the generation loop can see: all but an exact one while l < blind. */
    predicate Seen(q: nat) { Contains(q) && (q * s == v ==> l >= blind) }

    /** p is the element nearest to v that is seen, the even one of two equally near ones. */
    ghost predicate Nearest(p: nat)
    {
      && Seen(p)
      && forall q: nat :: Seen(q) && q != p ==>
           Distance(p) < Distance(q) || (Distance(p) == Distance(q) && p % 2 == 0)
    }

    /** No multiple of the unit is seen in the interval. */
    ghost predicate Barren()
    {
      forall q: nat :: !Seen(q)
    }
  }

  lemma Multiples(q: nat, t: nat, s: nat)
    requires s > 0
    ensures q < t ==> q * s + s <= t * s
    ensures q > t + 1 ==> t * s + s + s <= q * s
    ensures q == t + 1 ==> q * s == t * s + s
  {
    if q < t { MulLe(q + 1, t, s); }
    if q > t + 1 { MulLe(t + 2, q, s); }
  }

  /** Neither test fires: the interval holds no multiple of the unit. */
  lemma BothTestsFail(z: Level, t: nat, r: nat)
    requires z.Valid() && z.v == t * z.s + r && r < z.s && !z.Low(r) && !z.High(r)
    ensures z.Barren()
  {
    forall q: nat
      ensures !z.Seen(q)
    {
      Multiples(q, t, z.s);
    }
  }

  /** Only the low test fires: the truncated value is the nearest element. */
  lemma LowOnly(z: Level, t: nat, r: nat)
    requires z.Valid() && z.v == t * z.s + r && r < z.s && z.Low(r) && !z.High(r)
    ensures z.Nearest(t)
  {
    forall q: nat | z.Seen(q) && q != t
      ensures z.Distance(t) < z.Distance(q)
    {
      Multiples(q, t, z.s);
    }
  }

  /** Only the high test fires: the next value up is the nearest element. */
  lemma HighOnly(z: Level, t: nat, r: nat)
    requires z.Valid() && z.v == t * z.s + r && r < z.s && !z.Low(r) && z.High(r)
    ensures z.Nearest(t + 1)
  {
    Multiples(t + 1, t, z.s);
    forall q: nat | z.Seen(q) && q != t + 1
      ensures z.Distance(t + 1) < z.Distance(q)
    {
      Multiples(q, t, z.s);
    }
  }

  /** Both tests fire: the nearer of the two neighbours, the even one on a tie. */
  lemma LowAndHigh(z: Level, t: nat, r: nat, p: nat)
    requires z.Valid() && z.v == t * z.s + r && r < z.s && z.Low(r) && z.High(r)
    requires p == if 2 * r > z.s || (2 * r == z.s && t % 2 == 1) then t + 1 else t
    ensures z.Nearest(p)
  {
    Multiples(t + 1, t, z.s);
    forall q: nat | z.Seen(q) && q != p
      ensures z.Distance(p) < z.Distance(q) || (z.Distance(p) == z.Distance(q) && p % 2 == 0)
    {
      Multiples(q, t, z.s);
    }
  }

  /** An exact multiple that is seen is the nearest element. */
  lemma ExactNearest(z: Level, t: nat)
    requires z.Valid() && z.v == t * z.s && z.l >= z.blind
    ensures z.Nearest(t)
  {
    forall q: nat | q != t
      ensures z.Distance(t) < z.Distance(q)
    {
      MulCancel(q, t, z.s);
    }
  }

  /** There is only one nearest element, if all are seen. */
  lemma NearestUnique(z: Level, p: nat, q: nat)
    requires z.s > 0 && z.l >= z.blind && z.Nearest(p) && z.Nearest(q)
    ensures p == q
  {
    if p < q { BetweenNearer(z, p, q); }
    if q < p { BetweenNearer(z, q, p); }
  }

  /** Of two equally near even elements the one between them would be nearer. */
  lemma BetweenNearer(z: Level, p: nat, q: nat)
    requires z.s > 0 && z.l >= z.blind && p < q && p % 2 == 0 && q % 2 == 0
    requires z.Seen(p) && z.Seen(q) && z.Distance(p) == z.Distance(q)
    ensures !z.Nearest(p)
  {
    MulLe(p + 2, q, z.s);
    MulDistributes(p, 1, z.s);
    MulDistributes(p, 2, z.s);
    assert z.Distance(p + 1) < z.Distance(p) && z.Seen(p + 1);
  }

  /** A final increment keeps the last digit a digit. */
  lemma IncrementFits(z: Level, d: nat, r: nat)
    requires z.Valid() && z.High(r)
    requires d * z.s + r + z.u < 10 * z.s || (d * z.s + r + z.u == 10 * z.s && !z.highClosed)
    ensures d + 1 <= 9
  {
    if d >= 9 { MulLe(9, d, z.s); }
  }
}
