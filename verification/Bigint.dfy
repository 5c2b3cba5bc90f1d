/** The arbitrary-precision integer behind exact decimal output (fmt/format.h). */
module BigintModel {
  import opened Powers
  import opened Limbs
  import opened BigintFacts
  import opened Convolution

  class Bigint {
    var bigits: seq<bigit>
    var exp: nat

    constructor ()
      ensures bigits == [] && exp == 0
    {
      bigits, exp := [], 0;
    }

    ghost function Value(): nat
      reads this
    {
      Num(bigits, exp)
    }

    ghost predicate Valid()
      reads this
    {
      Canonical(bigits)
    }

    function NumBigits(): nat
      reads this
    {
      |bigits| + exp
    }

    /** 64-bit difference of one column; the wrapped top bit is the borrow. */
    method SubtractBigits(index: nat, other: bigit, borrow: bigit) returns (borrow': bigit)
      requires index < |bigits| && borrow <= 1
      modifies this`bigits
      ensures borrow' <= 1
      ensures |bigits| == |old(bigits)| && bigits == old(bigits)[index := bigits[index]]
      ensures bigits[index] as int == old(bigits[index]) as int - other - borrow + borrow' * B
    {
      var result := (bigits[index] as int - other as int - borrow as int) % 0x1_0000_0000_0000_0000;
      bigits := bigits[index := result % B];
      borrow' := result / 0x8000_0000_0000_0000;
    }

    method RemoveLeadingZeros()
      modifies this`bigits
      ensures bigits <= old(bigits)
      ensures Val(bigits) == Val(old(bigits))
      ensures old(bigits) != [] ==> Canonical(bigits)
    {
      var n := |bigits| - 1;
      if n < 0 { return; }
      assert bigits[..n + 1] == bigits;
      while n > 0 && bigits[n] == 0
        invariant 0 <= n < |bigits|
        invariant bigits == old(bigits) && Val(bigits[..n + 1]) == Val(bigits)
      {
        ValTake(bigits, n);
        n := n - 1;
      }
      bigits := bigits[..n + 1];
    }

    /** The column loop of SubtractAligned, from the lowest bigit of other to its highest. */
    method SubtractColumns(other: Bigint) returns (borrow: bigit)
      requires this != other && exp <= other.exp && |bigits| + exp >= |other.bigits| + other.exp
      modifies this`bigits
      ensures borrow <= 1 && |bigits| == |old(bigits)|
      ensures var w := |other.bigits| + other.exp - exp;
              bigits[w..] == old(bigits)[w..] &&
              Val(bigits) + Num(other.bigits, other.exp - exp) - borrow * Pow(B, w) == Val(old(bigits))
    {
      hide Val, Pow;
      ghost var off, o, n, s0 := other.exp - exp, other.bigits, |other.bigits|, bigits;
      NothingTaken(o, off);
      borrow := 0;
      var i := other.exp - exp;
      var j := 0;
      while j != |other.bigits|
        invariant 0 <= j <= n && i == off + j && borrow <= 1 && |bigits| == |s0|
        invariant bigits[i..] == s0[i..]
        invariant Val(bigits) + Num(o[..j], off) - borrow * Pow(B, i) == Val(s0)
        decreases n - j
      {
        ghost var s, b := bigits, borrow;
        borrow := SubtractBigits(i, other.bigits[j], borrow);
        SubtractColumn(s, i, bigits[i], o, j, off, b, borrow);
        i, j := i + 1, j + 1;
      }
      assert o[..n] == o;
    }

    method SubtractAligned(other: Bigint)
      requires this != other && Valid() && other.Valid()
      requires exp <= other.exp && 0 < other.Value() <= Value()
      requires NumBigits() <= other.NumBigits() + 1
      modifies this`bigits
      ensures Valid() && Value() == old(Value()) - other.Value()
    {
      ghost var off, o, s0 := other.exp - exp, other.bigits, bigits;
      SubtractRoom(s0, exp, o, other.exp);
      var borrow := SubtractColumns(other);
      var i := other.exp - exp + |other.bigits|;
      ghost var s1 := bigits;
      if borrow != 0 {
        BorrowAbsorbed(s1, i, Val(s0), Num(o, off));
        assert s1[i..] == s0[i..] && |s1| == i + 1;
        assert s1[i] == s0[i];
        borrow := SubtractBigits(i, 0, borrow);
        assert bigits == s1[i := s1[i] - 1];
      }
      assert borrow == 0;
      SubtractDone(s0, bigits, exp, o, other.exp);
      RemoveLeadingZeros();
    }

    /** Times a 32-bit factor. */
    method Multiply(value: bigit)
      requires Valid() && value > 0
      modifies this`bigits
      ensures Valid() && Value() == old(Value()) * value
    {
      hide Pow, Val, Num, Multiplied;
      ghost var t := bigits;
      NothingMultiplied(t, value);
      var carry: bigit := 0;
      var i := 0;
      var n := |bigits|;
      while i < n
        invariant 0 <= i <= n == |bigits| == |t| && Multiplied(bigits, t, i, value, carry)
      {
        var (d, carry') := NarrowStep(bigits[i], value, carry);
        MultiplyColumn(bigits, i, d, t, value, carry, carry');
        bigits, carry, i := bigits[i := d], carry', i + 1;
      }
      Carried(carry, t, value);
    }

    /** The last carry of a multiplication, if any, goes on top. */
    method Carried(carry: bigit, ghost t: seq<bigit>, ghost v: nat)
      requires Multiplied(bigits, t, |t|, v, carry) && v > 0 && Canonical(t)
      modifies this`bigits
      ensures Valid() && Value() == Num(t, exp) * v
    {
      hide Pow, Num, Multiplied;
      if carry != 0 {
        assert Val([carry]) == carry;
        MultiplyCarried(bigits, t, exp, v, carry, [carry]);
        bigits := bigits + [carry];
      } else {
        MultiplyNotCarried(bigits, t, exp, v);
      }
    }

    /** Times a 64-bit (h = 2^32) or 128-bit (h = 2^64) factor. Every intermediate value is
        reduced to the width of the factor, as the machine type does. */
    method MultiplyWide(value: nat, h: nat)
      requires Valid() && (h == B || h == B * B) && 0 < value < h * h
      modifies this`bigits
      ensures Valid() && Value() == old(Value()) * value
    {
      hide Pow, Val, Num, Multiplied, WideStep;
      ghost var t := bigits;
      NothingMultiplied(t, value);
      var carry := 0;
      var i := 0;
      var n := |bigits|;
      while i < n
        invariant 0 <= i <= n == |bigits| == |t| && 0 <= carry <= value && Multiplied(bigits, t, i, value, carry)
      {
        var (d, carry') := WideStep(bigits[i], value, h, carry);
        WideStepExact(bigits[i], value, h, carry);
        MultiplyColumn(bigits, i, d, t, value, carry, carry');
        bigits, carry, i := bigits[i := d], carry', i + 1;
      }
      if carry == 0 {
        MultiplyNotCarried(bigits, t, exp, value);
        return;
      }
      ghost var s := bigits;
      AppendCarry(carry);
      assert bigits == s + bigits[n..];
      MultiplyCarried(s, t, exp, value, carry, bigits[n..]);
    }

    /** The closing loop of the wide multiplication: the bigits of the carry go on top. */
    method AppendCarry(carry: nat)
      requires carry > 0
      modifies this`bigits
      ensures |bigits| > |old(bigits)| && bigits[..|old(bigits)|] == old(bigits)
      ensures Val(bigits[|old(bigits)|..]) == carry && bigits[|bigits| - 1] != 0
    {
      hide Val, Pow;
      var c: nat := carry;
      ghost var n := |bigits|;
      NothingAppended(bigits, carry);
      while c != 0
        invariant n <= |bigits| && bigits[..n] == old(bigits)
        invariant Val(bigits[n..]) + c * Pow(B, |bigits| - n) == carry
        invariant c == 0 ==> |bigits| > n && bigits[|bigits| - 1] != 0
        decreases c
      {
        AppendOne(bigits[n..], c);
        assert (bigits + [c % B])[n..] == bigits[n..] + [c % B];
        bigits := bigits + [c % B];
        c := c / B;
      }
    }

    /** The 64- or 128-bit value n. */
    method Assign(n: nat)
      modifies this
      ensures Value() == n && exp == 0 && Valid()
    {
      bigits, exp := [n % B], 0;
      var m: nat := n / B;
      assert Val([n % B]) == n % B;
      while m != 0
        invariant |bigits| > 0 && exp == 0
        invariant Val(bigits) + m * Pow(B, |bigits|) == n
        invariant m == 0 ==> Canonical(bigits)
        decreases m
      {
        ValSnoc(bigits, m % B);
        AppendArithmetic(m, Pow(B, |bigits|));
        bigits, m := bigits + [m % B], m / B;
      }
    }

    method AssignFrom(other: Bigint)
      modifies this
      ensures bigits == other.bigits && exp == other.exp
    {
      bigits, exp := other.bigits, other.exp;
    }

    method ShiftLeft(shift: nat)
      requires Valid()
      modifies this
      ensures Valid() && Value() == old(Value()) * Pow(2, shift) && exp == old(exp) + shift / 32
    {
      hide Pow, Val, Num, Multiplied, ShiftStep;
      ShiftSplit(bigits, exp, shift);
      exp := exp + shift / 32;
      var s := shift % 32;
      if s == 0 {
        NoShift();
        return;
      }
      ghost var t := bigits;
      ghost var factor := Pow(2, s);
      assert factor < B by { PowStrict(2, s, 32); PowWord(); }
      NothingMultiplied(t, factor);
      var carry: bigit := 0;
      var i := 0;
      var n := |bigits|;
      while i < n
        invariant exp == old(exp) + shift / 32 && carry < factor
        invariant 0 <= i <= n == |bigits| == |t| && Multiplied(bigits, t, i, factor, carry)
      {
        ShiftStepExact(bigits[i], s, carry);
        var (d, c) := ShiftStep(bigits[i], s, carry);
        MultiplyColumn(bigits, i, d, t, factor, carry, c);
        bigits, carry, i := bigits[i := d], c, i + 1;
      }
      Carried(carry, t, factor);
    }

    /** The data movement of Align: every bigit d places up, then zeros below. */
    method InsertZeros(d: nat)
      modifies this`bigits
      ensures bigits == Zeros(d) + old(bigits)
    {
      var n := |bigits|;
      ghost var t := bigits;
      bigits := bigits + Zeros(d);
      var i, j := n - 1, n - 1 + d;
      while i >= 0
        invariant -1 <= i < n && j == i + d && |bigits| == n + d
        invariant forall p :: 0 <= p <= i ==> bigits[p] == t[p]
        invariant forall p :: i < p < n ==> bigits[p + d] == t[p]
      {
        bigits := bigits[j := bigits[i]];
        i, j := i - 1, j - 1;
      }
      assert forall p :: 0 <= p < n ==> bigits[d..][p] == bigits[p + d];
      assert bigits[d..] == t;
      bigits := Zeros(d) + bigits[d..];
    }

    /** Lowers the exponent to that of other by inserting zero bigits at the bottom. */
    method Align(other: Bigint)
      requires this != other
      modifies this
      ensures Value() == old(Value()) && NumBigits() == old(NumBigits())
      ensures exp == Min(old(exp), other.exp)
      ensures old(Valid()) && Value() > 0 ==> Valid()
    {
      var d := exp - other.exp;
      if d <= 0 { return; }
      ghost var t := bigits;
      InsertZeros(d);
      exp := exp - d;
      Padded(t, d, exp);
      if Value() > 0 { NumPositive(t, exp + d); ValZeros([0]); }
    }

    /** `compare` sees this below a divisor of equal value when its own exponent is the larger. */
    ghost predicate TieMissed(divisor: Bigint)
      reads this, divisor
    {
      Value() == divisor.Value() && exp > divisor.exp
    }

    method DivmodAssign(divisor: Bigint) returns (quotient: nat)
      requires this != divisor && Valid() && divisor.Valid() && divisor.Value() > 0
      requires NumBigits() <= divisor.NumBigits() + 1
      requires ZeroFits(this, divisor)
      modifies this
      ensures Valid()
      ensures exp == if quotient == 0 then old(exp) else Min(old(exp), divisor.exp)
      ensures !old(TieMissed(divisor)) ==>
                old(Value()) == quotient * divisor.Value() + Value() && Value() < divisor.Value()
      ensures old(TieMissed(divisor)) ==> quotient == 0 && Value() == old(Value())
    {
      NumPositive(divisor.bigits, divisor.exp);
      ZeroIsOneBigit(bigits);
      if Value() == 0 { ZeroBelow(exp, divisor.bigits, divisor.exp); }
      var c := Compare(this, divisor);
      if c < 0 { return 0; }
      ghost var nb, d, v := NumBigits(), divisor.Value(), Value();
      assert d <= Value();
      Align(divisor);
      quotient := 0;
      while c >= 0
        invariant Valid() && exp == Min(old(exp), divisor.exp)
        invariant v == quotient * d + Value()
        invariant c >= 0 <==> Value() >= d
        invariant Value() >= d ==> NumBigits() <= nb
        invariant c < 0 ==> quotient > 0
        decreases Value()
      {
        ghost var s := bigits;
        SubtractAligned(divisor);
        quotient := quotient + 1;
        c := Compare(this, divisor);
        CompareAligned(bigits, exp, divisor.bigits, divisor.exp);
        if Value() >= d { CountMonotone(bigits, exp, s, exp); }
      }
    }

    /** The lowest k columns of the square of t are done, and sum is what they carry into column k. */
    ghost predicate Squared(t: seq<bigit>, k: nat, sum: nat)
      reads this
    {
      k <= |bigits| == 2 * |t| && Val(bigits[..k]) + sum * Pow(B, k) == DiagonalVal(t, t, k)
    }

    /** One finished column of the square: bigit k becomes the low bigit of sum. */
    method EmitColumn(k: nat, sum: nat, ghost t: seq<bigit>, ghost below: nat) returns (carry: nat)
      requires k < |bigits| && Squared(t, k, below) && sum == below + Diagonal(t, t, k)
      modifies this`bigits
      ensures carry == sum / B && Squared(t, k + 1, carry)
    {
      hide Pow, Val;
      ghost var low := bigits[..k];
      bigits := bigits[k := sum % B];
      carry := sum / B;
      assert bigits[..k + 1] == low + [sum % B];
      ValSnoc(low, sum % B);
      ColumnCarry(sum, below, Diagonal(t, t, k), k);
    }

    /** All columns of the square. */
    method SquareColumns(s: seq<bigit>)
      requires |s| < 0x4000_0000
      modifies this`bigits
      ensures |bigits| == 2 * |s| && Val(bigits) == Val(s) * Val(s)
    {
      hide Pow, Val, DiagonalVal, Diagonal, Squared;
      var n := |s|;
      bigits := Zeros(2 * n);
      StartSquare(s);
      var sum: nat := 0;
      var k := 0;
      while k < n
        invariant 0 <= k <= n && sum <= n * B && |bigits| == 2 * n && Squared(s, k, sum)
      {
        ghost var below := sum;
        sum := LowColumn(s, k, sum);
        sum := EmitColumn(k, sum, s, below);
        SquaredSize(s, k + 1, sum);
        k := k + 1;
      }
      while k < 2 * n
        invariant n <= k <= 2 * n && sum <= n * B && |bigits| == 2 * n && Squared(s, k, sum)
      {
        ghost var below := sum;
        sum := HighColumn(s, k, sum);
        sum := EmitColumn(k, sum, s, below);
        SquaredSize(s, k + 1, sum);
        k := k + 1;
      }
      EndSquare(s, sum);
    }

    lemma StartSquare(s: seq<bigit>)
      requires |bigits| == 2 * |s|
      ensures Squared(s, 0, 0)
    {
      assert bigits[..0] == [];
    }

    lemma SquaredSize(s: seq<bigit>, k: nat, sum: nat)
      requires Squared(s, k, sum)
      ensures |bigits| == 2 * |s|
    {
    }

    lemma EndSquare(s: seq<bigit>, sum: nat)
      requires Squared(s, 2 * |s|, sum)
      ensures Val(bigits) == Val(s) * Val(s)
    {
      hide Pow, Val;
      ProductIsDiagonals(s, s, 2 * |s|);
      assert bigits[..2 * |s|] == bigits;
      SquareFits(s, Val(bigits), sum);
    }

    method Square()
      requires Valid() && |bigits| < 0x4000_0000
      modifies this
      ensures Valid() && Value() == old(Value()) * old(Value()) && exp == 2 * old(exp)
    {
      hide Pow, Val;
      var s := bigits;
      SquareColumns(s);
      RemoveLeadingZeros();
      PowAdd(B, exp, exp);
      Shuffle(Val(s), Val(s), Pow(B, exp), Pow(B, exp));
      exp := 2 * exp;
    }

    /** One round of the power loop: squared, and times five if the next bit of n is set. */
    method NextPower(n: nat, bitmask: nat, ghost k: nat)
      requires n < 0x8000_0000 && bitmask == Pow(2, k)
      requires Valid() && exp == 0 && Value() == Pow(5, BitsAbove(n, k + 1))
      modifies this
      ensures Valid() && exp == 0 && Value() == Pow(5, BitsAbove(n, k))
    {
      hide Val, Num, Canonical, Pow;
      ghost var q := BitsAbove(n, k + 1);
      PowerOfFiveBigits(bigits, exp, q);
      Square();
      PowAdd(5, q, q);
      NextBit(n, k);
      NextFive(2 * q);
      if (n / bitmask) % 2 != 0 { Multiply(5); }
    }

    /** 10^n: 5^n by repeated squaring from the top bit of n down, then a shift by n bits. */
    method AssignPow10(n: nat)
      requires n < 0x8000_0000
      modifies this
      ensures Valid() && Value() == Pow(10, n) && exp == n / 32
    {
      if n == 0 {
        Assign(1);
        return;
      }
      NextFive(0);
      hide Val, Num, Canonical, Pow, TopBit, BitsAbove;
      ghost var k: int := TopBit(n);
      var bitmask := Pow(2, TopBit(n));
      Assign(5);
      TopQuotient(n, k);
      HalfPower(k);
      bitmask := bitmask / 2;
      k := k - 1;
      while bitmask != 0
        invariant -1 <= k && bitmask == (if k < 0 then 0 else Pow(2, k))
        invariant Valid() && exp == 0 && Value() == Pow(5, BitsAbove(n, k + 1))
        decreases bitmask
      {
        NextPower(n, bitmask, k);
        HalfPower(k);
        bitmask := bitmask / 2;
        k := k - 1;
      }
      AllBits(n);
      ShiftLeft(n);
      PowDistributes(5, 2, n);
    }
  }

  lemma NothingTaken(o: seq<bigit>, off: nat)
    ensures Num(o[..0], off) == 0
  {
  }

  lemma NextFive(q: nat)
    ensures Pow(5, q + 1) == 5 * Pow(5, q) && Pow(5, 0) == 1
  {
  }

  lemma HalfPower(k: nat)
    ensures Pow(2, k) / 2 == if k == 0 then 0 else Pow(2, k - 1)
  {
  }

  lemma AllBits(n: nat)
    ensures BitsAbove(n, 0) == n
  {
  }

  lemma NoShift()
    ensures Pow(2, 0) == 1
  {
  }

  /** A finished column: the carry of its sum moves up. */
  lemma ColumnCarry(sum: nat, below: nat, d: nat, k: nat)
    requires sum == below + d
    ensures (sum % B) * Pow(B, k) + (sum / B) * Pow(B, k + 1) == below * Pow(B, k) + Weighted(d, k)
  {
    AppendArithmetic(sum, Pow(B, k));
    MulDistributes(below, d, Pow(B, k));
  }

  /** The 128-bit accumulator of `square`. */
  const WORD128: nat := 0x1_0000_0000_0000_0000_0000_0000_0000_0000

  function Add128(sum: nat, x: nat, y: nat): (r: nat)
    ensures sum + x * y < WORD128 ==> r == sum + x * y
  {
    (sum + x * y) % WORD128
  }

  lemma TermBound(s: seq<bigit>, k: int, i: int)
    ensures Term(s, s, k, i) <= 0xFFFF_FFFE_0000_0001
  {
    MulLe(At(s, i), B - 1, At(s, k - i));
    MulLe(At(s, k - i), B - 1, B - 1);
  }

  /** A diagonal of n terms on top of a carry below n * 2^32 fits, and leaves such a carry. */
  lemma ColumnRoom(n: nat, i: nat, sum: nat)
    requires i <= n < 0x4000_0000 && sum <= n * B + i * 0xFFFF_FFFE_0000_0001
    ensures sum < WORD128 && sum / B <= n * B
  {
  }

  /** Column k of the square, below the middle. */
  method LowColumn(s: seq<bigit>, k: nat, carry: nat) returns (sum: nat)
    requires k < |s| < 0x4000_0000 && carry <= |s| * B
    ensures sum == carry + Diagonal(s, s, k) && sum / B <= |s| * B
  {
    sum := carry;
    var i, j := 0, k;
    while j >= 0
      invariant 0 <= i <= k + 1 && j == k - i
      invariant sum == carry + DiagonalPart(s, s, k, i) && sum <= |s| * B + i * 0xFFFF_FFFE_0000_0001
    {
      TermBound(s, k, i);
      ColumnRoom(|s|, i + 1, sum + Term(s, s, k, i));
      sum := Add128(sum, s[i], s[j]);
      i, j := i + 1, j - 1;
    }
    ColumnRoom(|s|, i, sum);
  }

  /** Column k of the square, from the middle up. */
  method HighColumn(s: seq<bigit>, k: nat, carry: nat) returns (sum: nat)
    requires |s| <= k < 2 * |s| && |s| < 0x4000_0000 && carry <= |s| * B
    ensures sum == carry + Diagonal(s, s, k) && sum / B <= |s| * B
  {
    sum := carry;
    var j := |s| - 1;
    var i := k - j;
    DiagonalBeforeStart(s, s, k, i);
    while i < |s|
      invariant 1 <= i <= |s| && j == k - i
      invariant sum == carry + DiagonalPart(s, s, k, i) && sum <= |s| * B + i * 0xFFFF_FFFE_0000_0001
    {
      TermBound(s, k, i);
      ColumnRoom(|s|, i + 1, sum + Term(s, s, k, i));
      sum := Add128(sum, s[i], s[j]);
      i, j := i + 1, j - 1;
    }
    ColumnRoom(|s|, i, sum);
    DiagonalPastEnd(s, s, k, k + 1);
  }

  lemma SquareFits(s: seq<bigit>, v: nat, sum: nat)
    requires v + sum * Pow(B, 2 * |s|) == Val(s) * Val(s)
    ensures sum == 0 && v == Val(s) * Val(s)
  {
    ValBound(s);
    PowAdd(B, |s|, |s|);
    MulLe(Val(s), Pow(B, |s|), Val(s));
    MulLt(Val(s), Pow(B, |s|), Pow(B, |s|));
    if sum > 0 { MulLe(1, sum, Pow(B, 2 * |s|)); }
  }

  method Compare(b1: Bigint, b2: Bigint) returns (r: int)
    requires b1.Valid() && b2.Valid()
    ensures r == CompareResult(b1.Value(), b1.exp, b2.Value(), b2.exp)
  {
    hide Pow, Val, Num, CompareResult, Canonical;
    var n1, n2 := b1.NumBigits(), b2.NumBigits();
    if n1 != n2 {
      if n1 > n2 {
        CompareByCount(b2.bigits, b2.exp, b1.bigits, b1.exp);
      } else {
        CompareByCount(b1.bigits, b1.exp, b2.bigits, b2.exp);
      }
      return if n1 > n2 then 1 else -1;
    }
    var i, j := |b1.bigits| - 1, |b2.bigits| - 1;
    ghost var d := i - j;
    var end := i - j;
    if end < 0 { end := 0; }
    while i >= end
      invariant i - j == d && -1 <= i < |b1.bigits| && -1 <= j < |b2.bigits| && i >= end - 1
      invariant b1.bigits[i + 1..] == b2.bigits[j + 1..]
    {
      var x, y := b1.bigits[i], b2.bigits[j];
      if x != y {
        FirstDifference(b1.bigits, b1.exp, b2.bigits, b2.exp, i, j);
        return if x > y then 1 else -1;
      }
      OneMoreEqual(b1.bigits, b2.bigits, i, j);
      i, j := i - 1, j - 1;
    }
    NoDifference(b1.bigits, b1.exp, b2.bigits, b2.exp, i, j);
    if i != j { return if i > j then 1 else -1; }
    return 0;
  }

  lemma OneMoreEqual(s: seq<bigit>, t: seq<bigit>, i: nat, j: nat)
    requires i < |s| && j < |t| && s[i] == t[j] && s[i + 1..] == t[j + 1..]
    ensures s[i..] == t[j..]
  {
    assert s[i..] == [s[i]] + s[i + 1..] && t[j..] == [t[j]] + t[j + 1..];
  }

  /** Equal bigit counts, and the bigits above i and j agree: bigits i and j decide. */
  lemma FirstDifference(s: seq<bigit>, e: nat, t: seq<bigit>, f: nat, i: nat, j: nat)
    requires Canonical(s) && Canonical(t) && |s| + e == |t| + f && i < |s| && j < |t| && i - j == |s| - |t|
    requires s[i] != t[j] && s[i + 1..] == t[j + 1..]
    ensures CompareResult(Num(s, e), e, Num(t, f), f) == if s[i] > t[j] then 1 else -1
  {
    hide Pow, Val, Num, CompareResult, Canonical;
    if |s| >= |t| {
      CompareAtDifference(s, e, t, f, i);
    } else {
      CompareAtDifference(t, f, s, e, j);
    }
  }

  /** ... and all of the shorter number agrees: the exponents decide. */
  lemma NoDifference(s: seq<bigit>, e: nat, t: seq<bigit>, f: nat, i: int, j: int)
    requires Canonical(s) && Canonical(t) && |s| + e == |t| + f && i - j == |s| - |t|
    requires -1 <= i < |s| && -1 <= j < |t| && (i == -1 || j == -1) && s[i + 1..] == t[j + 1..]
    ensures CompareResult(Num(s, e), e, Num(t, f), f) == if i > j then 1 else if i == j then 0 else -1
  {
    hide Pow, Val, Num, CompareResult, Canonical;
    if |s| >= |t| {
      CompareEqualTops(s, e, t, f);
    } else {
      CompareEqualTops(t, f, s, e);
    }
  }

  function Max(x: int, y: int): int { if x > y then x else y }
  function Min(x: int, y: int): int { if x < y then x else y }

  /** A zero operand whose exponent puts it above rhs is taken for the larger side. */
  ghost predicate ZeroFits(lhs: Bigint, rhs: Bigint)
    reads lhs, rhs
  {
    lhs.Value() == 0 ==> lhs.NumBigits() <= rhs.NumBigits()
  }

  /** ... and so is a zero rhs. */
  ghost predicate ZeroTowers(lhs1: Bigint, lhs2: Bigint, rhs: Bigint)
    reads lhs1, lhs2, rhs
  {
    rhs.Value() == 0 && Max(lhs1.NumBigits(), lhs2.NumBigits()) + 1 < rhs.NumBigits()
  }

  method AddCompare(lhs1: Bigint, lhs2: Bigint, rhs: Bigint) returns (r: int)
    requires lhs1.Valid() && lhs2.Valid() && rhs.Valid()
    ensures r == if ZeroTowers(lhs1, lhs2, rhs) then -1
                 else if !(ZeroFits(lhs1, rhs) && ZeroFits(lhs2, rhs)) then 1
                 else Sign(lhs1.Value() + lhs2.Value() - rhs.Value())
  {
    hide Pow, Val, Num, Gap;
    ghost var s, e, t, f, u, g := lhs1.bigits, lhs1.exp, lhs2.bigits, lhs2.exp, rhs.bigits, rhs.exp;
    NumPositive(u, g);
    NumPositive(s, e);
    NumPositive(t, f);
    var maxLhs := Max(lhs1.NumBigits(), lhs2.NumBigits());
    var numRhs := rhs.NumBigits();
    if maxLhs + 1 < numRhs {
      if Val(u) != 0 { SumOfSmall(s, e, t, f, u, g); }
      return -1;
    }
    if maxLhs > numRhs {
      if lhs1.NumBigits() > numRhs && Val(s) != 0 {
        if Val(u) != 0 { CountDecides(u, g, s, e); }
      } else if lhs2.NumBigits() > numRhs && Val(t) != 0 {
        if Val(u) != 0 { CountDecides(u, g, t, f); }
      }
      return 1;
    }
    r := CompareColumns(lhs1, lhs2, rhs);
  }

  /** The columns of both sides, from the top down, until a gap decides. */
  method CompareColumns(lhs1: Bigint, lhs2: Bigint, rhs: Bigint) returns (r: int)
    requires lhs1.NumBigits() <= rhs.NumBigits() && lhs2.NumBigits() <= rhs.NumBigits()
    ensures r == Sign(lhs1.Value() + lhs2.Value() - rhs.Value())
  {
    hide Pow, Val, Num, Gap, BigitAt;
    ghost var s, e, t, f, u, g := lhs1.bigits, lhs1.exp, lhs2.bigits, lhs2.exp, rhs.bigits, rhs.exp;
    var borrow := 0;
    var minExp := Min(Min(lhs1.exp, lhs2.exp), rhs.exp);
    var i := rhs.NumBigits() - 1;
    GapTop(s, e, t, f, u, g, i + 1);
    while i >= minExp
      invariant minExp - 1 <= i
      invariant borrow == 0 || borrow == B
      invariant Gap(s, e, t, f, u, g, i + 1) * B == borrow
    {
      GapStep(s, e, t, f, u, g, i);
      GapDecides(s, e, t, f, u, g, i);
      var sum := BigitAt(lhs1.bigits, lhs1.exp, i) + BigitAt(lhs2.bigits, lhs2.exp, i);
      var rhsBigit := BigitAt(rhs.bigits, rhs.exp, i);
      if sum > rhsBigit + borrow { return 1; }
      borrow := rhsBigit + borrow - sum;
      if borrow > 1 { return -1; }
      borrow := borrow * B;
      i := i - 1;
    }
    GapExact(s, e, t, f, u, g, i + 1);
    return if borrow != 0 then -1 else 0;
  }

  lemma GapTop(s: seq<bigit>, e: nat, t: seq<bigit>, f: nat, u: seq<bigit>, g: nat, n: nat)
    requires |s| + e <= n && |t| + f <= n && |u| + g <= n
    ensures Gap(s, e, t, f, u, g, n) == 0
  {
    HighTop(s, e, n);
    HighTop(t, f, n);
    HighTop(u, g, n);
  }
}
