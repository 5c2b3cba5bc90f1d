/** Multiplication modulo the CRC polynomial (crypto/src/crc32.cpp): `multmodp` on registers, where bit
    31 is the coefficient of x^0. */
module CrcAlgebra {
  import opened CrcRegister

  const ONE: bv32 := 0x8000_0000

  function Half(m: bv32): bv32 { m >> 1 }

  /** The bit of x^i. */
  function Mask(i: nat): bv32
  {
    if i == 0 then ONE else Half(Mask(i - 1))
  }

  /** The bits of x^i and all higher powers. */
  function LowMask(i: nat): bv32
  {
    if i == 0 then 0xFFFF_FFFF else Half(LowMask(i - 1))
  }

  function And(a: bv32, m: bv32): bv32 { a & m }

  predicate Bit(a: bv32, i: nat)
  {
    And(a, Mask(i)) != 0
  }

  /** The part of the product a * b that bits i.. of a contribute, with b already multiplied by x^i. */
  function MulFrom(a: bv32, b: bv32, i: nat): bv32
    requires i <= 32
    decreases 32 - i
  {
    if i == 32 then 0 else Xor(if Bit(a, i) then b else 0, MulFrom(a, StepBit(b), i + 1))
  }

  /** a * b modulo p. */
  function Mul(a: bv32, b: bv32): bv32
  {
    MulFrom(a, b, 0)
  }

  /** A mask and the bits below it, as the source computes them from m. */
  predicate Paired(m: bv32, l: bv32)
  {
    m != 0 && m & (m - 1) == 0 && l == m | (m - 1)
  }

  lemma PairedHalf(m: bv32, l: bv32)
    requires Paired(m, l) && Half(m) != 0
    ensures Paired(Half(m), Half(l))
  {
  }

  lemma MaskLast()
    ensures Mask(31) == 1 && LowMask(32) == 0
  {
    assert Mask(4) == 0x0800_0000;
    assert Mask(8) == 0x0080_0000;
    assert Mask(12) == 0x0008_0000;
    assert Mask(16) == 0x0000_8000;
    assert Mask(20) == 0x0000_0800;
    assert Mask(24) == 0x0000_0080;
    assert Mask(28) == 0x0000_0008;
    assert LowMask(4) == 0x0FFF_FFFF;
    assert LowMask(8) == 0x00FF_FFFF;
    assert LowMask(12) == 0x000F_FFFF;
    assert LowMask(16) == 0x0000_FFFF;
    assert LowMask(20) == 0x0000_0FFF;
    assert LowMask(24) == 0x0000_00FF;
    assert LowMask(28) == 0x0000_000F;
  }

  lemma {:induction false} MaskZeroStays(i: nat, j: nat)
    requires i <= j && Mask(i) == 0
    ensures Mask(j) == 0
    decreases j
  {
    if i < j {
      MaskZeroStays(i, j - 1);
    }
  }

  lemma MaskNonzero(i: nat)
    requires i < 32
    ensures Mask(i) != 0
  {
    MaskLast();
    if Mask(i) == 0 { MaskZeroStays(i, 31); }
  }

  lemma {:induction false} MasksPaired(i: nat)
    requires i < 32
    ensures Paired(Mask(i), LowMask(i))
  {
    hide Paired, Half;
    if i == 0 {
      FirstPair();
    } else {
      MasksPaired(i - 1);
      MaskNonzero(i);
      PairedHalf(Mask(i - 1), LowMask(i - 1));
    }
  }

  lemma FirstPair()
    ensures Paired(ONE, 0xFFFF_FFFF)
  {
  }

  lemma PairedBelow(m: bv32, l: bv32)
    requires Paired(m, l)
    ensures m - 1 == Half(l)
  {
  }

  function Or(a: bv32, b: bv32): bv32 { a | b }

  lemma PairedParts(m: bv32, l: bv32)
    requires Paired(m, l)
    ensures l == Or(m, Half(l)) && And(m, Half(l)) == 0
  {
    PairedBelow(m, l);
  }

  lemma OneHot(a: bv32, m: bv32, l: bv32)
    requires Paired(m, l)
    ensures And(a, m) == 0 || And(a, m) == m
  {
    assert m & (m - 1) == 0;
  }

  lemma AndIs(a: bv32, b: bv32)
    ensures And(a, b) == a & b
  {
  }

  lemma OrIs(a: bv32, b: bv32)
    ensures Or(a, b) == a | b
  {
  }

  lemma AndOrBits(a: bv32, m: bv32, k: bv32, x: bv32, y: bv32, z: bv32)
    requires x == m | k && y == a & m && z == a & k
    ensures a & x == y | z
  {
  }

  lemma AndOr(a: bv32, m: bv32, k: bv32)
    ensures And(a, Or(m, k)) == Or(And(a, m), And(a, k))
  {
    hide And, Or;
    var x, y, z := Or(m, k), And(a, m), And(a, k);
    OrIs(m, k);
    AndIs(a, m);
    AndIs(a, k);
    AndIs(a, x);
    OrIs(y, z);
    AndOrBits(a, m, k, x, y, z);
  }

  lemma MaskedTwice(a: bv32, m: bv32, k: bv32)
    ensures (a & (m | k)) & m == a & m
  {
  }

  lemma AndOrFirst(a: bv32, m: bv32, k: bv32)
    ensures And(And(a, Or(m, k)), m) == And(a, m)
  {
    calc {
      And(And(a, Or(m, k)), m);
      And(a & (m | k), m);
      (a & (m | k)) & m;
      { MaskedTwice(a, m, k); }
      a & m;
    }
  }

  lemma NoBits(a: bv32, m: bv32, k: bv32)
    requires a & (m | k) == 0
    ensures a & m == 0 && a & k == 0
  {
  }

  lemma AndOrNone(a: bv32, m: bv32, k: bv32)
    requires And(a, Or(m, k)) == 0
    ensures And(a, m) == 0 && And(a, k) == 0
  {
    NoBits(a, m, k);
  }

  lemma DisjointBits(a: bv32, m: bv32, k: bv32, y: bv32, z: bv32)
    requires m & k == 0 && y == a & m && z == a & k
    ensures y | z == y ^ z
  {
  }

  lemma DisjointOr(a: bv32, m: bv32, k: bv32)
    requires And(m, k) == 0
    ensures Or(And(a, m), And(a, k)) == Xor(And(a, m), And(a, k))
  {
    hide And, Or, Xor;
    var y, z := And(a, m), And(a, k);
    AndIs(m, k);
    AndIs(a, m);
    AndIs(a, k);
    OrIs(y, z);
    XorIs(y, z);
    DisjointBits(a, m, k, y, z);
  }

  /** What remains of a below x^i is its bit i and what remains below x^(i+1). */
  lemma PairedSplit(a: bv32, m: bv32, l: bv32)
    requires Paired(m, l)
    ensures And(a, l) == Xor(if And(a, m) != 0 then m else 0, And(a, Half(l)))
    ensures And(a, l) == 0 ==> And(a, m) == 0 && And(a, Half(l)) == 0
    ensures And(And(a, l), m) == And(a, m)
  {
    hide Paired, Half, And, Or, Xor;
    PairedParts(m, l);
    OneHot(a, m, l);
    AndOr(a, m, Half(l));
    AndOrFirst(a, m, Half(l));
    if And(a, l) == 0 { AndOrNone(a, m, Half(l)); }
    DisjointOr(a, m, Half(l));
  }

  lemma AndXorBits(a: bv32, b: bv32, m: bv32, x: bv32, y: bv32, z: bv32)
    requires x == a ^ b && y == a & m && z == b & m
    ensures x & m == y ^ z
  {
  }

  lemma AndXor(a: bv32, b: bv32, m: bv32)
    ensures And(Xor(a, b), m) == Xor(And(a, m), And(b, m))
  {
    hide And, Xor;
    var x, y, z := Xor(a, b), And(a, m), And(b, m);
    XorIs(a, b);
    AndIs(a, m);
    AndIs(b, m);
    AndIs(x, m);
    XorIs(y, z);
    AndXorBits(a, b, m, x, y, z);
  }

  lemma BitXor(a: bv32, b: bv32, i: nat)
    requires i < 32
    ensures Bit(Xor(a, b), i) <==> Bit(a, i) != Bit(b, i)
  {
    hide Paired, And, Xor, Mask;
    MasksPaired(i);
    AndXor(a, b, Mask(i));
    OneHot(a, Mask(i), LowMask(i));
    OneHot(b, Mask(i), LowMask(i));
    OneHot(Xor(a, b), Mask(i), LowMask(i));
    XorSelf(Mask(i), 0);
    XorZero(Mask(i));
    XorZero(0);
    MaskNonzero(i);
  }

  /** The product is additive in its first factor. */
  lemma {:induction false} MulFromXor(a: bv32, a': bv32, b: bv32, i: nat)
    requires i <= 32
    ensures MulFrom(Xor(a, a'), b, i) == Xor(MulFrom(a, b, i), MulFrom(a', b, i))
    decreases 32 - i
  {
    hide Xor, StepBit, Bit;
    if i == 32 {
      XorZero(0);
    } else {
      BitXor(a, a', i);
      MulFromXor(a, a', StepBit(b), i + 1);
      var x, x' := if Bit(a, i) then b else 0, if Bit(a', i) then b else 0;
      XorExchange(x, MulFrom(a, StepBit(b), i + 1), x', MulFrom(a', StepBit(b), i + 1));
      XorZero(b);
      XorZero(0);
      XorSelf(b, 0);
    }
  }

  /** ... and commutes with x^n in its second. */
  lemma {:induction false} MulFromSteps(a: bv32, b: bv32, i: nat, n: nat)
    requires i <= 32
    ensures MulFrom(a, Steps(b, n), i) == Steps(MulFrom(a, b, i), n)
    decreases 32 - i
  {
    hide Xor, StepBit, Bit;
    if i == 32 {
      StepsZero(n);
    } else {
      MulFromSteps(a, StepBit(b), i + 1, n);
      StepsXor(if Bit(a, i) then b else 0, MulFrom(a, StepBit(b), i + 1), n);
      StepsZero(n);
      StepsAdd(b, 1, n);
      StepsAdd(b, n, 1);
      assert Steps(b, 1) == StepBit(b);
      assert Steps(Steps(b, n), 1) == StepBit(Steps(b, n));
    }
  }

  /** Bits that are not there contribute nothing. */
  lemma {:induction false} MulFromNone(a: bv32, b: bv32, i: nat)
    requires i <= 32 && And(a, LowMask(i)) == 0
    ensures MulFrom(a, b, i) == 0
    decreases 32 - i
  {
    hide Xor, StepBit, Paired, And, Half;
    if i < 32 {
      MasksPaired(i);
      PairedSplit(a, Mask(i), LowMask(i));
      MulFromNone(a, StepBit(b), i + 1);
      XorZero(0);
    }
  }

  /** The product is additive in its second factor, too. */
  lemma {:induction false} MulFromXorRight(a: bv32, b: bv32, b': bv32, i: nat)
    requires i <= 32
    ensures MulFrom(a, Xor(b, b'), i) == Xor(MulFrom(a, b, i), MulFrom(a, b', i))
    decreases 32 - i
  {
    hide Xor, StepBit, Bit;
    XorZero(0);
    if i < 32 {
      StepBitXor(b, b');
      MulFromXorRight(a, StepBit(b), StepBit(b'), i + 1);
      if Bit(a, i) {
        XorExchange(b, MulFrom(a, StepBit(b), i + 1), b', MulFrom(a, StepBit(b'), i + 1));
      } else {
        XorExchange(0, MulFrom(a, StepBit(b), i + 1), 0, MulFrom(a, StepBit(b'), i + 1));
      }
    }
  }

  lemma OddOneHot(m: bv32)
    requires m != 0 && m & (m - 1) == 0 && m & 1 == 1
    ensures m == 1
  {
  }

  /** Multiplication by x moves a single bit down while it can. */
  lemma StepMask(i: nat)
    requires i < 31
    ensures StepBit(Mask(i)) == Mask(i + 1)
  {
    MasksPaired(i);
    MaskNonzero(i + 1);
    if Mask(i) & 1 == 1 { OddOneHot(Mask(i)); }
  }

  lemma {:induction false} PowerMask(j: nat)
    requires j < 32
    ensures Steps(ONE, j) == Mask(j)
  {
    hide StepBit, Half, Steps, Mask;
    FirstMask();
    if j > 0 {
      PowerMask(j - 1);
      StepMask(j - 1);
      StepsAdd(ONE, j - 1, 1);
      OneStep(Mask(j - 1));
    }
  }

  lemma FirstMask()
    ensures Steps(ONE, 0) == Mask(0)
  {
  }

  lemma OneStep(r: bv32)
    ensures Steps(r, 1) == StepBit(r)
  {
    hide StepBit;
  }

  /** The low bits of a, as the product of those bits by x^i in place. */
  lemma {:induction false} MulFromMask(a: bv32, i: nat)
    requires i < 32
    ensures MulFrom(a, Mask(i), i) == And(a, LowMask(i))
    decreases 32 - i
  {
    hide Xor, StepBit, Paired, And, Half;
    MasksPaired(i);
    PairedSplit(a, Mask(i), LowMask(i));
    if i < 31 {
      StepMask(i);
      MulFromMask(a, i + 1);
    } else {
      MaskLast();
      AndZero(a);
    }
  }

  lemma AndZero(a: bv32)
    ensures And(a, 0) == 0 && And(a, 0xFFFF_FFFF) == a
  {
  }

  /** x^0 is the unit. */
  lemma MulOne(a: bv32)
    ensures Mul(a, ONE) == a
  {
    hide MulFrom, And;
    MulFromMask(a, 0);
    AndZero(a);
  }

  /** x^n modulo p. */
  function Power(n: nat): bv32
  {
    Steps(ONE, n)
  }

  /** Multiplying by x^j from the right is j steps. */
  lemma MulByPower(a: bv32, j: nat)
    ensures Mul(a, Power(j)) == Steps(a, j)
  {
    hide MulFrom, Steps;
    MulFromSteps(a, ONE, 0, j);
    MulOne(a);
  }

  lemma PowersCommute(n: nat, j: nat)
    ensures Steps(Power(n), j) == Steps(Power(j), n) == Power(n + j)
  {
    hide StepBit;
    StepsAdd(ONE, n, j);
    StepsAdd(ONE, j, n);
  }

  /** Multiplying by x^n from the left is n steps: n zero bits appended to the message. */
  lemma {:induction false} PowerTimesLow(n: nat, c: bv32, i: nat)
    requires i <= 32
    ensures Mul(Power(n), And(c, LowMask(i))) == Steps(And(c, LowMask(i)), n)
    decreases 32 - i
  {
    hide Xor, StepBit, Steps, Paired, And, Half, MulFrom;
    if i == 32 {
      MaskLast();
      AndZero(c);
      StepsZero(n);
      MulZero(Power(n));
    } else {
      MasksPaired(i);
      PairedSplit(c, Mask(i), LowMask(i));
      var bit, rest := if And(c, Mask(i)) != 0 then Mask(i) else 0, And(c, LowMask(i + 1));
      PowerTimesLow(n, c, i + 1);
      MulFromXorRight(Power(n), bit, rest, 0);
      StepsXor(bit, rest, n);
      StepsZero(n);
      MulZero(Power(n));
      PowerMask(i);
      MulByPower(Power(n), i);
      PowersCommute(n, i);
    }
  }

  lemma {:induction false} MulFromZero(a: bv32, i: nat)
    requires i <= 32
    ensures MulFrom(a, 0, i) == 0
    decreases 32 - i
  {
    hide Xor, Bit;
    XorZero(0);
    if i < 32 { MulFromZero(a, i + 1); }
  }

  lemma MulZero(a: bv32)
    ensures Mul(a, 0) == 0
  {
    hide MulFrom;
    MulFromZero(a, 0);
  }

  lemma PowerTimes(n: nat, c: bv32)
    ensures Mul(Power(n), c) == Steps(c, n)
  {
    hide And, Mul, Steps;
    PowerTimesLow(n, c, 0);
    AndZero(c);
  }

  lemma {:induction false} MulCommLow(a: bv32, b: bv32, i: nat)
    requires i <= 32
    ensures Mul(a, And(b, LowMask(i))) == Mul(And(b, LowMask(i)), a)
    decreases 32 - i
  {
    hide Xor, StepBit, Steps, Paired, And, Half, MulFrom;
    if i == 32 {
      MaskLast();
      AndZero(b);
      MulZero(a);
      AndZeroLeft(0xFFFF_FFFF);
      MulFromNone(0, a, 0);
    } else {
      MasksPaired(i);
      PairedSplit(b, Mask(i), LowMask(i));
      var bit, rest := if And(b, Mask(i)) != 0 then Mask(i) else 0, And(b, LowMask(i + 1));
      MulCommLow(a, b, i + 1);
      MulFromXorRight(a, bit, rest, 0);
      MulFromXor(bit, rest, a, 0);
      MulZero(a);
      AndZeroLeft(0xFFFF_FFFF);
      MulFromNone(0, a, 0);
      PowerMask(i);
      MulByPower(a, i);
      PowerTimes(i, a);
    }
  }

  lemma AndZeroLeft(m: bv32)
    ensures And(0, m) == 0
  {
  }

  /** Multiplication modulo p commutes. */
  lemma MulComm(a: bv32, b: bv32)
    ensures Mul(a, b) == Mul(b, a)
  {
    hide And, Mul;
    MulCommLow(a, b, 0);
    AndZero(b);
  }

  lemma StepBitNonzero(r: bv32)
    requires r != 0
    ensures StepBit(r) != 0
  {
  }

  lemma {:induction false} PowerNonzero(n: nat)
    ensures Power(n) != 0
  {
    hide StepBit;
    if n > 0 {
      PowerNonzero(n - 1);
      StepBitNonzero(Power(n - 1));
      StepsAdd(ONE, n - 1, 1);
      assert Steps(Power(n - 1), 1) == StepBit(Power(n - 1));
    }
  }
}
