/** `crc32_combine` (crypto/src/crc32.cpp): the checksum of a concatenation from the checksums of its
    parts, by multiplication modulo the CRC polynomial. */
module CrcCombine {
  import opened Powers
  import opened CrcRegister
  import opened CrcAlgebra
  import opened CrcSquares
  import opened CrcWords
  import opened Crc32

  /** One round of `multmodp`: bit i moves from the product still to come into p. */
  lemma MulRound(a: bv32, b: bv32, p: bv32, i: nat)
    requires i < 32
    ensures Xor(p, MulFrom(a, b, i)) == Xor(if Bit(a, i) then Xor(p, b) else p, MulFrom(a, StepBit(b), i + 1))
  {
    hide Xor, StepBit, Bit;
    var rest := MulFrom(a, StepBit(b), i + 1);
    XorAssoc(p, b, rest);
    XorZero(rest);
  }

  /** The source's test `a & (m - 1)`: whether bits of a remain below m. */
  lemma MulRemains(a: bv32, m: bv32, i: nat)
    requires i < 32 && m == Mask(i)
    ensures And(a, m - 1) == And(a, LowMask(i + 1))
    ensures And(a, LowMask(i)) != 0 && And(a, m) == 0 ==> And(a, LowMask(i + 1)) != 0
    ensures And(a, LowMask(i + 1)) != 0 ==> i + 1 < 32
  {
    hide Xor, And, Half, Paired;
    MasksPaired(i);
    PairedBelow(m, LowMask(i));
    PairedSplit(a, m, LowMask(i));
    XorZero(And(a, LowMask(i + 1)));
    MaskLast();
    AndZero(a);
  }

  /** `multmodp`. With a zero first factor the source would never leave the loop. */
  method Multmodp(a: bv32, b: bv32) returns (p: bv32)
    requires a != 0
    ensures p == Mul(a, b)
  {
    hide Xor, StepBit, And, Half, MulFrom;
    AndZero(a);
    XorZero(Mul(a, b));
    var m, x := ONE, b;
    p := 0;
    ghost var i := 0;
    while true
      invariant i < 32 && m == Mask(i) && And(a, LowMask(i)) != 0
      invariant Xor(p, MulFrom(a, x, i)) == Mul(a, b)
      decreases 32 - i
    {
      MulRound(a, x, p, i);
      MulRemains(a, m, i);
      if And(a, m) != 0 {
        p := Xor(p, x);
        if And(a, m - 1) == 0 {
          MulFromNone(a, StepBit(x), i + 1);
          XorZero(p);
          break;
        }
      }
      m, x := Half(m), StepBit(x);
      i := i + 1;
    }
  }

  /** x2n_table[k]: x^(2^k). */
  function X2nTable(k: nat): bv32
    requires k < 32
  {
    Power(Pow(2, k))
  }

  /** If x^m is x, then x^(m t) is x^t. */
  lemma {:induction false} PeriodTimes(m: nat, t: nat)
    requires Power(m) == Power(1)
    ensures Power(Product(m, t)) == Power(t)
  {
    hide Power, Steps;
    ProductZero(m);
    if t > 0 {
      PeriodTimes(m, t - 1);
      ProductNext(m, t);
      PowersCommute(m, Product(m, t - 1));
      PowersCommute(1, Product(m, t - 1));
      PowersCommute(t - 1, 1);
    }
  }

  lemma ProductZero(m: nat)
    ensures Product(m, 0) == 0
  {
  }

  lemma ProductNext(m: nat, t: nat)
    requires t > 0
    ensures Product(m, t) == m + Product(m, t - 1)
  {
  }

  /** The table index may be taken modulo 32. */
  lemma {:induction false} TableWraps(k: nat)
    ensures Power(Pow(2, k)) == X2nTable(k % 32)
  {
    hide Pow, Power;
    if k >= 32 {
      TableWraps(k - 32);
      SquaresReturn();
      PeriodTimes(Pow(2, 32), Pow(2, k - 32));
      PowAdd(2, 32, k - 32);
    }
  }

  /** `x2nmodp`: x^(n 2^k) by the binary digits of n. */
  method X2nmodp(n: nat, k: nat) returns (p: bv32)
    ensures p == Power(Product(n, Pow(2, k))) && p != 0
  {
    hide Pow, Power, Product, Mul, Steps;
    p := ONE;
    var left, j := n, k;
    ghost var done: nat := 0;
    PowerZero();
    while left != 0
      invariant p == Power(done) && done + Product(left, Pow(2, j)) == Product(n, Pow(2, k))
      decreases left
    {
      HalfLeft(left, j);
      PowerNonzero(Pow(2, j));
      TableWraps(j);
      if left % 2 == 1 {
        PowerTimes(Pow(2, j), p);
        PowersCommute(done, Pow(2, j));
        p := Multmodp(X2nTable(j % 32), p);
        done := done + Pow(2, j);
      }
      left, j := left / 2, j + 1;
    }
    ProductNone(Pow(2, j));
    PowerNonzero(done);
  }

  lemma PowerZero()
    ensures Power(0) == ONE
  {
  }

  lemma ProductNone(t: nat)
    ensures Product(0, t) == 0
  {
  }

  lemma HalfLeft(left: nat, j: nat)
    ensures Product(left, Pow(2, j)) == (if left % 2 == 1 then Pow(2, j) else 0) + Product(left / 2, Pow(2, j + 1))
  {
    HalfProduct(left, left / 2, left % 2, Pow(2, j));
  }

  lemma HalfProduct(left: nat, half: nat, bit: nat, p: nat)
    requires left == 2 * half + bit && bit < 2
    ensures Product(left, p) == (if bit == 1 then p else 0) + Product(half, 2 * p)
  {
    MulDistributes(2 * half, bit, p);
    MulAssoc(half, 2, p);
    assert left * p == half * (2 * p) + bit * p;
  }

  /** Checksums are affine: appending a message multiplies by a power of x and adds the message's own
      checksum. */
  lemma ChecksumAppend(crc: bv32, s: seq<bv8>, t: seq<bv8>)
    ensures Checksum(crc, s + t) == Xor(Steps(Checksum(crc, s), 8 * |t|), Checksum(0, t))
  {
    hide Xor, Reg, Steps, Invert;
    var ones, n := 0xFFFF_FFFF, 8 * |t|;
    var r := Reg(Invert(crc), s);
    InvertIs(r);
    InvertIs(Reg(r, t));
    InvertIs(0);
    XorZero(ones);
    InvertIs(Reg(Invert(0), t));
    RegAppend(Invert(crc), s, t);
    RegSplit(r, t);
    RegSplit(ones, t);
    StepsXor(r, ones, n);
    Rearranged(Reg(0, t), Steps(r, n), Steps(ones, n), ones);
  }

  lemma InvertIs(r: bv32)
    ensures Invert(r) == Xor(r, 0xFFFF_FFFF)
  {
  }

  lemma Rearranged(t: bv32, r: bv32, f: bv32, ones: bv32)
    ensures Xor(Xor(t, r), ones) == Xor(Xor(r, f), Xor(Xor(t, f), ones))
  {
    hide Xor;
    XorComm(t, f);
    XorAssoc(f, t, ones);
    XorAssoc(Xor(r, f), f, Xor(t, ones));
    XorSelf(r, f);
    XorAssoc(r, t, ones);
    XorComm(r, t);
  }

  /** Checking a message in pieces: the checksum so far is the start of the next piece. */
  lemma ChecksumStreams(crc: bv32, s: seq<bv8>, t: seq<bv8>)
    ensures Checksum(Checksum(crc, s), t) == Checksum(crc, s + t)
  {
    hide Xor, Reg, Invert;
    var r := Reg(Invert(crc), s);
    InvertTwice(r);
    RegAppend(Invert(crc), s, t);
  }

  lemma InvertTwice(r: bv32)
    ensures Invert(Invert(r)) == r
  {
  }

  /** `crc32_combine_gen64`: the factor for appending n bytes. */
  method CombineGen(n: nat) returns (op: bv32)
    ensures op == Power(8 * n) && op != 0
  {
    op := X2nmodp(n, 3);
    EightTimes(n);
  }

  lemma EightTimes(n: nat)
    ensures Product(n, Pow(2, 3)) == 8 * n
  {
    assert Pow(2, 3) == 8;
  }

  /** What combining means: for the checksums of two messages, the checksum of their concatenation. */
  ghost predicate Combines(crc1: bv64, crc2: bv64, len2: nat, crc: bv64)
  {
    forall c, s, t | Low32(crc1) == Checksum(c, s) && Low32(crc2) == Checksum(0, t) && len2 == |t| ::
      crc == Widen64(Checksum(c, s + t))
  }

  /** `crc32_combine_op`. With the factor for the length of the second message it combines checksums. */
  method CombineOp(crc1: bv64, crc2: bv64, op: bv32) returns (crc: bv64)
    requires op != 0
    ensures crc == Widen64(Xor(Mul(op, Low32(crc1)), Low32(crc2)))
    ensures forall n: nat | op == Power(8 * n) :: Combines(crc1, crc2, n, crc)
  {
    hide Xor, Steps, Mul, Widen64, Low32, Checksum, Power;
    var p := Multmodp(op, Low32(crc1));
    crc := Widen64(Xor(p, Low32(crc2)));
    forall n: nat | op == Power(8 * n) ensures Combines(crc1, crc2, n, crc) {
      PowerTimes(8 * n, Low32(crc1));
      forall c, s, t | Low32(crc1) == Checksum(c, s) && Low32(crc2) == Checksum(0, t) && n == |t|
        ensures crc == Widen64(Checksum(c, s + t))
      {
        ChecksumAppend(c, s, t);
      }
    }
  }

  /** `crc32_combine64`. */
  method Combine(crc1: bv64, crc2: bv64, len2: nat) returns (crc: bv64)
    ensures crc == Widen64(Xor(Steps(Low32(crc1), 8 * len2), Low32(crc2)))
    ensures Combines(crc1, crc2, len2, crc)
  {
    hide Xor, Steps, Mul, Widen64, Low32, Checksum, Power, Combines;
    var op := CombineGen(len2);
    PowerTimes(8 * len2, Low32(crc1));
    crc := CombineOp(crc1, crc2, op);
  }
}
