/** The CRC-32 shift register (crypto/src/crc32.cpp) and its linearity over GF(2). */
module CrcRegister {

  /** p(x) reflected, with x^32 implied. */
  const POLY: bv32 := 0xEDB88320

  /** Addition in GF(2)^32. */
  function Xor(a: bv32, b: bv32): bv32
  {
    a ^ b
  }

  lemma XorAssoc(a: bv32, b: bv32, c: bv32)
    ensures Xor(Xor(a, b), c) == Xor(a, Xor(b, c))
  {
    hide Xor;
    var x, y := Xor(a, b), Xor(b, c);
    XorIs(a, b);
    XorIs(b, c);
    XorIs(x, c);
    XorIs(a, y);
    XorAssocBits(a, b, c, x, y);
  }

  lemma XorIs(a: bv32, b: bv32)
    ensures Xor(a, b) == a ^ b
  {
  }

  lemma XorAssocBits(a: bv32, b: bv32, c: bv32, x: bv32, y: bv32)
    requires x == a ^ b && y == b ^ c
    ensures x ^ c == a ^ y
  {
  }

  lemma XorComm(a: bv32, b: bv32)
    ensures Xor(a, b) == Xor(b, a)
  {
  }

  lemma XorZero(a: bv32)
    ensures Xor(a, 0) == a && Xor(0, a) == a
  {
  }

  lemma XorSelf(a: bv32, b: bv32)
    ensures Xor(a, a) == 0 && Xor(Xor(a, b), b) == a
  {
  }

  /** Exchanging the inner operands of two sums. */
  lemma XorExchange(a: bv32, b: bv32, c: bv32, d: bv32)
    ensures Xor(Xor(a, b), Xor(c, d)) == Xor(Xor(a, c), Xor(b, d))
    ensures Xor(Xor(a, b), c) == Xor(Xor(a, c), b)
  {
  }

  /** One bit of a zero message: multiplication by x modulo p. */
  function StepBit(r: bv32): bv32
  {
    if r & 1 == 1 then (r >> 1) ^ POLY else r >> 1
  }

  /** n zero bits. */
  function Steps(r: bv32, n: nat): bv32
    decreases n
  {
    if n == 0 then r else Steps(StepBit(r), n - 1)
  }

  /** One message byte, least significant bit first. */
  function Feed(r: bv32, b: bv8): bv32
  {
    Steps(Xor(r, Widen(b)), 8)
  }

  function Widen(b: bv8): bv32
  {
    b as bv32
  }

  /** The register after a message. */
  function Reg(r: bv32, s: seq<bv8>): bv32
    decreases |s|
  {
    if s == [] then r else Reg(Feed(r, s[0]), s[1..])
  }

  lemma ShiftXor(a: bv32, b: bv32)
    ensures (a ^ b) >> 1 == (a >> 1) ^ (b >> 1)
    ensures (a ^ b) & 1 == 1 <==> (a & 1 == 1) != (b & 1 == 1)
  {
  }

  lemma CancelPoly(a: bv32, b: bv32)
    ensures (a ^ POLY) ^ (b ^ POLY) == a ^ b
    ensures (a ^ POLY) ^ b == (a ^ b) ^ POLY
    ensures a ^ (b ^ POLY) == (a ^ b) ^ POLY
  {
  }

  lemma StepBitCases(a: bv32, b: bv32)
    ensures StepBit(a ^ b) == StepBit(a) ^ StepBit(b)
  {
    ShiftXor(a, b);
    CancelPoly(a >> 1, b >> 1);
  }

  lemma StepBitXor(a: bv32, b: bv32)
    ensures StepBit(Xor(a, b)) == Xor(StepBit(a), StepBit(b))
  {
    hide StepBit;
    StepBitCases(a, b);
  }

  lemma {:induction false} StepsXor(a: bv32, b: bv32, n: nat)
    ensures Steps(Xor(a, b), n) == Xor(Steps(a, n), Steps(b, n))
    decreases n
  {
    hide Xor, StepBit;
    if n > 0 {
      StepBitXor(a, b);
      StepsXor(StepBit(a), StepBit(b), n - 1);
    }
  }

  lemma {:induction false} StepsAdd(r: bv32, m: nat, n: nat)
    ensures Steps(r, m + n) == Steps(Steps(r, m), n)
    decreases m
  {
    hide StepBit;
    if m > 0 { StepsAdd(StepBit(r), m - 1, n); }
  }

  lemma {:induction false} StepsZero(n: nat)
    ensures Steps(0, n) == 0
  {
    if n > 0 { StepsZero(n - 1); }
  }

  lemma {:induction false} RegAppend(r: bv32, s: seq<bv8>, t: seq<bv8>)
    ensures Reg(r, s + t) == Reg(Reg(r, s), t)
    decreases |s|
  {
    hide Feed;
    if s == [] {
      assert s + t == t;
    } else {
      assert (s + t)[1..] == s[1..] + t;
      RegAppend(Feed(r, s[0]), s[1..], t);
    }
  }

  lemma RegSnoc(r: bv32, s: seq<bv8>, b: bv8)
    ensures Reg(r, s + [b]) == Feed(Reg(r, s), b)
  {
    hide Feed;
    RegAppend(r, s, [b]);
    assert [b][1..] == [];
  }

  lemma FeedXor(a: bv32, b: bv32, c: bv8)
    ensures Feed(Xor(a, b), c) == Xor(Feed(a, c), Steps(b, 8))
  {
    hide Xor, Steps, Widen;
    XorExchange(a, b, Widen(c), 0);
    StepsXor(Xor(a, Widen(c)), b, 8);
  }

  /** A change of the starting register runs through the message as if through zeros. */
  lemma {:induction false} RegXor(a: bv32, b: bv32, s: seq<bv8>)
    ensures Reg(Xor(a, b), s) == Xor(Reg(a, s), Steps(b, 8 * |s|))
    decreases |s|
  {
    hide Xor, Feed, StepBit;
    if s != [] {
      FeedXor(a, b, s[0]);
      RegXor(Feed(a, s[0]), Steps(b, 8), s[1..]);
      StepsAdd(b, 8, 8 * |s[1..]|);
    }
  }

  lemma RegSplit(r: bv32, s: seq<bv8>)
    ensures Reg(r, s) == Xor(Reg(0, s), Steps(r, 8 * |s|))
  {
    hide Xor, Reg, Steps;
    XorZero(r);
    RegXor(0, r, s);
  }

  /** crc_table[b]: the register reached from 0 by the byte b. */
  function CrcTable(b: bv8): bv32
  {
    Steps(Widen(b), 8)
  }

  function LowByte(r: bv32): bv8
  {
    (r & 0xFF) as bv8
  }

  /** The byte-at-a-time update of the source. */
  function TableStep(r: bv32, b: bv8): bv32
  {
    Xor(r >> 8, CrcTable(LowByte(r) ^ b))
  }

  lemma Steps8(r: bv32)
    ensures Steps(r, 8) == StepBit(StepBit(StepBit(StepBit(StepBit(StepBit(StepBit(StepBit(r))))))))
  {
    hide StepBit;
  }

  /** Eight steps of a register whose low byte is zero are a plain shift. */
  lemma StepsHigh(r: bv32)
    ensures Steps((r >> 8) << 8, 8) == r >> 8
  {
    Steps8((r >> 8) << 8);
  }

  lemma SplitLowByte(r: bv32)
    ensures r == Xor((r >> 8) << 8, Widen(LowByte(r)))
  {
  }

  /** Eight steps, a byte at a time: the high bytes move down, the low byte goes through the table. */
  lemma StepsByTable(r: bv32)
    ensures Steps(r, 8) == Xor(r >> 8, CrcTable(LowByte(r)))
  {
    hide Xor, Steps, Widen, LowByte;
    SplitLowByte(r);
    StepsXor((r >> 8) << 8, Widen(LowByte(r)), 8);
    StepsHigh(r);
  }

  lemma ByteIn(r: bv32, b: bv8)
    ensures Xor(r, Widen(b)) >> 8 == r >> 8
    ensures LowByte(Xor(r, Widen(b))) == LowByte(r) ^ b
  {
  }

  lemma TableStepIsFeed(r: bv32, b: bv8)
    ensures TableStep(r, b) == Feed(r, b)
  {
    hide Xor, Steps, Widen, LowByte, CrcTable;
    StepsByTable(Xor(r, Widen(b)));
    ByteIn(r, b);
  }
}
