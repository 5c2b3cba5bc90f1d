/** Squaring modulo the CRC polynomial, and the period of repeated squaring: x^(2^32) is x. This is what
    lets `x2nmodp` (crypto/src/crc32.cpp) wrap its table index at 32. */
module CrcSquares {
  import opened CrcRegister
  import opened CrcAlgebra
  import opened Powers

  /** The square of the bits i.. of a: squaring is additive, so each bit x^j becomes x^(2j) on its own. */
  function SquareFrom(a: bv32, i: nat): bv32
    requires i <= 32
    decreases 32 - i
  {
    if i == 32 then 0 else Xor(if Bit(a, i) then Power(2 * i) else 0, SquareFrom(a, i + 1))
  }

  /** (u + v)^2 = u^2 + v^2, the two mixed products being equal. */
  lemma SquareXor(u: bv32, v: bv32)
    ensures Mul(Xor(u, v), Xor(u, v)) == Xor(Mul(u, u), Mul(v, v))
  {
    hide Xor, MulFrom;
    MulFromXor(u, v, Xor(u, v), 0);
    MulFromXorRight(u, u, v, 0);
    MulFromXorRight(v, u, v, 0);
    MulComm(u, v);
    XorExchange(Mul(u, u), Mul(u, v), Mul(u, v), Mul(v, v));
    XorExchange(Mul(u, u), Mul(u, v), Mul(v, v), Mul(u, v));
    XorComm(Mul(u, v), Mul(v, v));
    XorSelf(Mul(u, v), 0);
    XorZero(Xor(Mul(u, u), Mul(v, v)));
  }

  lemma SquareBit(i: nat)
    requires i < 32
    ensures Mul(Mask(i), Mask(i)) == Power(2 * i)
  {
    hide MulFrom, StepBit, Mask;
    PowerMask(i);
    MulByPower(Power(i), i);
    PowersCommute(i, i);
  }

  lemma {:induction false} SquareLow(a: bv32, i: nat)
    requires i <= 32
    ensures Mul(And(a, LowMask(i)), And(a, LowMask(i))) == SquareFrom(a, i)
    decreases 32 - i
  {
    hide Xor, StepBit, Steps, Paired, And, Half, MulFrom;
    if i == 32 {
      MaskLast();
      AndZero(a);
      MulZero(0);
    } else {
      MasksPaired(i);
      PairedSplit(a, Mask(i), LowMask(i));
      SquareXor(if Bit(a, i) then Mask(i) else 0, And(a, LowMask(i + 1)));
      SquareBit(i);
      MulZero(0);
      SquareLow(a, i + 1);
    }
  }

  lemma SquareIs(a: bv32)
    ensures Mul(a, a) == SquareFrom(a, 0)
  {
    hide And, Mul, SquareFrom;
    SquareLow(a, 0);
    AndZero(a);
  }

  /** Row i of the table of squares: the bit of x^i, and x^(2i). */
  predicate Row(i: nat, m: bv32, e: bv32)
  {
    Mask(i) == m && Power(2 * i) == e
  }

  /** The square of the bits i.. of a, one row at a time, ... */
  lemma AddRow(a: bv32, i: nat, m: bv32, e: bv32, rest: bv32, sum: bv32)
    requires i < 32 && Row(i, m, e) && SquareFrom(a, i + 1) == rest
    requires sum == (if a & m != 0 then e else 0) ^ rest
    ensures SquareFrom(a, i) == sum
  {
    hide Mask, Power, Xor;
    XorTo(if Bit(a, i) then e else 0, rest, sum);
  }

  lemma XorTo(a: bv32, b: bv32, c: bv32)
    requires a ^ b == c
    ensures Xor(a, b) == c
  {
  }

  /** ... and two at a time. */
  lemma AddRows(a: bv32, i: nat, m: bv32, e: bv32, m': bv32, e': bv32, rest: bv32, sum: bv32)
    requires i < 31 && Row(i, m, e) && Row(i + 1, m', e') && SquareFrom(a, i + 2) == rest
    requires sum == (if a & m != 0 then e else 0) ^ ((if a & m' != 0 then e' else 0) ^ rest)
    ensures SquareFrom(a, i) == sum
  {
    hide SquareFrom, Row;
    var second := (if a & m' != 0 then e' else 0) ^ rest;
    AddRow(a, i + 1, m', e', rest, second);
    AddRow(a, i, m, e, second, sum);
  }

  lemma FirstRow()
    ensures Row(0, 0x8000_0000, 0x8000_0000)
  {
  }

  lemma StepTwice(e: bv32)
    ensures Steps(e, 2) == StepBit(StepBit(e))
  {
    hide StepBit;
    StepsAdd(e, 1, 1);
    assert Steps(e, 1) == StepBit(e) && Steps(StepBit(e), 1) == StepBit(StepBit(e));
  }

  lemma NextRow(i: nat, m: bv32, e: bv32)
    requires Row(i, m, e)
    ensures Row(i + 1, Half(m), StepBit(StepBit(e)))
  {
    hide StepBit, Half;
    PowersCommute(2 * i, 2);
    StepTwice(e);
  }

  lemma RowStep(i: nat, m: bv32, e: bv32, m': bv32, d: bv32, e': bv32)
    requires Row(i, m, e) && m >> 1 == m'
    requires (if e & 1 == 1 then (e >> 1) ^ 0xEDB8_8320 else e >> 1) == d
    requires (if d & 1 == 1 then (d >> 1) ^ 0xEDB8_8320 else d >> 1) == e'
    ensures Row(i + 1, m', e')
  {
    hide Row, StepBit, Half;
    StepTo(e, d);
    StepTo(d, e');
    HalfTo(m, m');
    NextRow(i, m, e);
  }

  lemma StepTo(e: bv32, d: bv32)
    requires (if e & 1 == 1 then (e >> 1) ^ 0xEDB8_8320 else e >> 1) == d
    ensures StepBit(e) == d
  {
  }

  lemma HalfTo(m: bv32, m': bv32)
    requires m >> 1 == m'
    ensures Half(m) == m'
  {
  }

  lemma Rows0()
    ensures Row(0, 0x8000_0000, 0x8000_0000)
    ensures Row(1, 0x4000_0000, 0x2000_0000)
    ensures Row(2, 0x2000_0000, 0x0800_0000)
    ensures Row(3, 0x1000_0000, 0x0200_0000)
    ensures Row(4, 0x0800_0000, 0x0080_0000)
    ensures Row(5, 0x0400_0000, 0x0020_0000)
    ensures Row(6, 0x0200_0000, 0x0008_0000)
    ensures Row(7, 0x0100_0000, 0x0002_0000)
  {
    hide Row;
    FirstRow();
    RowStep(0, 0x8000_0000, 0x8000_0000, 0x4000_0000, 0x4000_0000, 0x2000_0000);
    RowStep(1, 0x4000_0000, 0x2000_0000, 0x2000_0000, 0x1000_0000, 0x0800_0000);
    RowStep(2, 0x2000_0000, 0x0800_0000, 0x1000_0000, 0x0400_0000, 0x0200_0000);
    RowStep(3, 0x1000_0000, 0x0200_0000, 0x0800_0000, 0x0100_0000, 0x0080_0000);
    RowStep(4, 0x0800_0000, 0x0080_0000, 0x0400_0000, 0x0040_0000, 0x0020_0000);
    RowStep(5, 0x0400_0000, 0x0020_0000, 0x0200_0000, 0x0010_0000, 0x0008_0000);
    RowStep(6, 0x0200_0000, 0x0008_0000, 0x0100_0000, 0x0004_0000, 0x0002_0000);
  }

  lemma Rows1()
    ensures Row(8, 0x0080_0000, 0x0000_8000)
    ensures Row(9, 0x0040_0000, 0x0000_2000)
    ensures Row(10, 0x0020_0000, 0x0000_0800)
    ensures Row(11, 0x0010_0000, 0x0000_0200)
    ensures Row(12, 0x0008_0000, 0x0000_0080)
    ensures Row(13, 0x0004_0000, 0x0000_0020)
    ensures Row(14, 0x0002_0000, 0x0000_0008)
    ensures Row(15, 0x0001_0000, 0x0000_0002)
  {
    hide Row;
    Rows0();
    RowStep(7, 0x0100_0000, 0x0002_0000, 0x0080_0000, 0x0001_0000, 0x0000_8000);
    RowStep(8, 0x0080_0000, 0x0000_8000, 0x0040_0000, 0x0000_4000, 0x0000_2000);
    RowStep(9, 0x0040_0000, 0x0000_2000, 0x0020_0000, 0x0000_1000, 0x0000_0800);
    RowStep(10, 0x0020_0000, 0x0000_0800, 0x0010_0000, 0x0000_0400, 0x0000_0200);
    RowStep(11, 0x0010_0000, 0x0000_0200, 0x0008_0000, 0x0000_0100, 0x0000_0080);
    RowStep(12, 0x0008_0000, 0x0000_0080, 0x0004_0000, 0x0000_0040, 0x0000_0020);
    RowStep(13, 0x0004_0000, 0x0000_0020, 0x0002_0000, 0x0000_0010, 0x0000_0008);
    RowStep(14, 0x0002_0000, 0x0000_0008, 0x0001_0000, 0x0000_0004, 0x0000_0002);
  }

  lemma Rows2()
    ensures Row(16, 0x0000_8000, 0xEDB8_8320)
    ensures Row(17, 0x0000_4000, 0x3B6E_20C8)
    ensures Row(18, 0x0000_2000, 0x0EDB_8832)
    ensures Row(19, 0x0000_1000, 0xEE0E_612C)
    ensures Row(20, 0x0000_0800, 0x3B83_984B)
    ensures Row(21, 0x0000_0400, 0x9584_24A2)
    ensures Row(22, 0x0000_0200, 0xC8D9_8A08)
    ensures Row(23, 0x0000_0100, 0x3236_6282)
  {
    hide Row;
    Rows1();
    RowStep(15, 0x0001_0000, 0x0000_0002, 0x0000_8000, 0x0000_0001, 0xEDB8_8320);
    RowStep(16, 0x0000_8000, 0xEDB8_8320, 0x0000_4000, 0x76DC_4190, 0x3B6E_20C8);
    RowStep(17, 0x0000_4000, 0x3B6E_20C8, 0x0000_2000, 0x1DB7_1064, 0x0EDB_8832);
    RowStep(18, 0x0000_2000, 0x0EDB_8832, 0x0000_1000, 0x076D_C419, 0xEE0E_612C);
    RowStep(19, 0x0000_1000, 0xEE0E_612C, 0x0000_0800, 0x7707_3096, 0x3B83_984B);
    RowStep(20, 0x0000_0800, 0x3B83_984B, 0x0000_0400, 0xF079_4F05, 0x9584_24A2);
    RowStep(21, 0x0000_0400, 0x9584_24A2, 0x0000_0200, 0x4AC2_1251, 0xC8D9_8A08);
    RowStep(22, 0x0000_0200, 0xC8D9_8A08, 0x0000_0100, 0x646C_C504, 0x3236_6282);
  }

  lemma Rows3()
    ensures Row(24, 0x0000_0080, 0xE135_1B80)
    ensures Row(25, 0x0000_0040, 0x384D_46E0)
    ensures Row(26, 0x0000_0020, 0x0E13_51B8)
    ensures Row(27, 0x0000_0010, 0x0384_D46E)
    ensures Row(28, 0x0000_0008, 0xED59_B63B)
    ensures Row(29, 0x0000_0004, 0xA032_AF3E)
    ensures Row(30, 0x0000_0002, 0xC5B4_28EF)
    ensures Row(31, 0x0000_0001, 0xAA09_C88B)
  {
    hide Row;
    Rows2();
    RowStep(23, 0x0000_0100, 0x3236_6282, 0x0000_0080, 0x191B_3141, 0xE135_1B80);
    RowStep(24, 0x0000_0080, 0xE135_1B80, 0x0000_0040, 0x709A_8DC0, 0x384D_46E0);
    RowStep(25, 0x0000_0040, 0x384D_46E0, 0x0000_0020, 0x1C26_A370, 0x0E13_51B8);
    RowStep(26, 0x0000_0020, 0x0E13_51B8, 0x0000_0010, 0x0709_A8DC, 0x0384_D46E);
    RowStep(27, 0x0000_0010, 0x0384_D46E, 0x0000_0008, 0x01C2_6A37, 0xED59_B63B);
    RowStep(28, 0x0000_0008, 0xED59_B63B, 0x0000_0004, 0x9B14_583D, 0xA032_AF3E);
    RowStep(29, 0x0000_0004, 0xA032_AF3E, 0x0000_0002, 0x5019_579F, 0xC5B4_28EF);
    RowStep(30, 0x0000_0002, 0xC5B4_28EF, 0x0000_0001, 0x8F62_9757, 0xAA09_C88B);
  }

  // The square of a from the table, two rows at a time.

  lemma Rows0And1(a: bv32, rest: bv32, sum: bv32)
    requires SquareFrom(a, 2) == rest
    requires sum == (if a & 0x8000_0000 != 0 then 0x8000_0000 else 0) ^
             ((if a & 0x4000_0000 != 0 then 0x2000_0000 else 0) ^ rest)
    ensures SquareFrom(a, 0) == sum
  {
    hide Row, SquareFrom;
    Rows0();
    AddRows(a, 0, 0x8000_0000, 0x8000_0000, 0x4000_0000, 0x2000_0000, rest, sum);
  }

  lemma Rows2And3(a: bv32, rest: bv32, sum: bv32)
    requires SquareFrom(a, 4) == rest
    requires sum == (if a & 0x2000_0000 != 0 then 0x0800_0000 else 0) ^
             ((if a & 0x1000_0000 != 0 then 0x0200_0000 else 0) ^ rest)
    ensures SquareFrom(a, 2) == sum
  {
    hide Row, SquareFrom;
    Rows0();
    AddRows(a, 2, 0x2000_0000, 0x0800_0000, 0x1000_0000, 0x0200_0000, rest, sum);
  }

  lemma Rows4And5(a: bv32, rest: bv32, sum: bv32)
    requires SquareFrom(a, 6) == rest
    requires sum == (if a & 0x0800_0000 != 0 then 0x0080_0000 else 0) ^
             ((if a & 0x0400_0000 != 0 then 0x0020_0000 else 0) ^ rest)
    ensures SquareFrom(a, 4) == sum
  {
    hide Row, SquareFrom;
    Rows0();
    AddRows(a, 4, 0x0800_0000, 0x0080_0000, 0x0400_0000, 0x0020_0000, rest, sum);
  }

  lemma Rows6And7(a: bv32, rest: bv32, sum: bv32)
    requires SquareFrom(a, 8) == rest
    requires sum == (if a & 0x0200_0000 != 0 then 0x0008_0000 else 0) ^
             ((if a & 0x0100_0000 != 0 then 0x0002_0000 else 0) ^ rest)
    ensures SquareFrom(a, 6) == sum
  {
    hide Row, SquareFrom;
    Rows0();
    AddRows(a, 6, 0x0200_0000, 0x0008_0000, 0x0100_0000, 0x0002_0000, rest, sum);
  }

  lemma Rows8And9(a: bv32, rest: bv32, sum: bv32)
    requires SquareFrom(a, 10) == rest
    requires sum == (if a & 0x0080_0000 != 0 then 0x0000_8000 else 0) ^
             ((if a & 0x0040_0000 != 0 then 0x0000_2000 else 0) ^ rest)
    ensures SquareFrom(a, 8) == sum
  {
    hide Row, SquareFrom;
    Rows1();
    AddRows(a, 8, 0x0080_0000, 0x0000_8000, 0x0040_0000, 0x0000_2000, rest, sum);
  }

  lemma Rows10And11(a: bv32, rest: bv32, sum: bv32)
    requires SquareFrom(a, 12) == rest
    requires sum == (if a & 0x0020_0000 != 0 then 0x0000_0800 else 0) ^
             ((if a & 0x0010_0000 != 0 then 0x0000_0200 else 0) ^ rest)
    ensures SquareFrom(a, 10) == sum
  {
    hide Row, SquareFrom;
    Rows1();
    AddRows(a, 10, 0x0020_0000, 0x0000_0800, 0x0010_0000, 0x0000_0200, rest, sum);
  }

  lemma Rows12And13(a: bv32, rest: bv32, sum: bv32)
    requires SquareFrom(a, 14) == rest
    requires sum == (if a & 0x0008_0000 != 0 then 0x0000_0080 else 0) ^
             ((if a & 0x0004_0000 != 0 then 0x0000_0020 else 0) ^ rest)
    ensures SquareFrom(a, 12) == sum
  {
    hide Row, SquareFrom;
    Rows1();
    AddRows(a, 12, 0x0008_0000, 0x0000_0080, 0x0004_0000, 0x0000_0020, rest, sum);
  }

  lemma Rows14And15(a: bv32, rest: bv32, sum: bv32)
    requires SquareFrom(a, 16) == rest
    requires sum == (if a & 0x0002_0000 != 0 then 0x0000_0008 else 0) ^
             ((if a & 0x0001_0000 != 0 then 0x0000_0002 else 0) ^ rest)
    ensures SquareFrom(a, 14) == sum
  {
    hide Row, SquareFrom;
    Rows1();
    AddRows(a, 14, 0x0002_0000, 0x0000_0008, 0x0001_0000, 0x0000_0002, rest, sum);
  }

  lemma Rows16And17(a: bv32, rest: bv32, sum: bv32)
    requires SquareFrom(a, 18) == rest
    requires sum == (if a & 0x0000_8000 != 0 then 0xEDB8_8320 else 0) ^
             ((if a & 0x0000_4000 != 0 then 0x3B6E_20C8 else 0) ^ rest)
    ensures SquareFrom(a, 16) == sum
  {
    hide Row, SquareFrom;
    Rows2();
    AddRows(a, 16, 0x0000_8000, 0xEDB8_8320, 0x0000_4000, 0x3B6E_20C8, rest, sum);
  }

  lemma Rows18And19(a: bv32, rest: bv32, sum: bv32)
    requires SquareFrom(a, 20) == rest
    requires sum == (if a & 0x0000_2000 != 0 then 0x0EDB_8832 else 0) ^
             ((if a & 0x0000_1000 != 0 then 0xEE0E_612C else 0) ^ rest)
    ensures SquareFrom(a, 18) == sum
  {
    hide Row, SquareFrom;
    Rows2();
    AddRows(a, 18, 0x0000_2000, 0x0EDB_8832, 0x0000_1000, 0xEE0E_612C, rest, sum);
  }

  lemma Rows20And21(a: bv32, rest: bv32, sum: bv32)
    requires SquareFrom(a, 22) == rest
    requires sum == (if a & 0x0000_0800 != 0 then 0x3B83_984B else 0) ^
             ((if a & 0x0000_0400 != 0 then 0x9584_24A2 else 0) ^ rest)
    ensures SquareFrom(a, 20) == sum
  {
    hide Row, SquareFrom;
    Rows2();
    AddRows(a, 20, 0x0000_0800, 0x3B83_984B, 0x0000_0400, 0x9584_24A2, rest, sum);
  }

  lemma Rows22And23(a: bv32, rest: bv32, sum: bv32)
    requires SquareFrom(a, 24) == rest
    requires sum == (if a & 0x0000_0200 != 0 then 0xC8D9_8A08 else 0) ^
             ((if a & 0x0000_0100 != 0 then 0x3236_6282 else 0) ^ rest)
    ensures SquareFrom(a, 22) == sum
  {
    hide Row, SquareFrom;
    Rows2();
    AddRows(a, 22, 0x0000_0200, 0xC8D9_8A08, 0x0000_0100, 0x3236_6282, rest, sum);
  }

  lemma Rows24And25(a: bv32, rest: bv32, sum: bv32)
    requires SquareFrom(a, 26) == rest
    requires sum == (if a & 0x0000_0080 != 0 then 0xE135_1B80 else 0) ^
             ((if a & 0x0000_0040 != 0 then 0x384D_46E0 else 0) ^ rest)
    ensures SquareFrom(a, 24) == sum
  {
    hide Row, SquareFrom;
    Rows3();
    AddRows(a, 24, 0x0000_0080, 0xE135_1B80, 0x0000_0040, 0x384D_46E0, rest, sum);
  }

  lemma Rows26And27(a: bv32, rest: bv32, sum: bv32)
    requires SquareFrom(a, 28) == rest
    requires sum == (if a & 0x0000_0020 != 0 then 0x0E13_51B8 else 0) ^
             ((if a & 0x0000_0010 != 0 then 0x0384_D46E else 0) ^ rest)
    ensures SquareFrom(a, 26) == sum
  {
    hide Row, SquareFrom;
    Rows3();
    AddRows(a, 26, 0x0000_0020, 0x0E13_51B8, 0x0000_0010, 0x0384_D46E, rest, sum);
  }

  lemma Rows28And29(a: bv32, rest: bv32, sum: bv32)
    requires SquareFrom(a, 30) == rest
    requires sum == (if a & 0x0000_0008 != 0 then 0xED59_B63B else 0) ^
             ((if a & 0x0000_0004 != 0 then 0xA032_AF3E else 0) ^ rest)
    ensures SquareFrom(a, 28) == sum
  {
    hide Row, SquareFrom;
    Rows3();
    AddRows(a, 28, 0x0000_0008, 0xED59_B63B, 0x0000_0004, 0xA032_AF3E, rest, sum);
  }

  lemma Rows30And31(a: bv32, rest: bv32, sum: bv32)
    requires SquareFrom(a, 32) == rest
    requires sum == (if a & 0x0000_0002 != 0 then 0xC5B4_28EF else 0) ^
             ((if a & 0x0000_0001 != 0 then 0xAA09_C88B else 0) ^ rest)
    ensures SquareFrom(a, 30) == sum
  {
    hide Row, SquareFrom;
    Rows3();
    AddRows(a, 30, 0x0000_0002, 0xC5B4_28EF, 0x0000_0001, 0xAA09_C88B, rest, sum);
  }

  /** From x^(2^k) to x^(2^(k+1)); s_i is the part of the square from the rows i and on. */
  lemma Doubled(k: nat, a: bv32,
                s30: bv32, s28: bv32, s26: bv32, s24: bv32, s22: bv32, s20: bv32, s18: bv32, s16: bv32,
                s14: bv32, s12: bv32, s10: bv32, s8: bv32, s6: bv32, s4: bv32, s2: bv32, s0: bv32)
    requires Power(Pow(2, k)) == a
    requires s30 == (if a & 0x0000_0002 != 0 then 0xC5B4_28EF else 0) ^
             ((if a & 0x0000_0001 != 0 then 0xAA09_C88B else 0) ^ 0)
    requires s28 == (if a & 0x0000_0008 != 0 then 0xED59_B63B else 0) ^
             ((if a & 0x0000_0004 != 0 then 0xA032_AF3E else 0) ^ s30)
    requires s26 == (if a & 0x0000_0020 != 0 then 0x0E13_51B8 else 0) ^
             ((if a & 0x0000_0010 != 0 then 0x0384_D46E else 0) ^ s28)
    requires s24 == (if a & 0x0000_0080 != 0 then 0xE135_1B80 else 0) ^
             ((if a & 0x0000_0040 != 0 then 0x384D_46E0 else 0) ^ s26)
    requires s22 == (if a & 0x0000_0200 != 0 then 0xC8D9_8A08 else 0) ^
             ((if a & 0x0000_0100 != 0 then 0x3236_6282 else 0) ^ s24)
    requires s20 == (if a & 0x0000_0800 != 0 then 0x3B83_984B else 0) ^
             ((if a & 0x0000_0400 != 0 then 0x9584_24A2 else 0) ^ s22)
    requires s18 == (if a & 0x0000_2000 != 0 then 0x0EDB_8832 else 0) ^
             ((if a & 0x0000_1000 != 0 then 0xEE0E_612C else 0) ^ s20)
    requires s16 == (if a & 0x0000_8000 != 0 then 0xEDB8_8320 else 0) ^
             ((if a & 0x0000_4000 != 0 then 0x3B6E_20C8 else 0) ^ s18)
    requires s14 == (if a & 0x0002_0000 != 0 then 0x0000_0008 else 0) ^
             ((if a & 0x0001_0000 != 0 then 0x0000_0002 else 0) ^ s16)
    requires s12 == (if a & 0x0008_0000 != 0 then 0x0000_0080 else 0) ^
             ((if a & 0x0004_0000 != 0 then 0x0000_0020 else 0) ^ s14)
    requires s10 == (if a & 0x0020_0000 != 0 then 0x0000_0800 else 0) ^
             ((if a & 0x0010_0000 != 0 then 0x0000_0200 else 0) ^ s12)
    requires s8 == (if a & 0x0080_0000 != 0 then 0x0000_8000 else 0) ^
             ((if a & 0x0040_0000 != 0 then 0x0000_2000 else 0) ^ s10)
    requires s6 == (if a & 0x0200_0000 != 0 then 0x0008_0000 else 0) ^
             ((if a & 0x0100_0000 != 0 then 0x0002_0000 else 0) ^ s8)
    requires s4 == (if a & 0x0800_0000 != 0 then 0x0080_0000 else 0) ^
             ((if a & 0x0400_0000 != 0 then 0x0020_0000 else 0) ^ s6)
    requires s2 == (if a & 0x2000_0000 != 0 then 0x0800_0000 else 0) ^
             ((if a & 0x1000_0000 != 0 then 0x0200_0000 else 0) ^ s4)
    requires s0 == (if a & 0x8000_0000 != 0 then 0x8000_0000 else 0) ^
             ((if a & 0x4000_0000 != 0 then 0x2000_0000 else 0) ^ s2)
    ensures Power(Pow(2, k + 1)) == s0
  {
    hide Mul, Steps, SquareFrom, Pow;
    NoRows(a);
    Rows30And31(a, 0, s30);
    Rows28And29(a, s30, s28);
    Rows26And27(a, s28, s26);
    Rows24And25(a, s26, s24);
    Rows22And23(a, s24, s22);
    Rows20And21(a, s22, s20);
    Rows18And19(a, s20, s18);
    Rows16And17(a, s18, s16);
    Rows14And15(a, s16, s14);
    Rows12And13(a, s14, s12);
    Rows10And11(a, s12, s10);
    Rows8And9(a, s10, s8);
    Rows6And7(a, s8, s6);
    Rows4And5(a, s6, s4);
    Rows2And3(a, s4, s2);
    Rows0And1(a, s2, s0);
    SquareIs(a);
    MulByPower(a, Pow(2, k));
    PowersCommute(Pow(2, k), Pow(2, k));
    TwiceThePower(k);
  }

  lemma NoRows(a: bv32)
    ensures SquareFrom(a, 32) == 0
  {
  }

  lemma TwiceThePower(k: nat)
    ensures Pow(2, k + 1) == Pow(2, k) + Pow(2, k)
  {
  }

  lemma Doubling0()
    requires Power(Pow(2, 0)) == 0x4000_0000
    ensures Power(Pow(2, 8)) == 0xED62_7DAE
  {
    hide Pow, Power;
    Doubled(0, 0x4000_0000,
            0x0000_0000, 0x0000_0000, 0x0000_0000, 0x0000_0000, 0x0000_0000, 0x0000_0000, 0x0000_0000, 0x0000_0000,
            0x0000_0000, 0x0000_0000, 0x0000_0000, 0x0000_0000, 0x0000_0000, 0x0000_0000, 0x0000_0000, 0x2000_0000);
    Doubled(1, 0x2000_0000,
            0x0000_0000, 0x0000_0000, 0x0000_0000, 0x0000_0000, 0x0000_0000, 0x0000_0000, 0x0000_0000, 0x0000_0000,
            0x0000_0000, 0x0000_0000, 0x0000_0000, 0x0000_0000, 0x0000_0000, 0x0000_0000, 0x0800_0000, 0x0800_0000);
    Doubled(2, 0x0800_0000,
            0x0000_0000, 0x0000_0000, 0x0000_0000, 0x0000_0000, 0x0000_0000, 0x0000_0000, 0x0000_0000, 0x0000_0000,
            0x0000_0000, 0x0000_0000, 0x0000_0000, 0x0000_0000, 0x0000_0000, 0x0080_0000, 0x0080_0000, 0x0080_0000);
    Doubled(3, 0x0080_0000,
            0x0000_0000, 0x0000_0000, 0x0000_0000, 0x0000_0000, 0x0000_0000, 0x0000_0000, 0x0000_0000, 0x0000_0000,
            0x0000_0000, 0x0000_0000, 0x0000_0000, 0x0000_8000, 0x0000_8000, 0x0000_8000, 0x0000_8000, 0x0000_8000);
    Doubled(4, 0x0000_8000,
            0x0000_0000, 0x0000_0000, 0x0000_0000, 0x0000_0000, 0x0000_0000, 0x0000_0000, 0x0000_0000, 0xEDB8_8320,
            0xEDB8_8320, 0xEDB8_8320, 0xEDB8_8320, 0xEDB8_8320, 0xEDB8_8320, 0xEDB8_8320, 0xEDB8_8320, 0xEDB8_8320);
    Doubled(5, 0xEDB8_8320,
            0x0000_0000, 0x0000_0000, 0x0E13_51B8, 0x0E13_51B8, 0xF4FC_B932, 0xF4FC_B932, 0xF4FC_B932, 0x1944_3A12,
            0x1944_3A12, 0x1944_3A92, 0x1944_3092, 0x1944_B092, 0x1946_B092, 0x19E6_B092, 0x11E6_B092, 0xB1E6_B092);
    Doubled(6, 0xB1E6_B092,
            0xC5B4_28EF, 0xC5B4_28EF, 0xC630_FC81, 0x2705_E701, 0x2705_E701, 0x2705_E701, 0xC7D0_0E1F, 0x2A68_8D3F,
            0x2A68_8D37, 0x2A68_8D17, 0x2A68_8517, 0x2A68_2517, 0x2A6A_2517, 0x2A6A_2517, 0x206A_2517, 0xA06A_2517);
    Doubled(7, 0xA06A_2517,
            0x6FBD_E064, 0xCF8F_4F5A, 0xCC0B_9B34, 0xCC0B_9B34, 0xFE3D_F9B6, 0x6BB9_DD14, 0x6562_5526, 0x6562_5526,
            0x6562_552E, 0x6562_55AE, 0x6562_5DAE, 0x6562_7DAE, 0x6562_7DAE, 0x6562_7DAE, 0x6D62_7DAE, 0xED62_7DAE);
  }

  lemma Doubling1()
    requires Power(Pow(2, 8)) == 0xED62_7DAE
    ensures Power(Pow(2, 16)) == 0x8385_2D0F
  {
    hide Pow, Power;
    Doubled(8, 0xED62_7DAE,
            0xC5B4_28EF, 0x88DF_31EA, 0x86CC_6052, 0x67F9_7BD2, 0x55CF_1950, 0xFBC8_A5B9, 0x1B1D_4CA7, 0x2073_6C6F,
            0x2073_6C67, 0x2073_6C67, 0x2073_6467, 0x2073_4467, 0x2071_4467, 0x20D1_4467, 0x28D1_4467, 0x88D1_4467);
    Doubled(9, 0x88D1_4467,
            0x6FBD_E064, 0xCF8F_4F5A, 0xC19C_1EE2, 0xF9D1_5802, 0xF9D1_5802, 0x6C55_7CA0, 0x6C55_7CA0, 0x573B_5C68,
            0x573B_5C6A, 0x573B_5C6A, 0x573B_5E6A, 0x573B_FE6A, 0x573B_FE6A, 0x57BB_FE6A, 0x57BB_FE6A, 0xD7BB_FE6A);
    Doubled(10, 0xD7BB_FE6A,
            0xC5B4_28EF, 0x28ED_9ED4, 0x26FE_CF6C, 0x1EB3_898C, 0xD66A_0384, 0x786D_BF6D, 0x98B8_5673, 0x4E6E_F59B,
            0x4E6E_F591, 0x4E6E_F511, 0x4E6E_FF11, 0x4E6E_7F11, 0x4E64_7F11, 0x4E44_7F11, 0x4C44_7F11, 0xEC44_7F11);
    Doubled(11, 0xEC44_7F11,
            0xAA09_C88B, 0xAA09_C88B, 0xA98D_1CE5, 0xA98D_1CE5, 0x5362_F46F, 0xFD65_4886, 0x1DB0_A198, 0x26DE_8150,
            0x26DE_8150, 0x26DE_8170, 0x26DE_8170, 0x26DE_A170, 0x26DE_A170, 0x267E_A170, 0x2E7E_A170, 0x8E7E_A170);
    Doubled(12, 0x8E7E_A170,
            0x0000_0000, 0x0000_0000, 0x0D97_85D6, 0x35DA_C336, 0x07EC_A1B4, 0x07EC_A1B4, 0x0937_2986, 0xE48F_AAA6,
            0xE48F_AAAE, 0xE48F_AA0E, 0xE48F_A00E, 0xE48F_800E, 0xE487_800E, 0xE427_800E, 0xE427_800E, 0x6427_800E);
    Doubled(13, 0x6427_800E,
            0xC5B4_28EF, 0x88DF_31EA, 0x88DF_31EA, 0x88DF_31EA, 0x88DF_31EA, 0x88DF_31EA, 0x88DF_31EA, 0x6567_B2CA,
            0x6567_B2C0, 0x6567_B2E0, 0x6567_BAE0, 0x6567_BAE0, 0x6567_BAE0, 0x6547_BAE0, 0x6D47_BAE0, 0x4D47_BAE0);
    Doubled(14, 0x4D47_BAE0,
            0x0000_0000, 0x0000_0000, 0x0E13_51B8, 0xD76B_0CD8, 0x1FB2_86D0, 0x2431_1E9B, 0xC4E4_F785, 0x295C_74A5,
            0x295C_74AF, 0x295C_748F, 0x295C_748F, 0x295C_548F, 0x295E_548F, 0x29FE_548F, 0x29FE_548F, 0x09FE_548F);
    Doubled(15, 0x09FE_548F,
            0x6FBD_E064, 0x22D6_F961, 0x22D6_F961, 0xC3E3_E2E1, 0xC3E3_E2E1, 0x5667_C643, 0xB869_A76F, 0x8307_87A7,
            0x8307_87AF, 0x8307_870F, 0x8307_8D0F, 0x8307_2D0F, 0x8305_2D0F, 0x8385_2D0F, 0x8385_2D0F, 0x8385_2D0F);
  }

  lemma Doubling2()
    requires Power(Pow(2, 16)) == 0x8385_2D0F
    ensures Power(Pow(2, 24)) == 0xBAD9_0E37
  {
    hide Pow, Power;
    Doubled(16, 0x8385_2D0F,
            0x6FBD_E064, 0x22D6_F961, 0x22D6_F961, 0x22D6_F961, 0x10E0_9BE3, 0xBEE7_270A, 0xB03C_AF38, 0xB03C_AF38,
            0xB03C_AF3A, 0xB03C_AF1A, 0xB03C_AF1A, 0xB03C_2F1A, 0xB036_2F1A, 0xB036_2F1A, 0xB036_2F1A, 0x3036_2F1A);
    Doubled(17, 0x3036_2F1A,
            0xC5B4_28EF, 0x28ED_9ED4, 0x2B69_4ABA, 0x2B69_4ABA, 0xD186_A230, 0x7F81_1ED9, 0x715A_96EB, 0x715A_96EB,
            0x715A_96E3, 0x715A_96C3, 0x715A_9CC3, 0x715A_9CC3, 0x715A_9CC3, 0x715A_9CC3, 0x7B5A_9CC3, 0x7B5A_9CC3);
    Doubled(18, 0x7B5A_9CC3,
            0x6FBD_E064, 0x6FBD_E064, 0x6FBD_E064, 0xB6C5_BD04, 0xB6C5_BD04, 0x18C2_01ED, 0xF6CC_60C1, 0x1B74_E3E1,
            0x1B74_E3E9, 0x1B74_E369, 0x1B74_E169, 0x1B74_C169, 0x1B7E_C169, 0x1BFE_C169, 0x11FE_C169, 0x31FE_C169);
    Doubled(19, 0x31FE_C169,
            0xAA09_C88B, 0x4750_7EB0, 0x4943_2F08, 0x710E_69E8, 0x4338_0B6A, 0x4338_0B6A, 0x4338_0B6A, 0x95EE_A882,
            0x95EE_A88A, 0x95EE_A82A, 0x95EE_A22A, 0x95EE_022A, 0x95EC_022A, 0x95EC_022A, 0x9FEC_022A, 0x9FEC_022A);
    Doubled(20, 0x9FEC_022A,
            0xC5B4_28EF, 0x28ED_9ED4, 0x26FE_CF6C, 0x26FE_CF6C, 0xEE27_4564, 0xEE27_4564, 0xEE27_4564, 0xEE27_4564,
            0xEE27_4564, 0xEE27_45C4, 0xEE27_4DC4, 0xEE27_EDC4, 0xEE2D_EDC4, 0xEE8D_EDC4, 0xEC8D_EDC4, 0x6C8D_EDC4);
    Doubled(21, 0x6C8D_EDC4,
            0x0000_0000, 0xA032_AF3E, 0xA032_AF3E, 0x794A_F25E, 0x4B7C_90DC, 0xE57B_2C35, 0xEBA0_A407, 0x3D76_07EF,
            0x3D76_07ED, 0x3D76_074D, 0x3D76_074D, 0x3D76_874D, 0x3D76_874D, 0x3DD6_874D, 0x35D6_874D, 0x15D6_874D);
    Doubled(22, 0x15D6_874D,
            0xAA09_C88B, 0xE762_D18E, 0xE762_D18E, 0xDF2F_976E, 0x25C0_7FE4, 0xB044_5B46, 0xB044_5B46, 0x5DFC_D866,
            0x5DFC_D86E, 0x5DFC_D84E, 0x5DFC_DA4E, 0x5DFC_7A4E, 0x5DFE_7A4E, 0x5DDE_7A4E, 0x5FDE_7A4E, 0x5FDE_7A4E);
    Doubled(23, 0x5FDE_7A4E,
            0xC5B4_28EF, 0x88DF_31EA, 0x88DF_31EA, 0xB092_770A, 0x784B_FD02, 0x43C8_6549, 0xA31D_8C57, 0x9873_AC9F,
            0x9873_AC97, 0x9873_AC37, 0x9873_AE37, 0x9873_0E37, 0x9879_0E37, 0x98D9_0E37, 0x9AD9_0E37, 0xBAD9_0E37);
  }

  lemma Doubling3()
    requires Power(Pow(2, 24)) == 0xBAD9_0E37
    ensures Power(Pow(2, 32)) == 0x4000_0000
  {
    hide Pow, Power;
    Doubled(24, 0xBAD9_0E37,
            0x6FBD_E064, 0xCF8F_4F5A, 0xC218_CA8C, 0xC218_CA8C, 0x0AC1_4084, 0xA4C6_FC6D, 0xA4C6_FC6D, 0xA4C6_FC6D,
            0xA4C6_FC6F, 0xA4C6_FCEF, 0xA4C6_FEEF, 0xA4C6_5EEF, 0xA4CE_5EEF, 0xA44E_5EEF, 0xAE4E_5EEF, 0x2E4E_5EEF);
    Doubled(25, 0x2E4E_5EEF,
            0x6FBD_E064, 0x22D6_F961, 0x2CC5_A8D9, 0xF5BD_F5B9, 0x3D64_7FB1, 0x9363_C358, 0x7D6D_A274, 0x4603_82BC,
            0x4603_82B4, 0x4603_8214, 0x4603_8214, 0x4603_A214, 0x460B_A214, 0x46AB_A214, 0x4EAB_A214, 0x4EAB_A214);
    Doubled(26, 0x4EAB_A214,
            0x0000_0000, 0xA032_AF3E, 0xA3B6_7B50, 0xA3B6_7B50, 0x6B6F_F158, 0x6B6F_F158, 0x65B4_796A, 0x880C_FA4A,
            0x880C_FA40, 0x880C_FAC0, 0x880C_F2C0, 0x880C_72C0, 0x8804_72C0, 0x88A4_72C0, 0x88A4_72C0, 0xA8A4_72C0);
    Doubled(27, 0xA8A4_72C0,
            0x0000_0000, 0x0000_0000, 0x0000_0000, 0xD978_5D60, 0x11A1_D768, 0x11A1_D768, 0xF174_3E76, 0xCA1A_1EBE,
            0xCA1A_1EBE, 0xCA1A_1E9E, 0xCA1A_169E, 0xCA1A_969E, 0xCA1A_969E, 0xCA9A_969E, 0xC29A_969E, 0x429A_969E);
    Doubled(28, 0x429A_969E,
            0xC5B4_28EF, 0x88DF_31EA, 0x8B5B_E584, 0x6A6E_FE04, 0xA2B7_740C, 0x3733_50AE, 0xD93D_3182, 0x3485_B2A2,
            0x3485_B2AA, 0x3485_B22A, 0x3485_B02A, 0x3485_302A, 0x348D_302A, 0x348D_302A, 0x348D_302A, 0x148D_302A);
    Doubled(29, 0x148D_302A,
            0xC5B4_28EF, 0x28ED_9ED4, 0x26FE_CF6C, 0x26FE_CF6C, 0x26FE_CF6C, 0x26FE_CF6C, 0xC62B_2672, 0xC62B_2672,
            0xC62B_2670, 0xC62B_26D0, 0xC62B_26D0, 0xC62B_A6D0, 0xC62B_A6D0, 0xC60B_A6D0, 0xC40B_A6D0, 0xC40B_A6D0);
    Doubled(30, 0xC40B_A6D0,
            0x0000_0000, 0x0000_0000, 0x0384_D46E, 0xDAFC_890E, 0x1225_0306, 0x87A1_27A4, 0x897A_AF96, 0x64C2_2CB6,
            0x64C2_2CBC, 0x64C2_2C3C, 0x64C2_2C3C, 0x64C2_2C3C, 0x64C2_2C3C, 0x64E2_2C3C, 0x64E2_2C3C, 0xC4E2_2C3C);
    Doubled(31, 0xC4E2_2C3C,
            0x0000_0000, 0x4D6B_1905, 0x40FC_9CD3, 0x40FC_9CD3, 0x40FC_9CD3, 0xEEFB_203A, 0xE020_A808, 0xE020_A808,
            0xE020_A800, 0xE020_A800, 0xE020_A000, 0xE020_0000, 0xE020_0000, 0xE000_0000, 0xE000_0000, 0x4000_0000);
  }

  /** Squaring x 32 times gives x back. */
  lemma SquaresReturn()
    ensures Power(Pow(2, 32)) == Power(1)
  {
    hide Pow, Power;
    OnceStepped();
    Doubling0();
    Doubling1();
    Doubling2();
    Doubling3();
  }

  lemma OnceStepped()
    ensures Power(1) == 0x4000_0000 && Pow(2, 0) == 1
  {
  }
}
