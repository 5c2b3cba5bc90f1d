/** Known values of the checksum (crypto/src/crc32.cpp): what the register and the two complements come to. */
module CrcCheck {
  import opened CrcRegister
  import opened Crc32

  /** Eight bit steps on known registers. */
  lemma EightSteps(r: bv32, r1: bv32, r2: bv32, r3: bv32, r4: bv32, r5: bv32, r6: bv32, r7: bv32, r8: bv32)
    requires (if r & 1 == 1 then (r >> 1) ^ 0xEDB8_8320 else r >> 1) == r1
    requires (if r1 & 1 == 1 then (r1 >> 1) ^ 0xEDB8_8320 else r1 >> 1) == r2
    requires (if r2 & 1 == 1 then (r2 >> 1) ^ 0xEDB8_8320 else r2 >> 1) == r3
    requires (if r3 & 1 == 1 then (r3 >> 1) ^ 0xEDB8_8320 else r3 >> 1) == r4
    requires (if r4 & 1 == 1 then (r4 >> 1) ^ 0xEDB8_8320 else r4 >> 1) == r5
    requires (if r5 & 1 == 1 then (r5 >> 1) ^ 0xEDB8_8320 else r5 >> 1) == r6
    requires (if r6 & 1 == 1 then (r6 >> 1) ^ 0xEDB8_8320 else r6 >> 1) == r7
    requires (if r7 & 1 == 1 then (r7 >> 1) ^ 0xEDB8_8320 else r7 >> 1) == r8
    ensures Steps(r, 8) == r8
  {
    hide StepBit;
    StepIs(r, r1);
    StepIs(r1, r2);
    StepIs(r2, r3);
    StepIs(r3, r4);
    StepIs(r4, r5);
    StepIs(r5, r6);
    StepIs(r6, r7);
    StepIs(r7, r8);
    FourSteps(r, r1, r2, r3, r4);
    FourSteps(r4, r5, r6, r7, r8);
    StepsAdd(r, 4, 4);
  }

  lemma StepIs(r: bv32, s: bv32)
    requires (if r & 1 == 1 then (r >> 1) ^ 0xEDB8_8320 else r >> 1) == s
    ensures StepBit(r) == s
  {
  }

  lemma FourSteps(r: bv32, r1: bv32, r2: bv32, r3: bv32, r4: bv32)
    requires StepBit(r) == r1 && StepBit(r1) == r2 && StepBit(r2) == r3 && StepBit(r3) == r4
    ensures Steps(r, 4) == r4
  {
    hide StepBit;
    assert Steps(r3, 1) == r4 && Steps(r2, 2) == r4 && Steps(r1, 3) == r4;
  }

  /** One more byte, x being the register with the byte added. */
  lemma OneByte(s: seq<bv8>, r: bv32, b: bv8, x: bv32, y: bv32, u: seq<bv8>)
    requires Reg(0xFFFF_FFFF, s) == r && r ^ (b as bv32) == x && Steps(x, 8) == y && u == s + [b]
    ensures Reg(0xFFFF_FFFF, u) == y
  {
    hide Steps, Reg, Xor;
    RegSnoc(0xFFFF_FFFF, s, b);
    XorIs(r, Widen(b));
  }

  lemma FirstDigits()
    ensures Reg(0xFFFF_FFFF, [0x31, 0x32, 0x33, 0x34]) == 0x641C_1F5C
  {
    hide Steps, Reg;
    RegNothing(0xFFFF_FFFF);
    EightSteps(0xFFFF_FFCE, 0x7FFF_FFE7, 0xD247_7CD3, 0x849B_3D49, 0xAFF5_1D84,
               0x57FA_8EC2, 0x2BFD_4761, 0xF846_2090, 0x7C23_1048);
    OneByte([], 0xFFFF_FFFF, 0x31, 0xFFFF_FFCE, 0x7C23_1048,
            [0x31]);
    EightSteps(0x7C23_107A, 0x3E11_883D, 0xF2B0_473E, 0x7958_239F, 0xD114_92EF,
               0x8532_CA57, 0xAF21_E60B, 0xBA28_7025, 0xB0AC_BB32);
    OneByte([0x31], 0x7C23_1048, 0x32, 0x7C23_107A, 0xB0AC_BB32,
            [0x31, 0x32]);
    EightSteps(0xB0AC_BB01, 0xB5EE_DEA0, 0x5AF7_6F50, 0x2D7B_B7A8, 0x16BD_DBD4,
               0x0B5E_EDEA, 0x05AF_76F5, 0xEF6F_385A, 0x77B7_9C2D);
    OneByte([0x31, 0x32], 0xB0AC_BB32, 0x33, 0xB0AC_BB01, 0x77B7_9C2D,
            [0x31, 0x32, 0x33]);
    EightSteps(0x77B7_9C19, 0xD663_4D2C, 0x6B31_A696, 0x3598_D34B, 0xF774_EA85,
               0x9602_F662, 0x4B01_7B31, 0xC838_3EB8, 0x641C_1F5C);
    OneByte([0x31, 0x32, 0x33], 0x77B7_9C2D, 0x34, 0x77B7_9C19, 0x641C_1F5C,
            [0x31, 0x32, 0x33, 0x34]);
  }

  lemma LastDigits()
    requires Reg(0xFFFF_FFFF, [0x31, 0x32, 0x33, 0x34]) == 0x641C_1F5C
    ensures Reg(0xFFFF_FFFF, [0x31, 0x32, 0x33, 0x34, 0x35, 0x36, 0x37, 0x38, 0x39]) == 0x340B_C6D9
  {
    hide Steps, Reg;
    EightSteps(0x641C_1F69, 0xDFB6_8C94, 0x6FDB_464A, 0x37ED_A325, 0xF64E_52B2,
               0x7B27_2959, 0xD02B_178C, 0x6815_8BC6, 0x340A_C5E3);
    OneByte([0x31, 0x32, 0x33, 0x34], 0x641C_1F5C, 0x35, 0x641C_1F69, 0x340A_C5E3,
            [0x31, 0x32, 0x33, 0x34, 0x35]);
    EightSteps(0x340A_C5D5, 0xF7BD_E1CA, 0x7BDE_F0E5, 0xD057_FB52, 0x682B_FDA9,
               0xD9AD_7DF4, 0x6CD6_BEFA, 0x366B_5F7D, 0xF68D_2C9E);
    OneByte([0x31, 0x32, 0x33, 0x34, 0x35], 0x340A_C5E3, 0x36, 0x340A_C5D5, 0xF68D_2C9E,
            [0x31, 0x32, 0x33, 0x34, 0x35, 0x36]);
    EightSteps(0xF68D_2CA9, 0x96FE_1574, 0x4B7F_0ABA, 0x25BF_855D, 0xFF67_418E,
               0x7FB3_A0C7, 0xD261_5343, 0x8488_2A81, 0xAFFC_9660);
    OneByte([0x31, 0x32, 0x33, 0x34, 0x35, 0x36], 0xF68D_2C9E, 0x37, 0xF68D_2CA9, 0xAFFC_9660,
            [0x31, 0x32, 0x33, 0x34, 0x35, 0x36, 0x37]);
    EightSteps(0xAFFC_9658, 0x57FE_4B2C, 0x2BFF_2596, 0x15FF_92CB, 0xE747_4A45,
               0x9E1B_2602, 0x4F0D_9301, 0xCA3E_4AA0, 0x651F_2550);
    OneByte([0x31, 0x32, 0x33, 0x34, 0x35, 0x36, 0x37], 0xAFFC_9660, 0x38, 0xAFFC_9658, 0x651F_2550,
            [0x31, 0x32, 0x33, 0x34, 0x35, 0x36, 0x37, 0x38]);
    EightSteps(0x651F_2569, 0xDF37_1194, 0x6F9B_88CA, 0x37CD_C465, 0xF65E_6112,
               0x7B2F_3089, 0xD02F_1B64, 0x6817_8DB2, 0x340B_C6D9);
    OneByte([0x31, 0x32, 0x33, 0x34, 0x35, 0x36, 0x37, 0x38], 0x651F_2550, 0x39, 0x651F_2569, 0x340B_C6D9,
            [0x31, 0x32, 0x33, 0x34, 0x35, 0x36, 0x37, 0x38, 0x39]);
  }

  lemma RegNothing(r: bv32)
    ensures Reg(r, []) == r
  {
  }

  /** The check value: the checksum of the digits 1 to 9. */
  lemma CheckValue()
    ensures Checksum(0, [0x31, 0x32, 0x33, 0x34, 0x35, 0x36, 0x37, 0x38, 0x39]) == 0xCBF4_3926
  {
    hide Reg;
    FirstDigits();
    LastDigits();
    Complements();
  }

  lemma Complements()
    ensures Invert(0) == 0xFFFF_FFFF && Invert(0x340B_C6D9) == 0xCBF4_3926 && Invert(0xDEBB_20E3) == 0x2144_DF1C
  {
  }

  /** The bytes of a word, the lowest first. */
  function LittleEndian(c: bv32): seq<bv8>
  {
    [LowByte(c), LowByte(c >> 8), LowByte(c >> 16), LowByte(c >> 24)]
  }

  /** A byte that meets itself in the register leaves only what is above it. */
  lemma OwnByte(c: bv32, above: bv32)
    requires above == c >> 8
    ensures Feed(c, LowByte(c)) == above
  {
    hide Feed, CrcTable, LowByte;
    TableStepIsFeed(c, LowByte(c));
    OwnIndex(c);
  }

  lemma OwnIndex(c: bv32)
    ensures TableStep(c, LowByte(c)) == c >> 8
  {
    NoByte();
    hide CrcTable;
  }

  lemma NoByte()
    ensures CrcTable(0) == 0
  {
    StepsZero(8);
  }

  lemma Shifts(c: bv32, c1: bv32, c2: bv32, c3: bv32)
    requires c1 == c >> 8 && c2 == c >> 16 && c3 == c >> 24
    ensures c1 >> 8 == c2 && c2 >> 8 == c3 && c3 >> 8 == 0
  {
  }

  /** The register after its own bytes is zero. */
  lemma OwnBytes(c: bv32)
    ensures Reg(c, LittleEndian(c)) == 0
  {
    hide Feed, LowByte, Reg;
    var c1, c2, c3 := c >> 8, c >> 16, c >> 24;
    Shifts(c, c1, c2, c3);
    OwnByte(c, c1);
    OwnByte(c1, c2);
    OwnByte(c2, c3);
    OwnByte(c3, 0);
    FourBytes(c, LowByte(c), LowByte(c1), LowByte(c2), LowByte(c3));
  }

  lemma FourBytes(r: bv32, a: bv8, b: bv8, c: bv8, d: bv8)
    ensures Reg(r, [a, b, c, d]) == Feed(Feed(Feed(Feed(r, a), b), c), d)
  {
    hide Feed, Reg;
    RegSnoc(r, [], a);
    RegSnoc(r, [a], b);
    RegSnoc(r, [a, b], c);
    RegSnoc(r, [a, b, c], d);
    RegNothing(r);
    assert [] + [a] == [a] && [a] + [b] == [a, b] && [a, b] + [c] == [a, b, c] && [a, b, c] + [d] == [a, b, c, d];
  }

  /** A word fed into a register is added to it. */
  lemma WordAdds(r: bv32, c: bv32)
    ensures Reg(r, LittleEndian(c)) == Steps(Xor(r, c), 32)
  {
    hide Reg, Steps, Xor, LittleEndian;
    var t := LittleEndian(c);
    assert |t| == 4 by { FourLong(c); }
    OwnBytes(c);
    XorSelf(c, 0);
    RegXor(c, Xor(c, r), t);
    XorAssoc(c, c, r);
    XorZero(r);
    XorZero(Steps(Xor(c, r), 32));
    XorComm(c, r);
  }

  lemma FourLong(c: bv32)
    ensures |LittleEndian(c)| == 4
  {
  }

  lemma AllOnes()
    ensures Steps(0xFFFF_FFFF, 32) == 0xDEBB_20E3
  {
    hide Steps;
    EightSteps(0xFFFF_FFFF, 0x9247_7CDF, 0xA49B_3D4F, 0xBFF5_1D87, 0xB242_0DE3,
               0xB499_85D1, 0xB7F4_41C8, 0x5BFA_20E4, 0x2DFD_1072);
    EightSteps(0x2DFD_1072, 0x16FE_8839, 0xE6C7_C73C, 0x7363_E39E, 0x39B1_F1CF,
               0xF160_7BC7, 0x9508_BEC3, 0xA73C_DC41, 0xBE26_ED00);
    EightSteps(0xBE26_ED00, 0x5F13_7680, 0x2F89_BB40, 0x17C4_DDA0, 0x0BE2_6ED0,
               0x05F1_3768, 0x02F8_9BB4, 0x017C_4DDA, 0x00BE_26ED);
    EightSteps(0x00BE_26ED, 0xEDE7_9056, 0x76F3_C82B, 0xD6C1_6735, 0x86D8_30BA,
               0x436C_185D, 0xCC0E_8F0E, 0x6607_4787, 0xDEBB_20E3);
    StepsAdd(0xFFFF_FFFF, 8, 8);
    StepsAdd(0xFFFF_FFFF, 16, 8);
    StepsAdd(0xFFFF_FFFF, 24, 8);
  }

  lemma Meets(r: bv32)
    ensures Xor(r, Invert(r)) == 0xFFFF_FFFF
  {
  }

  /** A message with its checksum behind it always has this checksum. */
  lemma Residue(s: seq<bv8>)
    ensures Checksum(0, s + LittleEndian(Checksum(0, s))) == 0x2144_DF1C
  {
    hide Reg, Steps, Xor, LittleEndian, Invert;
    var r := Reg(Invert(0), s);
    RegAppend(Invert(0), s, LittleEndian(Invert(r)));
    WordAdds(r, Invert(r));
    Meets(r);
    AllOnes();
    Complements();
  }
}
