/** The table of the byte-wise CRC-32, and facts about 32-bit words (GdbServer/Gdb/crc32.c). */
module CrcTable {

  /** One step of the polynomial 0x04C11DB7, highest bit first. */
  function Polynomial(crc: bv32): bv32 {
    if crc & 0x8000_0000 != 0 then (crc << 1) ^ 0x04C1_1DB7 else crc << 1
  }

  function Pick(i: bv32, v0: bv32, v1: bv32, v2: bv32, v3: bv32, v4: bv32, v5: bv32, v6: bv32, v7: bv32,
                v8: bv32, v9: bv32, v10: bv32, v11: bv32, v12: bv32, v13: bv32, v14: bv32, v15: bv32): bv32
  {
    if i & 8 == 0 then
      if i & 4 == 0 then
        if i & 2 == 0 then if i & 1 == 0 then v0 else v1 else if i & 1 == 0 then v2 else v3
      else
        if i & 2 == 0 then if i & 1 == 0 then v4 else v5 else if i & 1 == 0 then v6 else v7
    else
      if i & 4 == 0 then
        if i & 2 == 0 then if i & 1 == 0 then v8 else v9 else if i & 1 == 0 then v10 else v11
      else
        if i & 2 == 0 then if i & 1 == 0 then v12 else v13 else if i & 1 == 0 then v14 else v15
  }

  function FirstQuarter(i: bv32): bv32 {
    if i & 0x30 == 0x00 then
      Pick(i, 0x0000_0000, 0x04C1_1DB7, 0x0982_3B6E, 0x0D43_26D9,
              0x1304_76DC, 0x17C5_6B6B, 0x1A86_4DB2, 0x1E47_5005,
              0x2608_EDB8, 0x22C9_F00F, 0x2F8A_D6D6, 0x2B4B_CB61,
              0x350C_9B64, 0x31CD_86D3, 0x3C8E_A00A, 0x384F_BDBD)
    else if i & 0x30 == 0x10 then
      Pick(i, 0x4C11_DB70, 0x48D0_C6C7, 0x4593_E01E, 0x4152_FDA9,
              0x5F15_ADAC, 0x5BD4_B01B, 0x5697_96C2, 0x5256_8B75,
              0x6A19_36C8, 0x6ED8_2B7F, 0x639B_0DA6, 0x675A_1011,
              0x791D_4014, 0x7DDC_5DA3, 0x709F_7B7A, 0x745E_66CD)
    else if i & 0x30 == 0x20 then
      Pick(i, 0x9823_B6E0, 0x9CE2_AB57, 0x91A1_8D8E, 0x9560_9039,
              0x8B27_C03C, 0x8FE6_DD8B, 0x82A5_FB52, 0x8664_E6E5,
              0xBE2B_5B58, 0xBAEA_46EF, 0xB7A9_6036, 0xB368_7D81,
              0xAD2F_2D84, 0xA9EE_3033, 0xA4AD_16EA, 0xA06C_0B5D)
    else
      Pick(i, 0xD432_6D90, 0xD0F3_7027, 0xDDB0_56FE, 0xD971_4B49,
              0xC736_1B4C, 0xC3F7_06FB, 0xCEB4_2022, 0xCA75_3D95,
              0xF23A_8028, 0xF6FB_9D9F, 0xFBB8_BB46, 0xFF79_A6F1,
              0xE13E_F6F4, 0xE5FF_EB43, 0xE8BC_CD9A, 0xEC7D_D02D)
  }

  function SecondQuarter(i: bv32): bv32 {
    if i & 0x30 == 0x00 then
      Pick(i, 0x3486_7077, 0x3047_6DC0, 0x3D04_4B19, 0x39C5_56AE,
              0x2782_06AB, 0x2343_1B1C, 0x2E00_3DC5, 0x2AC1_2072,
              0x128E_9DCF, 0x164F_8078, 0x1B0C_A6A1, 0x1FCD_BB16,
              0x018A_EB13, 0x054B_F6A4, 0x0808_D07D, 0x0CC9_CDCA)
    else if i & 0x30 == 0x10 then
      Pick(i, 0x7897_AB07, 0x7C56_B6B0, 0x7115_9069, 0x75D4_8DDE,
              0x6B93_DDDB, 0x6F52_C06C, 0x6211_E6B5, 0x66D0_FB02,
              0x5E9F_46BF, 0x5A5E_5B08, 0x571D_7DD1, 0x53DC_6066,
              0x4D9B_3063, 0x495A_2DD4, 0x4419_0B0D, 0x40D8_16BA)
    else if i & 0x30 == 0x20 then
      Pick(i, 0xACA5_C697, 0xA864_DB20, 0xA527_FDF9, 0xA1E6_E04E,
              0xBFA1_B04B, 0xBB60_ADFC, 0xB623_8B25, 0xB2E2_9692,
              0x8AAD_2B2F, 0x8E6C_3698, 0x832F_1041, 0x87EE_0DF6,
              0x99A9_5DF3, 0x9D68_4044, 0x902B_669D, 0x94EA_7B2A)
    else
      Pick(i, 0xE0B4_1DE7, 0xE475_0050, 0xE936_2689, 0xEDF7_3B3E,
              0xF3B0_6B3B, 0xF771_768C, 0xFA32_5055, 0xFEF3_4DE2,
              0xC6BC_F05F, 0xC27D_EDE8, 0xCF3E_CB31, 0xCBFF_D686,
              0xD5B8_8683, 0xD179_9B34, 0xDC3A_BDED, 0xD8FB_A05A)
  }

  function ThirdQuarter(i: bv32): bv32 {
    if i & 0x30 == 0x00 then
      Pick(i, 0x690C_E0EE, 0x6DCD_FD59, 0x608E_DB80, 0x644F_C637,
              0x7A08_9632, 0x7EC9_8B85, 0x738A_AD5C, 0x774B_B0EB,
              0x4F04_0D56, 0x4BC5_10E1, 0x4686_3638, 0x4247_2B8F,
              0x5C00_7B8A, 0x58C1_663D, 0x5582_40E4, 0x5143_5D53)
    else if i & 0x30 == 0x10 then
      Pick(i, 0x251D_3B9E, 0x21DC_2629, 0x2C9F_00F0, 0x285E_1D47,
              0x3619_4D42, 0x32D8_50F5, 0x3F9B_762C, 0x3B5A_6B9B,
              0x0315_D626, 0x07D4_CB91, 0x0A97_ED48, 0x0E56_F0FF,
              0x1011_A0FA, 0x14D0_BD4D, 0x1993_9B94, 0x1D52_8623)
    else if i & 0x30 == 0x20 then
      Pick(i, 0xF12F_560E, 0xF5EE_4BB9, 0xF8AD_6D60, 0xFC6C_70D7,
              0xE22B_20D2, 0xE6EA_3D65, 0xEBA9_1BBC, 0xEF68_060B,
              0xD727_BBB6, 0xD3E6_A601, 0xDEA5_80D8, 0xDA64_9D6F,
              0xC423_CD6A, 0xC0E2_D0DD, 0xCDA1_F604, 0xC960_EBB3)
    else
      Pick(i, 0xBD3E_8D7E, 0xB9FF_90C9, 0xB4BC_B610, 0xB07D_ABA7,
              0xAE3A_FBA2, 0xAAFB_E615, 0xA7B8_C0CC, 0xA379_DD7B,
              0x9B36_60C6, 0x9FF7_7D71, 0x92B4_5BA8, 0x9675_461F,
              0x8832_161A, 0x8CF3_0BAD, 0x81B0_2D74, 0x8571_30C3)
  }

  function LastQuarter(i: bv32): bv32 {
    if i & 0x30 == 0x00 then
      Pick(i, 0x5D8A_9099, 0x594B_8D2E, 0x5408_ABF7, 0x50C9_B640,
              0x4E8E_E645, 0x4A4F_FBF2, 0x470C_DD2B, 0x43CD_C09C,
              0x7B82_7D21, 0x7F43_6096, 0x7200_464F, 0x76C1_5BF8,
              0x6886_0BFD, 0x6C47_164A, 0x6104_3093, 0x65C5_2D24)
    else if i & 0x30 == 0x10 then
      Pick(i, 0x119B_4BE9, 0x155A_565E, 0x1819_7087, 0x1CD8_6D30,
              0x029F_3D35, 0x065E_2082, 0x0B1D_065B, 0x0FDC_1BEC,
              0x3793_A651, 0x3352_BBE6, 0x3E11_9D3F, 0x3AD0_8088,
              0x2497_D08D, 0x2056_CD3A, 0x2D15_EBE3, 0x29D4_F654)
    else if i & 0x30 == 0x20 then
      Pick(i, 0xC5A9_2679, 0xC168_3BCE, 0xCC2B_1D17, 0xC8EA_00A0,
              0xD6AD_50A5, 0xD26C_4D12, 0xDF2F_6BCB, 0xDBEE_767C,
              0xE3A1_CBC1, 0xE760_D676, 0xEA23_F0AF, 0xEEE2_ED18,
              0xF0A5_BD1D, 0xF464_A0AA, 0xF927_8673, 0xFDE6_9BC4)
    else
      Pick(i, 0x89B8_FD09, 0x8D79_E0BE, 0x803A_C667, 0x84FB_DBD0,
              0x9ABC_8BD5, 0x9E7D_9662, 0x933E_B0BB, 0x97FF_AD0C,
              0xAFB0_10B1, 0xAB71_0D06, 0xA632_2BDF, 0xA2F3_3668,
              0xBCB4_666D, 0xB875_7BDA, 0xB536_5D03, 0xB1F7_40B4)
  }

  /** `crc32_table[i]`, its 256 entries as the source lists them. */
  function Table(i: bv32): bv32 {
    if i & 0xC0 == 0x00 then FirstQuarter(i)
    else if i & 0xC0 == 0x40 then SecondQuarter(i)
    else if i & 0xC0 == 0x80 then ThirdQuarter(i)
    else LastQuarter(i)
  }

  lemma FirstQuarterIsSteps(i: bv32)
    requires 0x0 <= i < 0x40
    ensures Polynomial(Polynomial(Polynomial(Polynomial(Polynomial(Polynomial(Polynomial(Polynomial(i << 24))))))))
         == FirstQuarter(i)
  {
  }

  lemma SecondQuarterIsSteps(i: bv32)
    requires 0x40 <= i < 0x80
    ensures Polynomial(Polynomial(Polynomial(Polynomial(Polynomial(Polynomial(Polynomial(Polynomial(i << 24))))))))
         == SecondQuarter(i)
  {
  }

  lemma ThirdQuarterIsSteps(i: bv32)
    requires 0x80 <= i < 0xc0
    ensures Polynomial(Polynomial(Polynomial(Polynomial(Polynomial(Polynomial(Polynomial(Polynomial(i << 24))))))))
         == ThirdQuarter(i)
  {
  }

  lemma LastQuarterIsSteps(i: bv32)
    requires 0xc0 <= i < 0x100
    ensures Polynomial(Polynomial(Polynomial(Polynomial(Polynomial(Polynomial(Polynomial(Polynomial(i << 24))))))))
         == LastQuarter(i)
  {
  }

  lemma QuarterOf(i: bv32)
    requires i < 256
    ensures if i < 64 then i & 0xC0 == 0x00
            else if i < 128 then i & 0xC0 == 0x40
            else if i < 192 then i & 0xC0 == 0x80
            else i & 0xC0 == 0xC0
  {
  }

  /** Every literal of the table is eight polynomial steps of its index. */
  lemma TableIsSteps(i: bv32)
    requires i < 256
    ensures Table(i)
         == Polynomial(Polynomial(Polynomial(Polynomial(Polynomial(Polynomial(Polynomial(Polynomial(i << 24))))))))
  {
    QuarterOf(i);
    hide Polynomial, FirstQuarter, SecondQuarter, ThirdQuarter, LastQuarter;
    if i < 64 {
      FirstQuarterIsSteps(i);
    } else if i < 128 {
      SecondQuarterIsSteps(i);
    } else if i < 192 {
      ThirdQuarterIsSteps(i);
    } else {
      LastQuarterIsSteps(i);
    }
  }

  // ---- Facts about bits, as relations between words so that they stay within the theory of bit vectors ----

  predicate High(x: bv32) {
    x & 0x8000_0000 != 0
  }

  predicate IsXor(x: bv32, y: bv32, p: bv32) {
    p == x ^ y
  }

  predicate IsShl(x: bv32, p: bv32) {
    p == x << 1
  }

  predicate IsShl8(x: bv32, p: bv32) {
    p == x << 8
  }

  predicate IsLow(x: bv32, p: bv32) {
    p == x & 0x00FF_FFFF
  }

  predicate IsTop(b: bv8, p: bv32) {
    p == (b as bv32) << 24
  }

  lemma XorSwap(x: bv32, y: bv32, z: bv32, p: bv32, q: bv32, r: bv32)
    requires IsXor(x, y, p) && IsXor(x, z, q) && IsXor(p, z, r)
    ensures IsXor(q, y, r)
  {
  }

  lemma XorCommutes(x: bv32, y: bv32, p: bv32)
    requires IsXor(x, y, p)
    ensures IsXor(y, x, p)
  {
  }

  lemma XorZero(x: bv32)
    ensures IsXor(x, 0, x)
  {
  }

  lemma ShlXor(x: bv32, y: bv32, p: bv32, a: bv32, b: bv32, q: bv32)
    requires IsXor(x, y, p) && IsShl(p, q) && IsShl(x, a) && IsShl(y, b)
    ensures IsXor(a, b, q)
  {
  }

  lemma HighXor(x: bv32, y: bv32, p: bv32)
    requires IsXor(x, y, p)
    ensures High(p) == (High(x) != High(y))
  {
  }

  lemma PolynomialIs(x: bv32, s: bv32, p: bv32)
    requires IsShl(x, s) && IsXor(s, 0x04C1_1DB7, p)
    ensures High(x) ==> Polynomial(x) == p
    ensures !High(x) ==> Polynomial(x) == s
  {
  }

  lemma ShlEight(x: bv32, x1: bv32, x2: bv32, x3: bv32, x4: bv32, x5: bv32, x6: bv32, x7: bv32, x8: bv32)
    requires IsShl(x, x1) && IsShl(x1, x2) && IsShl(x2, x3) && IsShl(x3, x4)
    requires IsShl(x4, x5) && IsShl(x5, x6) && IsShl(x6, x7) && IsShl(x7, x8)
    ensures IsShl8(x, x8)
  {
  }

  lemma LowBits(z: bv32, z1: bv32, z2: bv32, z3: bv32, z4: bv32, z5: bv32, z6: bv32, z7: bv32)
    requires z & 0xFF00_0000 == 0
    requires IsShl(z, z1) && IsShl(z1, z2) && IsShl(z2, z3) && IsShl(z3, z4)
    requires IsShl(z4, z5) && IsShl(z5, z6) && IsShl(z6, z7)
    ensures !High(z) && !High(z1) && !High(z2) && !High(z3) && !High(z4) && !High(z5) && !High(z6) && !High(z7)
  {
  }

  lemma LowClear(x: bv32, l: bv32)
    requires IsLow(x, l)
    ensures l & 0xFF00_0000 == 0
  {
  }

  lemma ShiftedOut(y: bv32, y1: bv32, y2: bv32, y3: bv32, y4: bv32)
    requires IsShl8(y, y1) && IsShl8(y1, y2) && IsShl8(y2, y3) && IsShl8(y3, y4)
    ensures y4 == 0
  {
  }

  lemma TopShiftedOut(b: bv8, t: bv32, p: bv32)
    requires IsTop(b, t) && IsShl8(t, p)
    ensures p == 0
  {
  }

  lemma LowShift(x: bv32, l: bv32, p: bv32, q: bv32)
    requires IsLow(x, l) && IsShl8(x, p) && IsShl8(l, q)
    ensures p == q
  {
  }

  /** The table index `i` for byte `b`, and the index at the top of a word. */
  predicate IsIndex(crc: bv32, b: bv8, i: bv32) {
    i == ((crc >> 24) ^ (b as bv32)) & 255
  }

  predicate IsAtTop(i: bv32, u: bv32) {
    u == i << 24
  }

  lemma IndexSmall(crc: bv32, b: bv8, i: bv32)
    requires IsIndex(crc, b, i)
    ensures i < 256
  {
  }

  lemma IndexParts(crc: bv32, b: bv8, i: bv32, t: bv32, u: bv32, l: bv32, r: bv32)
    requires IsIndex(crc, b, i) && IsTop(b, t) && IsAtTop(i, u) && IsLow(crc, l) && IsXor(crc, t, r)
    ensures IsXor(u, l, r)
  {
  }

  predicate IsLittle(b0: bv8, b1: bv8, b2: bv8, b3: bv8, v: bv32) {
    v == (b0 as bv32) | ((b1 as bv32) << 8) | ((b2 as bv32) << 16) | ((b3 as bv32) << 24)
  }

  predicate IsSwap(v: bv32, w: bv32) {
    w == (v << 24) | ((v & 0x0000_FF00) << 8) | ((v & 0x00FF_0000) >> 8) | (v >> 24)
  }

  predicate IsBig(b0: bv8, b1: bv8, b2: bv8, b3: bv8, w: bv32) {
    w == ((b0 as bv32) << 24) | ((b1 as bv32) << 16) | ((b2 as bv32) << 8) | (b3 as bv32)
  }

  lemma Swapped(b0: bv8, b1: bv8, b2: bv8, b3: bv8, v: bv32, w: bv32)
    requires IsLittle(b0, b1, b2, b3, v) && IsSwap(v, w)
    ensures IsBig(b0, b1, b2, b3, w)
  {
  }

  lemma Byte0(b0: bv8, b1: bv8, b2: bv8, b3: bv8, w: bv32, t: bv32, l: bv32)
    requires IsBig(b0, b1, b2, b3, w) && IsTop(b0, t) && IsLow(w, l)
    ensures IsXor(t, l, w)
  {
  }

  lemma Byte1(b0: bv8, b1: bv8, b2: bv8, b3: bv8, w: bv32, w1: bv32, t: bv32, l: bv32)
    requires IsBig(b0, b1, b2, b3, w) && IsShl8(w, w1) && IsTop(b1, t) && IsLow(w1, l)
    ensures IsXor(t, l, w1)
  {
  }

  lemma Byte2(b0: bv8, b1: bv8, b2: bv8, b3: bv8, w: bv32, w1: bv32, w2: bv32, t: bv32, l: bv32)
    requires IsBig(b0, b1, b2, b3, w) && IsShl8(w, w1) && IsShl8(w1, w2) && IsTop(b2, t) && IsLow(w2, l)
    ensures IsXor(t, l, w2)
  {
  }

  lemma Byte3(b0: bv8, b1: bv8, b2: bv8, b3: bv8, w: bv32, w1: bv32, w2: bv32, w3: bv32, t: bv32)
    requires IsBig(b0, b1, b2, b3, w) && IsShl8(w, w1) && IsShl8(w1, w2) && IsShl8(w2, w3) && IsTop(b3, t)
    ensures w3 == t
  {
  }
}

/** The CRC-32 of a memory range: the byte-table loop, and the loop that feeds a CRC unit a word at a
    time (GdbServer/Gdb/crc32.c). Both are the bit-serial checksum. */
module Crc {
  import T = CrcTable

  // ---- Words ----

  /** A `uint32_t`. */
  datatype Word = Word(bits: bv32)

  const ONES := Word(0xFFFF_FFFF)
  const ZERO := Word(0)
  const GENERATOR := Word(0x04C1_1DB7)

  predicate Msb(w: Word) {
    T.High(w.bits)
  }

  function Xor(x: Word, y: Word): Word {
    Word(x.bits ^ y.bits)
  }

  function Shl1(w: Word): Word {
    Word(w.bits << 1)
  }

  function Shl8(w: Word): Word {
    Word(w.bits << 8)
  }

  function Low24(w: Word): Word {
    Word(w.bits & 0x00FF_FFFF)
  }

  /** A byte in the top eight bits. */
  function Top(b: bv8): Word {
    Word((b as bv32) << 24)
  }

  // What each operation says of the bits; with these the laws need no operation's definition.

  lemma XorIs(x: Word, y: Word)
    ensures T.IsXor(x.bits, y.bits, Xor(x, y).bits)
  {
  }

  lemma XorDetermined(x: Word, y: Word, p: Word)
    requires T.IsXor(x.bits, y.bits, p.bits)
    ensures Xor(x, y) == p
  {
  }

  lemma Shl1Is(w: Word)
    ensures T.IsShl(w.bits, Shl1(w).bits)
  {
  }

  lemma Shl8Is(w: Word)
    ensures T.IsShl8(w.bits, Shl8(w).bits)
  {
  }

  lemma Shl8Determined(w: Word, p: Word)
    requires T.IsShl8(w.bits, p.bits)
    ensures Shl8(w) == p
  {
  }

  lemma Low24Is(w: Word)
    ensures T.IsLow(w.bits, Low24(w).bits)
  {
  }

  lemma TopIs(b: bv8)
    ensures T.IsTop(b, Top(b).bits)
  {
  }

  lemma XorSwaps(x: Word, y: Word, z: Word)
    ensures Xor(Xor(x, y), z) == Xor(Xor(x, z), y)
  {
    hide Xor, T.IsXor;
    XorIs(x, y);
    XorIs(x, z);
    XorIs(Xor(x, y), z);
    T.XorSwap(x.bits, y.bits, z.bits, Xor(x, y).bits, Xor(x, z).bits, Xor(Xor(x, y), z).bits);
    XorDetermined(Xor(x, z), y, Xor(Xor(x, y), z));
  }

  lemma XorCommutes(x: Word, y: Word)
    ensures Xor(x, y) == Xor(y, x)
  {
    hide Xor, T.IsXor;
    XorIs(x, y);
    T.XorCommutes(x.bits, y.bits, Xor(x, y).bits);
    XorDetermined(y, x, Xor(x, y));
  }

  lemma XorZero(x: Word)
    ensures Xor(x, ZERO) == x
  {
    hide Xor, T.IsXor;
    T.XorZero(x.bits);
    XorDetermined(x, ZERO, x);
  }

  lemma ShlXors(x: Word, y: Word)
    ensures Shl1(Xor(x, y)) == Xor(Shl1(x), Shl1(y))
  {
    hide Xor, Shl1, T.IsXor, T.IsShl;
    XorIs(x, y);
    Shl1Is(x);
    Shl1Is(y);
    Shl1Is(Xor(x, y));
    T.ShlXor(x.bits, y.bits, Xor(x, y).bits, Shl1(x).bits, Shl1(y).bits, Shl1(Xor(x, y)).bits);
    XorDetermined(Shl1(x), Shl1(y), Shl1(Xor(x, y)));
  }

  lemma MsbXors(x: Word, y: Word)
    ensures Msb(Xor(x, y)) == (Msb(x) != Msb(y))
  {
    hide Xor, T.IsXor, T.High;
    XorIs(x, y);
    T.HighXor(x.bits, y.bits, Xor(x, y).bits);
  }

  lemma XorLaws(x: Word, y: Word, z: Word)
    ensures Xor(x, y) == Xor(y, x) && Xor(x, ZERO) == x
    ensures Xor(Xor(x, y), z) == Xor(Xor(x, z), y)
    ensures Shl1(Xor(x, y)) == Xor(Shl1(x), Shl1(y))
    ensures Msb(Xor(x, y)) == (Msb(x) != Msb(y))
  {
    XorCommutes(x, y);
    XorZero(x);
    XorSwaps(x, y, z);
    ShlXors(x, y);
    MsbXors(x, y);
    hide Xor, Shl1, Msb;
  }

  // ---- The checksum, bit by bit ----

  /** Shift one message bit in at the top. */
  function BitStep(crc: Word, bit: bool): Word {
    if Msb(crc) != bit then Xor(Shl1(crc), GENERATOR) else Shl1(crc)
  }

  /** Shift in the top `n` bits of `y`, the highest first. */
  function Feed(crc: Word, y: Word, n: nat): Word
    decreases n
  {
    if n == 0 then crc else Feed(BitStep(crc, Msb(y)), Shl1(y), n - 1)
  }

  /** Every bit of every byte, in order. */
  function Checksum(crc: Word, s: seq<bv8>): Word {
    if s == [] then crc else Feed(Checksum(crc, s[..|s| - 1]), Top(s[|s| - 1]), 8)
  }

  // ---- Polynomial steps ----

  /** The body of the source's bit loop. */
  function Step(crc: Word): Word {
    if Msb(crc) then Xor(Shl1(crc), GENERATOR) else Shl1(crc)
  }

  function Steps(crc: Word, n: nat): Word
    decreases n
  {
    if n == 0 then crc else Steps(Step(crc), n - 1)
  }

  function Shift(y: Word, n: nat): Word
    decreases n
  {
    if n == 0 then y else Shift(Shl1(y), n - 1)
  }

  /** Polynomial steps on the sum are feeding the message, with what is left of the message still added. */
  lemma {:induction false} StepsFeed(crc: Word, y: Word, n: nat)
    ensures Steps(Xor(crc, y), n) == Xor(Feed(crc, y, n), Shift(y, n))
    decreases n
  {
    hide Xor, Shl1, Msb;
    if n > 0 {
      XorLaws(crc, y, ZERO);
      XorLaws(Shl1(crc), Shl1(y), GENERATOR);
      StepsFeed(BitStep(crc, Msb(y)), Shl1(y), n - 1);
    }
  }

  lemma {:induction false} FeedSplit(crc: Word, y: Word, m: nat, n: nat)
    ensures Feed(crc, y, m + n) == Feed(Feed(crc, y, m), Shift(y, m), n)
    decreases m
  {
    hide BitStep, Shl1, Msb;
    if m > 0 {
      FeedSplit(BitStep(crc, Msb(y)), Shl1(y), m - 1, n);
    }
  }

  predicate TopZero(z: Word, n: nat)
    decreases n
  {
    n == 0 || (!Msb(z) && TopZero(Shl1(z), n - 1))
  }

  /** Feeding `n` bits looks at no more than the top `n`. */
  lemma {:induction false} FeedTop(crc: Word, y: Word, z: Word, n: nat)
    requires TopZero(z, n)
    ensures Feed(crc, Xor(y, z), n) == Feed(crc, y, n)
    decreases n
  {
    hide Xor, Shl1, Msb, BitStep;
    if n > 0 {
      XorLaws(y, z, ZERO);
      FeedTop(BitStep(crc, Msb(y)), Shl1(y), Shl1(z), n - 1);
    }
  }

  lemma {:induction false} StepsTop(x: Word, z: Word, n: nat)
    requires TopZero(z, n)
    ensures Steps(Xor(x, z), n) == Xor(Steps(x, n), Shift(z, n))
    decreases n
  {
    hide Xor, Shl1, Msb;
    if n > 0 {
      XorLaws(x, z, ZERO);
      XorLaws(Shl1(x), Shl1(z), GENERATOR);
      StepsTop(Step(x), Shl1(z), n - 1);
    }
  }

  lemma Shift8(y: Word)
    ensures Shift(y, 8) == Shl8(y)
  {
    ShlEight(y);
    hide Shl1, Shl8;
    assert Shift(y, 8) == Shl1(Shl1(Shl1(Shl1(Shl1(Shl1(Shl1(Shl1(y))))))));
  }

  lemma ShlEight(y: Word)
    ensures Shl1(Shl1(Shl1(Shl1(Shl1(Shl1(Shl1(Shl1(y)))))))) == Shl8(y)
  {
    hide Shl1, Shl8, T.IsShl, T.IsShl8;
    var y1 := Shl1(y);
    var y2 := Shl1(y1);
    var y3 := Shl1(y2);
    var y4 := Shl1(y3);
    var y5 := Shl1(y4);
    var y6 := Shl1(y5);
    var y7 := Shl1(y6);
    Shl1Is(y);
    Shl1Is(y1);
    Shl1Is(y2);
    Shl1Is(y3);
    Shl1Is(y4);
    Shl1Is(y5);
    Shl1Is(y6);
    Shl1Is(y7);
    T.ShlEight(y.bits, y1.bits, y2.bits, y3.bits, y4.bits, y5.bits, y6.bits, y7.bits, Shl1(y7).bits);
    Shl8Determined(y, Shl1(y7));
  }

  lemma {:induction false} ShiftSum(y: Word, m: nat, n: nat)
    ensures Shift(y, m + n) == Shift(Shift(y, m), n)
    decreases m
  {
    hide Shl1;
    if m > 0 {
      ShiftSum(Shl1(y), m - 1, n);
    }
  }

  lemma Shift32(y: Word)
    ensures Shift(y, 32) == ZERO
  {
    var y1, y2, y3 := Shl8(y), Shl8(Shl8(y)), Shl8(Shl8(Shl8(y)));
    Shift8(y);
    Shift8(y1);
    Shift8(y2);
    Shift8(y3);
    ShiftSum(y, 8, 24);
    ShiftSum(y1, 8, 16);
    ShiftSum(y2, 8, 8);
    hide Shift, Shl8, T.IsShl8;
    Shl8Is(y);
    Shl8Is(y1);
    Shl8Is(y2);
    Shl8Is(y3);
    T.ShiftedOut(y.bits, y1.bits, y2.bits, y3.bits, Shl8(y3).bits);
  }

  lemma LowIsTopZero(w: Word)
    ensures TopZero(Low24(w), 8)
  {
    hide Shl1, Low24, T.IsShl, T.IsLow, T.High;
    var z := Low24(w);
    var z1 := Shl1(z);
    var z2 := Shl1(z1);
    var z3 := Shl1(z2);
    var z4 := Shl1(z3);
    var z5 := Shl1(z4);
    var z6 := Shl1(z5);
    var z7 := Shl1(z6);
    Low24Is(w);
    Shl1Is(z);
    Shl1Is(z1);
    Shl1Is(z2);
    Shl1Is(z3);
    Shl1Is(z4);
    Shl1Is(z5);
    Shl1Is(z6);
    T.LowClear(w.bits, z.bits);
    T.LowBits(z.bits, z1.bits, z2.bits, z3.bits, z4.bits, z5.bits, z6.bits, z7.bits);
    assert TopZero(z, 8);
  }

  lemma TopShift(b: bv8)
    ensures Shl8(Top(b)) == ZERO
  {
    hide Shl8, Top, T.IsTop, T.IsShl8;
    TopIs(b);
    Shl8Is(Top(b));
    T.TopShiftedOut(b, Top(b).bits, Shl8(Top(b)).bits);
  }

  /** One byte added at the top and stepped eight times: the tail loop's body. */
  lemma ByteSteps(crc: Word, b: bv8)
    ensures Steps(Xor(crc, Top(b)), 8) == Feed(crc, Top(b), 8)
  {
    StepsFeed(crc, Top(b), 8);
    Shift8(Top(b));
    TopShift(b);
    hide Steps, Feed, Shift, Top, Xor, Shl8;
    XorLaws(Feed(crc, Top(b), 8), ZERO, ZERO);
  }

  // ---- The byte-table form ----

  /** The table index of `crc32_calc`. */
  function Index(crc: Word, data: bv8): Word {
    Word(((crc.bits >> 24) ^ (data as bv32)) & 255)
  }

  function Entry(i: Word): Word {
    Word(T.Table(i.bits))
  }

  function AtTop(i: Word): Word {
    Word(i.bits << 24)
  }

  /** `crc32_calc`. */
  function Calc(crc: Word, data: bv8): Word {
    Xor(Shl8(crc), Entry(Index(crc, data)))
  }

  lemma IndexIs(crc: Word, data: bv8)
    ensures T.IsIndex(crc.bits, data, Index(crc, data).bits)
  {
  }

  lemma AtTopIs(i: Word)
    ensures T.IsAtTop(i.bits, AtTop(i).bits)
  {
  }

  /** The byte to look up and the rest of the register. */
  lemma IndexParts(crc: Word, data: bv8)
    ensures Index(crc, data).bits < 256
    ensures Xor(crc, Top(data)) == Xor(AtTop(Index(crc, data)), Low24(crc))
  {
    hide Xor, Index, Top, AtTop, Low24, T.IsIndex, T.IsTop, T.IsAtTop, T.IsLow, T.IsXor;
    var i, t := Index(crc, data), Top(data);
    IndexIs(crc, data);
    TopIs(data);
    AtTopIs(i);
    Low24Is(crc);
    XorIs(crc, t);
    T.IndexSmall(crc.bits, data, i.bits);
    T.IndexParts(crc.bits, data, i.bits, t.bits, AtTop(i).bits, Low24(crc).bits, Xor(crc, t).bits);
    XorDetermined(AtTop(i), Low24(crc), Xor(crc, t));
  }

  lemma LowShift(crc: Word)
    ensures Shl8(Low24(crc)) == Shl8(crc)
  {
    hide Shl8, Low24, T.IsShl8, T.IsLow;
    Low24Is(crc);
    Shl8Is(crc);
    Shl8Is(Low24(crc));
    T.LowShift(crc.bits, Low24(crc).bits, Shl8(crc).bits, Shl8(Low24(crc)).bits);
  }

  lemma StepIs(w: Word)
    ensures Step(w).bits == T.Polynomial(w.bits)
  {
    hide Xor, Shl1, T.High, T.Polynomial, T.IsShl, T.IsXor;
    Shl1Is(w);
    XorIs(Shl1(w), GENERATOR);
    T.PolynomialIs(w.bits, Shl1(w).bits, Xor(Shl1(w), GENERATOR).bits);
  }

  lemma EntryIsSteps(i: Word)
    requires i.bits < 256
    ensures Entry(i) == Steps(AtTop(i), 8)
  {
    T.TableIsSteps(i.bits);
    hide T.Table, T.Polynomial, Step;
    var w0 := AtTop(i);
    var w1 := Step(w0);
    var w2 := Step(w1);
    var w3 := Step(w2);
    var w4 := Step(w3);
    var w5 := Step(w4);
    var w6 := Step(w5);
    var w7 := Step(w6);
    StepIs(w0);
    StepIs(w1);
    StepIs(w2);
    StepIs(w3);
    StepIs(w4);
    StepIs(w5);
    StepIs(w6);
    StepIs(w7);
    assert Steps(w0, 8) == Step(w7);
  }

  /** One table look-up shifts in the eight bits of one byte. */
  lemma CalcFeeds(crc: Word, data: bv8)
    ensures Calc(crc, data) == Feed(crc, Top(data), 8)
  {
    var i := Index(crc, data);
    IndexParts(crc, data);
    LowShift(crc);
    ByteSteps(crc, data);
    EntryIsSteps(i);
    LowIsTopZero(crc);
    hide Xor, Shl8, Low24, Top, AtTop, Index, Entry, Feed, Steps, Shift, TopZero;
    StepsTop(AtTop(i), Low24(crc), 8);
    Shift8(Low24(crc));
    XorLaws(Entry(i), Shl8(crc), ZERO);
  }

  // ---- The word form ----

  /** A word as the little-endian host loads it. */
  function LoadLittle(b0: bv8, b1: bv8, b2: bv8, b3: bv8): Word {
    Word((b0 as bv32) | ((b1 as bv32) << 8) | ((b2 as bv32) << 16) | ((b3 as bv32) << 24))
  }

  /** `__builtin_bswap32`. */
  function Swap(w: Word): Word {
    Word((w.bits << 24) | ((w.bits & 0x0000_FF00) << 8) | ((w.bits & 0x00FF_0000) >> 8) | (w.bits >> 24))
  }

  /** The word's top byte is `b`. */
  predicate Starts(w: Word, b: bv8) {
    w == Xor(Top(b), Low24(w))
  }

  predicate Spells(w: Word, b0: bv8, b1: bv8, b2: bv8, b3: bv8) {
    && Starts(w, b0) && Starts(Shl8(w), b1) && Starts(Shl8(Shl8(w)), b2)
    && Shl8(Shl8(Shl8(w))) == Top(b3)
  }

  lemma LoadIs(b0: bv8, b1: bv8, b2: bv8, b3: bv8)
    ensures T.IsLittle(b0, b1, b2, b3, LoadLittle(b0, b1, b2, b3).bits)
  {
  }

  lemma SwapIs(w: Word)
    ensures T.IsSwap(w.bits, Swap(w).bits)
  {
  }

  /** The swapped word holds the bytes in memory order, the first at the top. */
  lemma SwapSpells(b0: bv8, b1: bv8, b2: bv8, b3: bv8)
    ensures Spells(Swap(LoadLittle(b0, b1, b2, b3)), b0, b1, b2, b3)
  {
    hide LoadLittle, Swap, Top, Low24, Shl8, Xor, T.IsLittle, T.IsSwap, T.IsBig, T.IsTop, T.IsLow, T.IsShl8, T.IsXor;
    var v := LoadLittle(b0, b1, b2, b3);
    var w := Swap(v);
    var w1 := Shl8(w);
    var w2 := Shl8(w1);
    LoadIs(b0, b1, b2, b3);
    SwapIs(v);
    T.Swapped(b0, b1, b2, b3, v.bits, w.bits);
    Shl8Is(w);
    Shl8Is(w1);
    Shl8Is(w2);
    Low24Is(w);
    Low24Is(w1);
    Low24Is(w2);
    TopIs(b0);
    TopIs(b1);
    TopIs(b2);
    TopIs(b3);
    T.Byte0(b0, b1, b2, b3, w.bits, Top(b0).bits, Low24(w).bits);
    T.Byte1(b0, b1, b2, b3, w.bits, w1.bits, Top(b1).bits, Low24(w1).bits);
    T.Byte2(b0, b1, b2, b3, w.bits, w1.bits, w2.bits, Top(b2).bits, Low24(w2).bits);
    T.Byte3(b0, b1, b2, b3, w.bits, w1.bits, w2.bits, Shl8(w2).bits, Top(b3).bits);
    XorDetermined(Top(b0), Low24(w), w);
    XorDetermined(Top(b1), Low24(w1), w1);
    XorDetermined(Top(b2), Low24(w2), w2);
  }

  /** Feeding eight bits of a word whose top byte is `b`. */
  lemma FeedByte(crc: Word, y: Word, b: bv8)
    requires Starts(y, b)
    ensures Feed(crc, y, 8) == Feed(crc, Top(b), 8)
  {
    LowIsTopZero(y);
    hide Feed, Top, TopZero, Xor, Low24;
    FeedTop(crc, Top(b), Low24(y), 8);
  }

  /** What the CRC unit makes of one word written to its data register. */
  function WordStep(crc: Word, w: Word): Word {
    Steps(Xor(crc, w), 32)
  }

  function FeedFour(crc: Word, b0: bv8, b1: bv8, b2: bv8, b3: bv8): Word {
    Feed(Feed(Feed(Feed(crc, Top(b0), 8), Top(b1), 8), Top(b2), 8), Top(b3), 8)
  }

  /** One swapped word is the same 32 message bits as its four bytes in memory order. */
  lemma WordFeeds(crc: Word, b0: bv8, b1: bv8, b2: bv8, b3: bv8)
    ensures WordStep(crc, Swap(LoadLittle(b0, b1, b2, b3))) == FeedFour(crc, b0, b1, b2, b3)
  {
    SwapSpells(b0, b1, b2, b3);
    hide Swap, LoadLittle, Spells, Xor, Feed, Steps, Shift, FeedFour;
    var w := Swap(LoadLittle(b0, b1, b2, b3));
    StepsFeed(crc, w, 32);
    Shift32(w);
    XorLaws(Feed(crc, w, 32), ZERO, ZERO);
    FeedBytes(crc, w, b0, b1, b2, b3);
  }

  lemma FeedBytes(crc: Word, w: Word, b0: bv8, b1: bv8, b2: bv8, b3: bv8)
    requires Spells(w, b0, b1, b2, b3)
    ensures Feed(crc, w, 32) == FeedFour(crc, b0, b1, b2, b3)
  {
    hide Shl8, Top, Starts, Feed, Shift;
    var w1, w2 := Shl8(w), Shl8(Shl8(w));
    Shift8(w);
    Shift8(w1);
    Shift8(w2);
    var c1 := Feed(crc, w, 8);
    var c2 := Feed(c1, w1, 8);
    FeedSplit(crc, w, 8, 24);
    FeedSplit(c1, w1, 8, 16);
    FeedSplit(c2, w2, 8, 8);
    FeedByte(crc, w, b0);
    FeedByte(c1, w1, b1);
    FeedByte(c2, w2, b2);
  }

  // ---- Both loops ----

  const CHUNK: nat := 128

  lemma ChecksumNone(crc: Word, s: seq<bv8>)
    ensures Checksum(crc, s[..0]) == crc
  {
  }

  lemma ChecksumByte(crc: Word, s: seq<bv8>, k: nat)
    requires k < |s|
    ensures Checksum(crc, s[..k + 1]) == Feed(Checksum(crc, s[..k]), Top(s[k]), 8)
  {
    hide Feed, Top;
    assert s[..k + 1][..k] == s[..k];
  }

  lemma ChecksumWord(crc: Word, s: seq<bv8>, k: nat)
    requires k + 4 <= |s|
    ensures Checksum(crc, s[..k + 4]) == FeedFour(Checksum(crc, s[..k]), s[k], s[k + 1], s[k + 2], s[k + 3])
  {
    hide Feed, Top, Checksum;
    ChecksumByte(crc, s, k);
    ChecksumByte(crc, s, k + 1);
    ChecksumByte(crc, s, k + 2);
    ChecksumByte(crc, s, k + 3);
  }

  /** `generic_crc32`, the byte-table version. */
  method GenericCrc32(mem: seq<bv8>, start: nat, length: nat) returns (crc: Word)
    requires start + length <= |mem|
    ensures crc == Checksum(ONES, mem[start..start + length])
  {
    hide Checksum, Feed, FeedFour, Calc, WordStep, Swap, LoadLittle;
    ghost var all := mem[start..start + length];
    crc := ONES;
    ChecksumNone(ONES, all);
    var base, len := start, length;
    while len > 0
      invariant 0 <= len && start <= base && base + len == start + length
      invariant crc == Checksum(ONES, all[..base - start])
    {
      var readLen := if CHUNK < len then CHUNK else len;
      var bytes := mem[base..base + readLen];
      var i := 0;
      while i < readLen
        invariant i <= readLen
        invariant crc == Checksum(ONES, all[..base - start + i])
      {
        ChecksumByte(ONES, all, base - start + i);
        CalcFeeds(crc, bytes[i]);
        crc := Calc(crc, bytes[i]);
        i := i + 1;
      }
      base := base + readLen;
      len := len - readLen;
    }
    assert all[..base - start] == all;
  }

  /** The CRC calculation unit: a write to the data register shifts in 32 bits, a read gives the sum. */
  class CrcUnit {
    var dr: Word

    constructor ()
      ensures dr == ONES
    {
      dr := ONES;
    }

    method Reset()
      modifies this
      ensures dr == ONES
    {
      dr := ONES;
    }

    method Write(w: Word)
      modifies this
      ensures dr == WordStep(old(dr), w)
    {
      dr := WordStep(dr, w);
    }
  }

  /** The bitwise tail: one byte. */
  method TailByte(crc0: Word, data: bv8) returns (crc: Word)
    ensures crc == Feed(crc0, Top(data), 8)
  {
    ByteSteps(crc0, data);
    hide Feed, Top, Xor, Msb, Shl1;
    crc := Xor(crc0, Top(data));
    ghost var x := crc;
    for i := 0 to 8
      invariant Steps(crc, 8 - i) == Steps(x, 8)
    {
      if Msb(crc) {
        crc := Xor(Shl1(crc), GENERATOR);
      } else {
        crc := Shl1(crc);
      }
    }
  }

  /** One word written to the unit takes the checksum four bytes further. */
  lemma WordTaken(all: seq<bv8>, at: nat, b0: bv8, b1: bv8, b2: bv8, b3: bv8)
    requires at + 4 <= |all| && all[at] == b0 && all[at + 1] == b1 && all[at + 2] == b2 && all[at + 3] == b3
    ensures WordStep(Checksum(ONES, all[..at]), Swap(LoadLittle(b0, b1, b2, b3))) == Checksum(ONES, all[..at + 4])
  {
    ChecksumWord(ONES, all, at);
    WordFeeds(Checksum(ONES, all[..at]), b0, b1, b2, b3);
    hide *;
  }

  lemma PartOf(mem: seq<bv8>, start: nat, length: nat)
    requires start + length <= |mem|
    ensures forall k :: start <= k < start + length ==> mem[start..start + length][k - start] == mem[k]
  {
  }

  /** `generic_crc32`, the version that uses the CRC unit. */
  method GenericCrc32Unit(unit: CrcUnit, mem: seq<bv8>, start: nat, length: nat) returns (crc: Word)
    requires start + length <= |mem|
    modifies unit
    ensures crc == Checksum(ONES, mem[start..start + length])
  {
    hide Checksum, Feed, FeedFour, Calc, WordStep, Swap, LoadLittle;
    ghost var all := mem[start..start + length];
    PartOf(mem, start, length);
    unit.Reset();
    ChecksumNone(ONES, all);
    var base, len := start, length;
    while len > 3
      invariant 0 <= len && start <= base && base + len == start + length
      invariant unit.dr == Checksum(ONES, all[..base - start])
    {
      var readLen := if CHUNK < len then CHUNK else len;
      readLen := readLen - readLen % 4;
      var bytes := mem[base..base + readLen];
      var i := 0;
      while i < readLen
        invariant i <= readLen && i % 4 == 0
        invariant unit.dr == Checksum(ONES, all[..base - start + i])
      {
        assert bytes[i] == mem[base + i] && bytes[i + 1] == mem[base + i + 1];
        assert bytes[i + 2] == mem[base + i + 2] && bytes[i + 3] == mem[base + i + 3];
        WordTaken(all, base - start + i, bytes[i], bytes[i + 1], bytes[i + 2], bytes[i + 3]);
        unit.Write(Swap(LoadLittle(bytes[i], bytes[i + 1], bytes[i + 2], bytes[i + 3])));
        i := i + 4;
      }
      base := base + readLen;
      len := len - readLen;
    }
    crc := unit.dr;
    var data := mem[base..base + len];
    var k := 0;
    while len > 0
      invariant 0 <= len && k + len == |data|
      invariant crc == Checksum(ONES, all[..base - start + k])
    {
      len := len - 1;
      assert data[k] == mem[base + k];
      ChecksumByte(ONES, all, base - start + k);
      crc := TailByte(crc, data[k]);
      k := k + 1;
    }
    assert all[..base - start + k] == all;
  }
}
