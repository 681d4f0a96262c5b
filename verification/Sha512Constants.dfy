/**
 The constants of SHA-512 (js/rollups/hmac-sha512.js:15-19) are those that sections 4.2.3 and 5.3.5 of FIPS 180-4 derive
 from the primes.
 */
module Sha512Constants {
  import JsNumber
  import opened Lanes
  import opened Primes
  import opened Sha512

  /** `bits` are the first sixty-four bits of the fraction of the cube root of `p`, whose whole part is `whole`. */
  predicate CubeRoot(p: nat, whole: nat, bits: nat) {
    var x := whole * TWO64 + bits;
    x * x * x <= p * (TWO64 * TWO64 * TWO64) < (x + 1) * (x + 1) * (x + 1)
  }

  /** The same for a square root. */
  predicate SquareRoot(p: nat, whole: nat, bits: nat) {
    var x := whole * TWO64 + bits;
    x * x <= p * (TWO64 * TWO64) < (x + 1) * (x + 1)
  }

  function CubeWhole(t: nat): nat {
    match t
    case 0 => 1 case 1 => 1 case 2 => 1 case 3 => 1 case 4 => 2 case 5 => 2 case 6 => 2 case 7 => 2
    case 8 => 2 case 9 => 3 case 10 => 3 case 11 => 3 case 12 => 3 case 13 => 3 case 14 => 3 case 15 => 3
    case 16 => 3 case 17 => 3 case 18 => 4 case 19 => 4
    case 20 => 4 case 21 => 4 case 22 => 4 case 23 => 4 case 24 => 4 case 25 => 4 case 26 => 4 case 27 => 4
    case 28 => 4 case 29 => 4 case 30 => 5 case 31 => 5 case 32 => 5 case 33 => 5 case 34 => 5 case 35 => 5
    case 36 => 5 case 37 => 5 case 38 => 5 case 39 => 5
    case 40 => 5 case 41 => 5 case 42 => 5 case 43 => 5 case 44 => 5 case 45 => 5 case 46 => 5 case 47 => 6
    case 48 => 6 case 49 => 6 case 50 => 6 case 51 => 6 case 52 => 6 case 53 => 6 case 54 => 6 case 55 => 6
    case 56 => 6 case 57 => 6 case 58 => 6 case 59 => 6
    case 60 => 6 case 61 => 6 case 62 => 6 case 63 => 6 case 64 => 6 case 65 => 6 case 66 => 6 case 67 => 6
    case 68 => 7 case 69 => 7 case 70 => 7 case 71 => 7 case 72 => 7 case 73 => 7 case 74 => 7 case 75 => 7
    case 76 => 7 case 77 => 7 case 78 => 7 case 79 => 7
    case _ => 0
  }

  /** The round constants as 64-bit numbers. */
  function Bits64(t: nat): nat {
    match t
    case 0 => 0x428A_2F98_D728_AE22 case 1 => 0x7137_4491_23EF_65CD case 2 => 0xB5C0_FBCF_EC4D_3B2F
    case 3 => 0xE9B5_DBA5_8189_DBBC
    case 4 => 0x3956_C25B_F348_B538 case 5 => 0x59F1_11F1_B605_D019 case 6 => 0x923F_82A4_AF19_4F9B
    case 7 => 0xAB1C_5ED5_DA6D_8118
    case 8 => 0xD807_AA98_A303_0242 case 9 => 0x1283_5B01_4570_6FBE case 10 => 0x2431_85BE_4EE4_B28C
    case 11 => 0x550C_7DC3_D5FF_B4E2
    case 12 => 0x72BE_5D74_F27B_896F case 13 => 0x80DE_B1FE_3B16_96B1 case 14 => 0x9BDC_06A7_25C7_1235
    case 15 => 0xC19B_F174_CF69_2694
    case 16 => 0xE49B_69C1_9EF1_4AD2 case 17 => 0xEFBE_4786_384F_25E3 case 18 => 0x0FC1_9DC6_8B8C_D5B5
    case 19 => 0x240C_A1CC_77AC_9C65
    case 20 => 0x2DE9_2C6F_592B_0275 case 21 => 0x4A74_84AA_6EA6_E483 case 22 => 0x5CB0_A9DC_BD41_FBD4
    case 23 => 0x76F9_88DA_8311_53B5
    case 24 => 0x983E_5152_EE66_DFAB case 25 => 0xA831_C66D_2DB4_3210 case 26 => 0xB003_27C8_98FB_213F
    case 27 => 0xBF59_7FC7_BEEF_0EE4
    case 28 => 0xC6E0_0BF3_3DA8_8FC2 case 29 => 0xD5A7_9147_930A_A725 case 30 => 0x06CA_6351_E003_826F
    case 31 => 0x1429_2967_0A0E_6E70
    case 32 => 0x27B7_0A85_46D2_2FFC case 33 => 0x2E1B_2138_5C26_C926 case 34 => 0x4D2C_6DFC_5AC4_2AED
    case 35 => 0x5338_0D13_9D95_B3DF
    case 36 => 0x650A_7354_8BAF_63DE case 37 => 0x766A_0ABB_3C77_B2A8 case 38 => 0x81C2_C92E_47ED_AEE6
    case 39 => 0x9272_2C85_1482_353B
    case 40 => 0xA2BF_E8A1_4CF1_0364 case 41 => 0xA81A_664B_BC42_3001 case 42 => 0xC24B_8B70_D0F8_9791
    case 43 => 0xC76C_51A3_0654_BE30
    case 44 => 0xD192_E819_D6EF_5218 case 45 => 0xD699_0624_5565_A910 case 46 => 0xF40E_3585_5771_202A
    case 47 => 0x106A_A070_32BB_D1B8
    case 48 => 0x19A4_C116_B8D2_D0C8 case 49 => 0x1E37_6C08_5141_AB53 case 50 => 0x2748_774C_DF8E_EB99
    case 51 => 0x34B0_BCB5_E19B_48A8
    case 52 => 0x391C_0CB3_C5C9_5A63 case 53 => 0x4ED8_AA4A_E341_8ACB case 54 => 0x5B9C_CA4F_7763_E373
    case 55 => 0x682E_6FF3_D6B2_B8A3
    case 56 => 0x748F_82EE_5DEF_B2FC case 57 => 0x78A5_636F_4317_2F60 case 58 => 0x84C8_7814_A1F0_AB72
    case 59 => 0x8CC7_0208_1A64_39EC
    case 60 => 0x90BE_FFFA_2363_1E28 case 61 => 0xA450_6CEB_DE82_BDE9 case 62 => 0xBEF9_A3F7_B2C6_7915
    case 63 => 0xC671_78F2_E372_532B
    case 64 => 0xCA27_3ECE_EA26_619C case 65 => 0xD186_B8C7_21C0_C207 case 66 => 0xEADA_7DD6_CDE0_EB1E
    case 67 => 0xF57D_4F7F_EE6E_D178
    case 68 => 0x06F0_67AA_7217_6FBA case 69 => 0x0A63_7DC5_A2C8_98A6 case 70 => 0x113F_9804_BEF9_0DAE
    case 71 => 0x1B71_0B35_131C_471B
    case 72 => 0x28DB_77F5_2304_7D84 case 73 => 0x32CA_AB7B_40C7_2493 case 74 => 0x3C9E_BE0A_15C9_BEBC
    case 75 => 0x431D_67C4_9C10_0D4C
    case 76 => 0x4CC5_D4BE_CB3E_42B6 case 77 => 0x597F_299C_FC65_7E2A case 78 => 0x5FCB_6FAB_3AD6_FAEC
    case 79 => 0x6C44_198C_4A47_5817
    case _ => 0
  }

  lemma CubeRootsFrom0()
    ensures CubeRoot(2, 1, 0x428A_2F98_D728_AE22)
    ensures CubeRoot(3, 1, 0x7137_4491_23EF_65CD)
    ensures CubeRoot(5, 1, 0xB5C0_FBCF_EC4D_3B2F)
    ensures CubeRoot(7, 1, 0xE9B5_DBA5_8189_DBBC)
    ensures CubeRoot(11, 2, 0x3956_C25B_F348_B538)
    ensures CubeRoot(13, 2, 0x59F1_11F1_B605_D019)
    ensures CubeRoot(17, 2, 0x923F_82A4_AF19_4F9B)
    ensures CubeRoot(19, 2, 0xAB1C_5ED5_DA6D_8118)
  {
  }

  lemma CubeRootsFrom8()
    ensures CubeRoot(23, 2, 0xD807_AA98_A303_0242)
    ensures CubeRoot(29, 3, 0x1283_5B01_4570_6FBE)
    ensures CubeRoot(31, 3, 0x2431_85BE_4EE4_B28C)
    ensures CubeRoot(37, 3, 0x550C_7DC3_D5FF_B4E2)
    ensures CubeRoot(41, 3, 0x72BE_5D74_F27B_896F)
    ensures CubeRoot(43, 3, 0x80DE_B1FE_3B16_96B1)
    ensures CubeRoot(47, 3, 0x9BDC_06A7_25C7_1235)
    ensures CubeRoot(53, 3, 0xC19B_F174_CF69_2694)
  {
  }

  lemma CubeRootsFrom16()
    ensures CubeRoot(59, 3, 0xE49B_69C1_9EF1_4AD2)
    ensures CubeRoot(61, 3, 0xEFBE_4786_384F_25E3)
    ensures CubeRoot(67, 4, 0x0FC1_9DC6_8B8C_D5B5)
    ensures CubeRoot(71, 4, 0x240C_A1CC_77AC_9C65)
    ensures CubeRoot(73, 4, 0x2DE9_2C6F_592B_0275)
    ensures CubeRoot(79, 4, 0x4A74_84AA_6EA6_E483)
    ensures CubeRoot(83, 4, 0x5CB0_A9DC_BD41_FBD4)
    ensures CubeRoot(89, 4, 0x76F9_88DA_8311_53B5)
  {
  }

  lemma CubeRootsFrom24()
    ensures CubeRoot(97, 4, 0x983E_5152_EE66_DFAB)
    ensures CubeRoot(101, 4, 0xA831_C66D_2DB4_3210)
    ensures CubeRoot(103, 4, 0xB003_27C8_98FB_213F)
    ensures CubeRoot(107, 4, 0xBF59_7FC7_BEEF_0EE4)
    ensures CubeRoot(109, 4, 0xC6E0_0BF3_3DA8_8FC2)
    ensures CubeRoot(113, 4, 0xD5A7_9147_930A_A725)
    ensures CubeRoot(127, 5, 0x06CA_6351_E003_826F)
    ensures CubeRoot(131, 5, 0x1429_2967_0A0E_6E70)
  {
  }

  lemma CubeRootsFrom32()
    ensures CubeRoot(137, 5, 0x27B7_0A85_46D2_2FFC)
    ensures CubeRoot(139, 5, 0x2E1B_2138_5C26_C926)
    ensures CubeRoot(149, 5, 0x4D2C_6DFC_5AC4_2AED)
    ensures CubeRoot(151, 5, 0x5338_0D13_9D95_B3DF)
    ensures CubeRoot(157, 5, 0x650A_7354_8BAF_63DE)
    ensures CubeRoot(163, 5, 0x766A_0ABB_3C77_B2A8)
    ensures CubeRoot(167, 5, 0x81C2_C92E_47ED_AEE6)
    ensures CubeRoot(173, 5, 0x9272_2C85_1482_353B)
  {
  }

  lemma CubeRootsFrom40()
    ensures CubeRoot(179, 5, 0xA2BF_E8A1_4CF1_0364)
    ensures CubeRoot(181, 5, 0xA81A_664B_BC42_3001)
    ensures CubeRoot(191, 5, 0xC24B_8B70_D0F8_9791)
    ensures CubeRoot(193, 5, 0xC76C_51A3_0654_BE30)
    ensures CubeRoot(197, 5, 0xD192_E819_D6EF_5218)
    ensures CubeRoot(199, 5, 0xD699_0624_5565_A910)
    ensures CubeRoot(211, 5, 0xF40E_3585_5771_202A)
    ensures CubeRoot(223, 6, 0x106A_A070_32BB_D1B8)
  {
  }

  lemma CubeRootsFrom48()
    ensures CubeRoot(227, 6, 0x19A4_C116_B8D2_D0C8)
    ensures CubeRoot(229, 6, 0x1E37_6C08_5141_AB53)
    ensures CubeRoot(233, 6, 0x2748_774C_DF8E_EB99)
    ensures CubeRoot(239, 6, 0x34B0_BCB5_E19B_48A8)
    ensures CubeRoot(241, 6, 0x391C_0CB3_C5C9_5A63)
    ensures CubeRoot(251, 6, 0x4ED8_AA4A_E341_8ACB)
    ensures CubeRoot(257, 6, 0x5B9C_CA4F_7763_E373)
    ensures CubeRoot(263, 6, 0x682E_6FF3_D6B2_B8A3)
  {
  }

  lemma CubeRootsFrom56()
    ensures CubeRoot(269, 6, 0x748F_82EE_5DEF_B2FC)
    ensures CubeRoot(271, 6, 0x78A5_636F_4317_2F60)
    ensures CubeRoot(277, 6, 0x84C8_7814_A1F0_AB72)
    ensures CubeRoot(281, 6, 0x8CC7_0208_1A64_39EC)
    ensures CubeRoot(283, 6, 0x90BE_FFFA_2363_1E28)
    ensures CubeRoot(293, 6, 0xA450_6CEB_DE82_BDE9)
    ensures CubeRoot(307, 6, 0xBEF9_A3F7_B2C6_7915)
    ensures CubeRoot(311, 6, 0xC671_78F2_E372_532B)
  {
  }

  lemma CubeRootsFrom64()
    ensures CubeRoot(313, 6, 0xCA27_3ECE_EA26_619C)
    ensures CubeRoot(317, 6, 0xD186_B8C7_21C0_C207)
    ensures CubeRoot(331, 6, 0xEADA_7DD6_CDE0_EB1E)
    ensures CubeRoot(337, 6, 0xF57D_4F7F_EE6E_D178)
    ensures CubeRoot(347, 7, 0x06F0_67AA_7217_6FBA)
    ensures CubeRoot(349, 7, 0x0A63_7DC5_A2C8_98A6)
    ensures CubeRoot(353, 7, 0x113F_9804_BEF9_0DAE)
    ensures CubeRoot(359, 7, 0x1B71_0B35_131C_471B)
  {
  }

  lemma CubeRootsFrom72()
    ensures CubeRoot(367, 7, 0x28DB_77F5_2304_7D84)
    ensures CubeRoot(373, 7, 0x32CA_AB7B_40C7_2493)
    ensures CubeRoot(379, 7, 0x3C9E_BE0A_15C9_BEBC)
    ensures CubeRoot(383, 7, 0x431D_67C4_9C10_0D4C)
    ensures CubeRoot(389, 7, 0x4CC5_D4BE_CB3E_42B6)
    ensures CubeRoot(397, 7, 0x597F_299C_FC65_7E2A)
    ensures CubeRoot(401, 7, 0x5FCB_6FAB_3AD6_FAEC)
    ensures CubeRoot(409, 7, 0x6C44_198C_4A47_5817)
  {
  }

  lemma BitsAreCubeRoots(t: nat)
    requires t < 80
    ensures CubeRoot(Prime(t), CubeWhole(t), Bits64(t))
  {
    hide CubeRoot;
    CubeRootsFrom0();
    CubeRootsFrom8();
    CubeRootsFrom16();
    CubeRootsFrom24();
    CubeRootsFrom32();
    CubeRootsFrom40();
    CubeRootsFrom48();
    CubeRootsFrom56();
    CubeRootsFrom64();
    CubeRootsFrom72();
  }

  lemma ConstantVal(p: Constant)
    ensures p.Val() == p.high * JsNumber.TWO32 + p.low
  {
  }

  lemma Row0(i: nat)
    requires i < 16
    ensures K0[i].Val() == Bits64(0 + i)
  {
    ConstantVal(K0[i]);
    hide Lane.Val;
  }

  lemma Row1(i: nat)
    requires i < 16
    ensures K1[i].Val() == Bits64(16 + i)
  {
    ConstantVal(K1[i]);
    hide Lane.Val;
  }

  lemma Row2(i: nat)
    requires i < 16
    ensures K2[i].Val() == Bits64(32 + i)
  {
    ConstantVal(K2[i]);
    hide Lane.Val;
  }

  lemma Row3(i: nat)
    requires i < 16
    ensures K3[i].Val() == Bits64(48 + i)
  {
    ConstantVal(K3[i]);
    hide Lane.Val;
  }

  lemma Row4(i: nat)
    requires i < 16
    ensures K4[i].Val() == Bits64(64 + i)
  {
    ConstantVal(K4[i]);
    hide Lane.Val;
  }

  /** Section 4.2.3: round constant `t` is the first sixty-four bits of the fraction of the cube root of prime `t`. */
  lemma RoundConstantsAreCubeRoots(t: nat)
    requires t < 80
    ensures IsPrime(Prime(t)) && CubeRoot(Prime(t), CubeWhole(t), K[t].Val())
  {
    AreConsecutive(t);
    BitsAreCubeRoots(t);
    hide IsPrime, CubeRoot, Bits64, Prime, CubeWhole, Lane.Val;
    if t < 16 {
      Row0(t);
    } else if t < 32 {
      Row1(t - 16);
    } else if t < 48 {
      Row2(t - 32);
    } else if t < 64 {
      Row3(t - 48);
    } else {
      Row4(t - 64);
    }
  }

  /** Section 5.3.5: the initial hash value comes from the square roots of the first eight primes in the same way. */
  lemma InitialWordsAreSquareRoots()
    ensures INITIAL[0].Val() == 0x6A09_E667_F3BC_C908 && SquareRoot(2, 1, 0x6A09_E667_F3BC_C908)
    ensures INITIAL[1].Val() == 0xBB67_AE85_84CA_A73B && SquareRoot(3, 1, 0xBB67_AE85_84CA_A73B)
    ensures INITIAL[2].Val() == 0x3C6E_F372_FE94_F82B && SquareRoot(5, 2, 0x3C6E_F372_FE94_F82B)
    ensures INITIAL[3].Val() == 0xA54F_F53A_5F1D_36F1 && SquareRoot(7, 2, 0xA54F_F53A_5F1D_36F1)
    ensures INITIAL[4].Val() == 0x510E_527F_ADE6_82D1 && SquareRoot(11, 3, 0x510E_527F_ADE6_82D1)
    ensures INITIAL[5].Val() == 0x9B05_688C_2B3E_6C1F && SquareRoot(13, 3, 0x9B05_688C_2B3E_6C1F)
    ensures INITIAL[6].Val() == 0x1F83_D9AB_FB41_BD6B && SquareRoot(17, 4, 0x1F83_D9AB_FB41_BD6B)
    ensures INITIAL[7].Val() == 0x5BE0_CD19_137E_2179 && SquareRoot(19, 4, 0x5BE0_CD19_137E_2179)
  {
  }
}
