/**
 The known answer of FIPS 180-1: appendix A works out the digest of "abc", and so do these lemmas,
 word by word and round by round.
 */
module Sha1Vector {
  import opened Bytes
  import opened Sha1Spec

  const ABC: seq<bv8> := [0x61, 0x62, 0x63]
  const BLOCK: seq<bv32> := [0x6162_6380, 0, 0, 0, 0, 0, 0, 0, 0, 0, 0, 0, 0, 0, 0, 0x18]

  /** The schedule of the one block. */
  function W(): (w: seq<bv32>)
    ensures |w| == 80
  {
    Schedule(BLOCK, 80)
  }

  lemma WordIs(t: nat)
    requires 16 <= t < 80
    ensures W()[t] == S1(Xor4(W()[t - 3], W()[t - 8], W()[t - 14], W()[t - 16]))
  {
    hide S1, Xor4, Schedule;
    ScheduleWord(BLOCK, 80, t);
  }

  lemma FirstWords()
    ensures W()[0] == 0x6162_6380 && W()[1] == 0 && W()[2] == 0 && W()[3] == 0
    ensures W()[4] == 0 && W()[5] == 0 && W()[6] == 0 && W()[7] == 0
    ensures W()[8] == 0 && W()[9] == 0 && W()[10] == 0 && W()[11] == 0
    ensures W()[12] == 0 && W()[13] == 0 && W()[14] == 0 && W()[15] == 0x18
  {
    hide Schedule;
    ScheduleWord(BLOCK, 80, 16);
    assert forall t :: 0 <= t < 16 ==> W()[t] == W()[..16][t];
  }

  lemma WordsFrom16()
    ensures W()[16] == 0xc2c4_c700 && W()[17] == 0x0000_0000 && W()[18] == 0x0000_0030 && W()[19] == 0x8589_8e01
    ensures W()[20] == 0x0000_0000 && W()[21] == 0x0000_0060 && W()[22] == 0x0b13_1c03 && W()[23] == 0x0000_0030
  {
    hide W;
    FirstWords();
    WordIs(16);
    WordIs(17);
    WordIs(18);
    WordIs(19);
    WordIs(20);
    WordIs(21);
    WordIs(22);
    WordIs(23);
  }

  lemma WordsFrom24()
    ensures W()[24] == 0x8589_8ec1 && W()[25] == 0x1626_3806 && W()[26] == 0x0000_0000 && W()[27] == 0x0000_0180
    ensures W()[28] == 0x2c4c_700c && W()[29] == 0x0000_00f0 && W()[30] == 0x93af_b507 && W()[31] == 0x5898_e048
  {
    hide W;
    WordsFrom16();
    FirstWords();
    WordIs(24);
    WordIs(25);
    WordIs(26);
    WordIs(27);
    WordIs(28);
    WordIs(29);
    WordIs(30);
    WordIs(31);
  }

  lemma WordsFrom32()
    ensures W()[32] == 0x8e9a_9202 && W()[33] == 0x0000_0600 && W()[34] == 0xb131_c0f0 && W()[35] == 0x1626_3bc6
    ensures W()[36] == 0x4ebe_d41e && W()[37] == 0x6263_80a1 && W()[38] == 0x1626_3806 && W()[39] == 0x0000_18c0
  {
    hide W;
    WordsFrom16();
    WordsFrom24();
    WordIs(32);
    WordIs(33);
    WordIs(34);
    WordIs(35);
    WordIs(36);
    WordIs(37);
    WordIs(38);
    WordIs(39);
  }

  lemma WordsFrom40()
    ensures W()[40] == 0xd2e1_38c4 && W()[41] == 0x0000_0f00 && W()[42] == 0x3afb_5079 && W()[43] == 0x898e_04e5
    ensures W()[44] == 0xe2ba_3c2b && W()[45] == 0x0000_60c0 && W()[46] == 0x053a_37cd && W()[47] == 0x7445_8547
  {
    hide W;
    WordsFrom24();
    WordsFrom32();
    WordIs(40);
    WordIs(41);
    WordIs(42);
    WordIs(43);
    WordIs(44);
    WordIs(45);
    WordIs(46);
    WordIs(47);
  }

  lemma WordsFrom48()
    ensures W()[48] == 0xda94_15ed && W()[49] == 0x2638_0a16 && W()[50] == 0x6263_83a1 && W()[51] == 0x4ebf_54de
    ensures W()[52] == 0x3835_b44b && W()[53] == 0x0000_f600 && W()[54] == 0x1e84_c7a3 && W()[55] == 0x98e0_4d98
  {
    hide W;
    WordsFrom32();
    WordsFrom40();
    WordIs(48);
    WordIs(49);
    WordIs(50);
    WordIs(51);
    WordIs(52);
    WordIs(53);
    WordIs(54);
    WordIs(55);
  }

  lemma WordsFrom56()
    ensures W()[56] == 0x651d_16a0 && W()[57] == 0x6265_8ca1 && W()[58] == 0x4585_44d6 && W()[59] == 0x4458_4cb7
    ensures W()[60] == 0x7ba0_6619 && W()[61] == 0x6380_aea2 && W()[62] == 0x0ae5_5269 && W()[63] == 0x627b_49a1
  {
    hide W;
    WordsFrom40();
    WordsFrom48();
    WordIs(56);
    WordIs(57);
    WordIs(58);
    WordIs(59);
    WordIs(60);
    WordIs(61);
    WordIs(62);
    WordIs(63);
  }

  lemma WordsFrom64()
    ensures W()[64] == 0x7cd4_5c9d && W()[65] == 0x000f_0000 && W()[66] == 0xfb50_753a && W()[67] == 0xec67_65e8
    ensures W()[68] == 0xba3c_2be2 && W()[69] == 0x0060_c000 && W()[70] == 0x3a37_cd05 && W()[71] == 0x4585_46f4
  {
    hide W;
    WordsFrom48();
    WordsFrom56();
    WordIs(64);
    WordIs(65);
    WordIs(66);
    WordIs(67);
    WordIs(68);
    WordIs(69);
    WordIs(70);
    WordIs(71);
  }

  lemma WordsFrom72()
    ensures W()[72] == 0xb859_9dd6 && W()[73] == 0x380a_1a26 && W()[74] == 0x01e0_2203 && W()[75] == 0xe7cc_3456
    ensures W()[76] == 0xe6e6_0b69 && W()[77] == 0x00f6_0a00 && W()[78] == 0x5795_ef4f && W()[79] == 0x822e_0879
  {
    hide W;
    WordsFrom56();
    WordsFrom64();
    WordIs(72);
    WordIs(73);
    WordIs(74);
    WordIs(75);
    WordIs(76);
    WordIs(77);
    WordIs(78);
    WordIs(79);
  }

  /** One round, with the values written out. */
  lemma Step(t: nat, r: Hash, w: bv32)
    requires t < 80 && Rounds(W(), IV, t) == r && W()[t] == w
    ensures Rounds(W(), IV, t + 1) == Round(t, w, r)
  {
    hide Round, W;
  }

  lemma RoundsTo8()
    ensures Rounds(W(), IV, 8) == Hash(0x9e8c_07d4, 0x993e_30c1, 0x0ff1_f290, 0xb3f5_2677, 0xf376_3846)
  {
    hide W, Rounds;
    NoRounds();
    FirstWords();
    Step(0, Hash(0x6745_2301, 0xefcd_ab89, 0x98ba_dcfe, 0x1032_5476, 0xc3d2_e1f0), 0x6162_6380);
    Step(1, Hash(0x0116_fc33, 0x6745_2301, 0x7bf3_6ae2, 0x98ba_dcfe, 0x1032_5476), 0x0000_0000);
    Step(2, Hash(0x8990_536d, 0x0116_fc33, 0x59d1_48c0, 0x7bf3_6ae2, 0x98ba_dcfe), 0x0000_0000);
    Step(3, Hash(0xa139_0f08, 0x8990_536d, 0xc045_bf0c, 0x59d1_48c0, 0x7bf3_6ae2), 0x0000_0000);
    Step(4, Hash(0xcdd8_e11b, 0xa139_0f08, 0x6264_14db, 0xc045_bf0c, 0x59d1_48c0), 0x0000_0000);
    Step(5, Hash(0xcfd4_99de, 0xcdd8_e11b, 0x284e_43c2, 0x6264_14db, 0xc045_bf0c), 0x0000_0000);
    Step(6, Hash(0x3fc7_ca40, 0xcfd4_99de, 0xf376_3846, 0x284e_43c2, 0x6264_14db), 0x0000_0000);
    Step(7, Hash(0x993e_30c1, 0x3fc7_ca40, 0xb3f5_2677, 0xf376_3846, 0x284e_43c2), 0x0000_0000);
  }

  lemma RoundsTo16()
    ensures Rounds(W(), IV, 16) == Hash(0x20bd_d62f, 0x196b_ee77, 0x644a_3da5, 0x1181_ed99, 0x18c6_23f9)
  {
    hide W, Rounds;
    RoundsTo8();
    FirstWords();
    Step(8, Hash(0x9e8c_07d4, 0x993e_30c1, 0x0ff1_f290, 0xb3f5_2677, 0xf376_3846), 0x0000_0000);
    Step(9, Hash(0x4b6a_e328, 0x9e8c_07d4, 0x664f_8c30, 0x0ff1_f290, 0xb3f5_2677), 0x0000_0000);
    Step(10, Hash(0x8351_f929, 0x4b6a_e328, 0x27a3_01f5, 0x664f_8c30, 0x0ff1_f290), 0x0000_0000);
    Step(11, Hash(0xfbda_9e89, 0x8351_f929, 0x12da_b8ca, 0x27a3_01f5, 0x664f_8c30), 0x0000_0000);
    Step(12, Hash(0x6318_8fe4, 0xfbda_9e89, 0x60d4_7e4a, 0x12da_b8ca, 0x27a3_01f5), 0x0000_0000);
    Step(13, Hash(0x4607_b664, 0x6318_8fe4, 0x7ef6_a7a2, 0x60d4_7e4a, 0x12da_b8ca), 0x0000_0000);
    Step(14, Hash(0x9128_f695, 0x4607_b664, 0x18c6_23f9, 0x7ef6_a7a2, 0x60d4_7e4a), 0x0000_0000);
    Step(15, Hash(0x196b_ee77, 0x9128_f695, 0x1181_ed99, 0x18c6_23f9, 0x7ef6_a7a2), 0x0000_0018);
  }

  lemma RoundsTo24()
    ensures Rounds(W(), IV, 24) == Hash(0xd541_f12d, 0x2128_3486, 0x0ce8_8eff, 0x868d_ec32, 0x7f67_875f)
  {
    hide W, Rounds;
    RoundsTo16();
    WordsFrom16();
    Step(16, Hash(0x20bd_d62f, 0x196b_ee77, 0x644a_3da5, 0x1181_ed99, 0x18c6_23f9), 0xc2c4_c700);
    Step(17, Hash(0x4e92_5823, 0x20bd_d62f, 0xc65a_fb9d, 0x644a_3da5, 0x1181_ed99), 0x0000_0000);
    Step(18, Hash(0x82aa_6728, 0x4e92_5823, 0xc82f_758b, 0xc65a_fb9d, 0x644a_3da5), 0x0000_0030);
    Step(19, Hash(0xdc64_901d, 0x82aa_6728, 0xd3a4_9608, 0xc82f_758b, 0xc65a_fb9d), 0x8589_8e01);
    Step(20, Hash(0xfd9e_1d7d, 0xdc64_901d, 0x20aa_99ca, 0xd3a4_9608, 0xc82f_758b), 0x0000_0000);
    Step(21, Hash(0x1a37_b0ca, 0xfd9e_1d7d, 0x7719_2407, 0x20aa_99ca, 0xd3a4_9608), 0x0000_0060);
    Step(22, Hash(0x33a2_3bfc, 0x1a37_b0ca, 0x7f67_875f, 0x7719_2407, 0x20aa_99ca), 0x0b13_1c03);
    Step(23, Hash(0x2128_3486, 0x33a2_3bfc, 0x868d_ec32, 0x7f67_875f, 0x7719_2407), 0x0000_0030);
  }

  lemma RoundsTo32()
    ensures Rounds(W(), IV, 32) == Hash(0x3b84_5d33, 0x1267_b407, 0x717e_ebd7, 0xa0dc_2d4b, 0xd2aa_1365)
  {
    hide W, Rounds;
    RoundsTo24();
    WordsFrom24();
    Step(24, Hash(0xd541_f12d, 0x2128_3486, 0x0ce8_8eff, 0x868d_ec32, 0x7f67_875f), 0x8589_8ec1);
    Step(25, Hash(0xc756_7dc6, 0xd541_f12d, 0x884a_0d21, 0x0ce8_8eff, 0x868d_ec32), 0x1626_3806);
    Step(26, Hash(0x4841_3ba4, 0xc756_7dc6, 0x7550_7c4b, 0x884a_0d21, 0x0ce8_8eff), 0x0000_0000);
    Step(27, Hash(0xbe35_fbd5, 0x4841_3ba4, 0xb1d5_9f71, 0x7550_7c4b, 0x884a_0d21), 0x0000_0180);
    Step(28, Hash(0x4aa8_4d97, 0xbe35_fbd5, 0x1210_4ee9, 0xb1d5_9f71, 0x7550_7c4b), 0x2c4c_700c);
    Step(29, Hash(0x8370_b52e, 0x4aa8_4d97, 0x6f8d_7ef5, 0x1210_4ee9, 0xb1d5_9f71), 0x0000_00f0);
    Step(30, Hash(0xc5fb_af5d, 0x8370_b52e, 0xd2aa_1365, 0x6f8d_7ef5, 0x1210_4ee9), 0x93af_b507);
    Step(31, Hash(0x1267_b407, 0xc5fb_af5d, 0xa0dc_2d4b, 0xd2aa_1365, 0x6f8d_7ef5), 0x5898_e048);
  }

  lemma RoundsTo40()
    ensures Rounds(W(), IV, 40) == Hash(0x32de_1cba, 0x4c98_6405, 0xf718_e5cf, 0x03d4_47f6, 0xf72e_ec32)
  {
    hide W, Rounds;
    RoundsTo32();
    WordsFrom32();
    Step(32, Hash(0x3b84_5d33, 0x1267_b407, 0x717e_ebd7, 0xa0dc_2d4b, 0xd2aa_1365), 0x8e9a_9202);
    Step(33, Hash(0x046f_aa0a, 0x3b84_5d33, 0xc499_ed01, 0x717e_ebd7, 0xa0dc_2d4b), 0x0000_0600);
    Step(34, Hash(0x2c0e_bc11, 0x046f_aa0a, 0xcee1_174c, 0xc499_ed01, 0x717e_ebd7), 0xb131_c0f0);
    Step(35, Hash(0x2179_6ad4, 0x2c0e_bc11, 0x811b_ea82, 0xcee1_174c, 0xc499_ed01), 0x1626_3bc6);
    Step(36, Hash(0xdcbb_b0cb, 0x2179_6ad4, 0x4b03_af04, 0x811b_ea82, 0xcee1_174c), 0x4ebe_d41e);
    Step(37, Hash(0x0f51_1fd8, 0xdcbb_b0cb, 0x085e_5ab5, 0x4b03_af04, 0x811b_ea82), 0x6263_80a1);
    Step(38, Hash(0xdc63_973f, 0x0f51_1fd8, 0xf72e_ec32, 0x085e_5ab5, 0x4b03_af04), 0x1626_3806);
    Step(39, Hash(0x4c98_6405, 0xdc63_973f, 0x03d4_47f6, 0xf72e_ec32, 0x085e_5ab5), 0x0000_18c0);
  }

  lemma RoundsTo48()
    ensures Rounds(W(), IV, 48) == Hash(0xbead_02ca, 0xa01b_846c, 0x8714_787c, 0x503c_a382, 0xfb86_c6ab)
  {
    hide W, Rounds;
    RoundsTo40();
    WordsFrom40();
    Step(40, Hash(0x32de_1cba, 0x4c98_6405, 0xf718_e5cf, 0x03d4_47f6, 0xf72e_ec32), 0xd2e1_38c4);
    Step(41, Hash(0xfc87_dedf, 0x32de_1cba, 0x5326_1901, 0xf718_e5cf, 0x03d4_47f6), 0x0000_0f00);
    Step(42, Hash(0x970a_0d5c, 0xfc87_dedf, 0x8cb7_872e, 0x5326_1901, 0xf718_e5cf), 0x3afb_5079);
    Step(43, Hash(0x7f19_3dc5, 0x970a_0d5c, 0xff21_f7b7, 0x8cb7_872e, 0x5326_1901), 0x898e_04e5);
    Step(44, Hash(0xee1b_1aaf, 0x7f19_3dc5, 0x25c2_8357, 0xff21_f7b7, 0x8cb7_872e), 0xe2ba_3c2b);
    Step(45, Hash(0x40f2_8e09, 0xee1b_1aaf, 0x5fc6_4f71, 0x25c2_8357, 0xff21_f7b7), 0x0000_60c0);
    Step(46, Hash(0x1c51_e1f2, 0x40f2_8e09, 0xfb86_c6ab, 0x5fc6_4f71, 0x25c2_8357), 0x053a_37cd);
    Step(47, Hash(0xa01b_846c, 0x1c51_e1f2, 0x503c_a382, 0xfb86_c6ab, 0x5fc6_4f71), 0x7445_8547);
  }

  lemma RoundsTo56()
    ensures Rounds(W(), IV, 56) == Hash(0x5e64_56af, 0x7b71_f76d, 0x09fa_7c76, 0x7924_10db, 0x8e11_eb59)
  {
    hide W, Rounds;
    RoundsTo48();
    WordsFrom48();
    Step(48, Hash(0xbead_02ca, 0xa01b_846c, 0x8714_787c, 0x503c_a382, 0xfb86_c6ab), 0xda94_15ed);
    Step(49, Hash(0xbaf3_9337, 0xbead_02ca, 0x2806_e11b, 0x8714_787c, 0x503c_a382), 0x2638_0a16);
    Step(50, Hash(0x1207_31c5, 0xbaf3_9337, 0xafab_40b2, 0x2806_e11b, 0x8714_787c), 0x6263_83a1);
    Step(51, Hash(0x641d_b2ce, 0x1207_31c5, 0xeebc_e4cd, 0xafab_40b2, 0x2806_e11b), 0x4ebf_54de);
    Step(52, Hash(0x3847_ad66, 0x641d_b2ce, 0x4481_cc71, 0xeebc_e4cd, 0xafab_40b2), 0x3835_b44b);
    Step(53, Hash(0xe490_436d, 0x3847_ad66, 0x9907_6cb3, 0x4481_cc71, 0xeebc_e4cd), 0x0000_f600);
    Step(54, Hash(0x27e9_f1d8, 0xe490_436d, 0x8e11_eb59, 0x9907_6cb3, 0x4481_cc71), 0x1e84_c7a3);
    Step(55, Hash(0x7b71_f76d, 0x27e9_f1d8, 0x7924_10db, 0x8e11_eb59, 0x9907_6cb3), 0x98e0_4d98);
  }

  lemma RoundsTo64()
    ensures Rounds(W(), IV, 64) == Hash(0x6b61_c9e1, 0xb66c_020b, 0x9523_272c, 0xf5d5_b051, 0x8fd4_b796)
  {
    hide W, Rounds;
    RoundsTo56();
    WordsFrom56();
    Step(56, Hash(0x5e64_56af, 0x7b71_f76d, 0x09fa_7c76, 0x7924_10db, 0x8e11_eb59), 0x651d_16a0);
    Step(57, Hash(0xc846_093f, 0x5e64_56af, 0x5edc_7ddb, 0x09fa_7c76, 0x7924_10db), 0x6265_8ca1);
    Step(58, Hash(0xd262_ff50, 0xc846_093f, 0xd799_15ab, 0x5edc_7ddb, 0x09fa_7c76), 0x4585_44d6);
    Step(59, Hash(0x09d7_85fd, 0xd262_ff50, 0xf211_824f, 0xd799_15ab, 0x5edc_7ddb), 0x4458_4cb7);
    Step(60, Hash(0x3f52_de5a, 0x09d7_85fd, 0x3498_bfd4, 0xf211_824f, 0xd799_15ab), 0x7ba0_6619);
    Step(61, Hash(0xd756_c147, 0x3f52_de5a, 0x4275_e17f, 0x3498_bfd4, 0xf211_824f), 0x6380_aea2);
    Step(62, Hash(0x548c_9cb2, 0xd756_c147, 0x8fd4_b796, 0x4275_e17f, 0x3498_bfd4), 0x0ae5_5269);
    Step(63, Hash(0xb66c_020b, 0x548c_9cb2, 0xf5d5_b051, 0x8fd4_b796, 0x4275_e17f), 0x627b_49a1);
  }

  lemma RoundsTo72()
    ensures Rounds(W(), IV, 72) == Hash(0x3985_9de7, 0xc199_f8c7, 0x8fc9_6230, 0x125c_24f0, 0xde37_534a)
  {
    hide W, Rounds;
    RoundsTo64();
    WordsFrom64();
    Step(64, Hash(0x6b61_c9e1, 0xb66c_020b, 0x9523_272c, 0xf5d5_b051, 0x8fd4_b796), 0x7cd4_5c9d);
    Step(65, Hash(0x19df_a7ac, 0x6b61_c9e1, 0xed9b_0082, 0x9523_272c, 0xf5d5_b051), 0x000f_0000);
    Step(66, Hash(0x1016_55f9, 0x19df_a7ac, 0x5ad8_7278, 0xed9b_0082, 0x9523_272c), 0xfb50_753a);
    Step(67, Hash(0x0c3d_f2b4, 0x1016_55f9, 0x0677_e9eb, 0x5ad8_7278, 0xed9b_0082), 0xec67_65e8);
    Step(68, Hash(0x78dd_4d2b, 0x0c3d_f2b4, 0x4405_957e, 0x0677_e9eb, 0x5ad8_7278), 0xba3c_2be2);
    Step(69, Hash(0x4970_93c0, 0x78dd_4d2b, 0x030f_7cad, 0x4405_957e, 0x0677_e9eb), 0x0060_c000);
    Step(70, Hash(0x3f25_88c2, 0x4970_93c0, 0xde37_534a, 0x030f_7cad, 0x4405_957e), 0x3a37_cd05);
    Step(71, Hash(0xc199_f8c7, 0x3f25_88c2, 0x125c_24f0, 0xde37_534a, 0x030f_7cad), 0x4585_46f4);
  }

  lemma RoundsTo80()
    ensures Rounds(W(), IV, 80) == Hash(0x4254_1b35, 0x5738_d5e1, 0x2183_4873, 0x681e_6df6, 0xd8fd_f6ad)
  {
    hide W, Rounds;
    RoundsTo72();
    WordsFrom72();
    Step(72, Hash(0x3985_9de7, 0xc199_f8c7, 0x8fc9_6230, 0x125c_24f0, 0xde37_534a), 0xb859_9dd6);
    Step(73, Hash(0xedb4_2de4, 0x3985_9de7, 0xf066_7e31, 0x8fc9_6230, 0x125c_24f0), 0x380a_1a26);
    Step(74, Hash(0x1179_3f6f, 0xedb4_2de4, 0xce61_6779, 0xf066_7e31, 0x8fc9_6230), 0x01e0_2203);
    Step(75, Hash(0x5ee7_6897, 0x1179_3f6f, 0x3b6d_0b79, 0xce61_6779, 0xf066_7e31), 0xe7cc_3456);
    Step(76, Hash(0x63f7_dab7, 0x5ee7_6897, 0xc45e_4fdb, 0x3b6d_0b79, 0xce61_6779), 0xe6e6_0b69);
    Step(77, Hash(0xa079_b7d9, 0x63f7_dab7, 0xd7b9_da25, 0xc45e_4fdb, 0x3b6d_0b79), 0x00f6_0a00);
    Step(78, Hash(0x860d_21cc, 0xa079_b7d9, 0xd8fd_f6ad, 0xd7b9_da25, 0xc45e_4fdb), 0x5795_ef4f);
    Step(79, Hash(0x5738_d5e1, 0x860d_21cc, 0x681e_6df6, 0xd8fd_f6ad, 0xd7b9_da25), 0x822e_0879);
  }

  lemma NoRounds()
    ensures Rounds(W(), IV, 0) == Hash(0x6745_2301, 0xefcd_ab89, 0x98ba_dcfe, 0x1032_5476, 0xc3d2_e1f0)
  {
    hide W;
  }

  lemma CompressAbc()
    ensures Compress(IV, BLOCK) == Hash(0xa999_3e36, 0x4706_816a, 0xba3e_2571, 0x7850_c26c, 0x9cd0_d89d)
  {
    hide Rounds, Schedule;
    RoundsTo80();
  }

  /** Three octets, the mark, zeros, and the length of 24 bits. */
  lemma PaddedAbc()
    ensures |ABC + Padding(3)| == 64 && WordsOf(ABC + Padding(3)) == BLOCK
  {
    hide LowByte;
    Count(0);
    Count(24);
    var m := ABC + Padding(3);
    assert |m| == 64;
    assert forall k :: 4 <= k < 63 ==> m[k] == 0;
    assert m[0] == 0x61 && m[1] == 0x62 && m[2] == 0x63 && m[3] == 0x80 && m[63] == 24;
    assert WordAt(m, 0) == 0x6162_6380;
    assert WordAt(m, 15) == 0x18;
    forall i | 0 < i < 15
      ensures WordAt(m, i) == 0
    {
    }
  }

  lemma Count(n: nat)
    requires n == 0 || n == 24
    ensures CountOctets(n) == [0, 0, 0, if n == 0 then 0 else 24]
  {
    hide LowByte;
    SameNat(LowByte(0), 0);
    SameNat(LowByte(24), 24);
  }

  /** a9993e36 4706816a ba3e2571 7850c26c 9cd0d89d */
  lemma AbcDigest()
    ensures Sha1(ABC) == [0xa9, 0x99, 0x3e, 0x36, 0x47, 0x06, 0x81, 0x6a, 0xba, 0x3e, 0x25, 0x71, 0x78, 0x50, 0xc2, 0x6c, 0x9c, 0xd0, 0xd8, 0x9d]
  {
    hide Compress, Padding, WordsOf;
    var m := ABC + Padding(3);
    PaddedAbc();
    CompressAbc();
    assert [] + m == m;
    AbsorbBlock(IV, [], m);
    OctetsOfDigest();
  }

  lemma OctetsOfDigest()
    ensures DigestOf(Hash(0xa999_3e36, 0x4706_816a, 0xba3e_2571, 0x7850_c26c, 0x9cd0_d89d))
            == [0xa9, 0x99, 0x3e, 0x36, 0x47, 0x06, 0x81, 0x6a, 0xba, 0x3e, 0x25, 0x71, 0x78, 0x50, 0xc2, 0x6c, 0x9c, 0xd0, 0xd8, 0x9d]
  {
  }
}
