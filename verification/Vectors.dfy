/** Values fixed by other implementations of the same map: outputs of the seed generator
    and of the mixer, and a file of one key that any of them can read. */
module Vectors {
  import opened Words
  import opened Mixing
  import opened Geometry
  import opened Hypergraph
  import opened Schemes
  import opened MapModel
  import opened Maps
  import opened Bytes
  import opened Formats
  import opened Storage
  import opened Evaluation

  // ----- seeds and mixed hashes

  lemma FirstOutputFold1()
    ensures XorShift(0x9e37_79b9_7f4a_7c16, 30) == 0x9e37_79bb_0797_9af3
  {
    hide XorShift, Pow2, Xor;
    ShiftPowers();
    XorZero(0);
    NextDigit(0, 0, 0, 1, 2, 3);
    NextDigit(0x1, 0x2, 0x3, 7, 7, 0);
    NextDigit(0x17, 0x27, 0x30, 15, 8, 7);
    NextDigit(0x17f, 0x278, 0x307, 4, 13, 9);
    NextDigit(0x17f4, 0x278d, 0x3079, 10, 13, 7);
    NextDigit(0x1_7f4a, 0x2_78dd, 0x3_0797, 7, 14, 9);
    NextDigit(0x17_f4a7, 0x27_8dde, 0x30_7979, 12, 6, 10);
    NextDigit(0x17f_4a7c, 0x278_dde6, 0x307_979a, 1, 14, 15);
    NextDigit(0x17f4_a7c1, 0x278d_de6e, 0x3079_79af, 6, 5, 3);
    XorShiftIs(0x9e37_79b9_7f4a_7c16, 30, 0x4_0000_0000, 0x278d_de6e, 0x1_7f4a_7c16,
      0x4000_0000, 0x2_78dd_e6e5, 0x3f4a_7c16, 0x3_0797_9af3);
  }

  lemma FirstOutputFold2()
    ensures XorShift(0xad70_fc62_ae96_589b, 27) == 0xad70_fc77_0089_d4ce
  {
    hide XorShift, Pow2, Xor;
    ShiftPowers();
    XorZero(0);
    NextDigit(0, 0, 0, 0, 1, 1);
    NextDigit(0, 0x1, 0x1, 2, 5, 7);
    NextDigit(0x2, 0x15, 0x17, 10, 10, 0);
    NextDigit(0x2a, 0x15a, 0x170, 14, 14, 0);
    NextDigit(0x2ae, 0x15ae, 0x1700, 9, 1, 8);
    NextDigit(0x2ae9, 0x1_5ae1, 0x1_7008, 6, 15, 9);
    NextDigit(0x2_ae96, 0x15_ae1f, 0x17_0089, 5, 8, 13);
    NextDigit(0x2a_e965, 0x15a_e1f8, 0x170_089d, 8, 12, 4);
    NextDigit(0x2ae_9658, 0x15ae_1f8c, 0x1700_89d4, 9, 5, 12);
    NextDigit(0x2ae9_6589, 0x1_5ae1_f8c5, 0x1_7008_9d4c, 11, 5, 14);
    XorShiftIs(0xad70_fc62_ae96_589b, 27, 0x20_0000_0000, 0x56b_87e3, 0x2_ae96_589b,
      0x800_0000, 0x15_ae1f_8c55, 0x696_589b, 0x17_0089_d4ce);
  }

  lemma FirstOutputFold3()
    ensures XorShift(0x910a_2ded_ab16_071a, 31) == 0x910a_2dec_8902_5cc1
  {
    hide XorShift, Pow2, Xor;
    ShiftPowers();
    XorZero(0);
    NextDigit(0, 0, 0, 1, 1, 0);
    NextDigit(0x1, 0x1, 0, 10, 2, 8);
    NextDigit(0x1a, 0x12, 0x8, 11, 2, 9);
    NextDigit(0x1ab, 0x122, 0x89, 1, 1, 0);
    NextDigit(0x1ab1, 0x1221, 0x890, 6, 4, 2);
    NextDigit(0x1_ab16, 0x1_2214, 0x8902, 0, 5, 5);
    NextDigit(0x1a_b160, 0x12_2145, 0x8_9025, 7, 11, 12);
    NextDigit(0x1ab_1607, 0x122_145b, 0x89_025c, 1, 13, 12);
    NextDigit(0x1ab1_6071, 0x1221_45bd, 0x890_25cc, 10, 11, 1);
    XorShiftIs(0x910a_2ded_ab16_071a, 31, 0x2_0000_0000, 0x4885_16f6, 0x1_ab16_071a,
      0x8000_0000, 0x1_2214_5bdb, 0x2b16_071a, 0x8902_5cc1);
  }

  lemma MurmurOfOneFold1()
    ensures XorShift(0x1, 33) == 0x1
  {
    hide XorShift, Pow2, Xor;
    ShiftPowers();
    XorZero(0);
    NextDigit(0, 0, 0, 1, 0, 1);
    XorShiftIs(0x1, 33, 0x8000_0000, 0, 0x1,
      0x2_0000_0000, 0, 0x1, 0x1);
  }

  lemma MurmurOfOneFold2()
    ensures XorShift(0xff51_afd7_ed55_8ccd, 33) == 0xff51_afd7_92fd_5b26
  {
    hide XorShift, Pow2, Xor;
    ShiftPowers();
    XorZero(0);
    NextDigit(0, 0, 0, 6, 7, 1);
    NextDigit(0x6, 0x7, 0x1, 13, 15, 2);
    NextDigit(0x6d, 0x7f, 0x12, 5, 10, 15);
    NextDigit(0x6d5, 0x7fa, 0x12f, 5, 8, 13);
    NextDigit(0x6d55, 0x7fa8, 0x12fd, 8, 13, 5);
    NextDigit(0x6_d558, 0x7_fa8d, 0x1_2fd5, 12, 7, 11);
    NextDigit(0x6d_558c, 0x7f_a8d7, 0x12_fd5b, 12, 14, 2);
    NextDigit(0x6d5_58cc, 0x7fa_8d7e, 0x12f_d5b2, 13, 11, 6);
    XorShiftIs(0xff51_afd7_ed55_8ccd, 33, 0x8000_0000, 0x1_fea3_5faf, 0x6d55_8ccd,
      0x2_0000_0000, 0x7fa8_d7eb, 0x1_ed55_8ccd, 0x12fd_5b26);
  }

  lemma MurmurOfOneFold3()
    ensures XorShift(0xb456_bcfc_6ee9_9552, 33) == 0xb456_bcfc_34c2_cb2c
  {
    hide XorShift, Pow2, Xor;
    ShiftPowers();
    XorZero(0);
    NextDigit(0, 0, 0, 6, 5, 3);
    NextDigit(0x6, 0x5, 0x3, 14, 10, 4);
    NextDigit(0x6e, 0x5a, 0x34, 14, 2, 12);
    NextDigit(0x6ee, 0x5a2, 0x34c, 9, 11, 2);
    NextDigit(0x6ee9, 0x5a2b, 0x34c2, 9, 5, 12);
    NextDigit(0x6_ee99, 0x5_a2b5, 0x3_4c2c, 5, 14, 11);
    NextDigit(0x6e_e995, 0x5a_2b5e, 0x34_c2cb, 5, 7, 2);
    NextDigit(0x6ee_9955, 0x5a2_b5e7, 0x34c_2cb2, 2, 14, 12);
    XorShiftIs(0xb456_bcfc_6ee9_9552, 33, 0x8000_0000, 0x1_68ad_79f8, 0x6ee9_9552,
      0x2_0000_0000, 0x5a2b_5e7e, 0x6ee9_9552, 0x34c2_cb2c);
  }

  lemma MurmurOfTwoFold1()
    ensures XorShift(0x910a_2dec_8902_5cc3, 33) == 0x910a_2dec_c187_4a35
  {
    hide XorShift, Pow2, Xor;
    ShiftPowers();
    XorZero(0);
    NextDigit(0, 0, 0, 0, 4, 4);
    NextDigit(0, 0x4, 0x4, 9, 8, 1);
    NextDigit(0x9, 0x48, 0x41, 0, 8, 8);
    NextDigit(0x90, 0x488, 0x418, 2, 5, 7);
    NextDigit(0x902, 0x4885, 0x4187, 5, 1, 4);
    NextDigit(0x9025, 0x4_8851, 0x4_1874, 12, 6, 10);
    NextDigit(0x9_025c, 0x48_8516, 0x41_874a, 12, 15, 3);
    NextDigit(0x90_25cc, 0x488_516f, 0x418_74a3, 3, 6, 5);
    XorShiftIs(0x910a_2dec_8902_5cc3, 33, 0x8000_0000, 0x1_2214_5bd9, 0x902_5cc3,
      0x2_0000_0000, 0x4885_16f6, 0x8902_5cc3, 0x4187_4a35);
  }

  lemma MurmurOfTwoFold2()
    ensures XorShift(0x6f29_4f8e_aa84_6871, 33) == 0x6f29_4f8e_9d10_cfb6
  {
    hide XorShift, Pow2, Xor;
    ShiftPowers();
    XorZero(0);
    NextDigit(0, 0, 0, 2, 3, 1);
    NextDigit(0x2, 0x3, 0x1, 10, 7, 13);
    NextDigit(0x2a, 0x37, 0x1d, 8, 9, 1);
    NextDigit(0x2a8, 0x379, 0x1d1, 4, 4, 0);
    NextDigit(0x2a84, 0x3794, 0x1d10, 6, 10, 12);
    NextDigit(0x2_a846, 0x3_794a, 0x1_d10c, 8, 7, 15);
    NextDigit(0x2a_8468, 0x37_94a7, 0x1d_10cf, 7, 12, 11);
    NextDigit(0x2a8_4687, 0x379_4a7c, 0x1d1_0cfb, 1, 7, 6);
    XorShiftIs(0x6f29_4f8e_aa84_6871, 33, 0x8000_0000, 0xde52_9f1d, 0x2a84_6871,
      0x2_0000_0000, 0x3794_a7c7, 0xaa84_6871, 0x1d10_cfb6);
  }

  lemma MurmurOfTwoFold3()
    ensures XorShift(0x6a04_2f70_d17d_2002, 33) == 0x6a04_2f70_e47f_37ba
  {
    hide XorShift, Pow2, Xor;
    ShiftPowers();
    XorZero(0);
    NextDigit(0, 0, 0, 5, 3, 6);
    NextDigit(0x5, 0x3, 0x6, 1, 5, 4);
    NextDigit(0x51, 0x35, 0x64, 7, 0, 7);
    NextDigit(0x517, 0x350, 0x647, 13, 2, 15);
    NextDigit(0x517d, 0x3502, 0x647f, 2, 1, 3);
    NextDigit(0x5_17d2, 0x3_5021, 0x6_47f3, 0, 7, 7);
    NextDigit(0x51_7d20, 0x35_0217, 0x64_7f37, 0, 11, 11);
    NextDigit(0x517_d200, 0x350_217b, 0x647_f37b, 2, 8, 10);
    XorShiftIs(0x6a04_2f70_d17d_2002, 33, 0x8000_0000, 0xd408_5ee1, 0x517d_2002,
      0x2_0000_0000, 0x3502_17b8, 0xd17d_2002, 0x647f_37ba);
  }

  /** The first seed's output step. */
  lemma FirstOutput()
    ensures SplitMixOutput(0x9e37_79b9_7f4a_7c16) == 0x910a_2dec_8902_5cc1
  {
    hide XorShift, Mul64;
    FirstOutputFold1();
    TimesIs(0x9e37_79bb_0797_9af3, 0xbf58_476d_1ce4_e5b9, 0x7641_f309_3531_f528, 0xad70_fc62_ae96_589b);
    FirstOutputFold2();
    TimesIs(0xad70_fc77_0089_d4ce, 0x94d0_49bb_1331_11eb, 0x64d2_6fb5_e387_1a99, 0x910a_2ded_ab16_071a);
    FirstOutputFold3();
  }

  /** The finaliser at 1. */
  lemma MurmurOfOne()
    ensures Murmur64(0x1) == 0xb456_bcfc_34c2_cb2c
  {
    hide XorShift, Mul64;
    MurmurOfOneFold1();
    TimesIs(0x1, 0xff51_afd7_ed55_8ccd, 0, 0xff51_afd7_ed55_8ccd);
    MurmurOfOneFold2();
    TimesIs(0xff51_afd7_92fd_5b26, 0xc4ce_b9fe_1a85_ec53, 0xc448_b7dc_0195_5fc3, 0xb456_bcfc_6ee9_9552);
    MurmurOfOneFold3();
  }

  /** The finaliser at key hash 2 under the first seed. */
  lemma MurmurOfTwo()
    ensures Murmur64(0x910a_2dec_8902_5cc3) == 0x6a04_2f70_e47f_37ba
  {
    hide XorShift, Mul64;
    MurmurOfTwoFold1();
    TimesIs(0x910a_2dec_c187_4a35, 0xff51_afd7_ed55_8ccd, 0x90a7_6b97_a817_4d86, 0x6f29_4f8e_aa84_6871);
    MurmurOfTwoFold2();
    TimesIs(0x6f29_4f8e_9d10_cfb6, 0xc4ce_b9fe_1a85_ec53, 0x5575_64ea_6602_9ab8, 0x6a04_2f70_d17d_2002);
    MurmurOfTwoFold3();
  }

  /** The seed of the first attempt. */
  lemma FirstSeed()
    ensures SeedAt(0) == 0x910a_2dec_8902_5cc1
    ensures Computed(Fcm()) && Fcm().seeds(0) == 0x910a_2dec_8902_5cc1
  {
    hide SplitMixOutput;
    FirstOutput();
    FcmComputed();
  }

  /** Known mixed hashes: of 1 under seed 0, and of 2 under the first seed. */
  lemma KnownMixes()
    ensures MixSplit(1, 0) == 0xb456_bcfc_34c2_cb2c
    ensures MixSplit(2, 0x910a_2dec_8902_5cc1) == 0x6a04_2f70_e47f_37ba
  {
    hide Murmur64;
    MurmurOfOne();
    MurmurOfTwo();
  }

  /** The smallest geometry: three segments of four cells. */
  const TWELVE: Geometry := Geometry(4, 3, 1, 4)

  lemma TwelveValid()
    ensures ValidGeometry(TWELVE, 12)
  {
    assert IsPow2(4) by { assert IsPow2(2) && IsPow2(1); }
  }

  /** The cells of the latter. */
  lemma KnownCells()
    ensures EdgeOf(TWELVE, 0x6a04_2f70_e47f_37ba) == Edge(0x6a04_2f70_e47f_37ba, 1, 6, 11)
  {
    hide Position;
    TwelveValid();
    CellsAre(0x6a04_2f70_e47f_37ba, 3, 2);
    assert Xor(1, 3) == 2 && Xor(1, 2) == 3;
  }

  lemma CellsAre(word: U64, middle: nat, low: nat)
    requires 0x4000_0000_0000_0000 <= word < 0x8000_0000_0000_0000
    requires word / 0x4_0000 % 4 == middle && word % 4 == low
    ensures Position(word, TWELVE, 0) == 1 && Position(word, TWELVE, 1) == 4 + Xor(1, middle)
    ensures Position(word, TWELVE, 2) == 8 + Xor(1, low)
  {
    hide Position, Xor;
    TwelveValid();
    PositionExact(word, TWELVE, 12, 0);
    PositionExact(word, TWELVE, 12, 1);
    PositionExact(word, TWELVE, 12, 2);
    assert (word * 1 * 4) / 0x1_0000_0000_0000_0000 == 1;
  }

  // ----- a file of one key

  /** Twelve cells, the last of them 7, under the first seed. */
  function OneKeyFile(): (b: seq<U8>)
    ensures |b| == 136
  {
    [67, 77, 65, 80, 48, 48, 48, 51, 193, 92, 2, 137, 236, 45, 10, 145]
    + [4, 0, 0, 0, 1, 0, 0, 0, 12, 0, 0, 0, 1, 0, 0, 0]
    + seq(88, i => 0) + [7, 0, 0, 0, 0, 0, 0, 0] + [44, 98, 234, 250, 80, 68, 161, 255]
  }

  ghost predicate FileBytes(b: seq<U8>) {
    && |b| == 136
    && b[0] == 67 && b[1] == 77 && b[2] == 65 && b[3] == 80 && b[4] == 48 && b[5] == 48 && b[6] == 48 && b[7] == 51
    && b[8] == 193 && b[9] == 92 && b[10] == 2 && b[11] == 137 && b[12] == 236 && b[13] == 45 && b[14] == 10
    && b[15] == 145 && b[16] == 4 && b[20] == 1 && b[24] == 12 && b[28] == 1 && b[120] == 7
    && (forall j | 17 <= j < 20 || 21 <= j < 24 || 25 <= j < 28 :: b[j] == 0)
    && (forall j | 29 <= j < 120 || 121 <= j < 128 :: b[j] == 0)
    && b[128] == 44 && b[129] == 98 && b[130] == 234 && b[131] == 250 && b[132] == 80 && b[133] == 68
    && b[134] == 161 && b[135] == 255
  }

  lemma FileBytesHold()
    ensures FileBytes(OneKeyFile())
  {
  }

  lemma SumLetters(b: seq<U8>)
    requires |b| >= 4 && b[0] == 67 && b[1] == 77 && b[2] == 65 && b[3] == 80
    requires Fnv(b[..0]) == 0xcbf2_9ce4_8422_2325
    ensures Fnv(b[..4]) == 0x32de_0d9c_87f1_a7bc
  {
    hide Fnv;
    FnvNext(b, 0, 0xcbf2_9ce4_8422_2325, 2, 5, 4, 3, 6, 6, 0xcb_f29c_e5de, 0xaf63_fe4c_8602_2652);
    FnvNext(b, 1, 0xaf63_fe4c_8602_2652, 5, 2, 4, 13, 1, 15, 0xaf_63fe_4db0, 0x90f_3b07_b5a6_c6ad);
    FnvNext(b, 2, 0x90f_3b07_b5a6_c6ad, 10, 13, 4, 1, 14, 12, 0x9_0f3b_07c5, 0xba8_3a19_aa64_0304);
    FnvNext(b, 3, 0xba8_3a19_aa64_0304, 0, 4, 5, 0, 5, 4, 0xb_a83a_19be, 0x32de_0d9c_87f1_a7bc);
  }

  lemma SumDigits(b: seq<U8>)
    requires |b| >= 8 && b[4] == 48 && b[5] == 48 && b[6] == 48 && b[7] == 51
    requires Fnv(b[..4]) == 0x32de_0d9c_87f1_a7bc
    ensures Fnv(b[..8]) == 0xec74_6c2e_dfdc_1dd5
  {
    hide Fnv;
    FnvNext(b, 4, 0x32de_0d9c_87f1_a7bc, 11, 12, 3, 0, 8, 12, 0x32_de0d_9cde, 0x60f8_acfa_ff9f_b2e4);
    FnvNext(b, 5, 0x60f8_acfa_ff9f_b2e4, 14, 4, 3, 0, 13, 4, 0x60_f8ac_fba4, 0x6640_c280_5c5c_de3c);
    FnvNext(b, 6, 0x6640_c280_5c5c_de3c, 3, 12, 3, 0, 0, 12, 0x66_40c2_810a, 0x1ce8_8c1c_f1cd_4e64);
    FnvNext(b, 7, 0x1ce8_8c1c_f1cd_4e64, 6, 4, 3, 3, 5, 7, 0x1c_e88c_1d22, 0xec74_6c2e_dfdc_1dd5);
  }

  lemma SumSeedLow(b: seq<U8>)
    requires |b| >= 12 && b[8] == 193 && b[9] == 92 && b[10] == 2 && b[11] == 137
    requires Fnv(b[..8]) == 0xec74_6c2e_dfdc_1dd5
    ensures Fnv(b[..12]) == 0x295d_76e7_6ad2_51fd
  {
    hide Fnv;
    FnvNext(b, 8, 0xec74_6c2e_dfdc_1dd5, 13, 5, 12, 1, 1, 4, 0xec_746c_3071, 0xa5f0_e7a6_6305_68fc);
    FnvNext(b, 9, 0xa5f0_e7a6_6305_68fc, 15, 12, 5, 12, 10, 0, 0xa5_f0e7_a77c, 0xfdc2_3fba_4230_c7e0);
    FnvNext(b, 10, 0xfdc2_3fba_4230_c7e0, 14, 0, 0, 2, 14, 2, 0xfd_c23f_bbf1, 0x61da_2b7e_78e3_a506);
    FnvNext(b, 11, 0x61da_2b7e_78e3_a506, 0, 6, 8, 9, 8, 15, 0x61_da2b_7f1f, 0x295d_76e7_6ad2_51fd);
  }

  lemma SumSeedHigh(b: seq<U8>)
    requires |b| >= 16 && b[12] == 236 && b[13] == 45 && b[14] == 10 && b[15] == 145
    requires Fnv(b[..12]) == 0x295d_76e7_6ad2_51fd
    ensures Fnv(b[..16]) == 0x15a9_82d4_0c09_9963
  {
    hide Fnv;
    FnvNext(b, 12, 0x295d_76e7_6ad2_51fd, 15, 13, 14, 12, 1, 1, 0x29_5d76_e7b1, 0x1c22_1c3a_835f_bfe3);
    FnvNext(b, 13, 0x1c22_1c3a_835f_bfe3, 14, 3, 2, 13, 12, 14, 0x1c_221c_3ab3, 0x2db5_c56d_3bb2_eb0a);
    FnvNext(b, 14, 0x2db5_c56d_3bb2_eb0a, 0, 10, 0, 10, 0, 0, 0x2d_b5c5_6d89, 0x5ec9_789c_7105_5100);
    FnvNext(b, 15, 0x5ec9_789c_7105_5100, 0, 0, 9, 1, 9, 1, 0x5e_c978_9d12, 0x15a9_82d4_0c09_9963);
  }

  lemma SumSegLen(b: seq<U8>)
    requires |b| >= 20 && b[16] == 4 && forall j | 17 <= j < 20 :: b[j] == 0
    requires Fnv(b[..16]) == 0x15a9_82d4_0c09_9963
    ensures Fnv(b[..20]) == 0xadfc_89af_3a6a_8757
  {
    hide Fnv, PrimePower;
    Powers();
    FnvNext(b, 16, 0x15a9_82d4_0c09_9963, 6, 3, 0, 4, 6, 7, 0x15_a982_d430, 0xd8a2_b550_744f_aa05);
    FnvRun(b, 17, 3, 0xd8a2_b550_744f_aa05, 0x8a9_7b00_04e7_feab, 0x754_812a_6703_caf2, 0xadfc_89af_3a6a_8757);
  }

  lemma SumSegCount(b: seq<U8>)
    requires |b| >= 24 && b[20] == 1 && forall j | 21 <= j < 24 :: b[j] == 0
    requires Fnv(b[..20]) == 0xadfc_89af_3a6a_8757
    ensures Fnv(b[..24]) == 0x5a4b_8f5b_3a87_cfb6
  {
    hide Fnv, PrimePower;
    Powers();
    FnvNext(b, 20, 0xadfc_89af_3a6a_8757, 5, 7, 0, 1, 5, 6, 0xad_fc89_b062, 0xea5_4ac0_4303_f722);
    FnvRun(b, 21, 3, 0xea5_4ac0_4303_f722, 0x8a9_7b00_04e7_feab, 0x7e_dc7d_c636_986d, 0x5a4b_8f5b_3a87_cfb6);
  }

  lemma SumDataLen(b: seq<U8>)
    requires |b| >= 28 && b[24] == 12 && forall j | 25 <= j < 28 :: b[j] == 0
    requires Fnv(b[..24]) == 0x5a4b_8f5b_3a87_cfb6
    ensures Fnv(b[..28]) == 0x6b13_655e_60fb_405a
  {
    hide Fnv, PrimePower;
    Powers();
    FnvNext(b, 24, 0x5a4b_8f5b_3a87_cfb6, 11, 6, 0, 12, 11, 10, 0x5a_4b8f_5bd3, 0xf634_5204_74c5_f90e);
    FnvRun(b, 25, 3, 0xf634_5204_74c5_f90e, 0x8a9_7b00_04e7_feab, 0x854_a165_70b7_59ff, 0x6b13_655e_60fb_405a);
  }

  lemma SumCount(b: seq<U8>)
    requires |b| >= 120 && b[28] == 1 && forall j | 29 <= j < 120 :: b[j] == 0
    requires Fnv(b[..28]) == 0x6b13_655e_60fb_405a
    ensures Fnv(b[..120]) == 0xb681_b2b2_491a_14ab
  {
    hide Fnv, PrimePower;
    Powers();
    FnvNext(b, 28, 0x6b13_655e_60fb_405a, 5, 10, 0, 1, 5, 11, 0x6b_1365_5f16, 0xed35_9a5e_caee_5aa1);
    FnvRun(b, 29, 91, 0xed35_9a5e_caee_5aa1, 0xd645_a4bb_011b_d7cb, 0xc68b_5721_7743_7175, 0xb681_b2b2_491a_14ab);
  }

  lemma SumCell(b: seq<U8>)
    requires |b| >= 128 && b[120] == 7 && forall j | 121 <= j < 128 :: b[j] == 0
    requires Fnv(b[..120]) == 0xb681_b2b2_491a_14ab
    ensures Fnv(b[..128]) == 0xffa1_4450_faea_622c
  {
    hide Fnv, PrimePower;
    Powers();
    FnvNext(b, 120, 0xb681_b2b2_491a_14ab, 10, 11, 0, 7, 10, 12, 0xb6_81b2_b37f, 0x3877_50f2_3751_2044);
    FnvRun(b, 121, 7, 0x3877_50f2_3751_2044, 0xc552_7b8a_51d3_d2db, 0x2b86_02c2_2869_a26c, 0xffa1_4450_faea_622c);
  }

  lemma OneKeySum(b: seq<U8>)
    requires FileBytes(b)
    ensures Fnv(b[..128]) == 0xffa1_4450_faea_622c
  {
    hide Fnv;
    FnvStart(b);
    SumLetters(b);
    SumDigits(b);
    SumSeedLow(b);
    SumSeedHigh(b);
    SumSegLen(b);
    SumSegCount(b);
    SumDataLen(b);
    SumCount(b);
    SumCell(b);
  }

  lemma Word64(b: seq<U8>, p: nat)
    requires p + 8 <= |b|
    ensures ReadU64(b, p) == b[p] + 0x100 * (b[p + 1] + 0x100 * (b[p + 2] + 0x100 * (b[p + 3] + 0x100 *
                             (b[p + 4] + 0x100 * (b[p + 5] + 0x100 * (b[p + 6] + 0x100 * b[p + 7] as nat))))))
  {
    hide UnLE;
    UnLEWord(b[p..p + 8]);
  }

  lemma Word32(b: seq<U8>, p: nat)
    requires p + 4 <= |b|
    ensures ReadU32(b, p) == b[p] + 0x100 * (b[p + 1] + 0x100 * (b[p + 2] + 0x100 * b[p + 3] as nat))
  {
    hide UnLE;
    var w := b[p..p + 4];
    UnLEEnd(w);
    UnLEStep(w, 3, 0);
    UnLEStep(w, 2, UnLE(w[3..]));
    UnLEStep(w, 1, UnLE(w[2..]));
    UnLEStep(w, 0, UnLE(w[1..]));
    assert w[0..] == w;
  }

  lemma OneKeyFields(b: seq<U8>)
    requires FileBytes(b)
    ensures ReadU64(b, 8) == 0x910a_2dec_8902_5cc1 && ReadU32(b, 16) == 4 && ReadU32(b, 20) == 1
    ensures ReadU32(b, 24) == 12 && ReadU32(b, 28) == 1
  {
    hide ReadU64, ReadU32;
    Word64(b, 8);
    Word32(b, 16);
    Word32(b, 20);
    Word32(b, 24);
    Word32(b, 28);
  }

  lemma OneKeyWords(b: seq<U8>)
    requires FileBytes(b)
    ensures ReadU64(b, 40) == 0 && ReadU64(b, 80) == 0 && ReadU64(b, 120) == 7
    ensures ReadU64(b, 128) == 0xffa1_4450_faea_622c
  {
    hide ReadU64;
    Word64(b, 40);
    Word64(b, 80);
    Word64(b, 120);
    Word64(b, 128);
  }

  /** What the header says. */
  lemma OneKeyHeader(b: seq<U8>)
    requires FileBytes(b)
    ensures ParsePlain(b) == Accepted(Header(CMAP3, 0x910a_2dec_8902_5cc1, 4, 1, 12, 1))
  {
    hide Parse, Fnv, ReadU64, ReadU32, TableOk, FileBytes;
    OneKeySum(b);
    OneKeyFields(b);
    OneKeyWords(b);
    TablesOk();
    TableHeaders(PLAIN_FORMATS);
    OneKeyNamed(b);
    ParseExact(b, PLAIN_FORMATS, 8, CMAP3);
  }

  lemma OneKeyNamed(b: seq<U8>)
    requires FileBytes(b)
    ensures |b| == 136 && Names(b, CMAP3)
    ensures forall k | 0 <= k < 3 && Names(b, PLAIN_FORMATS[k]) :: PLAIN_FORMATS[k] == CMAP3
  {
    assert b[..8] == CMAP3.magic;
    assert b[..8][7] == 51;
  }

  /** The file answers 7 for every key that XXH64 sends to 2. */
  lemma OneKeyFileAnswers(S: Scheme, H: Hasher, key: Key)
    requires Computed(S) && H.xxh64(key) == 2
    ensures var b := OneKeyFile();
            && ParsePlain(b).Accepted?
            && var m := PlainFrom(b, ParsePlain(b).header);
            && PlainReads(S, H, m, key) && LookupPlain(S, H, m, key) == 7
  {
    hide ParsePlain, ReadU64, Computed, EdgeOf, MixSplit, LookupPlain, FileBytes, OneKeyFile, Xor;
    var b := OneKeyFile();
    FileBytesHold();
    OneKeyHeader(b);
    OneKeyWords(b);
    var m := PlainFrom(b, ParsePlain(b).header);
    assert m.par.g == TWELVE && m.par.dataLen == 12;
    KnownMixes();
    KnownCells();
    KeyFacts(S, H, m.par, key);
    PlainIs(S, H, m, key, EdgeOf(TWELVE, 0x6a04_2f70_e47f_37ba));
    XorZero(0);
    XorZero(7);
  }
}
