/** One changed byte that goes unnoticed: a plain map whose magic can be turned into
    the other header size's and back, valid both ways. */
module Escape {
  import opened Words
  import opened Mixing
  import opened Bytes
  import opened Evaluation
  import opened Formats
  import opened Storage
  import opened EndToEnd

  /** No keys' worth of words behind a 28-byte header, its checksum, and four bytes more. */
  function EscapingMap(): (b: seq<U8>)
    ensures |b| == 40
  {
    CMAP + [0x31] + [0, 0, 0, 0, 0, 0, 0, 0] + [188, 253, 98, 54, 0, 0, 0, 0, 0, 0, 0, 0]
    + [164, 44, 157, 157, 200, 233, 211, 187, 132, 98, 207, 214]
  }

  // ----- its checksums, step by step

  lemma HashLetters(b: seq<U8>)
    requires |b| >= 4 && b[0] == 67 && b[1] == 77 && b[2] == 65 && b[3] == 80
    requires Fnv(b[..0]) == 0xcbf2_9ce4_8422_2325
    ensures Fnv(b[..4]) == 0x32de_0d9c_87f1_a7bc
  {
    hide Fnv;
    FnvNext(b, 0, 0xcbf2_9ce4_8422_2325, 2, 5, 4, 3, 6, 6, 0xcb_f29c_e5de, 0xaf63_fe4c_8602_2652);
    FnvNext(b, 1, 0xaf63_fe4c_8602_2652, 5, 2, 4, 13, 1, 15, 0xaf_63fe_4db0, 0x90f_3b07_b5a6_c6ad);
    FnvNext(b, 2, 0x90f_3b07_b5a6_c6ad, 10, 13, 4, 1, 14, 12, 0x9_0f3b_07c5, 0xba8_3a19_aa64_0304);
    FnvNext(b, 3, 0xba8_3a19_aa64_0304, 0, 4, 5, 0, 5, 4, 0xb_a83a_19be, 0x32de_0d9c_87f1_a7bc);
  }

  lemma HashZeroDigits(b: seq<U8>)
    requires |b| >= 7 && b[4] == 48 && b[5] == 48 && b[6] == 48
    requires Fnv(b[..4]) == 0x32de_0d9c_87f1_a7bc
    ensures Fnv(b[..7]) == 0x1ce8_8c1c_f1cd_4e64
  {
    hide Fnv;
    FnvNext(b, 4, 0x32de_0d9c_87f1_a7bc, 11, 12, 3, 0, 8, 12, 0x32_de0d_9cde, 0x60f8_acfa_ff9f_b2e4);
    FnvNext(b, 5, 0x60f8_acfa_ff9f_b2e4, 14, 4, 3, 0, 13, 4, 0x60_f8ac_fba4, 0x6640_c280_5c5c_de3c);
    FnvNext(b, 6, 0x6640_c280_5c5c_de3c, 3, 12, 3, 0, 0, 12, 0x66_40c2_810a, 0x1ce8_8c1c_f1cd_4e64);
  }

  lemma HashOldDigit(b: seq<U8>)
    requires |b| >= 8 && b[7] == 49
    requires Fnv(b[..7]) == 0x1ce8_8c1c_f1cd_4e64
    ensures Fnv(b[..8]) == 0xec74_6a2e_dfdc_1a6f
  {
    hide Fnv;
    FnvNext(b, 7, 0x1ce8_8c1c_f1cd_4e64, 6, 4, 3, 1, 5, 5, 0x1c_e88c_1d22, 0xec74_6a2e_dfdc_1a6f);
  }

  lemma HashOldLength(b: seq<U8>)
    requires |b| >= 20 && b[16] == 188 && b[17] == 253 && b[18] == 98 && b[19] == 54
    requires Fnv(b[..16]) == 0xe1e4_0b2c_7ea4_7e4f
    ensures Fnv(b[..20]) == 0xd79a_be7c_5c9e_c024
  {
    hide Fnv;
    FnvNext(b, 16, 0xe1e4_0b2c_7ea4_7e4f, 4, 15, 11, 12, 15, 3, 0xe1_e40b_2dfe, 0x7afd_ef9b_3183_b6e9);
    FnvNext(b, 17, 0x7afd_ef9b_3183_b6e9, 14, 9, 15, 13, 1, 4, 0x7a_fdef_9c02, 0x8134_38b5_22ce_63fc);
    FnvNext(b, 18, 0x8134_38b5_22ce_63fc, 15, 12, 6, 2, 9, 14, 0x81_3438_b5fe, 0x5a1f_f9ca_24b3_457a);
    FnvNext(b, 19, 0x5a1f_f9ca_24b3_457a, 7, 10, 3, 6, 4, 12, 0x5a_1ff9_cabd, 0xd79a_be7c_5c9e_c024);
  }

  lemma HashNewDigit(b: seq<U8>)
    requires |b| >= 8 && b[7] == 51
    requires Fnv(b[..7]) == 0x1ce8_8c1c_f1cd_4e64
    ensures Fnv(b[..8]) == 0xec74_6c2e_dfdc_1dd5
  {
    hide Fnv;
    FnvNext(b, 7, 0x1ce8_8c1c_f1cd_4e64, 6, 4, 3, 3, 5, 7, 0x1c_e88c_1d22, 0xec74_6c2e_dfdc_1dd5);
  }

  lemma HashNewLength(b: seq<U8>)
    requires |b| >= 20 && b[16] == 188 && b[17] == 253 && b[18] == 98 && b[19] == 54
    requires Fnv(b[..16]) == 0x8b8_b5e7_a7da_6a75
    ensures Fnv(b[..20]) == 0x7ac2_fcd9_b4c6_8be2
  {
    hide Fnv;
    FnvNext(b, 16, 0x8b8_b5e7_a7da_6a75, 7, 5, 11, 12, 12, 9, 0x8_b8b5_e7b6, 0xac47_e1a2_3823_738b);
    FnvNext(b, 17, 0xac47_e1a2_3823_738b, 8, 11, 15, 13, 7, 6, 0xac_47e1_a35c, 0xe197_dca5_643d_3182);
    FnvNext(b, 18, 0xe197_dca5_643d_3182, 8, 2, 6, 2, 14, 0, 0xe1_97dc_a6e3, 0x923d_cd09_53fb_bfa0);
    FnvNext(b, 19, 0x923d_cd09_53fb_bfa0, 10, 0, 3, 6, 9, 6, 0x92_3dcd_0a4c, 0x7ac2_fcd9_b4c6_8be2);
  }

  lemma HashNewCount(b: seq<U8>)
    requires |b| >= 32 && b[28] == 164 && b[29] == 44 && b[30] == 157 && b[31] == 157
    requires Fnv(b[..28]) == 0x88f4_a617_1e05_5c22
    ensures Fnv(b[..32]) == 0xd6cf_6284_bbd3_e9c8
  {
    hide Fnv;
    FnvNext(b, 28, 0x88f4_a617_1e05_5c22, 2, 2, 10, 4, 8, 6, 0x88_f4a6_1806, 0xbd12_bf48_031c_37b2);
    FnvNext(b, 29, 0xbd12_bf48_031c_37b2, 11, 2, 2, 12, 9, 14, 0xbd_12bf_4944, 0x6312_a55d_48f2_817a);
    FnvNext(b, 30, 0x6312_a55d_48f2_817a, 7, 10, 9, 13, 14, 7, 0x63_12a5_5df1, 0x4b30_e482_f412_bb85);
    FnvNext(b, 31, 0x4b30_e482_f412_bb85, 8, 5, 9, 13, 1, 8, 0x4b_30e4_8373, 0xd6cf_6284_bbd3_e9c8);
  }
  lemma OldSum(b: seq<U8>)
    requires b == EscapingMap()
    ensures Fnv(b[..28]) == 0xbbd3_e9c8_9d9d_2ca4
  {
    hide Fnv, PrimePower;
    FnvStart(b);
    EighthPower();
    HashLetters(b);
    HashZeroDigits(b);
    HashOldDigit(b);
    FnvRun(b, 8, 8, 0xec74_6a2e_dfdc_1a6f, 0x1efa_c709_0aef_4a21, 0x1c9d_45f8_08be_2501, 0xe1e4_0b2c_7ea4_7e4f);
    HashOldLength(b);
    FnvRun(b, 20, 8, 0xd79a_be7c_5c9e_c024, 0x1efa_c709_0aef_4a21, 0x1a17_5711_8005_ff41, 0xbbd3_e9c8_9d9d_2ca4);
  }

  lemma NewSum(b: seq<U8>)
    requires b == EscapingMap()[7 := 0x33]
    ensures Fnv(b[..32]) == 0xd6cf_6284_bbd3_e9c8
  {
    hide Fnv, PrimePower;
    FnvStart(b);
    EighthPower();
    HashLetters(b);
    HashZeroDigits(b);
    HashNewDigit(b);
    FnvRun(b, 8, 8, 0xec74_6c2e_dfdc_1dd5, 0x1efa_c709_0aef_4a21, 0x1c9d_4635_fe4c_3781, 0x8b8_b5e7_a7da_6a75);
    HashNewLength(b);
    FnvRun(b, 20, 8, 0x7ac2_fcd9_b4c6_8be2, 0x1efa_c709_0aef_4a21, 0xedb_1b7e_5870_4aed, 0x88f4_a617_1e05_5c22);
    HashNewCount(b);
  }

  // ----- the change nobody notices

  lemma OldSumStored(b: seq<U8>)
    requires b == EscapingMap()
    ensures ReadU64(b, 28) == 0xbbd3_e9c8_9d9d_2ca4
  {
    hide UnLE;
    assert b[28..36] == [164, 44, 157, 157, 200, 233, 211, 187];
    UnLEWord(b[28..36]);
  }

  lemma NewSumStored(b: seq<U8>)
    requires |b| == 40 && b[32..40] == [200, 233, 211, 187, 132, 98, 207, 214]
    ensures ReadU64(b, 32) == 0xd6cf_6284_bbd3_e9c8
  {
    hide UnLE;
    UnLEWord(b[32..40]);
  }

  lemma OldAccepted(b: seq<U8>)
    requires b == EscapingMap()
    ensures ParsePlain(b).Accepted? && ParsePlain(b).header.format == CMAP1 && ParsePlain(b).header.dataLen == 0
  {
    hide Fnv, LE, UnLE, Recognise, TableOk, ReadU64, ReadU32;
    OldSum(b);
    OldSumStored(b);
    assert b[24..28] == [0, 0, 0, 0];
    NoLength(b);
    TablesOk();
    assert b[..8] == CMAP1.magic;
    RecogniseKnown(PLAIN_FORMATS, b[..8], 1);
    TableHeaders(PLAIN_FORMATS);
    ParseByMagic(b, PLAIN_FORMATS, 8);
  }

  lemma NoLength(b: seq<U8>)
    requires |b| >= 28 && b[24..28] == [0, 0, 0, 0]
    ensures ReadU32(b, 24) == 0
  {
    var w := b[24..28];
    UnLEEnd(w);
    UnLEStep(w, 3, 0);
    UnLEStep(w, 2, 0);
    UnLEStep(w, 1, 0);
    UnLEStep(w, 0, 0);
    assert w[0..] == w;
  }

  /** A buffer that is a plain map under both header sizes, one byte apart. */
  lemma MagicEscapes()
    ensures var b := EscapingMap();
            && ParsePlain(b).Accepted? && ParsePlain(b).header.format == CMAP1
            && ParsePlain(b[7 := 0x33]).Accepted? && ParsePlain(b[7 := 0x33]).header.format == CMAP3
            && |b| == Expected(ParsePlain(b[7 := 0x33]).header, 8)
  {
    hide Fnv, LE, UnLE, Recognise, TableOk, ReadU64, ReadU32, EscapingMap, Parse, ParseAs;
    var b := EscapingMap();
    var b' := b[7 := 0x33];
    OldAccepted(b);
    NewSum(b');
    EscapingBytes(b');
    NewSumStored(b');
    PlainCorruption(b, 7, 0x33);
    NewHeader(b');
  }

  lemma EscapingBytes(b: seq<U8>)
    requires b == EscapingMap()[7 := 0x33]
    ensures b[32..40] == [200, 233, 211, 187, 132, 98, 207, 214] && b[24..28] == [0, 0, 0, 0]
    ensures b[..8] == CMAP3.magic && EscapingMap()[7] == 0x31
  {
    assert b[..8] == CMAP + [0x33];
  }

  lemma NewHeader(b: seq<U8>)
    requires ParsePlain(b).Accepted? && |b| >= 28 && b[..8] == CMAP3.magic && b[24..28] == [0, 0, 0, 0]
    ensures ParsePlain(b).header.format == CMAP3 && Expected(ParsePlain(b).header, 8) == 40
  {
    hide Parse, Recognise, TableOk, ReadU32, ReadU64;
    TablesOk();
    TableHeaders(PLAIN_FORMATS);
    ParseAccepts(b, PLAIN_FORMATS, 8);
    RecogniseKnown(PLAIN_FORMATS, b[..8], 0);
    NoLength(b);
  }
}
