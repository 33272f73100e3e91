/** Working out particular values: exclusive ors four bits at a time, wrapped products
    from their two halves, and checksums one byte, or one run of zeros, at a time. */
module Evaluation {
  import opened Words
  import opened Mixing
  import opened Bytes

  // ----- exclusive or, digit by digit

  lemma Halves(x: bv4)
    ensures x as nat == 2 * ((x >> 1) as nat) + (x & 1) as nat && (x & 1) as nat < 2
  {
    assert x == 0 || x == 1 || x == 2 || x == 3 || x == 4 || x == 5 || x == 6 || x == 7 || x == 8
        || x == 9 || x == 10 || x == 11 || x == 12 || x == 13 || x == 14 || x == 15;
  }

  lemma LowBits(x: bv4, y: bv4)
    ensures ((x ^ y) & 1) as nat == ((x & 1) as nat + (y & 1) as nat) % 2
  {
    assert (x & 1 == 0 || x & 1 == 1) && (y & 1 == 0 || y & 1 == 1);
    assert (x ^ y) & 1 == (x & 1) ^ (y & 1);
  }

  lemma NextBit(a: nat, b: nat, i: nat, j: nat)
    requires i < 2 && j < 2
    ensures Xor(2 * a + i, 2 * b + j) == 2 * Xor(a, b) + (i + j) % 2
  {
    hide Xor;
    XorHalf(2 * a + i, 2 * b + j);
  }

  lemma NextShift(x: bv4, y: bv4, x': bv4, y': bv4)
    requires x' == x >> 1 && y' == y >> 1 && Xor(x' as nat, y' as nat) == (x' ^ y') as nat
    ensures Xor(x as nat, y as nat) == (x ^ y) as nat
  {
    hide Xor;
    Halves(x);
    Halves(y);
    Halves(x ^ y);
    LowBits(x, y);
    assert (x ^ y) >> 1 == x' ^ y';
    NextBit(x' as nat, y' as nat, (x & 1) as nat, (y & 1) as nat);
  }

  /** The exclusive or of two hexadecimal digits, taken on vectors of four bits. */
  lemma DigitXor(x: bv4, y: bv4)
    ensures Xor(x as nat, y as nat) == (x ^ y) as nat
  {
    hide Xor;
    XorZero(0);
    assert x >> 1 >> 1 >> 1 >> 1 == 0 && y >> 1 >> 1 >> 1 >> 1 == 0;
    NextShift(x >> 1 >> 1 >> 1, y >> 1 >> 1 >> 1, 0, 0);
    NextShift(x >> 1 >> 1, y >> 1 >> 1, x >> 1 >> 1 >> 1, y >> 1 >> 1 >> 1);
    NextShift(x >> 1, y >> 1, x >> 1 >> 1, y >> 1 >> 1);
    NextShift(x, y, x >> 1, y >> 1);
  }

  /** One digit more. */
  lemma NextDigit(a: nat, b: nat, c: nat, x: bv4, y: bv4, z: bv4)
    requires Xor(a, b) == c && x ^ y == z
    ensures Xor(0x10 * a + x as nat, 0x10 * b + y as nat) == 0x10 * c + z as nat
  {
    hide Xor;
    DigitXor(x, y);
    DigitApart(a, x as nat);
    DigitApart(b, y as nat);
    DigitApart(c, z as nat);
    XorFour(0x10 * a, x as nat, 0x10 * b, y as nat);
    XorScaled(a, b);
  }

  lemma DigitApart(a: nat, x: nat)
    requires x < 16
    ensures Xor(0x10 * a, x) == 0x10 * a + x
  {
    hide Xor;
    assert Pow2(4) == 0x10;
    XorBlock(a, 0, x, 4);
    XorZero(x);
  }

  lemma XorScaled(a: nat, b: nat)
    ensures Xor(0x10 * a, 0x10 * b) == 0x10 * Xor(a, b)
  {
    hide Xor;
    NextBit(a, b, 0, 0);
    NextBit(2 * a, 2 * b, 0, 0);
    NextBit(4 * a, 4 * b, 0, 0);
    NextBit(8 * a, 8 * b, 0, 0);
  }

  /** h ^ (h >> k): h is o behind q blocks of 2^(64 - k), or what is shifted out behind s blocks
      of 2^k, and c the exclusive or of o and s. */
  lemma XorShiftIs(h: U64, k: nat, low: nat, q: nat, o: nat, high: nat, s: nat, out: nat, c: nat)
    requires 27 <= k <= 64 && low == Pow2(64 - k) && high == Pow2(k) && Xor(o, s) == c
    requires h == q * low + o && o < low && h == s * high + out && out < high
    ensures XorShift(h, k) == q * low + c
  {
    hide Xor, Pow2;
    XorShiftParts(h, k, q, o);
    DivUnique(h, high, s, out);
  }

  // ----- checksums

  /** One step: only the low byte of the state, with digits o1 and o0, is touched before the
      product, whose high part is k. */
  lemma FnvNext(b: seq<U8>, i: nat, h: U64, o1: bv4, o0: bv4, x1: bv4, x0: bv4, y1: bv4, y0: bv4, k: nat, r: U64)
    requires i < |b| && Fnv(b[..i]) == h && o1 ^ x1 == y1 && o0 ^ x0 == y0
    requires h % 0x100 == 0x10 * o1 as nat + o0 as nat && b[i] == 0x10 * x1 as nat + x0 as nat
    requires (h / 0x100 * 0x100 + 0x10 * y1 as nat + y0 as nat) * 0x100_0000_01b3 == k * 0x1_0000_0000_0000_0000 + r
    ensures Fnv(b[..i + 1]) == r
  {
    hide Xor, Fnv;
    DigitXor(o1, x1);
    NextDigit(o1 as nat, x1 as nat, y1 as nat, o0, x0, y0);
    FnvByte(b, i, h, 0x10 * o1 as nat + o0 as nat, 0x10 * y1 as nat + y0 as nat, k, r);
  }

  lemma FnvByte(b: seq<U8>, i: nat, h: U64, o: nat, y: nat, k: nat, r: U64)
    requires i < |b| && Fnv(b[..i]) == h && h % 0x100 == o && Xor(o, b[i]) == y && y < 0x100
    requires (h / 0x100 * 0x100 + y) * 0x100_0000_01b3 == k * 0x1_0000_0000_0000_0000 + r
    ensures Fnv(b[..i + 1]) == r
  {
    hide Xor, Mul64;
    assert b[..i + 1][..i] == b[..i];
    LowByte(h, o, b[i]);
    TimesIs(h / 0x100 * 0x100 + y, FNV_PRIME, k, r);
  }

  lemma LowByte(h: nat, o: nat, x: U8)
    requires h % 0x100 == o
    ensures Xor(h, x) == h - o + Xor(o, x)
  {
    hide Xor;
    assert Pow2(8) == 0x100;
    XorBlock(h / 0x100, o, x, 8);
  }

  lemma TimesIs(h: U64, c: U64, k: nat, r: U64)
    requires h * c == k * 0x1_0000_0000_0000_0000 + r
    ensures Mul64(h, c) == r
  {
    DivUnique(h * c, TWO64, k, r);
  }

  function PrimePower(n: nat): U64 {
    if n == 0 then 1 else Mul64(PrimePower(n - 1), FNV_PRIME)
  }

  lemma {:induction false} ZeroRun(b: seq<U8>, i: nat, n: nat)
    requires i + n <= |b| && forall j | i <= j < i + n :: b[j] == 0
    ensures Fnv(b[..i + n]) == Mul64(Fnv(b[..i]), PrimePower(n))
  {
    hide Xor, Mul64;
    var h := Fnv(b[..i]);
    if n == 0 {
      OneTimes(h);
    } else {
      ZeroRun(b, i, n - 1);
      assert b[..i + n][..i + n - 1] == b[..i + n - 1];
      XorZero(Fnv(b[..i + n - 1]));
      MulInTurn(h, PrimePower(n - 1), FNV_PRIME);
    }
  }

  lemma OneTimes(h: U64)
    ensures Mul64(h, 1) == h
  {
  }

  lemma MulInTurn(h: U64, c: U64, d: U64)
    ensures Mul64(Mul64(h, c), d) == Mul64(h, Mul64(c, d))
  {
    ModInTurn(h * c, d);
    ModInTurn(c * d, h);
    assert h * c * d == c * d * h;
  }

  lemma ModInTurn(a: nat, d: nat)
    ensures ((a % TWO64) * d) % TWO64 == (a * d) % TWO64
  {
    var q, r := a / TWO64, a % TWO64;
    assert a * d == (q * d) * TWO64 + r * d by {
      assert a == q * TWO64 + r;
      assert q * TWO64 * d == q * d * TWO64;
    }
    var q', r' := (r * d) / TWO64, (r * d) % TWO64;
    DivUnique(a * d, TWO64, q * d + q', r');
  }

  lemma EighthPower()
    ensures PrimePower(3) == 0x8a9_7b00_04e7_feab && PrimePower(7) == 0xc552_7b8a_51d3_d2db
    ensures PrimePower(8) == 0x1efa_c709_0aef_4a21
  {
    PowerStep(0, 1, 0, 0x100_0000_01b3);
    PowerStep(1, 0x100_0000_01b3, 0x1_0000, 0x3_6600_0002_e329);
    PowerStep(2, 0x3_6600_0002_e329, 0x366_0000, 0x8a9_7b00_04e7_feab);
    PowerStep(3, 0x8a9_7b00_04e7_feab, 0x8_a97b_0013, 0x9ffa_ac08_5635_bc91);
    PowerStep(4, 0x9ffa_ac08_5635_bc91, 0x9f_faac_0966, 0xcae_e32a_7d4f_6a63);
    PowerStep(5, 0xcae_e32a_7d4f_6a63, 0xc_aee3_2a92, 0xdc96_6432_edf1_c639);
    PowerStep(6, 0xdc96_6432_edf1_c639, 0xdc_9664_3464, 0xc552_7b8a_51d3_d2db);
    PowerStep(7, 0xc552_7b8a_51d3_d2db, 0xc5_527b_8ba1, 0x1efa_c709_0aef_4a21);
  }

  lemma PowerStep(n: nat, h: U64, k: nat, r: U64)
    requires PrimePower(n) == h && h * 0x100_0000_01b3 == k * 0x1_0000_0000_0000_0000 + r
    ensures PrimePower(n + 1) == r
  {
    hide Mul64;
    TimesIs(h, FNV_PRIME, k, r);
  }

  lemma PowersAdd(m: nat, n: nat, c: U64, d: U64, k: nat, r: U64)
    requires PrimePower(m) == c && PrimePower(n) == d && c * d == k * 0x1_0000_0000_0000_0000 + r
    ensures PrimePower(m + n) == r
  {
    hide PrimePower, Mul64;
    PowerSum(m, n);
    TimesIs(c, d, k, r);
  }

  lemma {:induction false} PowerSum(m: nat, n: nat)
    ensures PrimePower(m + n) == Mul64(PrimePower(m), PrimePower(n))
  {
    hide Mul64;
    if n == 0 {
      OneTimes(PrimePower(m));
    } else {
      PowerSum(m, n - 1);
      MulInTurn(PrimePower(m), PrimePower(n - 1), FNV_PRIME);
    }
  }

  lemma Powers()
    ensures PrimePower(3) == 0x8a9_7b00_04e7_feab && PrimePower(7) == 0xc552_7b8a_51d3_d2db
    ensures PrimePower(91) == 0xd645_a4bb_011b_d7cb
  {
    hide PrimePower;
    EighthPower();
    PowersAdd(8, 8, 0x1efa_c709_0aef_4a21, 0x1efa_c709_0aef_4a21, 0x3bf_bc4f_76f8_800e, 0x4efe_15c8_1315_1841);
    PowersAdd(16, 16, 0x4efe_15c8_1315_1841, 0x4efe_15c8_1315_1841, 0x185f_d175_2681_2823, 0x558_b2e6_a2f6_4081);
    PowersAdd(32, 32, 0x558_b2e6_a2f6_4081, 0x558_b2e6_a2f6_4081, 0x1c_95b8_7df3_3239, 0xe9b_e24f_4c2c_c101);
    PowersAdd(64, 16, 0xe9b_e24f_4c2c_c101, 0x4efe_15c8_1315_1841, 0x481_fedc_e853_4c60, 0xc1be_550d_718a_1941);
    PowersAdd(80, 8, 0xc1be_550d_718a_1941, 0x1efa_c709_0aef_4a21, 0x1772_1878_6e84_08ab, 0x8b11_a8c0_abc9_0b61);
    PowersAdd(88, 3, 0x8b11_a8c0_abc9_0b61, 0x8a9_7b00_04e7_feab, 0x4b4_9ebf_eb4e_9087, 0xd645_a4bb_011b_d7cb);
  }

  /** A run of n zero bytes multiplies the state by the n-th power of the prime. */
  lemma FnvRun(b: seq<U8>, i: nat, n: nat, h: U64, c: U64, k: nat, r: U64)
    requires i + n <= |b| && Fnv(b[..i]) == h && PrimePower(n) == c && forall j | i <= j < i + n :: b[j] == 0
    requires h * c == k * 0x1_0000_0000_0000_0000 + r
    ensures Fnv(b[..i + n]) == r
  {
    hide Fnv, PrimePower, Mul64;
    ZeroRun(b, i, n);
    TimesIs(h, c, k, r);
  }

  lemma FnvStart(b: seq<U8>)
    ensures Fnv(b[..0]) == 0xcbf2_9ce4_8422_2325
  {
    assert b[..0] == [];
  }

  /** A word from its bytes, the last one first. */
  lemma UnLEStep(b: seq<U8>, i: nat, v: nat)
    requires i < |b| && UnLE(b[i + 1..]) == v
    ensures UnLE(b[i..]) == b[i] + 0x100 * v
  {
    assert b[i..][1..] == b[i + 1..];
  }

  lemma UnLEWord(b: seq<U8>)
    requires |b| == 8
    ensures UnLE(b) == b[0] + 0x100 * (b[1] + 0x100 * (b[2] + 0x100 * (b[3] + 0x100 * (b[4] + 0x100 *
                       (b[5] + 0x100 * (b[6] + 0x100 * b[7] as nat))))))
  {
    hide UnLE;
    UnLEEnd(b);
    UnLEStep(b, 7, 0);
    UnLEStep(b, 6, UnLE(b[7..]));
    UnLEStep(b, 5, UnLE(b[6..]));
    UnLEStep(b, 4, UnLE(b[5..]));
    UnLEStep(b, 3, UnLE(b[4..]));
    UnLEStep(b, 2, UnLE(b[3..]));
    UnLEStep(b, 1, UnLE(b[2..]));
    UnLEStep(b, 0, UnLE(b[1..]));
    assert b[0..] == b;
  }

  lemma UnLEEnd(b: seq<U8>)
    ensures UnLE(b[|b|..]) == 0
  {
  }

  lemma ShiftPowers()
    ensures Pow2(27) == 0x800_0000 && Pow2(30) == 0x4000_0000 && Pow2(31) == 0x8000_0000 && Pow2(33) == 0x2_0000_0000
    ensures Pow2(34) == 0x4_0000_0000 && Pow2(37) == 0x20_0000_0000
  {
    assert Pow2(9) == 0x200 && Pow2(10) == 0x400;
    Pow2Add(9, 9);
    Pow2Add(18, 9);
    assert Pow2(28) == 2 * Pow2(27) && Pow2(29) == 2 * Pow2(28) && Pow2(30) == 2 * Pow2(29);
    MixingPowers();
    assert Pow2(34) == 2 * Pow2(33) && Pow2(35) == 2 * Pow2(34) && Pow2(36) == 2 * Pow2(35) && Pow2(37) == 2 * Pow2(36);
  }
}
