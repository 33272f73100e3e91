/** The 64-bit mixers: what turns a key hash and a seed into the word whose bits
    choose three cells, and the check word stored beside a value. */
module Mixing {
  import opened Words

  const MURMUR_A: U64 := 0xff51afd7ed558ccd
  const MURMUR_B: U64 := 0xc4ceb9fe1a85ec53
  const GOLDEN: U64 := 0x9E3779B97F4A7C15

  function Mul64(a: U64, b: U64): U64 {
    (a * b) % TWO64
  }

  function Add64(a: U64, b: U64): U64 {
    (a + b) % TWO64
  }

  /** h ^ (h >> k). */
  function XorShift(h: U64, k: nat): U64 {
    ShrLe(h, k);
    Xor64(h, Shr(h, k))
  }

  lemma ShrLe(h: nat, k: nat)
    ensures Shr(h, k) <= h
  {
    DivLe(h, Pow2(k));
  }

  /** Three xor-shifts around two multiplications. */
  function Finalise(h: U64, a: U64, b: U64): U64 {
    XorShift(Mul64(XorShift(Mul64(XorShift(h, 33), a), 33), b), 33)
  }

  function Murmur64(h: U64): U64 {
    Finalise(h, MURMUR_A, MURMUR_B)
  }

  function MixSplit(key: U64, seed: U64): U64 {
    Murmur64(Add64(key, seed))
  }

  /** The check word of a mixed hash. */
  function Fingerprint(hash: U64): U64 {
    XorShift(hash, 32)
  }

  /** One output of the seed generator, from the state after it has advanced. */
  function SplitMixOutput(state: U64): U64 {
    XorShift(Mul64(XorShift(Mul64(XorShift(state, 30), 0xBF58476D1CE4E5B9), 27), 0x94D049BB133111EB), 31)
  }

  // ----- seeds

  /** State of the seed generator after it has produced j + 1 seeds from its start at 1. */
  function SeedState(j: nat): U64 {
    if j == 0 then Add64(1, GOLDEN) else Add64(SeedState(j - 1), GOLDEN)
  }

  function SeedAt(j: nat): U64 {
    SplitMixOutput(SeedState(j))
  }

  // ----- every step has an inverse

  /** Multipliers undoing the two odd multipliers, modulo 2^64. */
  const MURMUR_A_INVERSE: U64 := 0x4f74430c22a54005
  const MURMUR_B_INVERSE: U64 := 0x9cb4b2f8129337db

  function Unmurmur64(w: U64): U64 {
    Finalise(w, MURMUR_B_INVERSE, MURMUR_A_INVERSE)
  }

  function UnmixSplit(w: U64, seed: U64): U64 {
    Add64(Unmurmur64(w), (TWO64 - seed) % TWO64)
  }

  /** Shifting by at least half the width makes h ^ (h >> k) its own inverse. */
  lemma XorShiftTwice(h: U64, k: nat)
    requires 32 <= k
    ensures XorShift(XorShift(h, k), k) == h
  {
    var s := Shr(h, k);
    ShrLe(h, k);
    assert Shr(s, k) == 0 by {
      ShrShr(h, k, k);
      PowerSizes();
      Pow2Mono(64, k + k);
    }
    XorShr(h, s, k);
    XorZero(s);
    XorCancel(h, s);
  }

  lemma MulInverse(h: U64, c: U64, d: U64)
    requires (c * d) % TWO64 == 1
    ensures Mul64(Mul64(h, c), d) == h
  {
    var t, r := (h * c) / TWO64, (h * c) % TWO64;
    var q := (c * d) / TWO64;
    calc {
      r * d;
      (h * c - TWO64 * t) * d;
      h * (c * d) - TWO64 * (t * d);
      h * (TWO64 * q + 1) - TWO64 * (t * d);
      h + TWO64 * (h * q - t * d);
    }
    ModPlusMultiple(h, h * q - t * d);
  }

  lemma ModPlusMultiple(h: U64, z: int)
    ensures (h + TWO64 * z) % TWO64 == h
  {
  }

  lemma FinaliseInverse(h: U64, a: U64, b: U64, a': U64, b': U64)
    requires (a * a') % TWO64 == 1 && (b * b') % TWO64 == 1
    ensures Finalise(Finalise(h, a, b), b', a') == h
  {
    var h1 := XorShift(h, 33);
    var h2 := Mul64(h1, a);
    var h3 := XorShift(h2, 33);
    var h4 := Mul64(h3, b);
    assert XorShift(Finalise(h, a, b), 33) == h4 by { XorShiftTwice(h4, 33); }
    assert Mul64(h4, b') == h3 by { MulInverse(h3, b, b'); }
    assert XorShift(h3, 33) == h2 by { XorShiftTwice(h2, 33); }
    assert Mul64(h2, a') == h1 by { MulInverse(h1, a, a'); }
    assert XorShift(h1, 33) == h by { XorShiftTwice(h, 33); }
  }

  /** Both directions: the murmur finaliser is a bijection on 64-bit words. */
  lemma MurmurBijection(h: U64)
    ensures Unmurmur64(Murmur64(h)) == h
    ensures Murmur64(Unmurmur64(h)) == h
  {
    FinaliseInverse(h, MURMUR_A, MURMUR_B, MURMUR_A_INVERSE, MURMUR_B_INVERSE);
    FinaliseInverse(h, MURMUR_B_INVERSE, MURMUR_A_INVERSE, MURMUR_B, MURMUR_A);
  }

  /** For every seed, mixing is a bijection: reseeding neither creates nor removes collisions. */
  lemma MixBijection(key: U64, seed: U64)
    ensures UnmixSplit(MixSplit(key, seed), seed) == key
    ensures MixSplit(UnmixSplit(key, seed), seed) == key
  {
    UnmixMix(key, Add64(key, seed), seed);
    MixUnmix(key, Unmurmur64(key), seed);
  }

  lemma UnmixMix(key: U64, sum: U64, seed: U64)
    requires sum == Add64(key, seed)
    ensures Add64(Unmurmur64(Murmur64(sum)), (TWO64 - seed) % TWO64) == key
  {
    MurmurBijection(sum);
    AddNegate(key, seed);
  }

  lemma MixUnmix(w: U64, key: U64, seed: U64)
    requires key == Unmurmur64(w)
    ensures Murmur64(Add64(Add64(key, (TWO64 - seed) % TWO64), seed)) == w
  {
    assert Add64(Add64(key, (TWO64 - seed) % TWO64), seed) == key by { AddNegate(key, seed); }
    assert Murmur64(key) == w by { MurmurBijection(w); }
  }

  lemma AddNegate(a: U64, b: U64)
    ensures Add64(Add64(a, b), (TWO64 - b) % TWO64) == a
    ensures Add64(Add64(a, (TWO64 - b) % TWO64), b) == a
  {
    if b == 0 {
    } else {
      assert (TWO64 - b) % TWO64 == TWO64 - b;
      assert Add64(a, b) == if a + b < TWO64 then a + b else a + b - TWO64;
    }
  }

  lemma MixInjective(j: U64, k: U64, seed: U64)
    ensures MixSplit(j, seed) == MixSplit(k, seed) <==> j == k
  {
    MixBijection(j, seed);
    MixBijection(k, seed);
  }

  /** Taking the check word twice gives the mixed hash back. */
  lemma FingerprintInvolution(h: U64)
    ensures Fingerprint(Fingerprint(h)) == h
  {
    XorShiftTwice(h, 32);
  }

  /** Under any one seed, equal check words mean equal mixed hashes, and so equal key hashes. */
  lemma FingerprintSeparates(j: U64, k: U64, seed: U64)
    ensures Fingerprint(MixSplit(j, seed)) == Fingerprint(MixSplit(k, seed)) <==> j == k
  {
    FingerprintInvolution(MixSplit(j, seed));
    FingerprintInvolution(MixSplit(k, seed));
    MixInjective(j, k, seed);
  }

  // ----- the steps in plain arithmetic

  /** h ^ (h >> k) keeps the top k bits and XORs the others with the top ones. */
  lemma XorShiftParts(h: U64, k: nat, q: nat, o: nat)
    requires 1 <= k <= 64 && h == q * Pow2(64 - k) + o && o < Pow2(64 - k)
    ensures XorShift(h, k) == q * Pow2(64 - k) + Xor(o, Shr(h, k))
  {
    hide Xor, Pow2;
    PowerSizes();
    ShrBound(h, 64 - k, k);
    XorBlock(q, o, Shr(h, k), 64 - k);
  }

  /** A shift by 33: the top 33 bits stay, and the low 31 are XORed with the top 31. */
  function Folded33(h: U64): nat {
    h / 0x8000_0000 * 0x8000_0000 + Xor(h % 0x8000_0000, h / 0x2_0000_0000)
  }

  lemma Folded33Is(h: U64)
    ensures Folded33(h) == XorShift(h, 33)
  {
    hide Xor, Pow2, XorShift;
    MixingPowers();
    XorShiftParts(h, 33, h / 0x8000_0000, h % 0x8000_0000);
  }

  lemma MixingPowers()
    ensures Pow2(31) == 0x8000_0000 && Pow2(33) == 0x2_0000_0000
  {
    PowerSizes();
    assert Pow2(32) == 2 * Pow2(31) && Pow2(33) == 2 * Pow2(32);
  }

  /** Mixing in plain arithmetic: the wrapped sum, three folds by 33 bits and two products. */
  lemma MixExact(key: U64, seed: U64)
    ensures var a := Folded33((key + seed) % 0x1_0000_0000_0000_0000);
            && a < TWO64
            && var b := Folded33((a * 0xff51_afd7_ed55_8ccd) % 0x1_0000_0000_0000_0000);
            && b < TWO64
            && MixSplit(key, seed) == Folded33((b * 0xc4ce_b9fe_1a85_ec53) % 0x1_0000_0000_0000_0000)
  {
    hide XorShift, Folded33;
    var sum := Add64(key, seed);
    Folded33Is(sum);
    Folded33Is(Mul64(XorShift(sum, 33), MURMUR_A));
    Folded33Is(Mul64(XorShift(Mul64(XorShift(sum, 33), MURMUR_A), 33), MURMUR_B));
  }

  /** The check word keeps the upper half of the mixed hash and XORs the lower one with it. */
  lemma FingerprintExact(h: U64)
    ensures Fingerprint(h) == h / 0x1_0000_0000 * 0x1_0000_0000 + Xor(h % 0x1_0000_0000, h / 0x1_0000_0000)
  {
    hide Xor, Pow2;
    PowerSizes();
    XorShiftParts(h, 32, h / 0x1_0000_0000, h % 0x1_0000_0000);
  }

  // ----- the seeds

  /** h ^ (h >> k) loses nothing, whatever the shift. */
  lemma XorShiftInjective(h: U64, h': U64, k: nat)
    requires k >= 1 && XorShift(h, k) == XorShift(h', k)
    ensures h == h'
  {
    hide Xor;
    var c := Xor(h, h');
    XorShr(h, h', k);
    XorAssoc(h, h', Xor(Shr(h, k), Shr(h', k)));
    XorFour(h, h', Shr(h, k), Shr(h', k));
    XorSelf(XorShift(h, k));
    XorZeroMeansEqual(c, Shr(c, k));
    ShrShrinks(c, k);
    XorZeroMeansEqual(h, h');
  }

  lemma XorFour(a: nat, b: nat, c: nat, d: nat)
    ensures Xor(Xor(a, b), Xor(c, d)) == Xor(Xor(a, c), Xor(b, d))
  {
    hide Xor;
    XorAssoc(Xor(a, b), c, d);
    XorSwap(a, b, c);
    XorAssoc(Xor(a, c), b, d);
  }

  lemma ShrShrinks(c: nat, k: nat)
    requires k >= 1 && c == Shr(c, k)
    ensures c == 0
  {
    Pow2Mono(1, k);
    assert Pow2(1) == 2;
    if c > 0 {
      MulMono(2, Pow2(k), c, c);
      QuotientBelow(c, Pow2(k), c);
    }
  }

  /** The generator never gives the same output from two states. */
  lemma OutputInjective(s: U64, s': U64)
    requires SplitMixOutput(s) == SplitMixOutput(s')
    ensures s == s'
  {
    hide XorShift, Mul64;
    var a, a' := XorShift(s, 30), XorShift(s', 30);
    var b, b' := Mul64(a, 0xBF58476D1CE4E5B9), Mul64(a', 0xBF58476D1CE4E5B9);
    var c, c' := XorShift(b, 27), XorShift(b', 27);
    XorShiftInjective(Mul64(c, 0x94D049BB133111EB), Mul64(c', 0x94D049BB133111EB), 31);
    MulInverse(c, 0x94D049BB133111EB, 0x3196_42b2_d24d_8ec3);
    MulInverse(c', 0x94D049BB133111EB, 0x3196_42b2_d24d_8ec3);
    XorShiftInjective(b, b', 27);
    MulInverse(a, 0xBF58476D1CE4E5B9, 0x96de_1b17_3f11_9089);
    MulInverse(a', 0xBF58476D1CE4E5B9, 0x96de_1b17_3f11_9089);
    XorShiftInjective(s, s', 30);
  }

  lemma {:induction false} SeedStateIs(j: nat)
    ensures SeedState(j) == (1 + (j + 1) * GOLDEN) % TWO64
  {
    if j > 0 {
      SeedStateIs(j - 1);
      AddAfter(1 + j * GOLDEN, GOLDEN);
    }
  }

  lemma AddAfter(a: nat, b: nat)
    ensures (a % TWO64 + b) % TWO64 == (a + b) % TWO64
  {
    var q, r := a / TWO64, a % TWO64;
    assert a + b == q * TWO64 + (r + b);
    var q', r' := (r + b) / TWO64, (r + b) % TWO64;
    DivUnique(a + b, TWO64, q + q', r');
  }

  /** Every attempt gets a seed of its own, for far more attempts than are ever made. */
  lemma SeedsDiffer(i: nat, j: nat)
    requires i < j < TWO64
    ensures SeedAt(i) != SeedAt(j)
  {
    hide SplitMixOutput, SeedState;
    if SeedAt(i) == SeedAt(j) {
      OutputInjective(SeedState(i), SeedState(j));
      SeedStateIs(i);
      SeedStateIs(j);
      OddSteps(i, j);
    }
  }

  lemma OddSteps(i: nat, j: nat)
    requires i < j < TWO64
    ensures (1 + (i + 1) * GOLDEN) % TWO64 != (1 + (j + 1) * GOLDEN) % TWO64
  {
    var d, a, b := j - i, 1 + (i + 1) * GOLDEN, 1 + (j + 1) * GOLDEN;
    assert b == a + d * GOLDEN;
    GoldenIsOdd(d);
    if a % TWO64 == b % TWO64 {
      SameRemainder(a, b);
    }
  }

  lemma GoldenIsOdd(d: nat)
    requires 0 < d < TWO64
    ensures (d * GOLDEN) % TWO64 != 0
  {
    assert (GOLDEN * 0xf1de_83e1_9937_733d) % TWO64 == 1;
    MulInverse(d, GOLDEN, 0xf1de_83e1_9937_733d);
    assert Mul64(0, 0xf1de_83e1_9937_733d) == 0;
  }

  lemma SameRemainder(a: nat, b: nat)
    requires a <= b && a % TWO64 == b % TWO64
    ensures (b - a) % TWO64 == 0
  {
    assert b - a == (b / TWO64 - a / TWO64) * TWO64;
  }

  /** No key hash keeps its word when the seed changes. */
  lemma SeedsRemix(key: U64, seed: U64, seed': U64)
    requires seed != seed'
    ensures MixSplit(key, seed) != MixSplit(key, seed')
  {
    MurmurBijection(Add64(key, seed));
    MurmurBijection(Add64(key, seed'));
    AddNegate(seed, key);
    AddNegate(seed', key);
  }
}
