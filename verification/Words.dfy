/** Fixed-width unsigned words as bounded integers, with the bit operations the
    map is built from. XOR and AND are defined bit by bit on the naturals. */
module Words {

  type U8 = x: nat | x < 0x100
  type U32 = x: nat | x < 0x1_0000_0000
  type U64 = x: nat | x < 0x1_0000_0000_0000_0000

  const TWO8: nat := 0x100
  const TWO32: nat := 0x1_0000_0000
  const TWO64: nat := 0x1_0000_0000_0000_0000

  function Pow2(k: nat): (p: nat)
    ensures p >= 1
  {
    if k == 0 then 1 else 2 * Pow2(k - 1)
  }

  /** Exclusive or. */
  function Xor(a: nat, b: nat): nat
    decreases a + b
  {
    if a == 0 && b == 0 then 0 else 2 * Xor(a / 2, b / 2) + (if a % 2 == b % 2 then 0 else 1)
  }

  /** Bitwise and. */
  function And(a: nat, b: nat): nat {
    if a == 0 || b == 0 then 0 else 2 * And(a / 2, b / 2) + (if a % 2 == 1 && b % 2 == 1 then 1 else 0)
  }

  /** Bitwise or. */
  function Or(a: nat, b: nat): nat
    decreases a + b
  {
    if a == 0 && b == 0 then 0 else 2 * Or(a / 2, b / 2) + (if a % 2 == 1 || b % 2 == 1 then 1 else 0)
  }

  /** Logical shift right. */
  function Shr(a: nat, k: nat): nat {
    DivLe(a, Pow2(k));
    a / Pow2(k)
  }

  lemma DivLe(a: nat, d: nat)
    requires d >= 1
    ensures 0 <= a / d <= a
  {
    var q, r := a / d, a % d;
    assert a == q * d + r;
    if q < 0 {
      MulAtLeast(-q, d);
    } else {
      MulAtLeast(d, q);
    }
  }

  function Xor64(a: U64, b: U64): U64 {
    PowerSizes();
    XorBound(a, b, 64);
    Xor(a, b)
  }

  function Xor32(a: U32, b: U32): U32 {
    PowerSizes();
    XorBound(a, b, 32);
    Xor(a, b)
  }

  function Xor8(a: U8, b: U8): U8 {
    PowerSizes();
    XorBound(a, b, 8);
    Xor(a, b)
  }

  function And32(a: U32, b: U32): U32 {
    AndLe(a, b);
    And(a, b)
  }

  /** -a and ~a on 32-bit words. */
  function Neg32(a: U32): U32 {
    (TWO32 - a) % TWO32
  }

  function Not32(a: U32): U32 {
    TWO32 - 1 - a
  }

  lemma {:induction false} AndLe(a: nat, b: nat)
    ensures And(a, b) <= a
  {
    if a > 0 && b > 0 {
      AndLe(a / 2, b / 2);
    }
  }

  // ----- powers of two

  lemma PowerSizes()
    ensures Pow2(8) == TWO8 && Pow2(32) == TWO32 && Pow2(64) == TWO64
  {
    assert Pow2(8) == TWO8;
    assert Pow2(16) == 0x1_0000;
    Pow2Add(16, 16);
    Pow2Add(32, 32);
  }

  lemma {:induction false} Pow2Add(j: nat, k: nat)
    ensures Pow2(j + k) == Pow2(j) * Pow2(k)
  {
    if k == 0 {
    } else {
      Pow2Add(j, k - 1);
      assert Pow2(j + k) == 2 * Pow2(j + k - 1);
      assert Pow2(j) * (2 * Pow2(k - 1)) == 2 * (Pow2(j) * Pow2(k - 1));
    }
  }

  lemma {:induction false} Pow2Mono(j: nat, k: nat)
    requires j <= k
    ensures Pow2(j) <= Pow2(k)
  {
    if j < k {
      Pow2Mono(j, k - 1);
    }
  }

  predicate IsPow2(n: nat) {
    n == 1 || (n > 1 && n % 2 == 0 && IsPow2(n / 2))
  }

  function Log2(n: nat): (k: nat)
    requires IsPow2(n)
    ensures n == Pow2(k)
  {
    if n == 1 then 0 else 1 + Log2(n / 2)
  }

  lemma {:induction false} Pow2IsPow2(k: nat)
    ensures IsPow2(Pow2(k))
  {
    if k > 0 {
      Pow2IsPow2(k - 1);
    }
  }

  // ----- shifts

  lemma ShrStep(a: nat, k: nat)
    ensures Shr(a, k + 1) == Shr(a / 2, k)
  {
    var p, q, r := Pow2(k), (a / 2) / Pow2(k), (a / 2) % Pow2(k);
    assert a == 2 * (q * p + r) + a % 2;
    assert 2 * (q * p) == q * (2 * p);
    DivUnique(a, 2 * p, q, 2 * r + a % 2);
  }

  lemma DivUnique(a: nat, d: nat, q: nat, r: nat)
    requires a == q * d + r && r < d
    ensures a / d == q && a % d == r
  {
    var q', r' := a / d, a % d;
    assert (q - q') * d == r' - r;
    if q' < q {
      MulAtLeast(q - q', d);
    } else if q < q' {
      MulAtLeast(q' - q, d);
    }
  }

  lemma MulMono(a: int, b: int, c: nat, d: nat)
    requires 0 <= a <= b && c <= d
    ensures a * c <= b * d
  {
    assert a * c <= b * c <= b * d;
  }

  lemma MulAtLeast(x: int, d: nat)
    requires x >= 1
    ensures x * d >= d
  {
  }

  lemma QuotientBelow(a: nat, d: nat, n: nat)
    requires d >= 1 && a < n * d
    ensures a / d < n
  {
    var q, r := a / d, a % d;
    assert a == q * d + r;
    if q >= n {
      MulMono(n, q, d, d);
    }
  }

  lemma ShrBound(a: nat, j: nat, k: nat)
    requires a < Pow2(j + k)
    ensures Shr(a, k) < Pow2(j)
  {
    Pow2Add(j, k);
    QuotientBelow(a, Pow2(k), Pow2(j));
  }

  lemma ShrShr(a: nat, j: nat, k: nat)
    ensures Shr(Shr(a, j), k) == Shr(a, j + k)
    decreases j
  {
    if j > 0 {
      ShrStep(a, j - 1);
      ShrShr(a / 2, j - 1, k);
      ShrStep(a, j + k - 1);
    }
  }

  // ----- exclusive or is a group on words in which every word is its own inverse

  lemma {:induction false} XorComm(a: nat, b: nat)
    ensures Xor(a, b) == Xor(b, a)
    decreases a + b
  {
    if a + b > 0 {
      XorComm(a / 2, b / 2);
    }
  }

  lemma XorHalf(a: nat, b: nat)
    ensures Xor(a, b) / 2 == Xor(a / 2, b / 2)
    ensures Xor(a, b) % 2 == if a % 2 == b % 2 then 0 else 1
  {
  }

  lemma XorAssoc(a: nat, b: nat, c: nat)
    ensures Xor(Xor(a, b), c) == Xor(a, Xor(b, c))
  {
    XorAssocOf(a, b, c, Xor(a, b), Xor(b, c), Xor(Xor(a, b), c), Xor(a, Xor(b, c)));
  }

  lemma {:induction false} XorAssocOf(a: nat, b: nat, c: nat, ab: nat, bc: nat, left: nat, right: nat)
    requires ab == Xor(a, b) && bc == Xor(b, c)
    requires left == Xor(ab, c) && right == Xor(a, bc)
    ensures left == right
    decreases a + b + c
  {
    XorHalf(a, b);
    XorHalf(b, c);
    XorHalf(ab, c);
    XorHalf(a, bc);
    if a + b + c > 0 {
      XorAssocOf(a / 2, b / 2, c / 2, ab / 2, bc / 2, left / 2, right / 2);
    }
  }

  lemma {:induction false} XorZero(a: nat)
    ensures Xor(a, 0) == a && Xor(0, a) == a
  {
    if a > 0 {
      XorZero(a / 2);
    }
  }

  lemma {:induction false} XorSelf(a: nat)
    ensures Xor(a, a) == 0
  {
    if a > 0 {
      XorSelf(a / 2);
    }
  }

  /** Folding a word in twice cancels. */
  lemma XorCancel(a: nat, b: nat)
    ensures Xor(Xor(a, b), b) == a
  {
    XorAssoc(a, b, b);
    XorSelf(b);
    XorZero(a);
  }

  lemma XorSwap(a: nat, b: nat, c: nat)
    ensures Xor(Xor(a, b), c) == Xor(Xor(a, c), b)
  {
    XorAssoc(a, b, c);
    XorComm(b, c);
    XorAssoc(a, c, b);
  }

  lemma XorZeroMeansEqual(a: nat, b: nat)
    requires Xor(a, b) == 0
    ensures a == b
  {
    XorCancel(a, b);
    XorZero(b);
  }

  lemma {:induction false} XorBound(a: nat, b: nat, k: nat)
    requires a < Pow2(k) && b < Pow2(k)
    ensures Xor(a, b) < Pow2(k)
    decreases k
  {
    if k > 0 {
      XorBound(a / 2, b / 2, k - 1);
    }
  }

  lemma {:induction false} XorShr(a: nat, b: nat, k: nat)
    ensures Shr(Xor(a, b), k) == Xor(Shr(a, k), Shr(b, k))
    decreases k
  {
    if k > 0 {
      ShrStep(Xor(a, b), k - 1);
      XorHalf(a, b);
      XorShr(a / 2, b / 2, k - 1);
      ShrStep(a, k - 1);
      ShrStep(b, k - 1);
    }
  }

  /** XOR with a word below 2^k only touches the low k bits. */
  lemma XorBlock(q: nat, o: nat, m: nat, k: nat)
    requires o < Pow2(k) && m < Pow2(k)
    ensures Xor(q * Pow2(k) + o, m) == q * Pow2(k) + Xor(o, m)
    ensures Xor(o, m) < Pow2(k)
  {
    XorBound(o, m, k);
    XorBlockOf(q, q * Pow2(k), o, m, k);
  }

  lemma {:induction false} XorBlockOf(q: nat, high: nat, o: nat, m: nat, k: nat)
    requires high == q * Pow2(k) && o < Pow2(k) && m < Pow2(k)
    ensures Xor(high + o, m) == high + Xor(o, m)
    decreases k
  {
    if k == 0 {
      XorZero(q);
    } else {
      HalveBlock(q, high, k);
      XorBlockOf(q, high / 2, o / 2, m / 2, k - 1);
    }
  }

  lemma HalveBlock(q: nat, high: nat, k: nat)
    requires high == q * Pow2(k) && k > 0
    ensures high % 2 == 0 && high / 2 == q * Pow2(k - 1)
  {
    assert q * (2 * Pow2(k - 1)) == 2 * (q * Pow2(k - 1));
  }

  // ----- masks

  lemma AndMask(a: nat, k: nat)
    ensures And(a, Pow2(k) - 1) == a % Pow2(k)
  {
    AndMaskOf(a, k, Pow2(k) - 1);
  }

  lemma {:induction false} AndMaskOf(a: nat, k: nat, m: nat)
    requires m + 1 == Pow2(k)
    ensures And(a, m) == a % Pow2(k)
    decreases k
  {
    if k == 0 {
    } else if a == 0 {
    } else {
      assert m % 2 == 1 && m / 2 + 1 == Pow2(k - 1);
      AndMaskOf(a / 2, k - 1, m / 2);
      ModStep(a, k - 1);
    }
  }

  lemma ModStep(a: nat, k: nat)
    ensures a % Pow2(k + 1) == 2 * ((a / 2) % Pow2(k)) + a % 2
  {
    var p := Pow2(k);
    var q, r := (a / 2) / p, (a / 2) % p;
    assert 2 * (q * p) == q * (2 * p);
    DivUnique(a, 2 * p, q, 2 * r + a % 2);
  }

  lemma {:induction false} AndComm(a: nat, b: nat)
    ensures And(a, b) == And(b, a)
  {
    if a > 0 && b > 0 {
      AndComm(a / 2, b / 2);
    }
  }

  lemma AndOnes32(a: U32)
    ensures And(a, 0xFFFF_FFFF) == a && And(a, 0) == 0
  {
    hide And, Pow2;
    PowerSizes();
    AndMask(a, 32);
    AndNone(a);
  }

  lemma AndNone(a: nat)
    ensures And(a, 0) == 0
  {
  }

  /** The usual test for a power of two is exact. */
  lemma {:induction false} Pow2Test(n: nat)
    requires n > 0
    ensures And(n, n - 1) == 0 <==> IsPow2(n)
  {
    if n > 1 {
      if n % 2 == 0 {
        assert (n - 1) / 2 == n / 2 - 1;
        Pow2Test(n / 2);
      } else {
        assert (n - 1) / 2 == n / 2;
        AndSelf(n / 2);
      }
    }
  }

  lemma {:induction false} AndSelf(n: nat)
    ensures And(n, n) == n
  {
    if n > 0 {
      AndSelf(n / 2);
    }
  }
}
