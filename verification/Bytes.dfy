/** Little-endian words in byte buffers and the FNV-1a checksum. */
module Bytes {
  import opened Words
  import opened Mixing

  /** The low k bytes of v, least significant first. */
  function LE(v: nat, k: nat): (b: seq<U8>)
    ensures |b| == k
  {
    if k == 0 then [] else [v % TWO8] + LE(v / TWO8, k - 1)
  }

  function UnLE(b: seq<U8>): nat {
    if b == [] then 0 else b[0] + TWO8 * UnLE(b[1..])
  }

  lemma {:induction false} UnLEBound(b: seq<U8>)
    ensures UnLE(b) < Pow2(8 * |b|)
  {
    if b != [] {
      UnLEBound(b[1..]);
      Pow2Add(8, 8 * |b| - 8);
      PowerSizes();
    }
  }

  lemma UnLE4(b: seq<U8>)
    requires |b| == 4
    ensures UnLE(b) < TWO32
  {
    UnLEBound(b);
    PowerSizes();
  }

  lemma UnLE8(b: seq<U8>)
    requires |b| == 8
    ensures UnLE(b) < TWO64
  {
    UnLEBound(b);
    PowerSizes();
  }

  /** Decoding what was encoded. */
  lemma {:induction false} UnLEofLE(v: nat, k: nat)
    requires v < Pow2(8 * k)
    ensures UnLE(LE(v, k)) == v
    decreases k
  {
    if k > 0 {
      PowerSizes();
      Pow2Add(8, 8 * k - 8);
      QuotientBelow(v, TWO8, Pow2(8 * k - 8));
      UnLEofLE(v / TWO8, k - 1);
      assert LE(v, k)[1..] == LE(v / TWO8, k - 1);
    }
  }

  /** Encoding what was decoded. */
  lemma {:induction false} LEofUnLE(b: seq<U8>)
    ensures LE(UnLE(b), |b|) == b
    decreases |b|
  {
    if b != [] {
      LEofUnLE(b[1..]);
      HeadOfWord(b[0], UnLE(b[1..]));
      assert b == [b[0]] + b[1..];
    }
  }

  lemma HeadOfWord(h: U8, t: nat)
    ensures (h + TWO8 * t) % TWO8 == h && (h + TWO8 * t) / TWO8 == t
  {
  }

  lemma {:induction false} LEAt(v: nat, k: nat, i: nat)
    requires i < k
    ensures LE(v, k)[i] == Shr(v, 8 * i) % TWO8
    decreases k
  {
    if i == 0 {
      assert v / 1 == v;
    } else {
      LEAt(v / TWO8, k - 1, i - 1);
      ShrShr(v, 8, 8 * (i - 1));
      PowerSizes();
    }
  }

  // ----- buffers

  function ByteOf(v: nat, i: nat): U8 {
    Shr(v, 8 * i) % TWO8
  }

  method WriteU32(buf: array<U8>, p: nat, v: U32)
    requires p + 4 <= buf.Length
    modifies buf
    ensures buf[..] == old(buf[..p]) + LE(v, 4) + old(buf[p + 4..])
  {
    hide LE, ByteOf;
    buf[p] := ByteOf(v, 0);
    buf[p + 1] := ByteOf(v, 1);
    buf[p + 2] := ByteOf(v, 2);
    buf[p + 3] := ByteOf(v, 3);
    forall i | 0 <= i < 4 ensures LE(v, 4)[i] == ByteOf(v, i) { BytesAt(v, 4, i); }
    assert |LE(v, 4)| == 4 by { BytesLength(v, 4); }
  }

  method WriteU64(buf: array<U8>, p: nat, v: U64)
    requires p + 8 <= buf.Length
    modifies buf
    ensures buf[..] == old(buf[..p]) + LE(v, 8) + old(buf[p + 8..])
  {
    hide LE, ByteOf;
    buf[p] := ByteOf(v, 0);
    buf[p + 1] := ByteOf(v, 1);
    buf[p + 2] := ByteOf(v, 2);
    buf[p + 3] := ByteOf(v, 3);
    buf[p + 4] := ByteOf(v, 4);
    buf[p + 5] := ByteOf(v, 5);
    buf[p + 6] := ByteOf(v, 6);
    buf[p + 7] := ByteOf(v, 7);
    forall i | 0 <= i < 8 ensures LE(v, 8)[i] == ByteOf(v, i) { BytesAt(v, 8, i); }
    assert |LE(v, 8)| == 8 by { BytesLength(v, 8); }
  }

  lemma BytesAt(v: nat, k: nat, i: nat)
    requires i < k
    ensures |LE(v, k)| == k && LE(v, k)[i] == ByteOf(v, i)
  {
    LEAt(v, k, i);
  }

  lemma BytesLength(v: nat, k: nat)
    ensures |LE(v, k)| == k
  {
  }

  /** Bits below 2^k and multiples of 2^k do not meet: or is addition. */
  lemma {:induction false} OrDisjoint(o: nat, q: nat, high: nat, k: nat)
    requires o < Pow2(k) && high == q * Pow2(k)
    ensures Or(o, high) == o + high
    decreases k
  {
    if k == 0 {
      OrZero(q);
    } else {
      HalveBlock(q, high, k);
      OrDisjoint(o / 2, q, high / 2, k - 1);
    }
  }

  lemma {:induction false} OrZero(a: nat)
    ensures Or(0, a) == a
  {
    if a > 0 {
      OrZero(a / 2);
    }
  }

  /** One more byte ored in above those already read. */
  lemma OrNextByte(b: seq<U8>, n: nat)
    requires n < |b|
    ensures Or(UnLE(b[..n]), b[n] * Pow2(8 * n)) == UnLE(b[..n + 1])
  {
    UnLEBound(b[..n]);
    OrDisjoint(UnLE(b[..n]), b[n], b[n] * Pow2(8 * n), 8 * n);
    UnLESnoc(b, n);
  }

  lemma {:induction false} UnLESnoc(b: seq<U8>, n: nat)
    requires n < |b|
    ensures UnLE(b[..n + 1]) == UnLE(b[..n]) + b[n] * Pow2(8 * n)
    decreases n
  {
    assert b[..n + 1][1..] == b[1..][..n];
    if n == 0 {
      assert b[..1][1..] == [];
    } else {
      UnLESnoc(b[1..], n - 1);
      assert b[..n][1..] == b[1..][..n - 1];
      NextBytePower(b[n], n);
    }
  }

  lemma NextBytePower(x: nat, n: nat)
    requires n > 0
    ensures TWO8 * (x * Pow2(8 * (n - 1))) == x * Pow2(8 * n)
  {
    hide Pow2;
    PowerSizes();
    Pow2Add(8, 8 * (n - 1));
    MulRotate(TWO8, x, Pow2(8 * (n - 1)));
  }

  lemma MulRotate(a: nat, x: nat, p: nat)
    ensures a * (x * p) == x * (a * p)
  {
  }

  function Shl(x: U8, i: nat): nat {
    x * Pow2(8 * i)
  }

  /** The first n bytes, each shifted to its place, OR-ed together. */
  function OrBytes(b: seq<U8>, n: nat): (v: nat)
    requires 1 <= n <= |b|
    ensures v == UnLE(b[..n])
  {
    if n == 1 then
      assert b[..1][1..] == [];
      b[0]
    else
      OrNextByte(b, n - 1);
      Or(OrBytes(b, n - 1), Shl(b[n - 1], n - 1))
  }

  function ReadU32(b: seq<U8>, p: nat): (v: U32)
    requires p + 4 <= |b|
    ensures v == UnLE(b[p..p + 4])
  {
    var w := b[p..p + 4];
    UnLE4(w);
    assert w[..4] == w;
    OrBytes(w, 4)
  }

  function ReadU64(b: seq<U8>, p: nat): (v: U64)
    requires p + 8 <= |b|
    ensures v == UnLE(b[p..p + 8])
  {
    var w := b[p..p + 8];
    UnLE8(w);
    assert w[..8] == w;
    OrBytes(w, 8)
  }

  // ----- 64-bit FNV-1a

  const FNV_OFFSET: U64 := 0xcbf2_9ce4_8422_2325
  const FNV_PRIME: U64 := 0x100_0000_01b3
  const FNV_PRIME_INVERSE: U64 := 0xce96_5057_aff6_957b

  function FnvStep(h: U64, x: U8): U64 {
    Mul64(Xor64(h, x), FNV_PRIME)
  }

  function Fnv(b: seq<U8>): U64 {
    if b == [] then FNV_OFFSET else FnvStep(Fnv(b[..|b| - 1]), b[|b| - 1])
  }

  method Fnv1a64(buf: array<U8>, len: nat) returns (h: U64)
    requires len <= buf.Length
    ensures h == Fnv(buf[..len])
  {
    hide FnvStep;
    h := FNV_OFFSET;
    var i := 0;
    while i < len
      invariant 0 <= i <= len && h == Fnv(buf[..i])
    {
      assert buf[..i + 1][..i] == buf[..i];
      h := FnvStep(h, buf[i]);
      i := i + 1;
    }
  }

  /** A step loses neither the state nor the byte. */
  lemma FnvStepInjective(h: U64, x: U8, h': U64, x': U8)
    requires FnvStep(h, x) == FnvStep(h', x')
    ensures x == x' ==> h == h'
    ensures h == h' ==> x == x'
  {
    hide Xor, Mul64;
    MulInverse(Xor64(h, x), FNV_PRIME, FNV_PRIME_INVERSE);
    MulInverse(Xor64(h', x'), FNV_PRIME, FNV_PRIME_INVERSE);
    XorCancel(h, x);
    XorCancel(h', x');
    XorComm(h, x);
    XorComm(h', x');
    XorCancel(x, h);
    XorCancel(x', h');
  }

  /** One changed byte changes the checksum: the difference survives every later step. */
  lemma {:induction false} FnvDetects(b: seq<U8>, i: nat, x: U8)
    requires i < |b| && x != b[i]
    ensures Fnv(b[i := x]) != Fnv(b)
    decreases |b|
  {
    hide FnvStep;
    var n := |b| - 1;
    var b' := b[i := x];
    if i == n {
      assert b'[..n] == b[..n];
    } else {
      assert b'[..n] == b[..n][i := x];
      FnvDetects(b[..n], i, x);
    }
    if Fnv(b') == Fnv(b) {
      FnvStepInjective(Fnv(b'[..n]), b'[n], Fnv(b[..n]), b[n]);
    }
  }
}
