/** Segment geometry: how a mixed hash picks one cell in each of three
    consecutive segments, and how two of them are recovered from the third. */
module Geometry {
  import opened Words

  /** The segment fields of a map, two of them redundant. */
  datatype Geometry = Geometry(segLen: U32, mask: U32, segCount: U32, scl: U32)

  /** The geometry describes exactly `cells` cells. */
  predicate ValidGeometry(g: Geometry, cells: nat) {
    && IsPow2(g.segLen)
    && g.mask == g.segLen - 1
    && g.segCount >= 1
    && g.scl == g.segCount * g.segLen
    && cells == (g.segCount + 2) * g.segLen
    && cells < TWO32
  }

  /** Bits 64 and up of hash * n, by 32-bit halves. Every intermediate word wraps at 64 bits. */
  function MulHigh32(hash: U64, n: U32): U32 {
    var hi := hash / TWO32;
    var lo := hash % TWO32;
    var prodHi := (hi * n) % TWO64;
    var prodLo := (lo * n) % TWO64;
    ((prodHi + prodLo / TWO32) % TWO64) / TWO32
  }

  /** The half-word product loses nothing. */
  lemma MulHighExact(hash: U64, n: U32)
    ensures MulHigh32(hash, n) == (hash * n) / TWO64
    ensures n > 0 ==> MulHigh32(hash, n) < n
  {
    var hi, lo := hash / TWO32, hash % TWO32;
    HalfBound(hi, n);
    HalfBound(lo, n);
    HalvesOfProduct(hash, hi, lo, n);
    HighOfSum(hi * n, lo * n);
    if n > 0 {
      HighBelow(hash, n);
    }
  }

  lemma HighBelow(hash: U64, n: U32)
    requires n > 0
    ensures (hash * n) / TWO64 < n
  {
    MulBelow(hash, TWO64, n);
    DivBelow(hash * n, n);
  }

  lemma HalfBound(h: U32, n: U32)
    ensures h * n <= 0xFFFF_FFFE_0000_0001
  {
    MulMono(h, TWO32 - 1, n, TWO32 - 1);
  }

  lemma HalvesOfProduct(hash: nat, hi: nat, lo: nat, n: nat)
    requires hash == hi * TWO32 + lo
    ensures hash * n == (hi * n) * TWO32 + lo * n
  {
  }

  lemma MulBelow(a: nat, b: nat, n: nat)
    requires a < b && n > 0
    ensures a * n < b * n
  {
  }

  lemma HighOfSum(a: nat, b: nat)
    requires a <= 0xFFFF_FFFE_0000_0001 && b <= 0xFFFF_FFFE_0000_0001
    ensures ((a % TWO64 + (b % TWO64) / TWO32) % TWO64) / TWO32 == (a * TWO32 + b) / TWO64
  {
  }

  lemma DivBelow(a: nat, n: nat)
    requires a < TWO64 * n
    ensures a / TWO64 < n
  {
  }

  /** Low bits of the hash that move the second and third position inside their segments. */
  function Offset1(hash: U64, mask: U32): U32 {
    And32(Shr(hash, 18) % TWO32, mask)
  }

  function Offset2(hash: U64, mask: U32): U32 {
    And32(hash % TWO32, mask)
  }

  /** The three positions of a mixed hash. */
  function GetH012(hash: U64, g: Geometry): (U32, U32, U32) {
    var h0 := MulHigh32(hash, g.scl);
    var h1 := (h0 + g.segLen) % TWO32;
    var h2 := (h1 + g.segLen) % TWO32;
    (h0, Xor32(h1, Offset1(hash, g.mask)), Xor32(h2, Offset2(hash, g.mask)))
  }

  function Position(hash: U64, g: Geometry, role: nat): U32
    requires role < 3
  {
    var (h0, h1, h2) := GetH012(hash, g);
    if role == 0 then h0 else if role == 1 then h1 else h2
  }

  /** Offset of a position inside its segment: the same start, moved by a role-dependent word. */
  function Move(hash: U64, g: Geometry, role: nat): U32
    requires role < 3
  {
    if role == 0 then 0 else if role == 1 then Offset1(hash, g.mask) else Offset2(hash, g.mask)
  }

  lemma MoveBound(hash: U64, g: Geometry, role: nat)
    requires IsPow2(g.segLen) && g.mask == g.segLen - 1 && role < 3
    ensures Move(hash, g, role) < g.segLen
  {
    hide And, Shr, Pow2;
    AndMask(Shr(hash, 18) % TWO32, Log2(g.segLen));
    AndMask(hash % TWO32, Log2(g.segLen));
  }

  /** Inside the array, adding segments and moving inside a segment do not interfere. */
  lemma MoveInSegment(q: nat, o: nat, m: nat, L: nat)
    requires IsPow2(L) && o < L && m < L && q * L + o < TWO32
    ensures (q + 1) * L <= TWO32 ==> Xor(q * L + o, m) == q * L + Xor(o, m) < TWO32
    ensures Xor(o, m) < L
  {
    XorBlock(q, o, m, Log2(L));
    assert (q + 1) * L == q * L + L;
  }

  /** The first position is in one of the first segCount segments. */
  lemma FirstSegment(hash: U64, g: Geometry, cells: nat)
    requires ValidGeometry(g, cells)
    ensures MulHigh32(hash, g.scl) / g.segLen < g.segCount
  {
    hide MulHigh32, IsPow2;
    MulAtLeast(g.segCount, g.segLen);
    MulHighExact(hash, g.scl);
    QuotientBelow(MulHigh32(hash, g.scl), g.segLen, g.segCount);
  }

  /** Segment number and offset of every position. */
  lemma PositionShape(hash: U64, g: Geometry, cells: nat, role: nat) returns (s: nat, o: nat)
    requires ValidGeometry(g, cells) && role < 3
    ensures o < g.segLen
    ensures s == MulHigh32(hash, g.scl) / g.segLen + role < g.segCount + role
    ensures o == Xor(MulHigh32(hash, g.scl) % g.segLen, Move(hash, g, role))
    ensures Position(hash, g, role) == s * g.segLen + o < cells
  {
    hide *;
    GeometryFacts(g, cells);
    FirstSegment(hash, g, cells);
    MoveBound(hash, g, role);
    s, o := MovedInto(MulHigh32(hash, g.scl), Move(hash, g, role), g.segLen, g.segCount, role);
    PositionMoves(hash, g, role);
  }

  lemma GeometryFacts(g: Geometry, cells: nat)
    requires ValidGeometry(g, cells)
    ensures IsPow2(g.segLen) && g.segLen >= 1 && g.mask == g.segLen - 1 && (g.segCount + 2) * g.segLen == cells < TWO32
  {
  }

  lemma PositionMoves(hash: U64, g: Geometry, role: nat)
    requires role < 3
    requires MulHigh32(hash, g.scl) + role * g.segLen < TWO32
    ensures Position(hash, g, role) == Xor(MulHigh32(hash, g.scl) + role * g.segLen, Move(hash, g, role))
  {
    hide MulHigh32, Xor, Offset1, Offset2;
    XorZero(MulHigh32(hash, g.scl));
    if role == 0 {
    } else if role == 1 {
    } else {
    }
  }

  lemma MovedInto(h: nat, m: nat, L: nat, count: nat, role: nat) returns (s: nat, o: nat)
    requires IsPow2(L) && m < L && role < 3 && h / L < count
    requires (count + 2) * L < TWO32
    ensures s == h / L + role && o == Xor(h % L, m) < L
    ensures h + role * L < TWO32
    ensures Xor(h + role * L, m) == s * L + o < (count + 2) * L
  {
    hide *;
    s, o := h / L + role, Xor(h % L, m);
    MovedAt(h, h / L, h % L, m, L, count, role);
  }

  lemma MovedAt(h: nat, q: nat, o: nat, m: nat, L: nat, count: nat, role: nat)
    requires IsPow2(L) && h == q * L + o && o < L && m < L && role < 3 && q < count
    requires (count + 2) * L < TWO32
    ensures h + role * L < TWO32
    ensures Xor(o, m) < L
    ensures Xor(h + role * L, m) == (q + role) * L + Xor(o, m) < (count + 2) * L
  {
    SegmentFits(q, o, L, count, role);
    MoveInSegment(q + role, o, m, L);
  }

  lemma SegmentFits(q: nat, o: nat, L: nat, count: nat, role: nat)
    requires q < count && o < L && role < 3
    ensures (q + role + 1) * L <= (count + 2) * L
    ensures (q + role) * L + L == (q + role + 1) * L
    ensures q * L + role * L == (q + role) * L
  {
    MulMono(q + role + 1, count + 2, L, L);
  }

  /** The three positions in plain arithmetic: the first is floor(hash * scl / 2^64), and the others
      are one and two segments on, moved inside their segment by the hash from bit 18 and from bit 0. */
  lemma PositionExact(hash: U64, g: Geometry, cells: nat, role: nat)
    requires ValidGeometry(g, cells) && role < 3
    ensures g.segLen >= 1
    ensures var L, first := g.segLen, (hash * g.segCount * g.segLen) / 0x1_0000_0000_0000_0000;
            Position(hash, g, role) ==
              (first / L + role) * L + if role == 0 then first % L
                                       else if role == 1 then Xor(first % L, (hash / 0x4_0000) % L)
                                       else Xor(first % L, hash % L)
  {
    hide MulHigh32, Position, Xor, IsPow2, Pow2, Offset1, Offset2, ValidGeometry;
    GeometryFacts(g, cells);
    var s, o := PositionShape(hash, g, cells, role);
    FirstExact(hash, g, cells);
    OffsetsExact(hash, g.segLen);
    XorZero(MulHigh32(hash, g.scl) % g.segLen);
  }

  lemma FirstExact(hash: U64, g: Geometry, cells: nat)
    requires ValidGeometry(g, cells)
    ensures MulHigh32(hash, g.scl) == (hash * g.segCount * g.segLen) / 0x1_0000_0000_0000_0000
  {
    hide MulHigh32, IsPow2;
    MulHighExact(hash, g.scl);
    assert hash * g.scl == hash * g.segCount * g.segLen;
  }

  lemma OffsetsExact(hash: U64, L: U32)
    requires IsPow2(L)
    ensures L >= 1 && Offset1(hash, L - 1) == (hash / 0x4_0000) % L && Offset2(hash, L - 1) == hash % L
  {
    hide And, IsPow2, Pow2;
    Pow2Positive(L);
    SmallPowers();
    var c := Pow2Ratio(L, TWO32) by { PowerSizes(); Pow2IsPow2(32); }
    AndMask(Shr(hash, 18) % TWO32, Log2(L));
    AndMask(hash % TWO32, Log2(L));
    ModOfMod(hash / 0x4_0000, c, L);
    ModOfMod(hash, c, L);
  }

  lemma ModOfMod(a: nat, c: nat, L: nat)
    requires L >= 1 && TWO32 == c * L
    ensures (a % TWO32) % L == a % L
  {
    var q, r := a / TWO32, a % TWO32;
    assert a == q * (c * L) + r;
    assert q * (c * L) == (q * c) * L;
    var q', r' := r / L, r % L;
    assert r == q' * L + r';
    assert a == (q * c + q') * L + r';
    DivUnique(a, L, q * c + q', r');
  }

  /** Position safety: below the cell count, pairwise distinct, in three consecutive segments. */
  lemma PositionSafety(hash: U64, g: Geometry, cells: nat)
    requires ValidGeometry(g, cells)
    ensures g.segLen >= 1
    ensures forall r | 0 <= r < 3 :: Position(hash, g, r) < cells
    ensures forall r | 0 <= r < 3 :: Position(hash, g, r) / g.segLen == MulHigh32(hash, g.scl) / g.segLen + r
    ensures forall r, s | 0 <= r < s < 3 :: Position(hash, g, r) != Position(hash, g, s)
  {
    hide MulHigh32, Position, Move, Xor, ValidGeometry;
    PositionSegment(hash, g, cells, 0);
    PositionSegment(hash, g, cells, 1);
    PositionSegment(hash, g, cells, 2);
  }

  lemma PositionSegment(hash: U64, g: Geometry, cells: nat, role: nat)
    requires ValidGeometry(g, cells) && role < 3
    ensures g.segLen >= 1
    ensures Position(hash, g, role) < cells
    ensures Position(hash, g, role) / g.segLen == MulHigh32(hash, g.scl) / g.segLen + role
  {
    hide *;
    var s, o := PositionShape(hash, g, cells, role);
    DivUnique(Position(hash, g, role), g.segLen, s, o);
  }

  // ----- how many cells a geometry needs

  /** Every position of every hash is below the slot count. */
  ghost predicate AllBelow(g: Geometry, slots: nat) {
    forall hash: U64, r: nat | r < 3 :: Position(hash, g, r) < slots
  }

  /** The fields agree with one another; nothing is said about the array. */
  predicate Coherent(g: Geometry) {
    && IsPow2(g.segLen) && g.mask == g.segLen - 1 && g.segCount >= 1
    && g.scl == (g.segCount * g.segLen) % TWO32
  }

  /** A hash whose first position is k, and whose low half moves nothing. */
  function StairWord(k: nat, scl: U32): (w: U64)
    requires k < scl
    ensures w % TWO32 == 0 && MulHigh32(w, scl) == k
  {
    StairStart(k, scl, (k * TWO32 + scl - 1) / scl, (k * TWO32 + scl - 1) % scl);
    (k * TWO32 + scl - 1) / scl * TWO32
  }

  lemma StairStart(k: nat, scl: U32, q: int, r: int)
    requires k < scl && q == (k * TWO32 + scl - 1) / scl && r == (k * TWO32 + scl - 1) % scl
    ensures 0 <= q < TWO32 && (q * TWO32) % TWO32 == 0
    ensures MulHigh32(q * TWO32, scl) == k
  {
    hide MulHigh32;
    var t := scl - 1 - r;
    assert q * scl == k * TWO32 + t;
    StairQuotient(k, scl, q, t);
    MulHighExact(q * TWO32, scl);
    assert q * TWO32 * scl == q * scl * TWO32 == k * TWO64 + t * TWO32;
    DivUnique(q * TWO32 * scl, TWO64, k, t * TWO32);
    DivUnique(q * TWO32, TWO32, q, 0);
  }

  lemma StairQuotient(k: nat, scl: U32, q: int, t: nat)
    requires k < scl && t < scl && q * scl == k * TWO32 + t
    ensures 0 <= q < TWO32
  {
    MulMono(k + 1, scl, TWO32, TWO32);
    if q < 0 {
      MulAtLeast(-q, scl);
    } else if q >= TWO32 {
      MulMono(TWO32, q, scl, scl);
    }
  }

  /** The first and third position of such a hash. */
  lemma StairCells(k: nat, g: Geometry)
    requires k < g.scl
    ensures Position(StairWord(k, g.scl), g, 0) == k
    ensures k + 2 * g.segLen < TWO32 ==> Position(StairWord(k, g.scl), g, 2) == k + 2 * g.segLen
  {
    hide MulHigh32, StairWord, Xor, Position, And;
    var w := StairWord(k, g.scl);
    PositionMoves(w, g, 0);
    XorZero(k);
    if k + 2 * g.segLen < TWO32 {
      PositionMoves(w, g, 2);
      AndNone(g.mask);
      AndComm(0, g.mask);
      XorZero(k + 2 * g.segLen);
    }
  }

  /** Segments in reach of the first position: at least one. */
  function Reach(g: Geometry): nat
    requires Coherent(g)
  {
    Pow2Positive(g.segLen);
    if g.scl == 0 then 1 else g.scl / g.segLen
  }

  lemma Pow2Positive(n: nat)
    requires IsPow2(n)
    ensures n >= 1
  {
  }

  /** 2^32 is a whole number of segments, and so is the wrapped product. */
  lemma SegmentCounts(g: Geometry) returns (c: nat, m: nat)
    requires Coherent(g)
    ensures g.segLen >= 1 && TWO32 == c * g.segLen && m < c
    ensures g.scl == m * g.segLen && Reach(g) == if m == 0 then 1 else m
    ensures c >= 2
  {
    hide IsPow2;
    var L := g.segLen;
    Pow2Positive(L);
    c := Pow2Ratio(L, TWO32) by { PowerSizes(); Pow2IsPow2(32); }
    if c < 2 {
      MulMono(c, 1, L, L);
    }
    m := g.segCount % c;
    WrappedProduct(g.segCount, c, L);
    DivUnique(m * L, L, m, 0);
    if m > 0 {
      MulMono(1, m, L, L);
    }
  }

  /** Products with a divisor of 2^32 wrap in whole multiples of it. */
  lemma WrappedProduct(n: nat, c: nat, L: nat)
    requires TWO32 == c * L && c >= 1 && L >= 1
    ensures (n * L) % TWO32 == (n % c) * L
  {
    var d, m := n / c, n % c;
    assert n * L == d * TWO32 + m * L by {
      assert n == d * c + m;
      assert d * c * L == d * (c * L);
    }
    MulMono(m + 1, c, L, L);
    assert (m + 1) * L == m * L + L;
    DivUnique(n * L, TWO32, d, m * L);
  }

  /** With one power of two dividing another, the ratio is a power of two again. */
  lemma Pow2Ratio(a: nat, b: nat) returns (c: nat)
    requires IsPow2(a) && IsPow2(b) && a <= b
    ensures b == c * a && IsPow2(c)
  {
    hide IsPow2, Pow2;
    var j, k := Log2(a), Log2(b);
    if k < j {
      Pow2Grows(k, j);
    } else {
      Pow2Add(k - j, j);
      Pow2IsPow2(k - j);
      c := Pow2(k - j);
    }
  }

  lemma Pow2Grows(j: nat, k: nat)
    requires j < k
    ensures Pow2(j) < Pow2(k)
  {
    Pow2Mono(j, k - 1);
  }

  /** Without wraparound every segment but the last two is in reach. */
  lemma ReachUnwrapped(g: Geometry)
    requires Coherent(g) && (g.segCount + 2) * g.segLen <= TWO32
    ensures Reach(g) == g.segCount
  {
    Pow2Positive(g.segLen);
    MulMono(1, g.segCount, g.segLen, g.segLen);
    assert (g.segCount + 2) * g.segLen == g.segCount * g.segLen + 2 * g.segLen;
    DivUnique(g.segCount * g.segLen, g.segLen, g.segCount, 0);
  }

  /** No position is past the segments in reach and two more. */
  lemma ReachBounds(g: Geometry, hash: U64, role: nat)
    requires Coherent(g) && (Reach(g) + 2) * g.segLen < TWO32 && role < 3
    ensures Position(hash, g, role) < (Reach(g) + 2) * g.segLen
  {
    hide MulHigh32, Xor, Position, IsPow2, Offset1, Offset2, Pow2;
    var c, m := SegmentCounts(g);
    var h, n := MulHigh32(hash, g.scl), Reach(g);
    assert h / g.segLen < n by {
      MulHighExact(hash, g.scl);
      if m == 0 {
        NothingAbove(hash);
        DivUnique(0, g.segLen, 0, 0);
      } else {
        QuotientBelow(h, g.segLen, m);
      }
    }
    MoveBound(hash, g, role);
    var s, o := MovedInto(h, Move(hash, g, role), g.segLen, n, role);
    PositionMoves(hash, g, role);
  }

  lemma NothingAbove(hash: U64)
    ensures MulHigh32(hash, 0) == 0
  {
  }

  /** Some hash reaches the last of those cells or, where they would exceed 32 bits, cell 2^32 - 1. */
  lemma ReachAttained(g: Geometry) returns (hash: U64, role: nat)
    requires Coherent(g)
    ensures role < 3
    ensures Position(hash, g, role) == if (Reach(g) + 2) * g.segLen <= TWO32 then (Reach(g) + 2) * g.segLen - 1
                                       else TWO32 - 1
  {
    hide MulHigh32, Xor, Position, IsPow2, And, StairWord, Pow2, Shr;
    var L := g.segLen;
    var c, m := SegmentCounts(g);
    if m == 0 && 3 * L <= TWO32 {
      hash, role := L - 1, 2;
      ZeroStart(g, hash);
    } else if (m == 0 || m == 1) && 3 * L > TWO32 {
      assert L == 0x8000_0000 by { HalfRange(c, L); }
      hash, role := if m == 0 then 0x0001_FFFF_FFFC_0000 else 0x8000_FFFE_0000_0000, 1;
      HalfRangeTop(g, hash);
    } else if (m + 2) * L <= TWO32 {
      assert (m + 2) * L == m * L + 2 * L;
      hash, role := StairWord(g.scl - 1, g.scl), 2;
      StairCells(g.scl - 1, g);
    } else {
      OneSegmentShort(c, m, L);
      hash, role := StairWord(g.scl - L - 1, g.scl), 2;
      StairCells(g.scl - L - 1, g);
    }
  }

  lemma HalfRange(c: nat, L: nat)
    requires TWO32 == c * L && c >= 2 && 3 * L > TWO32
    ensures L == 0x8000_0000
  {
    if c >= 3 {
      MulMono(3, c, L, L);
    }
  }

  lemma OneSegmentShort(c: nat, m: nat, L: nat)
    requires TWO32 == c * L && 2 <= m < c && (m + 2) * L > TWO32
    ensures m * L + L == TWO32 && m * L >= L + 1
  {
    if m + 1 < c {
      MulMono(m + 2, c, L, L);
    }
    assert (m + 1) * L == m * L + L;
    MulMono(2, m, L, L);
  }

  /** With a wrapped product of zero every hash starts at cell 0. */
  lemma ZeroStart(g: Geometry, hash: U64)
    requires Coherent(g) && g.scl == 0 && hash == g.segLen - 1 && 3 * g.segLen <= TWO32
    ensures Position(hash, g, 2) == 3 * g.segLen - 1
  {
    hide MulHigh32, Xor, Position, Offset2, IsPow2, Pow2;
    NothingAbove(hash);
    PositionMoves(hash, g, 2);
    MaskStays(g.mask);
    XorBlock(2, 0, hash, Log2(g.segLen));
    XorZero(hash);
  }

  lemma MaskStays(mask: U32)
    ensures Offset2(mask, mask) == mask
  {
    hide And;
    AndSelf(mask);
  }

  /** Two segments of half the range: these hashes reach the very last cell. */
  lemma HalfRangeTop(g: Geometry, hash: U64)
    requires g.segLen == 0x8000_0000 && g.mask == 0x7FFF_FFFF
    requires (g.scl == 0 && hash == 0x0001_FFFF_FFFC_0000) || (g.scl == 0x8000_0000 && hash == 0x8000_FFFE_0000_0000)
    ensures Position(hash, g, 1) == TWO32 - 1
  {
    hide MulHigh32, Xor, Position, And, Pow2;
    var h := if g.scl == 0 then 0 else 0x4000_7FFF;
    var o := if g.scl == 0 then 0x7FFF_FFFF else 0x3FFF_8000;
    MulHighExact(hash, g.scl);
    assert MulHigh32(hash, g.scl) == h by { if g.scl == 0 { NothingAbove(hash); } }
    HalfOffset(hash, o);
    PositionMoves(hash, g, 1);
    HalfXor(h, o);
  }

  lemma HalfOffset(hash: U64, o: nat)
    requires (hash == 0x0001_FFFF_FFFC_0000 && o == 0x7FFF_FFFF) || (hash == 0x8000_FFFE_0000_0000 && o == 0x3FFF_8000)
    ensures Offset1(hash, 0x7FFF_FFFF) == o
  {
    hide And, Pow2;
    SmallPowers();
    var y := if o == 0x7FFF_FFFF then o else 0x2000_3FFF_8000;
    DivUnique(hash, 0x4_0000, y, 0);
    DivUnique(y, TWO32, y / TWO32, o);
    AndMask(o, 31);
    DivUnique(o, 0x8000_0000, 0, o);
  }

  lemma SmallPowers()
    ensures Pow2(14) == 0x4000 && Pow2(18) == 0x4_0000 && Pow2(31) == 0x8000_0000
  {
    assert Pow2(4) == 16 && Pow2(9) == 512 && Pow2(14) == 0x4000 && Pow2(15) == 0x8000;
    Pow2Add(9, 9);
    Pow2Add(15, 15);
    assert Pow2(31) == 2 * Pow2(30);
  }

  lemma HalfXor(h: nat, o: nat)
    requires (h == 0 && o == 0x7FFF_FFFF) || (h == 0x4000_7FFF && o == 0x3FFF_8000)
    ensures Xor(h + 0x8000_0000, o) == TWO32 - 1
  {
    hide Xor;
    assert Pow2(15) == 0x8000 && Pow2(16) == 0x1_0000;
    Pow2Add(16, 15);
    XorBlock(1, h, o, 31);
    if h == 0 {
      XorZero(o);
    } else {
      HalfXorParts();
    }
  }

  lemma HalfXorParts()
    ensures Xor(0x4000_7FFF, 0x3FFF_8000) == 0x7FFF_FFFF
  {
    hide Xor;
    assert Pow2(15) == 0x8000;
    Pow2Add(15, 15);
    XorZero(0x7FFF);
    XorZero(0x3FFF_8000);
    XorBlock(1, 0, 0x7FFF, 30);
    XorBlock(1, 0, 0x3FFF_8000, 30);
    XorSwap(0x4000_0000, 0x7FFF, 0x3FFF_8000);
    XorBlock(0xFFFF, 0, 0x7FFF, 15);
  }

  /** Exactly the slot counts that hold the segments in reach and two more keep every position
      of every hash below them, also where the 32-bit sums wrap. */
  lemma CellsNeeded(g: Geometry, slots: nat)
    requires Coherent(g) && slots < TWO32
    ensures AllBelow(g, slots) <==> (Reach(g) + 2) * g.segLen <= slots
  {
    hide Position, IsPow2, Reach;
    var hash, role := ReachAttained(g);
    if (Reach(g) + 2) * g.segLen <= slots {
      forall hash: U64, r: nat | r < 3
        ensures Position(hash, g, r) < slots
      {
        ReachBounds(g, hash, r);
      }
    }
  }

  // ----- recovering two positions from the third

  /** The other two cells of a peeled hash, with the roles it has there. */
  datatype Neighbours = Neighbours(other1: U32, role1: U8, other2: U32, role2: U8)

  /** All ones when the bit is set, zero otherwise. */
  function MaskOf(bit: nat): U32
    requires bit < 2
  {
    Neg32(bit)
  }

  /** What added to a position reaches the next segment or, for the last role, the one two before. */
  function Stride(segLen: U32, mask: U32): U32 {
    Xor32(segLen, And32(Xor32(segLen, Neg32((2 * segLen) % TWO32)), mask))
  }

  /** A stride forward or back on wrapping 32-bit words, then two words XORed in. */
  function Ahead(idx: U32, stride: U32, a: U32, b: U32): U32 {
    Xor32((idx + stride) % TWO32, Xor32(a, b))
  }

  function Behind(idx: U32, stride: U32, a: U32, b: U32): U32 {
    Xor32((idx + TWO32 - stride) % TWO32, Xor32(a, b))
  }

  /** Branch-free: masks select the strides and the words to XOR. */
  function Recover(idx: U32, hash: U64, found: U8, g: Geometry): Neighbours
    requires found < 4
  {
    var h01 := Offset1(hash, g.mask);
    var h02 := Offset2(hash, g.mask);
    var is0 := MaskOf(((found + 0xFF) % TWO8) / 128);
    var is1 := MaskOf(found % 2);
    var is2 := MaskOf(found / 2);
    var other1 := Ahead(idx, Stride(g.segLen, is2), And32(h01, Not32(is2)), And32(h02, Not32(is0)));
    var other2 := Behind(idx, Stride(g.segLen, is0), And32(h01, Not32(is0)), And32(h02, Not32(is1)));
    OrBits(is0, is1);
    OrBits(is2, is0);
    Neighbours(other1, Or(And(is0, 1), And(is1, 2)), other2, Or(And(is0, 2), And(is2, 1)))
  }

  lemma OrBits(a: nat, b: nat)
    ensures Or(And(a, 1), And(b, 2)) < 4 && Or(And(b, 2), And(a, 1)) < 4
  {
    AndComm(a, 1);
    AndComm(b, 2);
    AndLe(1, a);
    AndLe(2, b);
  }

  /** From the cell of any role, the recovered pair is exactly the other two positions and roles. */
  lemma RecoverExact(hash: U64, found: U8, g: Geometry, cells: nat)
    requires ValidGeometry(g, cells) && found < 3
    ensures Recover(Position(hash, g, found), hash, found, g)
         == Neighbours(Position(hash, g, (found + 1) % 3), (found + 1) % 3,
                       Position(hash, g, (found + 2) % 3), (found + 2) % 3)
  {
    hide MulHigh32, Position, Xor, And, Or, ValidGeometry, IsPow2, Offset1, Offset2, Stride, Ahead, Behind;
    PlainPositions(hash, g, cells);
    Strides(g.segLen);
    AndOnes32(Offset1(hash, g.mask));
    AndOnes32(Offset2(hash, g.mask));
    RecoveredRoles();
    var h, m1, m2 := MulHigh32(hash, g.scl), Offset1(hash, g.mask), Offset2(hash, g.mask);
    if found == 0 {
      Recovered0(h, m1, m2, g.segLen);
    } else if found == 1 {
      Recovered1(h, m1, m2, g.segLen);
    } else {
      Recovered2(h, m1, m2, g.segLen);
    }
  }

  lemma RecoveredRoles()
    ensures Or(And(0xFFFF_FFFF, 1), And(0, 2)) == 1 && Or(And(0xFFFF_FFFF, 2), And(0, 1)) == 2
    ensures Or(And(0, 1), And(0xFFFF_FFFF, 2)) == 2 && Or(And(0, 2), And(0, 1)) == 0
    ensures Or(And(0, 1), And(0, 2)) == 0 && Or(And(0, 2), And(0xFFFF_FFFF, 1)) == 1
  {
  }

  lemma Recovered0(h: U32, m1: U32, m2: U32, L: U32)
    requires h + 2 * L < TWO32 && 0 < L
    ensures Ahead(h, L, m1, 0) == Xor(h + L, m1)
    ensures Behind(h, TWO32 - 2 * L, 0, m2) == Xor(h + 2 * L, m2)
  {
    hide Xor;
    XorZero(m1);
    XorZero(m2);
  }

  lemma Recovered1(h: U32, m1: U32, m2: U32, L: U32)
    requires IsPow2(L) && m1 < L && m2 < L && h + 2 * L < TWO32
    requires Xor(h + L, m1) < TWO32 && Xor(h + 2 * L, m1) < TWO32
    ensures Ahead(Xor(h + L, m1), L, m1, m2) == Xor(h + 2 * L, m2)
    ensures Behind(Xor(h + L, m1), L, m1, 0) == h
  {
    hide Xor, IsPow2;
    Hop(h, m1, L);
    Hop(h + L, m1, L);
    XorReplace(h + 2 * L, m1, m2);
    XorZero(m1);
    XorCancel(h, m1);
  }

  lemma Recovered2(h: U32, m1: U32, m2: U32, L: U32)
    requires IsPow2(L) && m1 < L && m2 < L && h + 2 * L < TWO32
    requires Xor(h + 2 * L, m2) < TWO32
    ensures Ahead(Xor(h + 2 * L, m2), TWO32 - 2 * L, 0, m2) == h
    ensures Behind(Xor(h + 2 * L, m2), L, m1, m2) == Xor(h + L, m1)
  {
    hide Xor, IsPow2;
    Hop(h, m2, L);
    Hop(h + L, m2, L);
    XorReplace(h + L, m2, m1);
    XorComm(m1, m2);
    XorZero(m2);
    XorCancel(h, m2);
  }

  /** Without wraparound the positions are one start, one or two strides on, moved in their segment. */
  lemma PlainPositions(hash: U64, g: Geometry, cells: nat)
    requires ValidGeometry(g, cells)
    ensures var h := MulHigh32(hash, g.scl);
            && IsPow2(g.segLen)
            && Xor(h + 2 * g.segLen, Offset1(hash, g.mask)) < TWO32
            && h + 2 * g.segLen < TWO32 && 3 * g.segLen < TWO32
            && Offset1(hash, g.mask) < g.segLen && Offset2(hash, g.mask) < g.segLen
            && Position(hash, g, 0) == h
            && Position(hash, g, 1) == Xor(h + g.segLen, Offset1(hash, g.mask))
            && Position(hash, g, 2) == Xor(h + 2 * g.segLen, Offset2(hash, g.mask))
  {
    hide MulHigh32, Position, Xor, IsPow2, Offset1, Offset2;
    MoveBound(hash, g, 1);
    MoveBound(hash, g, 2);
    FirstSegment(hash, g, cells);
    var _, _ := MovedInto(MulHigh32(hash, g.scl), Move(hash, g, 1), g.segLen, g.segCount, 2);
    var _, _ := MovedInto(MulHigh32(hash, g.scl), Move(hash, g, 2), g.segLen, g.segCount, 2);
    MulMono(3, g.segCount + 2, g.segLen, g.segLen);
    PositionMoves(hash, g, 0);
    PositionMoves(hash, g, 1);
    PositionMoves(hash, g, 2);
    XorZero(MulHigh32(hash, g.scl));
  }

  lemma Strides(L: U32)
    requires 3 * L < TWO32
    ensures Stride(L, 0) == L
    ensures L > 0 ==> Stride(L, 0xFFFF_FFFF) == TWO32 - 2 * L
  {
    hide Xor, And;
    var d := Xor32(L, Neg32((2 * L) % TWO32));
    AndOnes32(d);
    XorZero(L);
    XorAssoc(L, L, Neg32((2 * L) % TWO32));
    XorSelf(L);
    XorZero(Neg32((2 * L) % TWO32));
  }

  /** Moving on by one segment commutes with moving inside it. */
  lemma Hop(x: nat, m: nat, L: nat)
    requires IsPow2(L) && m < L
    ensures Xor(x, m) + L == Xor(x + L, m)
  {
    hide Xor, IsPow2;
    HopAt(x, x / L, x % L, m, L);
  }

  lemma HopAt(x: nat, q: nat, o: nat, m: nat, L: nat)
    requires IsPow2(L) && m < L && x == q * L + o && o < L
    ensures Xor(x, m) + L == Xor(x + L, m)
  {
    hide Xor;
    assert (q + 1) * L == q * L + L;
    XorBlock(q, o, m, Log2(L));
    XorBlock(q + 1, o, m, Log2(L));
  }

  lemma XorReplace(x: nat, m: nat, m': nat)
    ensures Xor(Xor(x, m), Xor(m, m')) == Xor(x, m')
  {
    hide Xor;
    XorAssoc(Xor(x, m), m, m');
    XorCancel(x, m);
  }
}
