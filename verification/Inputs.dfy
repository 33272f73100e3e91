/** Inputs there are: a sorting routine, keys for any key hashes wanted, and key
    hashes, as many as there are first positions, from which a map always builds. */
module Inputs {
  import opened ReturnCodes
  import opened Words
  import opened Mixing
  import opened Geometry
  import opened Hypergraph
  import opened Peeling
  import opened Counting
  import opened Schemes
  import opened Attempts
  import opened Construction
  import opened Assigning
  import opened MapModel
  import opened Maps
  import opened Bytes

  // ----- a sorting routine

  function Insert(x: Pair, p: seq<Pair>): seq<Pair> {
    if p == [] || x.hash <= p[0].hash then [x] + p else [p[0]] + Insert(x, p[1..])
  }

  function Sort(p: seq<Pair>): seq<Pair> {
    if p == [] then [] else Insert(p[0], Sort(p[1..]))
  }

  lemma {:induction false} InsertHolds(x: Pair, p: seq<Pair>)
    ensures multiset(Insert(x, p)) == multiset(p) + multiset{x}
  {
    if p != [] && p[0].hash < x.hash {
      InsertHolds(x, p[1..]);
      assert p == [p[0]] + p[1..];
    }
  }

  lemma {:induction false} InsertSorts(x: Pair, p: seq<Pair>)
    requires SortedPairs(p)
    ensures SortedPairs(Insert(x, p))
  {
    if p != [] && p[0].hash < x.hash {
      var rest := Insert(x, p[1..]);
      InsertSorts(x, p[1..]);
      InsertHolds(x, p[1..]);
      forall i | 0 <= i < |rest|
        ensures p[0].hash <= rest[i].hash
      {
        assert rest[i] in multiset(rest);
        assert rest[i] == x || rest[i] in p[1..];
      }
    }
  }

  lemma {:induction false} SortSorts(p: seq<Pair>)
    ensures SortedPairs(Sort(p)) && multiset(Sort(p)) == multiset(p)
  {
    hide Insert;
    if p != [] {
      SortSorts(p[1..]);
      InsertSorts(p[0], Sort(p[1..]));
      InsertHolds(p[0], Sort(p[1..]));
      assert p == [p[0]] + p[1..];
    }
  }

  lemma SorterExists()
    ensures IsSorter((p: seq<Pair>) => Sort(p))
  {
    hide Sort, SortedPairs;
    forall p: seq<Pair>
      ensures SortedPairs(Sort(p)) && multiset(Sort(p)) == multiset(p)
    {
      SortSorts(p);
    }
  }

  // ----- keys for given key hashes

  /** The key hashes that a seed mixes to the given words. */
  function Unmixed(words: seq<U64>, seed: U64): (hashed: seq<U64>)
    ensures |hashed| == |words| && forall i | 0 <= i < |words| :: hashed[i] == UnmixSplit(words[i], seed)
  {
    seq(|words|, i requires 0 <= i < |words| => UnmixSplit(words[i], seed))
  }

  lemma MixedBack(S: Scheme, words: seq<U64>, seed: U64)
    requires Computed(S)
    ensures Mixed(S, Unmixed(words, seed), seed) == words
  {
    hide Computed, MixSplit, UnmixSplit;
    forall i | 0 <= i < |words|
      ensures S.mix(Unmixed(words, seed)[i], seed) == words[i]
    {
      MixIs(S, Unmixed(words, seed)[i], seed);
      MixBijection(words[i], seed);
    }
  }

  /** Eight-byte keys, and a hash function that sends the i-th one to the i-th given hash. */
  lemma InputFor(sort: seq<Pair> -> seq<Pair>, z: Sizing, values: seq<U64>, hashed: seq<U64>) returns (x: Input)
    requires IsSorter(sort) && SizingOk(z) && |values| == |hashed| < TWO32 && |hashed| != INDEX_LIMIT
    ensures BuildInput(x) && x.S == Fcm() && x.sort == sort && x.z == z && x.values == values && x.hash == HASH_XXH64
    ensures Hashed(x) == hashed && forall i, j | 0 <= i < j < |x.keys| :: x.keys[i] != x.keys[j]
  {
    hide Fcm, Lawful, Computed, IsSorter, LE, UnLE;
    FcmLawful();
    FcmComputed();
    var h := (key: Key) => if UnLE(key) < |hashed| then hashed[UnLE(key)] else 0;
    var keys: seq<Key> := seq(|hashed|, i requires 0 <= i < |hashed| => LE(i, 8));
    x := Input(Fcm(), Hasher(h, h), sort, z, keys, values, HASH_XXH64);
    forall i | 0 <= i < |keys|
      ensures UnLE(keys[i]) == i && HashKey(x.H, x.hash, keys[i]) == hashed[i]
    {
      PowerSizes();
      UnLEofLE(i, 8);
    }
    forall i, j | 0 <= i < j < |keys|
      ensures keys[i] != keys[j]
    {
      assert UnLE(keys[i]) == i && UnLE(keys[j]) == j;
    }
  }

  // ----- key hashes that always build

  /** One word for every first position from 0 up. */
  function Stair(scl: U32, n: nat): (words: seq<U64>)
    requires n <= scl
    ensures |words| == n && forall k | 0 <= k < n :: words[k] == StairWord(k, scl)
  {
    seq(n, k requires 0 <= k < n => StairWord(k, scl))
  }

  /** Later words touch nothing below their own first cell's segment, but for that cell itself. */
  lemma StairEdge(g: Geometry, cells: nat, k: nat)
    requires ValidGeometry(g, cells) && k < g.scl
    ensures var e := EdgeOf(g, StairWord(k, g.scl));
            && e.cell0 == k && e.cell1 / g.segLen == k / g.segLen + 1 && e.cell2 / g.segLen == k / g.segLen + 2
            && e.cell2 == k + 2 * g.segLen
  {
    hide MulHigh32, StairWord, Position, IsPow2;
    var w := StairWord(k, g.scl);
    PositionSafety(w, g, cells);
    FirstSegment(w, g, cells);
    assert Position(w, g, 1) / g.segLen == MulHigh32(w, g.scl) / g.segLen + 1;
    assert Position(w, g, 2) / g.segLen == MulHigh32(w, g.scl) / g.segLen + 2;
    assert (g.segCount + 2) * g.segLen == g.segCount * g.segLen + 2 * g.segLen;
    StairCells(k, g);
  }

  /** Taken upwards, every word of the stair is alone in its first cell. */
  lemma StairPeels(f: U64 -> Edge, g: Geometry, cells: nat, n: nat)
    requires ValidGeometry(g, cells) && n <= g.scl && Gives(f, g)
    ensures Peelable(f, Stair(g.scl, n))
  {
    hide StairWord, ValidGeometry, EdgeOf;
    var words, roles := Stair(g.scl, n), seq(n, i => 0);
    forall j, k | 0 <= k < j < n
      ensures !Touches(EdgesOf(f, words)[j], k) && At(EdgesOf(f, words)[k], roles[k]) == k
    {
      StairEdge(g, cells, j);
      StairEdge(g, cells, k);
      SegmentsAscend(k, j, g.segLen) by { hide *; GeometryFacts(g, cells); }
    }
    assert PeelStack(f, words, roles);
  }

  lemma SegmentsAscend(k: nat, j: nat, L: nat)
    requires k <= j && L >= 1
    ensures k / L <= j / L
  {
    var q, r := j / L, j % L;
    assert j == q * L + r && (q + 1) * L == q * L + L;
    QuotientBelow(k, L, q + 1);
  }

  /** A cell is loaded no more than there are places its words can come from. */
  lemma {:induction false} LoadWithin(f: U64 -> Edge, words: seq<U64>, c: nat, places: set<int>)
    requires forall i | 0 <= i < |words| && Touches(f(words[i]), c) :: i in places
    ensures Load(f, words, c) <= |places|
  {
    if words != [] {
      var n := |words| - 1;
      if Touches(f(words[n]), c) {
        LoadWithin(f, words[..n], c, places - {n});
      } else {
        LoadWithin(f, words[..n], c, places);
      }
    }
  }

  /** The second position is moved by a multiple of 2^14. */
  lemma StairOffset(k: nat, scl: U32, L: U32) returns (t: nat)
    requires k < scl && IsPow2(L) && L <= MAX_SEGMENT
    ensures t < 16 && Offset1(StairWord(k, scl), L - 1) == 0x4000 * t
  {
    hide And, IsPow2, Pow2, StairWord;
    SmallPowers();
    var w := StairWord(k, scl);
    var q := w / TWO32;
    assert w == q * TWO32;
    DivUnique(w, 0x4_0000, q * 0x4000, 0);
    var a := q % 0x4_0000;
    DivUnique(q * 0x4000, TWO32, q / 0x4_0000, 0x4000 * a);
    AndMask(0x4000 * a, Log2(L));
    t := OffsetSteps(a, L);
  }

  lemma OffsetSteps(a: nat, L: nat) returns (t: nat)
    requires IsPow2(L) && L <= MAX_SEGMENT
    ensures L >= 1 && t < 16 && (0x4000 * a) % L == 0x4000 * t
  {
    hide IsPow2, Pow2;
    Pow2Positive(L);
    assert IsPow2(0x4000) by { SmallPowers(); Pow2IsPow2(14); }
    if L <= 0x4000 {
      var c := Pow2Ratio(L, 0x4000);
      t := 0;
      WholeOffset(a, c, L, 0x4000);
    } else {
      var c := Pow2Ratio(0x4000, L);
      t := a % c;
      CutOffset(a, c, L, 0x4000);
    }
  }

  lemma WholeOffset(a: nat, c: nat, L: nat, d: nat)
    requires L >= 1 && d == c * L
    ensures (d * a) % L == 0
  {
    assert (c * L) * a == (c * a) * L;
    DivUnique(d * a, L, c * a, 0);
  }

  lemma CutOffset(a: nat, c: nat, L: nat, d: nat)
    requires d >= 1 && c >= 1 && L == c * d >= 1
    ensures (d * a) % L == d * (a % c)
  {
    var q, t := a / c, a % c;
    assert a == q * c + t;
    assert d * (q * c + t) == q * (c * d) + d * t;
    MulMono(t + 1, c, d, d);
    assert (t + 1) * d == d * t + d;
    DivUnique(d * a, L, q, d * t);
  }

  /** Where a word touching cell c can start, if its second position is moved by one of n offsets. */
  function Starts(c: nat, L: nat, n: nat): (places: set<int>)
    ensures |places| <= n + 2
    ensures c in places && c - 2 * L in places && forall t | 0 <= t < n :: Xor(c, 0x4000 * t) - L in places
  {
    if n == 0 then {c, c - 2 * L} else Starts(c, L, n - 1) + {Xor(c, 0x4000 * (n - 1)) - L}
  }

  /** No cell is touched by more than 18 words of the stair. */
  lemma StairLoad(f: U64 -> Edge, g: Geometry, cells: nat, n: nat, c: nat)
    requires ValidGeometry(g, cells) && n <= g.scl && g.segLen <= MAX_SEGMENT && Gives(f, g)
    ensures Load(f, Stair(g.scl, n), c) <= 18
  {
    hide StairWord, ValidGeometry, EdgeOf, Load, Starts;
    forall k | 0 <= k < n && Touches(f(Stair(g.scl, n)[k]), c)
      ensures k in Starts(c, g.segLen, 16)
    {
      StairTouches(g, cells, k, c);
    }
    LoadWithin(f, Stair(g.scl, n), c, Starts(c, g.segLen, 16));
  }

  lemma StairTouches(g: Geometry, cells: nat, k: nat, c: nat)
    requires ValidGeometry(g, cells) && g.segLen <= MAX_SEGMENT && k < g.scl
    requires Touches(EdgeOf(g, StairWord(k, g.scl)), c)
    ensures k in Starts(c, g.segLen, 16)
  {
    hide MulHigh32, StairWord, Position, Xor, IsPow2, Offset1;
    var w := StairWord(k, g.scl);
    StairEdge(g, cells, k);
    PlainPositions(w, g, cells);
    var t := StairOffset(k, g.scl, g.segLen);
    XorCancel(k + g.segLen, 0x4000 * t);
  }

  lemma StairNotOverfull(f: U64 -> Edge, g: Geometry, cells: nat, n: nat)
    requires ValidGeometry(g, cells) && n <= g.scl && g.segLen <= MAX_SEGMENT && Gives(f, g)
    ensures !Overfull(f, Stair(g.scl, n))
  {
    hide ValidGeometry, Stair, Load, Gives;
    forall c: nat
      ensures Load(f, Stair(g.scl, n), c) < 64
    {
      StairLoad(f, g, cells, n, c);
    }
  }

  lemma StairDistinct(scl: U32, n: nat)
    requires n <= scl
    ensures Distinct(Stair(scl, n))
  {
    hide StairWord, MulHigh32;
    forall i, j | 0 <= i < j < n
      ensures Stair(scl, n)[i] != Stair(scl, n)[j]
    {
      assert MulHigh32(StairWord(i, scl), scl) == i && MulHigh32(StairWord(j, scl), scl) == j;
    }
  }

  /** As many distinct key hashes as there are first positions, all of which build at once. */
  lemma StairBuilds(S: Scheme, g: Geometry, cells: nat, n: nat)
    requires Lawful(S) && Computed(S) && ValidGeometry(g, cells) && 4 <= g.segLen <= MAX_SEGMENT && 1 <= n <= g.scl
    ensures var hashed := Unmixed(Stair(g.scl, n), S.seeds(0));
            Distinct(hashed) && PeelFrom(S, hashed, g, cells, 0).Built?
  {
    hide Lawful, Computed, ValidGeometry, PeelFrom, Stair, Unmixed, GeometryAt, Overfull, Peelable, Gives;
    var words := Stair(g.scl, n);
    var hashed := Unmixed(words, S.seeds(0));
    MixedBack(S, words, S.seeds(0));
    StairDistinct(g.scl, n);
    MixedDistinct(S, hashed, S.seeds(0));
    GeometryAtExact(g, cells, n, 0);
    assert EdgesAt(S, g, n, 0) == S.edges(g) && MixedAt(S, hashed, 0) == words;
    ComputedGives(S, g);
    StairPeels(S.edges(g), g, cells, n);
    StairNotOverfull(S.edges(g), g, cells, n);
    FirstAttemptBuilds(S, hashed, g, cells);
  }

  /** Distinct hashes that overfill no cell and can be peeled at the first attempt build. */
  lemma FirstAttemptBuilds(S: Scheme, hashed: seq<U64>, g: Geometry, cells: nat)
    requires LoopInput(S, hashed, g, cells) && Distinct(hashed)
    requires !Overfull(EdgesAt(S, g, |hashed|, 0), MixedAt(S, hashed, 0))
    requires Peelable(EdgesAt(S, g, |hashed|, 0), MixedAt(S, hashed, 0))
    ensures PeelFrom(S, hashed, g, cells, 0).Built?
  {
    hide Lawful, ValidGeometry, PeelFrom, EdgesAt, MixedAt, GeometryAt, Overfull, Peelable;
    hide Alarmed, Distinct, AlarmShows;
    GeometryAtExact(g, cells, |hashed|, 0);
    HopelessIs(S, hashed, g, 0);
    if Alarmed(S, hashed, g, 0) {
      var n := AlarmedShows(S, hashed, g, cells, 0);
      AlarmOverfills(S, hashed, g, 0, n);
    }
    assert Decisive(S, hashed, g, 0, 0);
    OutcomeExact(S, hashed, g, cells);
  }

  /** However many keys, up to the number of first positions: some input with that many builds. */
  lemma InputBuilds(sort: seq<Pair> -> seq<Pair>, z: Sizing, values: seq<U64>) returns (x: Input)
    requires IsSorter(sort) && SizingOk(z) && |values| != INDEX_LIMIT
    requires 1 <= |values| <= InitialGeometry(|values|, z).scl
    ensures BuildInput(x) && x.S == Fcm() && x.sort == sort && x.z == z && x.values == values && KnownHash(x.hash)
    ensures forall i, j | 0 <= i < j < |x.keys| :: x.keys[i] != x.keys[j]
    ensures BuildCode(x) == FCM_OK && Buildable(x)
  {
    hide Fcm, Lawful, Computed, IsSorter, IsPow2, PeelFrom, InitialGeometry, InitialCells;
    hide ValidGeometry, Stair, Unmixed;
    var g := InitialGeometry(|values|, z);
    FcmLawful();
    FcmComputed();
    InitialGeometryValid(|values|, z);
    InitialSegments(|values|, z);
    x := InputFor(sort, z, values, Unmixed(Stair(g.scl, |values|), Fcm().seeds(0)));
    StairBuilds(Fcm(), g, InitialCells(|values|, z), |values|);
  }

  lemma InitialSegments(size: nat, z: Sizing)
    requires SizingOk(z)
    ensures 4 <= InitialGeometry(size, z).segLen <= MAX_SEGMENT
  {
    hide IsPow2;
  }

  /** More keys than the assignment index can count do build, and then none of them answers. */
  lemma BuiltPastLimit() returns (x: Input)
    ensures BuildInput(x) && x.S == Fcm() && KnownHash(x.hash) && |x.keys| == INDEX_LIMIT + 1
    ensures BuildCode(x) == FCM_OK && Buildable(x)
    ensures forall i | 0 <= i < |x.keys| :: PlainReads(x.S, x.H, BuiltPlain(x), x.keys[i])
              && LookupPlain(x.S, x.H, BuiltPlain(x), x.keys[i]) != x.values[i]
  {
    hide IsSorter, Fcm, Lawful, Computed, PeelFrom, PlanFor, BuildCode, BuildInput, LookupPlain, PlainReads, BuiltPlain;
    SorterExists();
    var n: nat, z := INDEX_LIMIT + 1, Sizing(MAX_SEGMENT, 0x9000_0001);
    assert IsPow2(MAX_SEGMENT) by { SmallPowers(); Pow2IsPow2(18); }
    LargeSizing(n, z);
    x := InputBuilds((p: seq<Pair>) => Sort(p), z, seq(n, i => 1));
    forall i | 0 <= i < |x.keys|
      ensures PlainReads(x.S, x.H, BuiltPlain(x), x.keys[i])
      ensures LookupPlain(x.S, x.H, BuiltPlain(x), x.keys[i]) != x.values[i]
    {
      PastIndexLimit(x, x.keys[i]);
    }
  }

  lemma LargeSizing(n: nat, z: Sizing)
    requires n == INDEX_LIMIT + 1 && z == Sizing(MAX_SEGMENT, 0x9000_0001) && SizingOk(z)
    ensures n <= InitialGeometry(n, z).scl
  {
    hide IsPow2;
    DivUnique(0x9004_0000, TWO32, 0, 0x9004_0000);
    DivUnique(0x9004_0000, MAX_SEGMENT, 0x2401, 0);
  }
}
