/** The duplicate alarm reads a wrapping counter: for every geometry there are 66
    distinct key hashes for which building reports a duplicate. */
module FalseAlarm {
  import opened ReturnCodes
  import opened Words
  import opened Mixing
  import opened Geometry
  import opened Hypergraph
  import opened Peeling
  import opened Counting
  import opened Scattering
  import opened Schemes
  import opened Attempts
  import opened Assigning
  import opened Inputs
  import opened MapModel
  import opened Maps

  /** Thirty consecutive pairs and two triples, each XORing to zero or one. */
  function Word(i: nat): U64
    requires i < 66
  {
    if i < 60 then i + 2 else [128, 256, 384, 512, 1024, 1536][i - 60]
  }

  function AlarmWords(): (w: seq<U64>)
    ensures |w| == 66 && forall i | 0 <= i < 66 :: w[i] == Word(i)
  {
    seq(66, i requires 0 <= i < 66 => Word(i))
  }

  lemma AlarmWordsDistinct()
    ensures Distinct(AlarmWords())
  {
    assert forall i, j | 0 <= i < j < 66 :: Word(i) < Word(j);
  }

  function XorAll(w: seq<U64>): U64 {
    if w == [] then 0 else Xor64(XorAll(w[..|w| - 1]), w[|w| - 1])
  }

  lemma {:induction false} XorAllConcat(s: seq<U64>, t: seq<U64>)
    ensures XorAll(s + t) == Xor64(XorAll(s), XorAll(t))
  {
    hide Xor;
    if t == [] {
      assert s + t == s;
      XorZero(XorAll(s));
    } else {
      var n := |t| - 1;
      XorAllConcat(s, t[..n]);
      assert (s + t)[..|s + t| - 1] == s + t[..n];
      XorAssoc(XorAll(s), XorAll(t[..n]), t[n]);
    }
  }

  lemma {:induction false} XorAllPermutation(s: seq<U64>, t: seq<U64>)
    requires multiset(s) == multiset(t)
    ensures XorAll(s) == XorAll(t)
    decreases |s|
  {
    hide Xor;
    assert |multiset(s)| == |s| && |multiset(t)| == |t|;
    if s != [] {
      var i := Matching(s, t);
      XorAllPermutation(s[..|s| - 1], t[..i] + t[i + 1..]);
      XorAllWithout(t, i);
    }
  }

  lemma XorAllWithout(t: seq<U64>, i: nat)
    requires i < |t|
    ensures XorAll(t) == Xor64(XorAll(t[..i] + t[i + 1..]), t[i])
  {
    hide Xor, XorAll;
    var s, x, u := t[..i], t[i], t[i + 1..];
    assert t == s + [x] + u;
    XorAllConcat(s + [x], u);
    XorAllSnoc(s, x);
    XorAllConcat(s, u);
    XorSwap(XorAll(s), x, XorAll(u));
  }

  lemma XorAllSnoc(s: seq<U64>, x: U64)
    ensures XorAll(s + [x]) == Xor64(XorAll(s), x)
  {
    hide Xor;
    assert (s + [x])[..|s|] == s;
  }

  lemma PairXor(x: nat, k: nat)
    ensures Xor(Xor(x, 2 * k), 2 * k + 1) == Xor(x, 1)
  {
    hide Xor;
    XorAssoc(x, 2 * k, 2 * k + 1);
    EvenOdd(k);
  }

  lemma EvenOdd(k: nat)
    ensures Xor(2 * k, 2 * k + 1) == 1
  {
    hide Xor;
    XorHalf(2 * k, 2 * k + 1);
    assert (2 * k + 1) / 2 == k;
    XorSelf(k);
  }

  lemma {:induction false} PairsXor(j: nat)
    requires j <= 30
    ensures XorAll(AlarmWords()[..2 * j]) == j % 2
    decreases j
  {
    hide Xor;
    if j > 0 {
      PairsXor(j - 1);
      var w := AlarmWords();
      assert w[..2 * j][..2 * j - 1] == w[..2 * j - 1] && w[..2 * j - 1][..2 * j - 2] == w[..2 * (j - 1)];
      assert w[2 * j - 2] == 2 * j && w[2 * j - 1] == 2 * j + 1;
      PairXor((j - 1) % 2, j);
      XorZero(1);
      XorSelf(1);
    }
  }

  lemma TripleXor(a: nat, b: nat)
    requires Xor(a, b) == a + b
    ensures Xor(Xor(Xor(0, a), b), a + b) == 0
  {
    hide Xor;
    XorZero(a);
    XorSelf(a + b);
  }

  lemma TripleWords()
    ensures Xor(128, 256) == 384 && Xor(512, 1024) == 1536
  {
    hide Xor;
    assert Pow2(7) == 128 && Pow2(8) == 256;
    assert Pow2(9) == 2 * Pow2(8) && Pow2(10) == 2 * Pow2(9);
    NextPower(7);
    NextPower(9);
  }

  lemma NextPower(k: nat)
    ensures Xor(Pow2(k), Pow2(k + 1)) == Pow2(k) + Pow2(k + 1)
  {
    hide Xor;
    XorBlock(1, 0, Pow2(k), k + 1);
    XorZero(Pow2(k));
    XorComm(Pow2(k), Pow2(k + 1));
  }

  lemma AlarmXor()
    ensures XorAll(AlarmWords()) == 0
  {
    hide Xor;
    PairsXor(30);
    var w := AlarmWords();
    TripleWords();
    TripleXor(128, 256);
    TripleXor(512, 1024);
    LastSix(w);
  }

  lemma LastSix(w: seq<U64>)
    requires |w| == 66
    ensures XorAll(w) == Xor(Xor(Xor(Xor(Xor(Xor(XorAll(w[..60]), w[60]), w[61]), w[62]), w[63]), w[64]), w[65])
  {
    hide Xor;
    assert w[..66] == w;
    forall n | 60 <= n < 66
      ensures XorAll(w[..n + 1]) == Xor(XorAll(w[..n]), w[n])
    {
      assert w[..n + 1][..n] == w[..n];
    }
  }

  /** Words below 2^32 all start at cell 0. */
  lemma SmallWord(g: Geometry, cells: nat, w: U64)
    requires ValidGeometry(g, cells) && w < TWO32
    ensures EdgeOf(g, w).cell0 == 0
  {
    MulHighExact(w, g.scl);
    SmallProduct(w, g.scl);
  }

  lemma SmallProduct(w: nat, n: nat)
    requires w < TWO32 && n < TWO32
    ensures (w * n) / TWO64 == 0
  {
    MulMono(w, TWO32 - 1, n, TWO32 - 1);
  }

  /** A placement that starts every small word at cell 0. */
  ghost predicate StartsSmallAtZero(f: U64 -> Edge) {
    forall w: U64 | w < TWO32 :: f(w).cell0 == 0
  }

  /** Cell 0 over small words: everything in role 0. */
  lemma {:induction false} SmallTally(f: U64 -> Edge, cells: nat, words: seq<U64>, n: nat)
    requires Hashing(f, cells) && StartsSmallAtZero(f)
    requires n <= |words| && forall w <- words :: w < TWO32
    ensures Tallied(EdgesOf(f, words), 0, n) == Tally(n, 0, XorAll(words[..n]))
  {
    hide Tallied, Xor;
    var E := EdgesOf(f, words);
    if n == 0 {
      TalliedNone(E, 0);
    } else {
      SmallTally(f, cells, words, n - 1);
      TalliedStep(E, 0, n - 1);
      assert words[n - 1] in words;
      assert words[..n][..n - 1] == words[..n - 1];
      XorZero(0);
    }
  }

  /** However the scatter orders them, the last of the 66 words raises the alarm. */
  lemma AlarmRaised(f: U64 -> Edge, cells: nat, words: seq<U64>)
    requires Hashing(f, cells) && StartsSmallAtZero(f) && multiset(words) == multiset(AlarmWords())
    ensures |words| == 66 && DuplicateAt(EdgesOf(f, words), 65)
    ensures AttemptOn(f, cells, words) == Duplicate
  {
    hide Tallied, Final, StartState, XorAll;
    assert |multiset(words)| == |words| && |multiset(AlarmWords())| == 66;
    forall w | w in words
      ensures w < TWO32
    {
      assert w in multiset(AlarmWords());
      assert w in AlarmWords();
    }
    SmallTally(f, cells, words, 66);
    assert words[..66] == words;
    XorAllPermutation(words, AlarmWords());
    AlarmXor();
    assert words[65] in words;
    assert LooksDoubled(Tally(66, 0, 0));
  }

  /** The key hashes that the first seed mixes to those words. */
  function AlarmHashes(): (hashed: seq<U64>)
    ensures |hashed| == 66
  {
    Unmixed(AlarmWords(), SeedAt(0))
  }

  /** For every geometry these 66 distinct key hashes are rejected as duplicates. */
  lemma DistinctRejected(S: Scheme, g: Geometry, cells: nat)
    requires Lawful(S) && Computed(S) && ValidGeometry(g, cells) && g.segLen >= 4
    ensures Distinct(AlarmHashes()) && PeelFrom(S, AlarmHashes(), g, cells, 0) == DuplicateKey
  {
    hide ValidGeometry, AttemptOn, Lawful, Computed, Scattered, Swing, AlarmHashes;
    AlarmPreimages(S);
    AlarmWordsDistinct();
    MixedDistinct(S, AlarmHashes(), S.seeds(0));
    GeometryAtExact(g, cells, 66, 0);
    var g0 := GeometryAt(g, 66, 0);
    LawfulEdges(S, g0, cells);
    SmallStarts(S, g0, cells);
    ScatterPermutes(AlarmWords(), BlockBits(g0.segCount));
    AlarmRaised(S.edges(g0), cells, Scattered(AlarmWords(), BlockBits(g0.segCount)));
    PeelFromStep(S, AlarmHashes(), g, cells, 0);
  }

  lemma AlarmPreimages(S: Scheme)
    requires Computed(S)
    ensures Mixed(S, AlarmHashes(), S.seeds(0)) == AlarmWords()
  {
    hide Computed, SeedAt, Unmixed, AlarmWords;
    SeedIs(S, 0);
    MixedBack(S, AlarmWords(), S.seeds(0));
  }

  /** Whatever the values, the sizing and the sorting, every constructor reports a duplicate for
      keys that hash to these 66 distinct words. */
  lemma ConstructorRejects(x: Input)
    requires BuildInput(x) && KnownHash(x.hash) && Hashed(x) == AlarmHashes()
    ensures Distinct(Hashed(x)) && BuildCode(x) == FCM_E_DUPLICATE_KEY
  {
    hide Lawful, Computed, ValidGeometry, PeelFrom, InitialGeometry, InitialCells, AlarmHashes, IsSorter;
    assert |x.keys| == |Hashed(x)| == |AlarmHashes()| == 66;
    InitialGeometryValid(66, x.z);
    DistinctRejected(x.S, InitialGeometry(66, x.z), CellsFor(x));
  }

  /** There are such inputs, with 66 distinct keys. */
  lemma RejectedInput(sort: seq<Pair> -> seq<Pair>, z: Sizing, values: seq<U64>) returns (x: Input)
    requires IsSorter(sort) && SizingOk(z) && |values| == 66
    ensures BuildInput(x) && x.S == Fcm() && x.sort == sort && x.z == z && x.values == values
    ensures forall i, j | 0 <= i < j < |x.keys| :: x.keys[i] != x.keys[j]
    ensures BuildCode(x) == FCM_E_DUPLICATE_KEY
  {
    hide Fcm, Lawful, Computed, AlarmHashes, IsSorter, BuildCode;
    x := InputFor(sort, z, values, AlarmHashes());
    ConstructorRejects(x);
  }

  lemma SmallStarts(S: Scheme, g: Geometry, cells: nat)
    requires Computed(S) && ValidGeometry(g, cells)
    ensures StartsSmallAtZero(S.edges(g))
  {
    hide EdgeOf, ValidGeometry, Computed;
    forall w: U64 | w < TWO32
      ensures S.edges(g)(w).cell0 == 0
    {
      EdgeIs(S, g, w);
      SmallWord(g, cells, w);
    }
  }
}
