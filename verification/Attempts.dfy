/** The retry loop as a function: which seed and geometry every attempt uses,
    and which attempt decides the outcome. */
module Attempts {
  import opened Words
  import opened Mixing
  import opened Geometry
  import opened Hypergraph
  import opened Peeling
  import opened Counting
  import opened Scattering
  import opened Schemes

  const MAX_ITERATIONS: nat := 100

  // ----- geometries

  /** The fields that follow from a segment length and a count, on wrapping 32-bit words. */
  function GeometryOf(L: U32, count: U32): Geometry {
    Geometry(L, (L + TWO32 - 1) % TWO32, count, (count * L) % TWO32)
  }

  /** Half the segment length, and the count that keeps the total. */
  function Halve(g: Geometry): Geometry {
    GeometryOf(g.segLen / 2, (2 * g.segCount + 2) % TWO32)
  }

  function Double(g: Geometry): Geometry {
    GeometryOf((2 * g.segLen) % TWO32, (g.segCount / 2 + TWO32 - 1) % TWO32)
  }

  /** What the start of an iteration does to the geometry the last one left. */
  function Swing(g: Geometry, size: nat, iteration: nat): Geometry {
    if !(4 < size < 1000000) then g
    else if iteration % 4 == 2 then Halve(g)
    else if iteration % 4 == 3 then Double(g)
    else g
  }

  function GeometryAt(g: Geometry, size: nat, j: nat): Geometry {
    Swing(if j == 0 then g else GeometryAt(g, size, j - 1), size, j)
  }

  /** The geometry attempt j starts from. */
  function GeometryBefore(g: Geometry, size: nat, j: nat): Geometry {
    if j == 0 then g else GeometryAt(g, size, j - 1)
  }

  lemma GeometryMoves(g: Geometry, size: nat, j: nat)
    ensures GeometryBefore(g, size, 0) == g
    ensures GeometryAt(g, size, j) == Swing(GeometryBefore(g, size, j), size, j) == GeometryBefore(g, size, j + 1)
  {
    hide Swing;
  }

  lemma HalveKeepsCells(g: Geometry, cells: nat)
    requires ValidGeometry(g, cells) && g.segLen >= 4
    ensures ValidGeometry(Halve(g), cells) && Halve(g).segLen >= 2
    ensures Double(Halve(g)) == g
  {
    hide GeometryOf, Halve, Double;
    var L, n := g.segLen / 2, g.segCount;
    assert g.segLen == 2 * L && IsPow2(L);
    HalfProducts(L, n, cells);
    HalveIs(g, L, n, cells - 2 * L);
    DoubleIs(Halve(g), L, n, cells - 4 * L);
  }

  lemma HalveIs(g: Geometry, L: U32, n: nat, product: nat)
    requires L == g.segLen / 2 >= 1 && n == g.segCount && 2 * n + 2 < TWO32
    requires product == (2 * n + 2) * L < TWO32
    ensures Halve(g) == Geometry(L, L - 1, 2 * n + 2, product)
  {
    hide GeometryOf;
    GeometryOfIs(L, 2 * n + 2, product);
  }

  lemma DoubleIs(h: Geometry, L: U32, n: U32, product: nat)
    requires h.segLen == L >= 1 && 2 * L < TWO32 && h.segCount == 2 * n + 2
    requires product == n * (2 * L) < TWO32
    ensures Double(h) == Geometry(2 * L, 2 * L - 1, n, product)
  {
    hide GeometryOf;
    DoubledCount(n);
    GeometryOfIs(2 * L, n, product);
  }

  lemma GeometryOfIs(L: U32, count: U32, product: nat)
    requires L >= 1 && product == count * L < TWO32
    ensures GeometryOf(L, count) == Geometry(L, L - 1, count, product)
  {
  }

  lemma DoubledCount(n: nat)
    requires n < TWO32
    ensures ((2 * n + 2) / 2 + TWO32 - 1) % TWO32 == n
  {
    assert (2 * n + 2) / 2 == n + 1;
  }

  lemma HalfProducts(L: nat, n: nat, cells: nat)
    requires L >= 2 && cells == (n + 2) * (2 * L) < TWO32
    ensures (2 * n + 2 + 2) * L == cells
    ensures (2 * n + 2) * L == cells - 2 * L && n * (2 * L) == cells - 4 * L
    ensures 2 * n + 2 < TWO32
  {
    assert (2 * n + 4) * L == cells;
    MulMono(2, L, 2 * n + 4, 2 * n + 4);
  }

  /** Every attempt uses the initial geometry or its half, over the same number of cells. */
  lemma {:induction false} GeometryAtExact(g: Geometry, cells: nat, size: nat, j: nat)
    requires ValidGeometry(g, cells) && g.segLen >= 4
    ensures GeometryAt(g, size, j) == if 4 < size < 1000000 && j % 4 == 2 then Halve(g) else g
    ensures ValidGeometry(GeometryAt(g, size, j), cells) && GeometryAt(g, size, j).segLen >= 2
  {
    hide ValidGeometry, Halve, Double;
    HalveKeepsCells(g, cells);
    if j > 0 {
      GeometryAtExact(g, cells, size, j - 1);
    }
  }

  /** Blocks of the scatter: the least power of two, at least two, not below the segment count. */
  function BlockBits(segCount: U32): (b: nat)
    ensures 1 <= b <= 32 && segCount <= Pow2(b) && (b > 1 ==> Pow2(b - 1) < segCount)
  {
    BlockBitsFrom(1, segCount)
  }

  function BlockBitsFrom(b: nat, segCount: U32): (r: nat)
    requires 1 <= b <= 32 && (b > 1 ==> Pow2(b - 1) < segCount)
    ensures b <= r <= 32 && segCount <= Pow2(r) && (r > 1 ==> Pow2(r - 1) < segCount)
    decreases 32 - b
  {
    if segCount <= Pow2(b) then b else BitsBelow(b, segCount); BlockBitsFrom(b + 1, segCount)
  }

  lemma BitsBelow(b: nat, segCount: U32)
    requires b <= 32 && Pow2(b) < segCount
    ensures b < 32
  {
    hide Pow2;
    PowerSizes();
  }

  // ----- attempts

  function Mixed(S: Scheme, hashed: seq<U64>, seed: U64): (r: seq<U64>)
    ensures |r| == |hashed| && forall i | 0 <= i < |r| :: r[i] == S.mix(hashed[i], seed)
  {
    seq(|hashed|, i requires 0 <= i < |hashed| => S.mix(hashed[i], seed))
  }

  /** The words attempt j places, and the cells it gives them. */
  function MixedAt(S: Scheme, hashed: seq<U64>, j: nat): seq<U64> {
    Mixed(S, hashed, S.seeds(j))
  }

  function EdgesAt(S: Scheme, g: Geometry, size: nat, j: nat): U64 -> Edge {
    S.edges(GeometryAt(g, size, j))
  }

  /** Every attempt has a seed of its own, under which every key hash gets another word. */
  lemma RetriesReseed(S: Scheme, i: nat, j: nat, key: U64)
    requires Computed(S) && i < j <= MAX_ITERATIONS
    ensures S.seeds(i) != S.seeds(j) && S.mix(key, S.seeds(i)) != S.mix(key, S.seeds(j))
  {
    hide Computed, SeedAt, MixSplit;
    SeedIs(S, i);
    SeedIs(S, j);
    SeedsDiffer(i, j);
    MixIs(S, key, S.seeds(i));
    MixIs(S, key, S.seeds(j));
    SeedsRemix(key, S.seeds(i), S.seeds(j));
  }

  /** One attempt with a given seed and geometry. */
  ghost function AttemptAt(S: Scheme, hashed: seq<U64>, g: Geometry, cells: nat, seed: U64): Attempt
    requires Lawful(S) && ValidGeometry(g, cells) && |hashed| >= 1
  {
    AttemptOn(S.edges(g), cells, Scattered(Mixed(S, hashed, seed), BlockBits(g.segCount)))
  }

  datatype Outcome =
    | Built(seed: U64, g: Geometry, stack: seq<U64>, roles: seq<nat>)
    | DuplicateKey
    | ConstructFail

  /** What the retry loop is given. */
  ghost predicate LoopInput(S: Scheme, hashed: seq<U64>, g: Geometry, cells: nat) {
    Lawful(S) && ValidGeometry(g, cells) && g.segLen >= 4 && |hashed| >= 1
  }

  /** The outcome from attempt j on. */
  ghost function PeelFrom(S: Scheme, hashed: seq<U64>, g: Geometry, cells: nat, j: nat): Outcome
    requires LoopInput(S, hashed, g, cells)
    decreases MAX_ITERATIONS + 1 - j
  {
    if j > MAX_ITERATIONS then ConstructFail
    else
      GeometryAtExact(g, cells, |hashed|, j);
      match AttemptAt(S, hashed, GeometryAt(g, |hashed|, j), cells, S.seeds(j))
      case Success(stack, roles) => Built(S.seeds(j), GeometryAt(g, |hashed|, j), stack, roles)
      case Duplicate => DuplicateKey
      case Retry => PeelFrom(S, hashed, g, cells, j + 1)
  }

  /** One turn of the retry loop. */
  lemma PeelFromStep(S: Scheme, hashed: seq<U64>, g: Geometry, cells: nat, j: nat)
    requires LoopInput(S, hashed, g, cells) && j <= MAX_ITERATIONS
    ensures var g' := GeometryAt(g, |hashed|, j);
            && ValidGeometry(g', cells) && g'.segLen >= 2
            && match AttemptAt(S, hashed, g', cells, S.seeds(j))
               case Success(stack, roles) => PeelFrom(S, hashed, g, cells, j) == Built(S.seeds(j), g', stack, roles)
               case Duplicate => PeelFrom(S, hashed, g, cells, j) == DuplicateKey
               case Retry => PeelFrom(S, hashed, g, cells, j) == PeelFrom(S, hashed, g, cells, j + 1)
  {
    hide ValidGeometry, AttemptAt, Swing;
    GeometryAtExact(g, cells, |hashed|, j);
  }

  lemma PeelFromEnd(S: Scheme, hashed: seq<U64>, g: Geometry, cells: nat)
    requires LoopInput(S, hashed, g, cells)
    ensures PeelFrom(S, hashed, g, cells, MAX_ITERATIONS + 1) == ConstructFail
  {
  }

  /** Attempt j cannot succeed: a cell is touched 64 times or more, or no peeling order exists. */
  ghost predicate Hopeless(S: Scheme, hashed: seq<U64>, g: Geometry, j: nat) {
    || Overfull(EdgesAt(S, g, |hashed|, j), MixedAt(S, hashed, j))
    || !Peelable(EdgesAt(S, g, |hashed|, j), MixedAt(S, hashed, j))
  }

  lemma AttemptAtExact(S: Scheme, hashed: seq<U64>, g: Geometry, cells: nat, seed: U64)
    requires Lawful(S) && ValidGeometry(g, cells) && |hashed| >= 1
    ensures var a, mixed, f := AttemptAt(S, hashed, g, cells, seed), Mixed(S, hashed, seed), S.edges(g);
            && (!a.Duplicate? ==> (a.Success? <==> !Overfull(f, mixed) && Peelable(f, mixed)))
            && (a.Success? ==> multiset(a.stack) == multiset(mixed) && PeelStack(f, a.stack, a.roles))
  {
    hide ValidGeometry, Overfull, Peelable, PeelStack, Overflowed, Scattered, Load;
    var mixed, f := Mixed(S, hashed, seed), S.edges(g);
    var words := Scattered(mixed, BlockBits(g.segCount));
    ScatterPermutes(mixed, BlockBits(g.segCount));
    OverfullIsOverflow(f, words, mixed);
    AttemptExact(f, cells, words);
  }

  /** What an alarm shows about the key hashes: if no counter had wrapped before it, two are
      equal; if they are all distinct, some cell of the alarmed word was touched 66 times or more. */
  ghost predicate AlarmShows(hashed: seq<U64>, E: seq<Edge>, n: nat) {
    && AlarmsFirst(E, n)
    && (!Overflowed(E, n) ==> !Distinct(hashed))
    && (Distinct(hashed) ==> exists c: nat :: Touches(E[n], c) && Tallied(E, c, n + 1).deg >= 66)
  }

  lemma AlarmMeans(S: Scheme, f: U64 -> Edge, cells: nat, words: seq<U64>, hashed: seq<U64>, seed: U64, n: nat)
    requires Lawful(S) && Hashing(f, cells) && multiset(words) == multiset(Mixed(S, hashed, seed))
    requires AlarmsFirst(EdgesOf(f, words), n)
    ensures AlarmShows(hashed, EdgesOf(f, words), n)
  {
    hide Tallied, DuplicateAt, Lawful, Overflowed, Distinct;
    var E := EdgesOf(f, words);
    if !Overflowed(E, n) {
      var i, c := AlarmIsHonest(E, n);
      RepeatedWord(S, f, cells, words, hashed, seed, i, n);
    }
    DuplicateMeans(E, n);
    if i :| 0 <= i < n && E[i].word == E[n].word {
      RepeatedWord(S, f, cells, words, hashed, seed, i, n);
    }
  }

  lemma RepeatedWord(S: Scheme, f: U64 -> Edge, cells: nat, words: seq<U64>, hashed: seq<U64>, seed: U64,
                     i: nat, n: nat)
    requires Lawful(S) && Hashing(f, cells) && multiset(words) == multiset(Mixed(S, hashed, seed))
    requires i < n < |words| && EdgesOf(f, words)[i].word == EdgesOf(f, words)[n].word
    ensures !Distinct(hashed)
  {
    hide Lawful;
    WordsOfEdges(f, cells, words);
    assert EdgeWords(EdgesOf(f, words))[i] == words[i] && EdgeWords(EdgesOf(f, words))[n] == words[n];
    RepeatTransfers(S, words, hashed, seed);
  }

  lemma RepeatTransfers(S: Scheme, words: seq<U64>, hashed: seq<U64>, seed: U64)
    requires Lawful(S) && multiset(words) == multiset(Mixed(S, hashed, seed))
    ensures Distinct(words) <==> Distinct(hashed)
  {
    MixedDistinct(S, hashed, seed);
    if Distinct(hashed) {
      DistinctPermutation(Mixed(S, hashed, seed), words);
    }
    if Distinct(words) {
      DistinctPermutation(words, Mixed(S, hashed, seed));
    }
  }

  lemma MixedDistinct(S: Scheme, hashed: seq<U64>, seed: U64)
    requires Lawful(S)
    ensures Distinct(Mixed(S, hashed, seed)) <==> Distinct(hashed)
  {
    hide Lawful;
    forall i, j | 0 <= i < j < |hashed|
      ensures Mixed(S, hashed, seed)[i] == Mixed(S, hashed, seed)[j] <==> hashed[i] == hashed[j]
    {
      LawfulMix(S, hashed[i], hashed[j], seed);
    }
  }

  /** Repeated hashes make every attempt hopeless. */
  lemma RepeatsAreHopeless(S: Scheme, hashed: seq<U64>, g: Geometry, j: nat)
    requires Lawful(S) && !Distinct(hashed)
    ensures Hopeless(S, hashed, g, j)
  {
    hide PeelStack, Overfull, EdgesAt, Lawful;
    var f, mixed := EdgesAt(S, g, |hashed|, j), MixedAt(S, hashed, j);
    MixedDistinct(S, hashed, S.seeds(j));
    if Peelable(f, mixed) {
      var stack: seq<U64>, roles: seq<nat> :| multiset(stack) == multiset(mixed) && PeelStack(f, stack, roles);
      PeelStackDistinct(f, stack, roles);
      DistinctPermutation(stack, mixed);
    }
  }

  /** The edges of attempt j, in the order the scatter leaves them. */
  function EdgesIn(S: Scheme, hashed: seq<U64>, g: Geometry, j: nat): seq<Edge>
    requires |hashed| >= 1
  {
    EdgesOf(EdgesAt(S, g, |hashed|, j),
            Scattered(MixedAt(S, hashed, j), BlockBits(GeometryAt(g, |hashed|, j).segCount)))
  }

  /** Attempt j stops at the duplicate alarm. */
  ghost predicate Alarmed(S: Scheme, hashed: seq<U64>, g: Geometry, j: nat)
    requires |hashed| >= 1
  {
    SomeAlarm(EdgesIn(S, hashed, g, j))
  }

  /** Attempt k ends the loop started at j: the first one to raise the alarm or to have an order. */
  ghost predicate Decisive(S: Scheme, hashed: seq<U64>, g: Geometry, j: nat, k: nat)
    requires |hashed| >= 1
  {
    && j <= k <= MAX_ITERATIONS && (Alarmed(S, hashed, g, k) || !Hopeless(S, hashed, g, k))
    && forall i | j <= i < k :: !Alarmed(S, hashed, g, i) && Hopeless(S, hashed, g, i)
  }

  /** What each outcome says about the attempts from j on. */
  ghost predicate OutcomeMeans(S: Scheme, hashed: seq<U64>, g: Geometry, j: nat, o: Outcome)
    requires |hashed| >= 1
  {
    match o
    case Built(seed, g', stack, roles) =>
      && Distinct(hashed) && multiset(stack) == multiset(Mixed(S, hashed, seed)) && PeelStack(S.edges(g'), stack, roles)
      && exists k: nat :: Decisive(S, hashed, g, j, k) && !Alarmed(S, hashed, g, k)
                          && seed == S.seeds(k) && g' == GeometryAt(g, |hashed|, k)
    case DuplicateKey =>
      exists k: nat, n: nat :: Decisive(S, hashed, g, j, k) && AlarmShows(hashed, EdgesIn(S, hashed, g, k), n)
    case ConstructFail =>
      forall i | j <= i <= MAX_ITERATIONS :: !Alarmed(S, hashed, g, i) && Hopeless(S, hashed, g, i)
  }

  /** The first attempt that raises the alarm or is not hopeless decides. Success means distinct
      hashes and a peeling order; an alarm is honest unless its attempt filled a cell 66 times. */
  lemma {:induction false} PeelFromExact(S: Scheme, hashed: seq<U64>, g: Geometry, cells: nat, j: nat)
    requires LoopInput(S, hashed, g, cells)
    ensures OutcomeMeans(S, hashed, g, j, PeelFrom(S, hashed, g, cells, j))
    decreases MAX_ITERATIONS + 1 - j
  {
    hide ValidGeometry, AttemptAt, OutcomeMeans, Hopeless, Alarmed, GeometryAt;
    if j > MAX_ITERATIONS {
      NothingLeft(S, hashed, g, j);
    } else {
      PeelFromStep(S, hashed, g, cells, j);
      AttemptMeans(S, hashed, g, cells, j);
      PeelFromExact(S, hashed, g, cells, j + 1);
      if !Alarmed(S, hashed, g, j) && Hopeless(S, hashed, g, j) {
        OutcomeExtends(S, hashed, g, j, PeelFrom(S, hashed, g, cells, j + 1));
      }
    }
  }

  lemma NothingLeft(S: Scheme, hashed: seq<U64>, g: Geometry, j: nat)
    requires |hashed| >= 1 && j > MAX_ITERATIONS
    ensures OutcomeMeans(S, hashed, g, j, ConstructFail)
  {
  }

  /** What one attempt shows, by its result. */
  lemma AttemptMeans(S: Scheme, hashed: seq<U64>, g: Geometry, cells: nat, j: nat)
    requires LoopInput(S, hashed, g, cells) && j <= MAX_ITERATIONS
    requires ValidGeometry(GeometryAt(g, |hashed|, j), cells)
    ensures match AttemptAt(S, hashed, GeometryAt(g, |hashed|, j), cells, S.seeds(j))
            case Success(stack, roles) =>
              OutcomeMeans(S, hashed, g, j, Built(S.seeds(j), GeometryAt(g, |hashed|, j), stack, roles))
            case Duplicate => OutcomeMeans(S, hashed, g, j, DuplicateKey)
            case Retry => !Alarmed(S, hashed, g, j) && Hopeless(S, hashed, g, j)
  {
    hide ValidGeometry, Overfull, Peelable, PeelStack, AttemptAt, GeometryAt, Distinct, Hopeless, Alarmed, AlarmShows;
    AttemptDecides(S, hashed, g, cells, j);
    AttemptAtExact(S, hashed, GeometryAt(g, |hashed|, j), cells, S.seeds(j));
    if !Distinct(hashed) {
      RepeatsAreHopeless(S, hashed, g, j);
    }
    if Alarmed(S, hashed, g, j) {
      var n := AlarmedShows(S, hashed, g, cells, j);
      assert Decisive(S, hashed, g, j, j);
    } else if !Hopeless(S, hashed, g, j) {
      assert Decisive(S, hashed, g, j, j);
    }
  }

  lemma AlarmedShows(S: Scheme, hashed: seq<U64>, g: Geometry, cells: nat, j: nat) returns (n: nat)
    requires LoopInput(S, hashed, g, cells) && Alarmed(S, hashed, g, j)
    requires ValidGeometry(GeometryAt(g, |hashed|, j), cells)
    ensures AlarmShows(hashed, EdgesIn(S, hashed, g, j), n)
  {
    hide ValidGeometry, GeometryAt, SomeAlarm, Scattered, Lawful, AlarmShows, AlarmsFirst;
    var g' := GeometryAt(g, |hashed|, j);
    n := SomeAlarmIsFirst(EdgesIn(S, hashed, g, j));
    LawfulEdges(S, g', cells);
    ScatterPermutes(MixedAt(S, hashed, j), BlockBits(g'.segCount));
    AlarmMeans(S, S.edges(g'), cells, Scattered(MixedAt(S, hashed, j), BlockBits(g'.segCount)), hashed, S.seeds(j), n);
  }

  lemma OutcomeExtends(S: Scheme, hashed: seq<U64>, g: Geometry, j: nat, o: Outcome)
    requires |hashed| >= 1 && OutcomeMeans(S, hashed, g, j + 1, o)
    requires !Alarmed(S, hashed, g, j) && Hopeless(S, hashed, g, j)
    ensures OutcomeMeans(S, hashed, g, j, o)
  {
    hide Hopeless, Alarmed, PeelStack, AlarmShows, GeometryAt, Distinct, EdgesIn;
    assert forall k: nat :: Decisive(S, hashed, g, j + 1, k) ==> Decisive(S, hashed, g, j, k);
  }

  /** The return code, exactly: a duplicate is reported if and only if the decisive attempt
      raises the alarm, a map is built if and only if it does not, and building fails
      if and only if no attempt is decisive. */
  lemma OutcomeExact(S: Scheme, hashed: seq<U64>, g: Geometry, cells: nat)
    requires LoopInput(S, hashed, g, cells)
    ensures var o := PeelFrom(S, hashed, g, cells, 0);
            && (o.DuplicateKey? <==> exists k: nat :: Decisive(S, hashed, g, 0, k) && Alarmed(S, hashed, g, k))
            && (o.Built? <==> exists k: nat :: Decisive(S, hashed, g, 0, k) && !Alarmed(S, hashed, g, k))
            && (o.ConstructFail? <==> forall k: nat :: !Decisive(S, hashed, g, 0, k))
  {
    hide PeelFrom, Hopeless, EdgesIn, SomeAlarm, PeelStack, GeometryAt, Distinct, AlarmShows, Lawful, ValidGeometry;
    PeelFromExact(S, hashed, g, cells, 0);
    assert forall k: nat, l: nat | Decisive(S, hashed, g, 0, k) && Decisive(S, hashed, g, 0, l) :: k == l;
    if k: nat, n: nat :| Decisive(S, hashed, g, 0, k) && AlarmShows(hashed, EdgesIn(S, hashed, g, k), n) {
      ShownIsAlarm(hashed, EdgesIn(S, hashed, g, k), n);
    }
  }

  lemma ShownIsAlarm(hashed: seq<U64>, E: seq<Edge>, n: nat)
    requires AlarmShows(hashed, E, n)
    ensures SomeAlarm(E)
  {
  }

  /** At the attempts of the loop too: before any counter wrapped, the alarm at edge n means that
      its word repeats an earlier one and the two are alone in a cell, so key hashes repeat. */
  lemma CleanAlarmExact(S: Scheme, hashed: seq<U64>, g: Geometry, cells: nat, k: nat, n: nat)
    requires LoopInput(S, hashed, g, cells) && n < |EdgesIn(S, hashed, g, k)|
    requires !Overflowed(EdgesIn(S, hashed, g, k), n)
    ensures var E := EdgesIn(S, hashed, g, k);
            && (DuplicateAt(E, n) ==> !Distinct(hashed))
            && (DuplicateAt(E, n) <==>
                  exists i, c: nat :: 0 <= i < n && E[i].word == E[n].word && Touches(E[n], c)
                                      && Tallied(E, c, n + 1).deg == 2)
  {
    hide ValidGeometry, GeometryAt, DuplicateAt, Scattered, Lawful, Overflowed, Tallied, Distinct, WordsFixEdges;
    GeometryAtExact(g, cells, |hashed|, k);
    var g' := GeometryAt(g, |hashed|, k);
    var words := Scattered(MixedAt(S, hashed, k), BlockBits(g'.segCount));
    LawfulEdges(S, g', cells);
    ScatterPermutes(MixedAt(S, hashed, k), BlockBits(g'.segCount));
    HashingFixesEdges(S.edges(g'), cells, words);
    DuplicateExact(EdgesOf(S.edges(g'), words), n);
    if DuplicateAt(EdgesIn(S, hashed, g, k), n) {
      var i, c := AlarmIsHonest(EdgesIn(S, hashed, g, k), n);
      RepeatedWord(S, S.edges(g'), cells, words, hashed, S.seeds(k), i, n);
    }
  }

  lemma AttemptDecides(S: Scheme, hashed: seq<U64>, g: Geometry, cells: nat, j: nat)
    requires LoopInput(S, hashed, g, cells) && ValidGeometry(GeometryAt(g, |hashed|, j), cells)
    ensures var a := AttemptAt(S, hashed, GeometryAt(g, |hashed|, j), cells, S.seeds(j));
            && (a.Duplicate? <==> Alarmed(S, hashed, g, j))
            && (!a.Duplicate? ==> (a.Success? <==> !Hopeless(S, hashed, g, j)))
  {
    hide ValidGeometry, Hopeless, Scattered, SomeAlarm, Final, StartState, GeometryAt, Overfull, Peelable, PeelStack;
    AttemptAtExact(S, hashed, GeometryAt(g, |hashed|, j), cells, S.seeds(j));
    HopelessIs(S, hashed, g, j);
  }

  /** A cell heavily touched by the scattered words is loaded as much by the mixed hashes. */
  lemma HeavyLoads(S: Scheme, hashed: seq<U64>, g: Geometry, k: nat, c: nat, n: nat)
    requires |hashed| >= 1 && n <= |EdgesIn(S, hashed, g, k)|
    ensures Load(EdgesAt(S, g, |hashed|, k), MixedAt(S, hashed, k), c) >= Tallied(EdgesIn(S, hashed, g, k), c, n).deg
  {
    hide Tallied, Load, GeometryAt, Scattered;
    var f, bits := EdgesAt(S, g, |hashed|, k), BlockBits(GeometryAt(g, |hashed|, k).segCount);
    var words := Scattered(MixedAt(S, hashed, k), bits);
    DegreeGrows(EdgesOf(f, words), c, n, |words|);
    LoadIsDegree(f, words, c, |words|);
    assert words[..|words|] == words;
    ScatterPermutes(MixedAt(S, hashed, k), bits);
    LoadPermutation(f, words, MixedAt(S, hashed, k), c);
  }

  /** For distinct hashes that overfill no cell, building succeeds if and only if some
      attempt has a peeling order, and a duplicate is never reported. */
  lemma DistinctOutcome(S: Scheme, hashed: seq<U64>, g: Geometry, cells: nat)
    requires LoopInput(S, hashed, g, cells) && Distinct(hashed)
    requires forall j | 0 <= j <= MAX_ITERATIONS :: !Overfull(EdgesAt(S, g, |hashed|, j), MixedAt(S, hashed, j))
    ensures !PeelFrom(S, hashed, g, cells, 0).DuplicateKey?
    ensures PeelFrom(S, hashed, g, cells, 0).Built? <==>
            exists j | 0 <= j <= MAX_ITERATIONS :: Peelable(EdgesAt(S, g, |hashed|, j), MixedAt(S, hashed, j))
  {
    hide Lawful, ValidGeometry, PeelFrom, EdgesAt, MixedAt, Peelable, Load, OutcomeMeans;
    PeelFromExact(S, hashed, g, cells, 0);
    OutcomeOfDistinct(S, hashed, g, PeelFrom(S, hashed, g, cells, 0));
  }

  lemma OneWordPeels(f: U64 -> Edge, words: seq<U64>)
    requires |words| == 1
    ensures !Overfull(f, words) && Peelable(f, words)
  {
    forall c: nat
      ensures Load(f, words, c) <= 1
    {
      assert words[..0] == [];
    }
    assert PeelStack(f, words, [0]);
  }

  /** A single key never fails. */
  lemma OneKeyBuilds(S: Scheme, hashed: seq<U64>, g: Geometry, cells: nat)
    requires LoopInput(S, hashed, g, cells) && |hashed| == 1
    ensures PeelFrom(S, hashed, g, cells, 0).Built?
  {
    hide LoopInput, PeelFrom, EdgesAt, Peelable, Overfull;
    forall j | 0 <= j <= MAX_ITERATIONS
      ensures !Overfull(EdgesAt(S, g, |hashed|, j), MixedAt(S, hashed, j))
      ensures Peelable(EdgesAt(S, g, |hashed|, j), MixedAt(S, hashed, j))
    {
      OneWordPeels(EdgesAt(S, g, |hashed|, j), MixedAt(S, hashed, j));
    }
    DistinctOutcome(S, hashed, g, cells);
    assert Peelable(EdgesAt(S, g, |hashed|, 0), MixedAt(S, hashed, 0));
  }

  lemma OutcomeOfDistinct(S: Scheme, hashed: seq<U64>, g: Geometry, o: Outcome)
    requires |hashed| >= 1 && OutcomeMeans(S, hashed, g, 0, o) && Distinct(hashed)
    requires forall j | 0 <= j <= MAX_ITERATIONS :: !Overfull(EdgesAt(S, g, |hashed|, j), MixedAt(S, hashed, j))
    ensures !o.DuplicateKey?
    ensures o.Built? <==>
            exists j | 0 <= j <= MAX_ITERATIONS :: Peelable(EdgesAt(S, g, |hashed|, j), MixedAt(S, hashed, j))
  {
    hide EdgesAt, MixedAt, EdgesIn, Peelable, Overfull, Alarmed, Hopeless, Tallied, AlarmsFirst, Overflowed;
    if o.Built? {
      var k: nat :| Decisive(S, hashed, g, 0, k) && !Alarmed(S, hashed, g, k);
      HopelessIs(S, hashed, g, k);
      assert Peelable(EdgesAt(S, g, |hashed|, k), MixedAt(S, hashed, k));
    } else if o.ConstructFail? {
      forall j | 0 <= j <= MAX_ITERATIONS
        ensures !Peelable(EdgesAt(S, g, |hashed|, j), MixedAt(S, hashed, j))
      {
        HopelessIs(S, hashed, g, j);
      }
    } else {
      var k: nat, n: nat :| Decisive(S, hashed, g, 0, k) && AlarmShows(hashed, EdgesIn(S, hashed, g, k), n);
      AlarmOverfills(S, hashed, g, k, n);
    }
  }

  lemma AlarmOverfills(S: Scheme, hashed: seq<U64>, g: Geometry, k: nat, n: nat)
    requires |hashed| >= 1 && Distinct(hashed) && AlarmShows(hashed, EdgesIn(S, hashed, g, k), n)
    ensures Overfull(EdgesAt(S, g, |hashed|, k), MixedAt(S, hashed, k))
  {
    hide EdgesAt, MixedAt, EdgesIn, Overfull, Tallied, Distinct;
    var c: nat :| Tallied(EdgesIn(S, hashed, g, k), c, n + 1).deg >= 66;
    HeavyLoads(S, hashed, g, k, c, n + 1);
    LoadedIsOverfull(EdgesAt(S, g, |hashed|, k), MixedAt(S, hashed, k), c);
  }

  lemma HopelessIs(S: Scheme, hashed: seq<U64>, g: Geometry, j: nat)
    ensures var f, mixed := EdgesAt(S, g, |hashed|, j), MixedAt(S, hashed, j);
            Hopeless(S, hashed, g, j) <==> (Overfull(f, mixed) || !Peelable(f, mixed))
  {
  }

  lemma LoadedIsOverfull(f: U64 -> Edge, words: seq<U64>, c: nat)
    requires Load(f, words, c) >= 64
    ensures Overfull(f, words)
  {
  }

  /** Repeated hashes never build a map. */
  lemma RepeatsNeverBuild(S: Scheme, hashed: seq<U64>, g: Geometry, cells: nat)
    requires LoopInput(S, hashed, g, cells) && !Distinct(hashed)
    ensures !PeelFrom(S, hashed, g, cells, 0).Built?
  {
    hide PeelFrom;
    PeelFromExact(S, hashed, g, cells, 0);
  }
}
