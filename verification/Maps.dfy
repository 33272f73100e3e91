/** The three map kinds as objects: building them from keys and values. */
module Maps {
  import opened ReturnCodes
  import opened Words
  import opened Mixing
  import opened Geometry
  import opened Hypergraph
  import opened Peeling
  import opened Schemes
  import opened Attempts
  import opened Construction
  import opened Assigning
  import opened MapModel


  predicate KnownHash(hash: U32) {
    hash == HASH_XXH64 || hash == HASH_XXH3
  }

  /** The return code when the peeling outcome decides. */
  function CodeOf(o: Outcome): int {
    match o
    case Built(_, _, _, _) => FCM_OK
    case DuplicateKey => FCM_E_DUPLICATE_KEY
    case ConstructFail => FCM_E_CONSTRUCT_FAIL
  }

  /** The code computes the scheme it is proved for. */
  ghost predicate Runs(x: Input) {
    Given(x) && Computed(x.S)
  }

  /** Hashes the keys, peels, and sorts the (mixed hash, value) pairs. */
  method Prepare(x: Input) returns (rc: int, p: Params, pairs: array<Pair>, order: array<U64>, roles: array<U8>)
    requires Runs(x)
    ensures fresh(p) && fresh(pairs) && fresh(order) && fresh(roles)
    ensures rc == CodeOf(PlanFor(x))
    ensures rc == FCM_OK ==>
              var o := PlanFor(x);
              && p.seed == o.seed && p.G() == o.g && p.arrayLen == CellsFor(x)
              && order.Length == |x.keys| + 1 && order[..|x.keys|] == o.stack && roles[..] == o.roles
              && pairs[..] == SortedPairsOf(x)
  {
    hide PeelFrom, ValidGeometry, MixSplit, InitialGeometry, InitialCells, Lawful, Computed, IsSorter;
    var n := |x.keys|;
    assert ValidGeometry(InitialGeometry(n, x.z), InitialCells(n, x.z)) && InitialGeometry(n, x.z).segLen >= 4 by {
      InitialGeometryValid(n, x.z);
    }
    var cells := InitialCells(n, x.z);
    p := new Params(InitialGeometry(n, x.z), cells);
    var hashed := new U64[n](i requires 0 <= i < n => HashKey(x.H, x.hash, x.keys[i]));
    var alone := new U32[cells];
    var t2count := new U8[cells](i => 0);
    var t2hash := new U64[cells](i => 0);
    roles := new U8[n];
    order := new U64[n + 1](i => 0);
    pairs := new Pair[n](i => Pair(0, 0));
    assert hashed[..] == Hashed(x);
    rc := FcmPeel(x.S, hashed, p, alone, t2count, t2hash, roles, order);
    if rc == FCM_OK {
      ghost var mixed := MixedHere(x.S, Hashed(x), p.seed);
      SortPairs(x.sort, mixed, hashed, x.values, p.seed, pairs);
    }
  }

  method SortPairs(sort: seq<Pair> -> seq<Pair>, ghost mixed: seq<U64>, hashed: array<U64>, values: seq<U64>, seed: U64,
                   pairs: array<Pair>)
    requires hashed.Length == |values| == pairs.Length == |mixed| && IsSorter(sort)
    requires forall i | 0 <= i < |mixed| :: mixed[i] == MixSplit(hashed[i], seed)
    modifies pairs
    ensures pairs[..] == sort(PairsOf(mixed, values))
  {
    hide MixSplit, IsSorter;
    ghost var expected := PairsOf(mixed, values);
    var i := 0;
    while i < pairs.Length
      invariant 0 <= i <= pairs.Length
      invariant forall j | 0 <= j < i :: pairs[j] == expected[j]
    {
      pairs[i] := Pair(MixSplit(hashed[i], seed), values[i]);
      i := i + 1;
    }
    assert pairs[..] == expected;
    SortLength(sort, expected);
    var sorted := sort(pairs[..]);
    assert sorted == sort(expected);
    forall j | 0 <= j < pairs.Length {
      pairs[j] := sorted[j];
    }
    assert pairs[..] == sorted == sort(expected);
  }

  lemma SortLength(sort: seq<Pair> -> seq<Pair>, p: seq<Pair>)
    requires IsSorter(sort)
    ensures |sort(p)| == |p| && SortedPairs(sort(p)) && multiset(sort(p)) == multiset(p)
  {
    assert |multiset(sort(p))| == |sort(p)| && |multiset(p)| == |p|;
  }

  // ----- assignment loops

  /** The stack, roles and pairs of a finished peeling, ready for back-substitution. */
  ghost predicate Ready(S: Scheme, g: Geometry, cells: nat, order: seq<U64>, roles: seq<nat>, sorted: seq<Pair>,
                        n: nat)
  {
    && Lawful(S) && Computed(S) && ValidGeometry(g, cells) && |roles| == n && |order| == n
    && n < TWO32 && n != INDEX_LIMIT
    && SortedPairs(sorted)
    && (forall k | 0 <= k < n :: HashIn(sorted, order[k]) && roles[k] < 3)
    && (forall k | 0 <= k < n :: Proper(EdgesOf(S.edges(g), order)[k], cells))
  }

  /** What one turn of the assignment loop relies on. */
  lemma TurnReady(S: Scheme, g: Geometry, cells: nat, order: seq<U64>, roles: seq<nat>, sorted: seq<Pair>,
                  n: nat, k: nat)
    requires Ready(S, g, cells, order, roles, sorted, n) && k < n
    ensures var e := EdgesOf(S.edges(g), order)[k];
            && e == EdgeOf(g, order[k]) && Proper(e, cells) && roles[k] < 3
            && S.check(order[k]) == Fingerprint(order[k])
            && SortedPairs(sorted) && HashIn(sorted, order[k])
            && ValuesFor(sorted, order)[k] == sorted[LowerBound(sorted, order[k])].value
  {
    hide Lawful, Computed, ValidGeometry, EdgeOf, LowerBound, Fingerprint;
    EdgeIs(S, g, order[k]);
    CheckIs(S, order[k]);
    LowerBoundIn(sorted, order[k]);
  }

  method AssignData(ghost S: Scheme, p: Params, pairs: array<Pair>, order: array<U64>, roles: array<U8>)
    returns (data: array<U64>)
    requires order.Length == roles.Length + 1
    requires Ready(S, p.G(), p.arrayLen, order[..roles.Length], roles[..], pairs[..], roles.Length)
    ensures fresh(data)
    ensures data[..] == Assigned(EdgesOf(S.edges(p.G()), order[..roles.Length]), roles[..],
                                 ValuesFor(pairs[..], order[..roles.Length]), Zeros(p.arrayLen))
  {
    hide Lawful, Computed, ValidGeometry, EdgeOf, Put, LowerBound, AssignedAbove, Assigned, HashIn, SortedPairs, Proper;
    var n := roles.Length;
    ghost var stack, found, E := order[..n], roles[..], EdgesOf(S.edges(p.G()), order[..n]);
    ghost var vals, zeros := ValuesFor(pairs[..], stack), Zeros(p.arrayLen);
    data := new U64[p.arrayLen](i => 0);
    var i := Signed32(n) - 1;
    assert data[..] == zeros;
    AssignedFirst(E, found, vals, zeros);
    while i >= 0
      invariant IndexOf(n, i) && data.Length == p.arrayLen
      invariant data[..] == AssignedAbove(E, found, vals, zeros, i)
    {
      TurnReady(S, p.G(), p.arrayLen, stack, found, pairs[..], n, i);
      AssignedStep(E, found, vals, zeros, i);
      var val := PairLookup(pairs, order[i]);
      var i1, i2, i3 := Positions(order[i], p.G());
      PutCell(E[i], i1, i2, i3, roles[i], val, data);
      i := i - 1;
    }
    AssignedLast(E, found, vals, zeros, i);
  }

  method AssignChecked(ghost S: Scheme, p: Params, pairs: array<Pair>, order: array<U64>, roles: array<U8>)
    returns (data: array<U64>, checks: array<U64>)
    requires order.Length == roles.Length + 1
    requires Ready(S, p.G(), p.arrayLen, order[..roles.Length], roles[..], pairs[..], roles.Length)
    ensures fresh(data) && fresh(checks)
    ensures data[..] == Assigned(EdgesOf(S.edges(p.G()), order[..roles.Length]), roles[..],
                                 ValuesFor(pairs[..], order[..roles.Length]), Zeros(p.arrayLen))
    ensures checks[..] == Assigned(EdgesOf(S.edges(p.G()), order[..roles.Length]), roles[..],
                                   ChecksFor(S, order[..roles.Length]), Zeros(p.arrayLen))
  {
    hide Lawful, Computed, ValidGeometry, EdgeOf, Put, LowerBound, AssignedAbove, Assigned, HashIn, SortedPairs, Proper;
    hide Fingerprint;
    var n := roles.Length;
    ghost var stack, found, E := order[..n], roles[..], EdgesOf(S.edges(p.G()), order[..n]);
    ghost var vals, fps, zeros := ValuesFor(pairs[..], stack), ChecksFor(S, stack), Zeros(p.arrayLen);
    data := new U64[p.arrayLen](i => 0);
    checks := new U64[p.arrayLen](i => 0);
    var i := Signed32(n) - 1;
    assert data[..] == zeros && checks[..] == zeros;
    AssignedFirst(E, found, vals, zeros);
    AssignedFirst(E, found, fps, zeros);
    while i >= 0
      invariant IndexOf(n, i) && data.Length == checks.Length == p.arrayLen
      invariant data[..] == AssignedAbove(E, found, vals, zeros, i)
      invariant checks[..] == AssignedAbove(E, found, fps, zeros, i)
    {
      TurnReady(S, p.G(), p.arrayLen, stack, found, pairs[..], n, i);
      AssignedStep(E, found, vals, zeros, i);
      AssignedStep(E, found, fps, zeros, i);
      var val := PairLookup(pairs, order[i]);
      var fp := Fingerprint(order[i]);
      var i1, i2, i3 := Positions(order[i], p.G());
      PutCell(E[i], i1, i2, i3, roles[i], val, data);
      PutCell(E[i], i1, i2, i3, roles[i], fp, checks);
      i := i - 1;
    }
    AssignedLast(E, found, vals, zeros, i);
    AssignedLast(E, found, fps, zeros, i);
  }

  /** Both words of a slot are set from the other two slots. */
  method PutSlot(ghost e: Edge, i1: nat, i2: nat, i3: nat, found: nat, v: U64, fp: U64, slots: array<Slot>)
    requires Proper(e, slots.Length) && e.cell0 == i1 && e.cell1 == i2 && e.cell2 == i3 && found < 3
    modifies slots
    ensures SlotValues(slots[..]) == Put(old(SlotValues(slots[..])), e, found, v)
    ensures SlotChecks(slots[..]) == Put(old(SlotChecks(slots[..])), e, found, fp)
  {
    hide Xor64;
    var a, b := slots[SlotOf(i1, i2, i3, found + 1)], slots[SlotOf(i1, i2, i3, found + 2)];
    slots[SlotOf(i1, i2, i3, found)] :=
      Slot(Xor64(Xor64(v, a.value), b.value), Xor64(Xor64(fp, a.check), b.check));
  }

  method AssignSlots(ghost S: Scheme, p: Params, pairs: array<Pair>, order: array<U64>, roles: array<U8>)
    returns (slots: array<Slot>)
    requires order.Length == roles.Length + 1
    requires Ready(S, p.G(), p.arrayLen, order[..roles.Length], roles[..], pairs[..], roles.Length)
    ensures fresh(slots)
    ensures SlotValues(slots[..]) == Assigned(EdgesOf(S.edges(p.G()), order[..roles.Length]), roles[..],
                                              ValuesFor(pairs[..], order[..roles.Length]), Zeros(p.arrayLen))
    ensures SlotChecks(slots[..]) == Assigned(EdgesOf(S.edges(p.G()), order[..roles.Length]), roles[..],
                                              ChecksFor(S, order[..roles.Length]), Zeros(p.arrayLen))
  {
    hide Lawful, Computed, ValidGeometry, EdgeOf, Put, LowerBound, AssignedAbove, Assigned, HashIn, SortedPairs, Proper;
    hide Fingerprint;
    var n := roles.Length;
    ghost var stack, found, E := order[..n], roles[..], EdgesOf(S.edges(p.G()), order[..n]);
    ghost var vals, fps, zeros := ValuesFor(pairs[..], stack), ChecksFor(S, stack), Zeros(p.arrayLen);
    slots := new Slot[p.arrayLen](i => Slot(0, 0));
    var i := Signed32(n) - 1;
    assert SlotValues(slots[..]) == zeros && SlotChecks(slots[..]) == zeros;
    AssignedFirst(E, found, vals, zeros);
    AssignedFirst(E, found, fps, zeros);
    while i >= 0
      invariant IndexOf(n, i) && slots.Length == p.arrayLen
      invariant SlotValues(slots[..]) == AssignedAbove(E, found, vals, zeros, i)
      invariant SlotChecks(slots[..]) == AssignedAbove(E, found, fps, zeros, i)
    {
      TurnReady(S, p.G(), p.arrayLen, stack, found, pairs[..], n, i);
      AssignedStep(E, found, vals, zeros, i);
      AssignedStep(E, found, fps, zeros, i);
      var val := PairLookup(pairs, order[i]);
      var fp := Fingerprint(order[i]);
      var i1, i2, i3 := Positions(order[i], p.G());
      PutSlot(E[i], i1, i2, i3, roles[i], val, fp, slots);
      i := i - 1;
    }
    AssignedLast(E, found, vals, zeros, i);
    AssignedLast(E, found, fps, zeros, i);
  }

  /** What Prepare leaves is ready for assignment. */
  lemma PrepareIsReady(x: Input)
    requires Buildable(x) && Computed(x.S) && |x.keys| != INDEX_LIMIT
    ensures var o := PlanFor(x); Ready(x.S, o.g, CellsFor(x), o.stack, o.roles, SortedPairsOf(x), |x.keys|)
  {
    hide PlanFor, ValidGeometry, CellsFor, PeelStack, Lawful, Computed;
    PlanFacts(x);
    var o := PlanFor(x);
    var mixed := Mixed(x.S, Hashed(x), o.seed);
    forall k | 0 <= k < |x.keys|
      ensures HashIn(SortedPairsOf(x), o.stack[k])
    {
      assert o.stack[k] in multiset(o.stack);
      assert o.stack[k] in multiset(mixed);
      var i :| 0 <= i < |mixed| && mixed[i] == o.stack[k];
      LookupFinds(mixed, x.values, SortedPairsOf(x), i);
    }
  }

  // ----- lookups

  const BATCH_BLOCK: nat := 8

  /** The mixed hash of every key of a block; which hash function it is, is decided before the loop. */
  method HashBlock(H: Hasher, par: MapParams, keys: seq<Key>, start: nat, hashes: array<U64>)
    requires hashes.Length == BATCH_BLOCK && start + BATCH_BLOCK <= |keys|
    modifies hashes
    ensures forall j | 0 <= j < BATCH_BLOCK :: hashes[j] == MixSplit(HashKey(H, par.hash, keys[start + j]), par.seed)
  {
    hide MixSplit;
    var j := 0;
    if par.hash == HASH_XXH3 {
      while j < BATCH_BLOCK
        invariant 0 <= j <= BATCH_BLOCK
        invariant forall i | 0 <= i < j :: hashes[i] == MixSplit(HashKey(H, par.hash, keys[start + i]), par.seed)
      {
        hashes[j] := MixSplit(H.xxh3(keys[start + j]), par.seed);
        j := j + 1;
      }
    } else {
      while j < BATCH_BLOCK
        invariant 0 <= j <= BATCH_BLOCK
        invariant forall i | 0 <= i < j :: hashes[i] == MixSplit(HashKey(H, par.hash, keys[start + i]), par.seed)
      {
        hashes[j] := MixSplit(H.xxh64(keys[start + j]), par.seed);
        j := j + 1;
      }
    }
  }

  /** The three positions of every hash of a block. */
  method PositionBlock(g: Geometry, hashes: array<U64>, h0: array<U32>, h1: array<U32>, h2: array<U32>)
    requires hashes.Length == h0.Length == h1.Length == h2.Length == BATCH_BLOCK
    requires h0 != h1 && h0 != h2 && h1 != h2
    modifies h0, h1, h2
    ensures forall j | 0 <= j < BATCH_BLOCK :: EdgeOf(g, hashes[j]) == Edge(hashes[j], h0[j], h1[j], h2[j])
  {
    hide Position, GetH012;
    var j := 0;
    while j < BATCH_BLOCK
      invariant 0 <= j <= BATCH_BLOCK
      invariant forall i | 0 <= i < j :: EdgeOf(g, hashes[i]) == Edge(hashes[i], h0[i], h1[i], h2[i])
    {
      h0[j], h1[j], h2[j] := Positions(hashes[j], g);
      j := j + 1;
    }
  }

  /** The concrete position and check words of a key, as the scheme has them. */
  lemma KeyFacts(S: Scheme, H: Hasher, p: MapParams, key: Key)
    requires Computed(S)
    ensures var w := MixedKey(S, H, p, key);
            && w == MixSplit(HashKey(H, p.hash, key), p.seed)
            && S.edges(p.g)(w) == EdgeOf(p.g, w)
            && S.check(w) == Fingerprint(w)
  {
    hide Computed, EdgeOf, MixSplit, Fingerprint;
    var w := MixedKey(S, H, p, key);
    MixIs(S, HashKey(H, p.hash, key), p.seed);
    EdgeIs(S, p.g, w);
    CheckIs(S, w);
  }

  lemma EdgeOfWord(g: Geometry, word: U64)
    ensures EdgeOf(g, word).word == word
  {
    hide Position;
  }

  /** What one key's hash and positions make of each kind of map. */
  lemma PlainIs(S: Scheme, H: Hasher, m: PlainMap, key: Key, e: Edge)
    requires Computed(S) && PlainReads(S, H, m, key) && m.par.dataLen > 0
    requires e == EdgeOf(m.par.g, MixSplit(HashKey(H, m.par.hash, key), m.par.seed))
    ensures Within(e, |m.data|)
    ensures LookupPlain(S, H, m, key) == Xor64(Xor64(m.data[e.cell0], m.data[e.cell1]), m.data[e.cell2])
  {
    hide Computed, EdgeOf, MixSplit, Xor64, MixedKey;
    KeyFacts(S, H, m.par, key);
  }

  lemma VerifiedIs(S: Scheme, H: Hasher, m: VerifiedMap, key: Key, e: Edge)
    requires Computed(S) && VerifiedReads(S, H, m, key) && m.par.dataLen > 0
    requires e == EdgeOf(m.par.g, MixSplit(HashKey(H, m.par.hash, key), m.par.seed))
    ensures Within(e, |m.data|) && Within(e, |m.checks|)
    ensures LookupVerified(S, H, m, key)
            == if Xor64(Xor64(m.checks[e.cell0], m.checks[e.cell1]), m.checks[e.cell2]) == Fingerprint(e.word)
               then Xor64(Xor64(m.data[e.cell0], m.data[e.cell1]), m.data[e.cell2]) else NOT_FOUND
  {
    hide Computed, EdgeOf, MixSplit, Xor64, MixedKey, Fingerprint;
    KeyFacts(S, H, m.par, key);
    EdgeOfWord(m.par.g, MixedKey(S, H, m.par, key));
  }

  lemma PairedIs(S: Scheme, H: Hasher, m: PairedMap, key: Key, e: Edge)
    requires Computed(S) && PairedReads(S, H, m, key) && m.par.dataLen > 0
    requires e == EdgeOf(m.par.g, MixSplit(HashKey(H, m.par.hash, key), m.par.seed))
    ensures Within(e, |m.slots|)
    ensures var r := SlotXor3(m.slots, e);
            LookupPaired(S, H, m, key) == if r.check == Fingerprint(e.word) then r.value else NOT_FOUND
  {
    hide Computed, EdgeOf, MixSplit, Xor64, MixedKey, Fingerprint, SlotXor3;
    KeyFacts(S, H, m.par, key);
    EdgeOfWord(m.par.g, MixedKey(S, H, m.par, key));
  }

  lemma EmptyAnswersPlain(S: Scheme, H: Hasher, m: PlainMap, key: Key)
    requires PlainReads(S, H, m, key) && m.par.dataLen == 0
    ensures LookupPlain(S, H, m, key) == 0
  {
  }

  lemma EmptyAnswersVerified(S: Scheme, H: Hasher, m: VerifiedMap, key: Key)
    requires VerifiedReads(S, H, m, key) && m.par.dataLen == 0
    ensures LookupVerified(S, H, m, key) == 0xFFFF_FFFF_FFFF_FFFF
  {
  }

  lemma EmptyAnswersPaired(S: Scheme, H: Hasher, m: PairedMap, key: Key)
    requires PairedReads(S, H, m, key) && m.par.dataLen == 0
    ensures LookupPaired(S, H, m, key) == 0xFFFF_FFFF_FFFF_FFFF
  {
  }

  // ----- the three kinds

  /** The return code of every constructor. */
  ghost function BuildCode(x: Input): int
    requires BuildInput(x)
  {
    if !KnownHash(x.hash) then FCM_E_INVALID_FORMAT
    else if |x.keys| == 0 then FCM_OK
    else if |x.keys| > 0xFFFF_FFFF then FCM_E_LENGTH_MISMATCH
    else CodeOf(PlanFor(x))
  }

  /** Which of its return codes a constructor gives, in terms of the hash code, the number of keys
      and the 101 attempts. */
  lemma BuildCodeExact(x: Input)
    requires BuildInput(x)
    ensures var n, known := |x.keys|, x.hash == 0 || x.hash == 1;
            && (BuildCode(x) == -5 <==> !known)
            && (BuildCode(x) == -1 <==> known && n > 0xFFFF_FFFF)
            && (known && n == 0 ==> BuildCode(x) == 0)
            && (known && 1 <= n <= 0xFFFF_FFFF ==>
                  var hashed, g := Hashed(x), InitialGeometry(n, x.z);
                  && BuildCode(x) in {0, -3, -4}
                  && (BuildCode(x) == -3 <==>
                        exists k: nat :: Decisive(x.S, hashed, g, 0, k) && Alarmed(x.S, hashed, g, k))
                  && (BuildCode(x) == 0 <==>
                        exists k: nat :: Decisive(x.S, hashed, g, 0, k) && !Alarmed(x.S, hashed, g, k))
                  && (BuildCode(x) == -4 <==>
                        forall k | 0 <= k <= 100 :: !Alarmed(x.S, hashed, g, k) && Hopeless(x.S, hashed, g, k)))
  {
    hide Lawful, Computed, ValidGeometry, PeelFrom, InitialGeometry, InitialCells, IsSorter, Alarmed, Hopeless;
    hide Distinct, AlarmShows, Peelable, PeelStack;
    if KnownHash(x.hash) && 1 <= |x.keys| <= 0xFFFF_FFFF {
      InitialGeometryValid(|x.keys|, x.z);
      OutcomeExact(x.S, Hashed(x), InitialGeometry(|x.keys|, x.z), CellsFor(x));
      PeelFromExact(x.S, Hashed(x), InitialGeometry(|x.keys|, x.z), CellsFor(x), 0);
    }
  }

  /** What is built depends on the key hash that the code names, and on no other. */
  lemma BuildUsesItsHash(x: Input, H': Hasher)
    requires BuildInput(x) && SameHash(x.H, H', x.hash)
    ensures var y := x.(H := H');
            && BuildInput(y) && BuildCode(y) == BuildCode(x)
            && (Buildable(x) ==> Buildable(y) && BuiltPlain(y) == BuiltPlain(x)
                                 && BuiltVerified(y) == BuiltVerified(x) && BuiltPaired(y) == BuiltPaired(x))
  {
    hide Lawful, Computed, PeelFrom, InitialGeometry, InitialCells, IsSorter, SameHash, Hashed;
    SameHashed(x, H');
  }

  /** A duplicate is reported by the deciding attempt, and is real unless that attempt had
      touched a cell 66 times; if no counter had wrapped, it is real without exception. */
  lemma DuplicateReported(x: Input)
    requires BuildInput(x) && BuildCode(x) == FCM_E_DUPLICATE_KEY
    ensures Given(x)
    ensures var g := InitialGeometry(|x.keys|, x.z);
            exists k: nat, n: nat :: Decisive(x.S, Hashed(x), g, 0, k)
                                     && AlarmShows(Hashed(x), EdgesIn(x.S, Hashed(x), g, k), n)
  {
    hide Lawful, Computed, ValidGeometry, PeelFrom, InitialGeometry, InitialCells, IsSorter, Decisive, AlarmShows;
    hide EdgesIn;
    InitialGeometryValid(|x.keys|, x.z);
    PeelFromExact(x.S, Hashed(x), InitialGeometry(|x.keys|, x.z), CellsFor(x), 0);
  }

  /** Inputs the constructors are specified on. With exactly 2^31 keys the first value of the
      assignment index overflows. */
  ghost predicate BuildInput(x: Input) {
    && Lawful(x.S) && Computed(x.S) && IsSorter(x.sort) && SizingOk(x.z) && |x.keys| == |x.values|
    && |x.keys| != INDEX_LIMIT
  }

  class ConstMap {
    var par: MapParams
    var data: array<U64>

    constructor ()
      ensures Value() == PlainMap(EmptyParams(HASH_XXH64), []) && fresh(data)
    {
      par := EmptyParams(HASH_XXH64);
      data := new U64[0];
    }

    ghost function Value(): PlainMap
      reads this, data
    {
      PlainMap(par, data[..])
    }

    /** Builds the map. A known hash clears the object first, so an error leaves it empty. */
    method Build(x: Input) returns (rc: int)
      requires BuildInput(x)
      modifies this
      ensures rc == BuildCode(x)
      ensures if KnownHash(x.hash) then fresh(data) else par == old(par) && data == old(data)
      ensures KnownHash(x.hash) && (rc != FCM_OK || x.keys == []) ==> Value() == PlainMap(EmptyParams(x.hash), [])
      ensures rc == FCM_OK && x.keys != [] ==>
                Buildable(x) && Value() == BuiltPlain(x)
    {
      hide PlanFor, CellsFor, ValidGeometry, Lawful, Computed;
      if !KnownHash(x.hash) {
        return FCM_E_INVALID_FORMAT;
      }
      par := EmptyParams(x.hash);
      data := new U64[0];
      if |x.keys| == 0 {
        return FCM_OK;
      }
      if |x.keys| > 0xFFFF_FFFF {
        return FCM_E_LENGTH_MISMATCH;
      }
      var p, pairs, order, roles;
      rc, p, pairs, order, roles := Prepare(x);
      if rc == FCM_OK {
        PrepareIsReady(x);
        data := AssignData(x.S, p, pairs, order, roles);
        par := MapParams(p.seed, p.G(), p.arrayLen, |x.keys|, x.hash);
      }
    }

    /** One key. */
    method Lookup(ghost S: Scheme, H: Hasher, key: Key) returns (v: U64)
      requires Computed(S) && PlainReads(S, H, Value(), key)
      ensures v == LookupPlain(S, H, Value(), key)
    {
      hide Computed, MixSplit, Position, Xor64, Fingerprint, LookupPlain, PlainReads;
      if par.dataLen == 0 {
        EmptyAnswersPlain(S, H, Value(), key);
        return 0;
      }
      var hash := MixSplit(HashKey(H, par.hash, key), par.seed);
      var h0, h1, h2 := Positions(hash, par.g);
      PlainIs(S, H, Value(), key, EdgeOf(par.g, hash));
      v := Xor64(Xor64(data[h0], data[h1]), data[h2]);
    }

    /** A batch: whole blocks phase by phase, then the tail key by key. */
    method LookupMany(ghost S: Scheme, H: Hasher, keys: seq<Key>, out: array<U64>)
      requires Computed(S) && |keys| <= out.Length && out != data
      requires forall i | 0 <= i < |keys| :: PlainReads(S, H, Value(), keys[i])
      modifies out
      ensures forall i | 0 <= i < |keys| :: out[i] == LookupPlain(S, H, Value(), keys[i])
      ensures out[|keys|..] == old(out[|keys|..])
    {
      hide Computed, PlainReads, LookupPlain;
      var i := 0;
      if par.dataLen == 0 {
        while i < |keys|
          invariant 0 <= i <= |keys| && out[|keys|..] == old(out[|keys|..])
          invariant forall j | 0 <= j < i :: out[j] == LookupPlain(S, H, Value(), keys[j])
        {
          EmptyAnswersPlain(S, H, Value(), keys[i]);
          out[i] := 0;
          i := i + 1;
        }
        return;
      }
      while i + BATCH_BLOCK <= |keys|
        invariant 0 <= i <= |keys| && out[|keys|..] == old(out[|keys|..])
        invariant forall j | 0 <= j < i :: out[j] == LookupPlain(S, H, Value(), keys[j])
        decreases |keys| - i
      {
        LookupBlock(S, H, keys, i, out);
        i := i + BATCH_BLOCK;
      }
      while i < |keys|
        invariant 0 <= i <= |keys| && out[|keys|..] == old(out[|keys|..])
        invariant forall j | 0 <= j < i :: out[j] == LookupPlain(S, H, Value(), keys[j])
      {
        out[i] := Lookup(S, H, keys[i]);
        i := i + 1;
      }
    }

    method LookupBlock(ghost S: Scheme, H: Hasher, keys: seq<Key>, start: nat, out: array<U64>)
      requires Computed(S) && par.dataLen > 0
      requires forall i | 0 <= i < |keys| :: PlainReads(S, H, Value(), keys[i])
      requires start + BATCH_BLOCK <= |keys| <= out.Length && out != data
      modifies out
      ensures forall i | 0 <= i < out.Length ::
                out[i] == if start <= i < start + BATCH_BLOCK then LookupPlain(S, H, Value(), keys[i]) else old(out[i])
    {
      hide Computed, MixSplit, EdgeOf, Xor64, Fingerprint, LookupPlain, PlainReads;
      var hashes := new U64[BATCH_BLOCK];
      var h0, h1, h2 := new U32[BATCH_BLOCK], new U32[BATCH_BLOCK], new U32[BATCH_BLOCK];
      HashBlock(H, par, keys, start, hashes);
      PositionBlock(par.g, hashes, h0, h1, h2);
      var j := 0;
      while j < BATCH_BLOCK
        modifies out
        invariant 0 <= j <= BATCH_BLOCK
        invariant forall i | 0 <= i < out.Length ::
                    out[i] == if start <= i < start + j then LookupPlain(S, H, Value(), keys[i]) else old(out[i])
      {
        PlainIs(S, H, Value(), keys[start + j], EdgeOf(par.g, hashes[j]));
        out[start + j] := Xor64(Xor64(data[h0[j]], data[h1[j]]), data[h2[j]]);
        j := j + 1;
      }
    }
  }

  class VerifiedConstMap {
    var par: MapParams
    var data: array<U64>
    var checks: array<U64>

    constructor ()
      ensures Value() == VerifiedMap(EmptyParams(HASH_XXH64), [], []) && fresh(data) && fresh(checks)
    {
      par := EmptyParams(HASH_XXH64);
      data, checks := new U64[0], new U64[0];
    }

    ghost function Value(): VerifiedMap
      reads this, data, checks
    {
      VerifiedMap(par, data[..], checks[..])
    }

    method Build(x: Input) returns (rc: int)
      requires BuildInput(x)
      modifies this
      ensures rc == BuildCode(x)
      ensures if KnownHash(x.hash) then fresh(data) && fresh(checks)
              else par == old(par) && data == old(data) && checks == old(checks)
      ensures KnownHash(x.hash) && (rc != FCM_OK || x.keys == []) ==>
                Value() == VerifiedMap(EmptyParams(x.hash), [], [])
      ensures rc == FCM_OK && x.keys != [] ==>
                Buildable(x) && Value() == BuiltVerified(x)
    {
      hide PlanFor, CellsFor, ValidGeometry, Lawful, Computed;
      if !KnownHash(x.hash) {
        return FCM_E_INVALID_FORMAT;
      }
      par := EmptyParams(x.hash);
      data, checks := new U64[0], new U64[0];
      if |x.keys| == 0 {
        return FCM_OK;
      }
      if |x.keys| > 0xFFFF_FFFF {
        return FCM_E_LENGTH_MISMATCH;
      }
      var p, pairs, order, roles;
      rc, p, pairs, order, roles := Prepare(x);
      if rc == FCM_OK {
        PrepareIsReady(x);
        data, checks := AssignChecked(x.S, p, pairs, order, roles);
        par := MapParams(p.seed, p.G(), p.arrayLen, |x.keys|, x.hash);
      }
    }

    /** One key. */
    method Lookup(ghost S: Scheme, H: Hasher, key: Key) returns (v: U64)
      requires Computed(S) && VerifiedReads(S, H, Value(), key)
      ensures v == LookupVerified(S, H, Value(), key)
    {
      hide Computed, MixSplit, Position, Xor64, Fingerprint, LookupVerified, VerifiedReads;
      if par.dataLen == 0 {
        EmptyAnswersVerified(S, H, Value(), key);
        return NOT_FOUND;
      }
      var hash := MixSplit(HashKey(H, par.hash, key), par.seed);
      var h0, h1, h2 := Positions(hash, par.g);
      VerifiedIs(S, H, Value(), key, EdgeOf(par.g, hash));
      var fp := Xor64(Xor64(checks[h0], checks[h1]), checks[h2]);
      if fp != Fingerprint(hash) {
        return NOT_FOUND;
      }
      v := Xor64(Xor64(data[h0], data[h1]), data[h2]);
    }

    /** A batch: whole blocks phase by phase, then the tail key by key. */
    method LookupMany(ghost S: Scheme, H: Hasher, keys: seq<Key>, out: array<U64>)
      requires Computed(S) && |keys| <= out.Length && out != data && out != checks
      requires forall i | 0 <= i < |keys| :: VerifiedReads(S, H, Value(), keys[i])
      modifies out
      ensures forall i | 0 <= i < |keys| :: out[i] == LookupVerified(S, H, Value(), keys[i])
      ensures out[|keys|..] == old(out[|keys|..])
    {
      hide Computed, VerifiedReads, LookupVerified;
      var i := 0;
      if par.dataLen == 0 {
        while i < |keys|
          invariant 0 <= i <= |keys| && out[|keys|..] == old(out[|keys|..])
          invariant forall j | 0 <= j < i :: out[j] == LookupVerified(S, H, Value(), keys[j])
        {
          EmptyAnswersVerified(S, H, Value(), keys[i]);
          out[i] := NOT_FOUND;
          i := i + 1;
        }
        return;
      }
      while i + BATCH_BLOCK <= |keys|
        invariant 0 <= i <= |keys| && out[|keys|..] == old(out[|keys|..])
        invariant forall j | 0 <= j < i :: out[j] == LookupVerified(S, H, Value(), keys[j])
        decreases |keys| - i
      {
        LookupBlock(S, H, keys, i, out);
        i := i + BATCH_BLOCK;
      }
      while i < |keys|
        invariant 0 <= i <= |keys| && out[|keys|..] == old(out[|keys|..])
        invariant forall j | 0 <= j < i :: out[j] == LookupVerified(S, H, Value(), keys[j])
      {
        out[i] := Lookup(S, H, keys[i]);
        i := i + 1;
      }
    }

    method LookupBlock(ghost S: Scheme, H: Hasher, keys: seq<Key>, start: nat, out: array<U64>)
      requires Computed(S) && par.dataLen > 0
      requires forall i | 0 <= i < |keys| :: VerifiedReads(S, H, Value(), keys[i])
      requires start + BATCH_BLOCK <= |keys| <= out.Length && out != data && out != checks
      modifies out
      ensures forall i | 0 <= i < out.Length ::
                out[i] == if start <= i < start + BATCH_BLOCK then LookupVerified(S, H, Value(), keys[i])
                          else old(out[i])
    {
      hide Computed, MixSplit, EdgeOf, Xor64, Fingerprint, LookupVerified, VerifiedReads;
      var hashes := new U64[BATCH_BLOCK];
      var h0, h1, h2 := new U32[BATCH_BLOCK], new U32[BATCH_BLOCK], new U32[BATCH_BLOCK];
      HashBlock(H, par, keys, start, hashes);
      PositionBlock(par.g, hashes, h0, h1, h2);
      var j := 0;
      while j < BATCH_BLOCK
        modifies out
        invariant 0 <= j <= BATCH_BLOCK
        invariant forall i | 0 <= i < out.Length ::
                    out[i] == if start <= i < start + j then LookupVerified(S, H, Value(), keys[i]) else old(out[i])
      {
        VerifiedIs(S, H, Value(), keys[start + j], EdgeOf(par.g, hashes[j]));
        var fp := Xor64(Xor64(checks[h0[j]], checks[h1[j]]), checks[h2[j]]);
        var v := Xor64(Xor64(data[h0[j]], data[h1[j]]), data[h2[j]]);
        out[start + j] := if fp == Fingerprint(hashes[j]) then v else NOT_FOUND;
        j := j + 1;
      }
    }
  }

  class PairedVerifiedConstMap {
    var par: MapParams
    var slots: array<Slot>

    constructor ()
      ensures Value() == PairedMap(EmptyParams(HASH_XXH64), []) && fresh(slots)
    {
      par := EmptyParams(HASH_XXH64);
      slots := new Slot[0];
    }

    ghost function Value(): PairedMap
      reads this, slots
    {
      PairedMap(par, slots[..])
    }

    /** The slots come out as the verified map's value and check words side by side. */
    method Build(x: Input) returns (rc: int)
      requires BuildInput(x)
      modifies this
      ensures rc == BuildCode(x)
      ensures if KnownHash(x.hash) then fresh(slots) else par == old(par) && slots == old(slots)
      ensures KnownHash(x.hash) && (rc != FCM_OK || x.keys == []) ==> Value() == PairedMap(EmptyParams(x.hash), [])
      ensures rc == FCM_OK && x.keys != [] ==>
                && Buildable(x)
                && var v := BuiltVerified(x);
                && Value().par == v.par && SlotValues(slots[..]) == v.data && SlotChecks(slots[..]) == v.checks
    {
      hide PlanFor, CellsFor, ValidGeometry, Lawful, Computed;
      if !KnownHash(x.hash) {
        return FCM_E_INVALID_FORMAT;
      }
      par := EmptyParams(x.hash);
      slots := new Slot[0];
      if |x.keys| == 0 {
        return FCM_OK;
      }
      if |x.keys| > 0xFFFF_FFFF {
        return FCM_E_LENGTH_MISMATCH;
      }
      var p, pairs, order, roles;
      rc, p, pairs, order, roles := Prepare(x);
      if rc == FCM_OK {
        PrepareIsReady(x);
        slots := AssignSlots(x.S, p, pairs, order, roles);
        par := MapParams(p.seed, p.G(), p.arrayLen, |x.keys|, x.hash);
      }
    }

    /** One key. */
    method Lookup(ghost S: Scheme, H: Hasher, key: Key) returns (v: U64)
      requires Computed(S) && PairedReads(S, H, Value(), key)
      ensures v == LookupPaired(S, H, Value(), key)
    {
      hide Computed, MixSplit, Position, Xor64, Fingerprint, LookupPaired, PairedReads;
      if par.dataLen == 0 {
        EmptyAnswersPaired(S, H, Value(), key);
        return NOT_FOUND;
      }
      var hash := MixSplit(HashKey(H, par.hash, key), par.seed);
      var h0, h1, h2 := Positions(hash, par.g);
      PairedIs(S, H, Value(), key, EdgeOf(par.g, hash));
      var a, b, c := slots[h0], slots[h1], slots[h2];
      var check := Xor64(Xor64(a.check, b.check), c.check);
      v := if check == Fingerprint(hash) then Xor64(Xor64(a.value, b.value), c.value) else NOT_FOUND;
    }

    /** A batch: whole blocks phase by phase, then the tail key by key. */
    method LookupMany(ghost S: Scheme, H: Hasher, keys: seq<Key>, out: array<U64>)
      requires Computed(S) && |keys| <= out.Length
      requires forall i | 0 <= i < |keys| :: PairedReads(S, H, Value(), keys[i])
      modifies out
      ensures forall i | 0 <= i < |keys| :: out[i] == LookupPaired(S, H, Value(), keys[i])
      ensures out[|keys|..] == old(out[|keys|..])
    {
      hide Computed, PairedReads, LookupPaired;
      var i := 0;
      if par.dataLen == 0 {
        while i < |keys|
          invariant 0 <= i <= |keys| && out[|keys|..] == old(out[|keys|..])
          invariant forall j | 0 <= j < i :: out[j] == LookupPaired(S, H, Value(), keys[j])
        {
          EmptyAnswersPaired(S, H, Value(), keys[i]);
          out[i] := NOT_FOUND;
          i := i + 1;
        }
        return;
      }
      while i + BATCH_BLOCK <= |keys|
        invariant 0 <= i <= |keys| && out[|keys|..] == old(out[|keys|..])
        invariant forall j | 0 <= j < i :: out[j] == LookupPaired(S, H, Value(), keys[j])
        decreases |keys| - i
      {
        LookupBlock(S, H, keys, i, out);
        i := i + BATCH_BLOCK;
      }
      while i < |keys|
        invariant 0 <= i <= |keys| && out[|keys|..] == old(out[|keys|..])
        invariant forall j | 0 <= j < i :: out[j] == LookupPaired(S, H, Value(), keys[j])
      {
        out[i] := Lookup(S, H, keys[i]);
        i := i + 1;
      }
    }

    method LookupBlock(ghost S: Scheme, H: Hasher, keys: seq<Key>, start: nat, out: array<U64>)
      requires Computed(S) && par.dataLen > 0
      requires forall i | 0 <= i < |keys| :: PairedReads(S, H, Value(), keys[i])
      requires start + BATCH_BLOCK <= |keys| <= out.Length
      modifies out
      ensures forall i | 0 <= i < out.Length ::
                out[i] == if start <= i < start + BATCH_BLOCK then LookupPaired(S, H, Value(), keys[i]) else old(out[i])
    {
      hide Computed, MixSplit, EdgeOf, Xor64, Fingerprint, LookupPaired, PairedReads;
      var hashes := new U64[BATCH_BLOCK];
      var h0, h1, h2 := new U32[BATCH_BLOCK], new U32[BATCH_BLOCK], new U32[BATCH_BLOCK];
      HashBlock(H, par, keys, start, hashes);
      PositionBlock(par.g, hashes, h0, h1, h2);
      var j := 0;
      while j < BATCH_BLOCK
        modifies out
        invariant 0 <= j <= BATCH_BLOCK
        invariant forall i | 0 <= i < out.Length ::
                    out[i] == if start <= i < start + j then LookupPaired(S, H, Value(), keys[i]) else old(out[i])
      {
        PairedIs(S, H, Value(), keys[start + j], EdgeOf(par.g, hashes[j]));
        var a, b, c := slots[h0[j]], slots[h1[j]], slots[h2[j]];
        var check := Xor64(Xor64(a.check, b.check), c.check);
        var v := Xor64(Xor64(a.value, b.value), c.value);
        out[start + j] := if check == Fingerprint(hashes[j]) then v else NOT_FOUND;
        j := j + 1;
      }
    }
  }
}
