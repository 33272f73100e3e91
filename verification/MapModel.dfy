/** The three kinds of map as values, what a lookup in each returns, and what
    building one from keys and values guarantees. */
module MapModel {
  import opened Words
  import opened Geometry
  import opened Hypergraph
  import opened Peeling
  import opened Schemes
  import opened Attempts
  import opened Assigning

  type Key = seq<U8>

  const HASH_XXH64: U32 := 0
  const HASH_XXH3: U32 := 1
  const NOT_FOUND: U64 := 0xFFFF_FFFF_FFFF_FFFF

  /** The two key hashes, as given functions. */
  datatype Hasher = Hasher(xxh64: Key -> U64, xxh3: Key -> U64)

  function HashKey(H: Hasher, hash: U32, key: Key): U64 {
    if hash == HASH_XXH3 then H.xxh3(key) else H.xxh64(key)
  }

  function HashAll(H: Hasher, hash: U32, keys: seq<Key>): (r: seq<U64>)
    ensures |r| == |keys| && forall i | 0 <= i < |r| :: r[i] == HashKey(H, hash, keys[i])
  {
    seq(|keys|, i requires 0 <= i < |keys| => HashKey(H, hash, keys[i]))
  }

  /** Two hashers between which a map with this hash code cannot tell: only XXH3 matters for
      code 1, only XXH64 for code 0 (and any other). */
  ghost predicate SameHash(H: Hasher, H': Hasher, hash: U32) {
    if hash == 1 then forall key: Key :: H.xxh3(key) == H'.xxh3(key)
    else forall key: Key :: H.xxh64(key) == H'.xxh64(key)
  }

  lemma SameHashKey(H: Hasher, H': Hasher, hash: U32, key: Key)
    requires SameHash(H, H', hash)
    ensures HashKey(H, hash, key) == HashKey(H', hash, key)
  {
  }

  // ----- maps

  /** The scalar fields all three kinds share. */
  datatype MapParams = MapParams(seed: U64, g: Geometry, dataLen: U32, n: U32, hash: U32)

  const ZERO_GEOMETRY := Geometry(0, 0, 0, 0)

  /** All fields zero but the hash. */
  function EmptyParams(hash: U32): MapParams {
    MapParams(0, ZERO_GEOMETRY, 0, 0, hash)
  }

  /** The parameters describe the array, cell for cell: then unchecked indexing is safe. */
  predicate SafeParams(p: MapParams) {
    p.dataLen == 0 || ValidGeometry(p.g, p.dataLen)
  }

  datatype Slot = Slot(value: U64, check: U64)

  datatype PlainMap = PlainMap(par: MapParams, data: seq<U64>)
  datatype VerifiedMap = VerifiedMap(par: MapParams, data: seq<U64>, checks: seq<U64>)
  datatype PairedMap = PairedMap(par: MapParams, slots: seq<Slot>)

  predicate ValidPlain(m: PlainMap) {
    |m.data| == m.par.dataLen && SafeParams(m.par)
  }

  predicate ValidVerified(m: VerifiedMap) {
    |m.data| == |m.checks| == m.par.dataLen && SafeParams(m.par)
  }

  predicate ValidPaired(m: PairedMap) {
    |m.slots| == m.par.dataLen && SafeParams(m.par)
  }

  // ----- lookups, in their simplest form

  function MixedKey(S: Scheme, H: Hasher, p: MapParams, key: Key): U64 {
    S.mix(HashKey(H, p.hash, key), p.seed)
  }

  /** The cells a lookup of this key reads exist. */
  predicate Readable(S: Scheme, H: Hasher, p: MapParams, key: Key) {
    p.dataLen == 0 || Within(S.edges(p.g)(MixedKey(S, H, p, key)), p.dataLen)
  }

  /** All that a lookup needs of a map: arrays of the recorded length, which the key's cells are in. */
  predicate PlainReads(S: Scheme, H: Hasher, m: PlainMap, key: Key) {
    |m.data| == m.par.dataLen && Readable(S, H, m.par, key)
  }

  predicate VerifiedReads(S: Scheme, H: Hasher, m: VerifiedMap, key: Key) {
    |m.data| == |m.checks| == m.par.dataLen && Readable(S, H, m.par, key)
  }

  predicate PairedReads(S: Scheme, H: Hasher, m: PairedMap, key: Key) {
    |m.slots| == m.par.dataLen && Readable(S, H, m.par, key)
  }

  /** Lookups depend on the key hash that the map's code names, and on no other. */
  lemma LookupsUseTheirHash(S: Scheme, H: Hasher, H': Hasher, m: PlainMap, v: VerifiedMap, p: PairedMap, key: Key)
    ensures SameHash(H, H', m.par.hash) && PlainReads(S, H, m, key) ==>
              PlainReads(S, H', m, key) && LookupPlain(S, H', m, key) == LookupPlain(S, H, m, key)
    ensures SameHash(H, H', v.par.hash) && VerifiedReads(S, H, v, key) ==>
              VerifiedReads(S, H', v, key) && LookupVerified(S, H', v, key) == LookupVerified(S, H, v, key)
    ensures SameHash(H, H', p.par.hash) && PairedReads(S, H, p, key) ==>
              PairedReads(S, H', p, key) && LookupPaired(S, H', p, key) == LookupPaired(S, H, p, key)
  {
    hide HashKey, SameHash, Gather, Checked, CheckedSlot;
    if SameHash(H, H', m.par.hash) {
      SameHashKey(H, H', m.par.hash, key);
    }
    if SameHash(H, H', v.par.hash) {
      SameHashKey(H, H', v.par.hash, key);
    }
    if SameHash(H, H', p.par.hash) {
      SameHashKey(H, H', p.par.hash, key);
    }
  }

  /** With parameters that describe the array, every key can be looked up. */
  lemma SafeIsReadable(S: Scheme, H: Hasher, p: MapParams, key: Key)
    requires Lawful(S) && SafeParams(p)
    ensures Readable(S, H, p, key)
  {
    hide ValidGeometry, Lawful;
    if p.dataLen > 0 {
      LawfulEdges(S, p.g, p.dataLen);
    }
  }

  /** The XOR of the three cells of a mixed hash. */
  function Gather(S: Scheme, p: MapParams, data: seq<U64>, hash: U64): U64
    requires Within(S.edges(p.g)(hash), |data|)
  {
    Fold3(data, S.edges(p.g)(hash))
  }

  function LookupPlain(S: Scheme, H: Hasher, m: PlainMap, key: Key): U64
    requires PlainReads(S, H, m, key)
  {
    if m.par.dataLen == 0 then 0 else Gather(S, m.par, m.data, MixedKey(S, H, m.par, key))
  }

  function Checked(S: Scheme, p: MapParams, data: seq<U64>, checks: seq<U64>, hash: U64): U64
    requires |data| == |checks| && Within(S.edges(p.g)(hash), |data|)
  {
    if Gather(S, p, checks, hash) == S.check(hash) then Gather(S, p, data, hash) else NOT_FOUND
  }

  function LookupVerified(S: Scheme, H: Hasher, m: VerifiedMap, key: Key): U64
    requires VerifiedReads(S, H, m, key)
  {
    if m.par.dataLen == 0 then NOT_FOUND else Checked(S, m.par, m.data, m.checks, MixedKey(S, H, m.par, key))
  }

  /** The value and check words of a slot array. */
  function SlotValues(slots: seq<Slot>): (r: seq<U64>)
    ensures |r| == |slots| && forall i | 0 <= i < |r| :: r[i] == slots[i].value
  {
    seq(|slots|, i requires 0 <= i < |slots| => slots[i].value)
  }

  function SlotChecks(slots: seq<Slot>): (r: seq<U64>)
    ensures |r| == |slots| && forall i | 0 <= i < |r| :: r[i] == slots[i].check
  {
    seq(|slots|, i requires 0 <= i < |slots| => slots[i].check)
  }

  function Zip(values: seq<U64>, checks: seq<U64>): (r: seq<Slot>)
    requires |values| == |checks|
    ensures |r| == |values| && forall i | 0 <= i < |r| :: r[i] == Slot(values[i], checks[i])
  {
    seq(|values|, i requires 0 <= i < |values| => Slot(values[i], checks[i]))
  }

  /** XOR of three slots, word by word. */
  function SlotXor3(slots: seq<Slot>, e: Edge): Slot
    requires Within(e, |slots|)
  {
    var a, b, c := slots[e.cell0], slots[e.cell1], slots[e.cell2];
    Slot(Xor64(Xor64(a.value, b.value), c.value), Xor64(Xor64(a.check, b.check), c.check))
  }

  function CheckedSlot(S: Scheme, p: MapParams, slots: seq<Slot>, hash: U64): U64
    requires Within(S.edges(p.g)(hash), |slots|)
  {
    var r := SlotXor3(slots, S.edges(p.g)(hash));
    if r.check == S.check(hash) then r.value else NOT_FOUND
  }

  function LookupPaired(S: Scheme, H: Hasher, m: PairedMap, key: Key): U64
    requires PairedReads(S, H, m, key)
  {
    if m.par.dataLen == 0 then NOT_FOUND else CheckedSlot(S, m.par, m.slots, MixedKey(S, H, m.par, key))
  }

  /** Zipping a verified map's arrays changes no answer, for present and absent keys alike. */
  lemma PairedAgreesWithSplit(S: Scheme, H: Hasher, v: VerifiedMap, p: PairedMap, key: Key)
    requires VerifiedReads(S, H, v, key) && p == PairedMap(v.par, Zip(v.data, v.checks))
    ensures PairedReads(S, H, p, key) && LookupPaired(S, H, p, key) == LookupVerified(S, H, v, key)
  {
    hide Xor64, MixedKey;
  }

  // ----- built maps

  /** What the floating-point sizing gives: the segment length before the clamp, and the capacity. */
  datatype Sizing = Sizing(rawSegLen: U32, capacity: U32)

  predicate SizingOk(z: Sizing) {
    IsPow2(z.rawSegLen) && z.rawSegLen >= 4
  }

  const MAX_SEGMENT: U32 := 262144

  function InitialSegLen(z: Sizing): U32 {
    if z.rawSegLen > MAX_SEGMENT then MAX_SEGMENT else z.rawSegLen
  }

  function CapacityFor(size: nat, z: Sizing): U32 {
    if size > 1 then z.capacity else 0
  }

  /** Segments that hold the capacity, never fewer than three. The sum wraps at 32 bits. */
  function TotalSegments(size: nat, z: Sizing): U32
    requires SizingOk(z)
  {
    var L := InitialSegLen(z);
    var sum := (CapacityFor(size, z) + L - 1) % TWO32;
    SegmentsBound(sum, L);
    if sum / L < 3 then 3 else sum / L
  }

  lemma SegmentsBound(sum: U32, L: U32)
    requires L >= 1
    ensures 0 <= sum / L <= sum && sum / L * L <= sum
  {
    DivLe(sum, L);
    assert sum == sum / L * L + sum % L;
  }

  function InitialCells(size: nat, z: Sizing): (cells: U32)
    requires SizingOk(z)
    ensures cells == TotalSegments(size, z) * InitialSegLen(z)
  {
    TotalFits(size, z);
    TotalSegments(size, z) * InitialSegLen(z)
  }

  lemma TotalFits(size: nat, z: Sizing)
    requires SizingOk(z)
    ensures 0 <= TotalSegments(size, z) * InitialSegLen(z) < TWO32
  {
    var L := InitialSegLen(z);
    SegmentsBound((CapacityFor(size, z) + L - 1) % TWO32, L);
    MulMono(3, 3, L, MAX_SEGMENT);
  }

  function InitialGeometry(size: nat, z: Sizing): (g: Geometry)
    requires SizingOk(z)
    ensures ValidGeometry(g, InitialCells(size, z)) && g.segLen >= 4
  {
    InitialValid(size, z);
    var L, count := InitialSegLen(z), TotalSegments(size, z) - 2;
    Geometry(L, L - 1, count, count * L)
  }

  lemma InitialValid(size: nat, z: Sizing)
    requires SizingOk(z)
    ensures var L, count := InitialSegLen(z), TotalSegments(size, z) - 2;
            && L >= 4 && 0 <= count * L < TWO32
            && ValidGeometry(Geometry(L, L - 1, count, count * L), InitialCells(size, z))
  {
    var L, total := InitialSegLen(z), TotalSegments(size, z);
    TotalFits(size, z);
    MulMono(total - 2, total, L, L);
    assert IsPow2(MAX_SEGMENT) by {
      assert Pow2(9) == 512;
      Pow2Add(9, 9);
      Pow2IsPow2(18);
    }
  }

  /** The array holds the capacity, in whole segments with less than one to spare or in the
      three-segment minimum, if and only if the 32-bit sum did not wrap. */
  lemma CellsCoverCapacity(size: nat, z: Sizing)
    requires SizingOk(z)
    ensures var L := if z.rawSegLen <= 0x4_0000 then z.rawSegLen else 0x4_0000;
            var capacity, cells := if size > 1 then z.capacity else 0, InitialCells(size, z);
            && InitialGeometry(size, z).segLen == L >= 4
            && cells == (InitialGeometry(size, z).segCount + 2) * L >= 3 * L
            && (cells >= capacity <==> capacity + L <= TWO32)
            && (cells >= capacity ==> cells < capacity + L || cells == 3 * L)
  {
    hide IsPow2;
    var capacity, L := CapacityFor(size, z), InitialSegLen(z);
    MulMono(3, TotalSegments(size, z), L, L);
    if capacity + L <= TWO32 {
      DivUnique(capacity + L - 1, TWO32, 0, capacity + L - 1);
      SpareBelow(capacity, L, (capacity + L - 1) / L);
      MulMono((capacity + L - 1) / L, TotalSegments(size, z), L, L);
    } else {
      DivUnique(capacity + L - 1, TWO32, 1, capacity + L - 1 - TWO32);
      DivUnique(capacity + L - 1 - TWO32, L, 0, capacity + L - 1 - TWO32);
    }
  }

  lemma SpareBelow(capacity: nat, L: nat, q: int)
    requires L >= 1 && q == (capacity + L - 1) / L
    ensures 0 <= q && capacity <= q * L < capacity + L
  {
    DivLe(capacity + L - 1, L);
    var r := (capacity + L - 1) % L;
    assert capacity + L - 1 == q * L + r;
  }

  /** Everything a construction is given. */
  datatype Input = Input(S: Scheme, H: Hasher, sort: seq<Pair> -> seq<Pair>, z: Sizing,
                         keys: seq<Key>, values: seq<U64>, hash: U32)

  ghost predicate Given(x: Input) {
    && Lawful(x.S) && IsSorter(x.sort) && SizingOk(x.z)
    && 1 <= |x.keys| == |x.values| && |x.keys| < TWO32
  }

  function Hashed(x: Input): seq<U64> {
    HashAll(x.H, x.hash, x.keys)
  }

  /** Which hash of the keys is peeled and stored. */
  lemma HashedByCode(x: Input, i: nat)
    requires i < |x.keys|
    ensures x.hash == 0 ==> Hashed(x)[i] == x.H.xxh64(x.keys[i])
    ensures x.hash == 1 ==> Hashed(x)[i] == x.H.xxh3(x.keys[i])
  {
  }

  lemma SameHashed(x: Input, H': Hasher)
    requires SameHash(x.H, H', x.hash)
    ensures Hashed(x.(H := H')) == Hashed(x)
  {
    hide HashKey, SameHash;
    forall i | 0 <= i < |x.keys|
      ensures HashKey(H', x.hash, x.keys[i]) == HashKey(x.H, x.hash, x.keys[i])
    {
      SameHashKey(x.H, H', x.hash, x.keys[i]);
    }
  }

  function CellsFor(x: Input): U32
    requires SizingOk(x.z)
  {
    InitialCells(|x.keys|, x.z)
  }

  /** What peeling decides for these keys. */
  ghost function PlanFor(x: Input): Outcome
    requires Given(x)
  {
    PeelFrom(x.S, Hashed(x), InitialGeometry(|x.keys|, x.z), CellsFor(x), 0)
  }

  ghost predicate Buildable(x: Input) {
    Given(x) && PlanFor(x).Built?
  }

  /** A finished plan: distinct hashes, and a peeling order of the mixed ones over a valid geometry. */
  lemma PlanFacts(x: Input)
    requires Buildable(x)
    ensures var o, cells := PlanFor(x), CellsFor(x);
            && ValidGeometry(o.g, cells) && cells > 0
            && Distinct(Hashed(x)) && multiset(o.stack) == multiset(Mixed(x.S, Hashed(x), o.seed))
            && PeelStack(x.S.edges(o.g), o.stack, o.roles)
            && |o.stack| == |o.roles| == |x.keys|
            && (forall i | 0 <= i < |x.keys| :: Proper(EdgesOf(x.S.edges(o.g), o.stack)[i], cells) && o.roles[i] < 3)
  {
    hide PeelFrom, ValidGeometry, InitialGeometry, Hopeless, Lawful, InitialCells;
    var o, hashed, cells := PlanFor(x), Hashed(x), CellsFor(x);
    var g := InitialGeometry(|x.keys|, x.z);
    assert ValidGeometry(g, cells) && g.segLen >= 4 by { InitialGeometryValid(|x.keys|, x.z); }
    PeelFromExact(x.S, hashed, g, cells, 0);
    var k :| 0 <= k <= MAX_ITERATIONS && o.g == GeometryAt(g, |hashed|, k);
    GeometryAtExact(g, cells, |hashed|, k);
    assert |multiset(o.stack)| == |o.stack| && |multiset(Mixed(x.S, hashed, o.seed))| == |x.keys|;
    CellsPositive(o.g, cells);
    LawfulEdges(x.S, o.g, cells);
  }

  lemma InitialGeometryValid(size: nat, z: Sizing)
    requires SizingOk(z)
    ensures ValidGeometry(InitialGeometry(size, z), InitialCells(size, z)) && InitialGeometry(size, z).segLen >= 4
  {
  }

  lemma CellsPositive(g: Geometry, cells: nat)
    requires ValidGeometry(g, cells)
    ensures cells > 0
  {
    MulMono(1, g.segCount + 2, 1, g.segLen);
  }

  function Zeros(n: nat): (d: seq<U64>)
    ensures |d| == n && forall i | 0 <= i < n :: d[i] == 0
  {
    seq(n, i => 0)
  }

  ghost function ParamsOf(x: Input): MapParams
    requires Buildable(x)
  {
    MapParams(PlanFor(x).seed, PlanFor(x).g, CellsFor(x), |x.keys|, x.hash)
  }

  /** What a built map records: the number of keys and the hash code it was given, the seed and
      the geometry of one of the 101 attempts, and the length of its arrays. */
  lemma BuiltRecords(x: Input)
    requires Buildable(x)
    ensures var p := ParamsOf(x);
            && p.n == |x.keys| && p.hash == x.hash && p.dataLen == InitialCells(|x.keys|, x.z)
            && exists k | 0 <= k <= 100 ::
                 p.seed == x.S.seeds(k) && p.g == GeometryAt(InitialGeometry(|x.keys|, x.z), |x.keys|, k)
  {
    hide PeelFrom, ValidGeometry, InitialGeometry, Hopeless, Alarmed, Lawful, InitialCells, Distinct;
    InitialGeometryValid(|x.keys|, x.z);
    PeelFromExact(x.S, Hashed(x), InitialGeometry(|x.keys|, x.z), CellsFor(x), 0);
  }

  /** The word array that answers vals for the plan's stack. */
  ghost function SolvePlan(x: Input, vals: seq<U64>): (d: seq<U64>)
    requires Buildable(x) && |vals| == |x.keys|
    ensures |d| == CellsFor(x)
  {
    PlanFacts(x);
    var o := PlanFor(x);
    Assigned(EdgesOf(x.S.edges(o.g), o.stack), o.roles, vals, Zeros(CellsFor(x)))
  }

  ghost function SortedPairsOf(x: Input): seq<Pair>
    requires Buildable(x)
  {
    x.sort(PairsOf(Mixed(x.S, Hashed(x), PlanFor(x).seed), x.values))
  }

  function ChecksFor(S: Scheme, stack: seq<U64>): (v: seq<U64>)
    ensures |v| == |stack| && forall k | 0 <= k < |v| :: v[k] == S.check(stack[k])
  {
    seq(|stack|, k requires 0 <= k < |stack| => S.check(stack[k]))
  }

  ghost function DataOf(x: Input): (d: seq<U64>)
    requires Buildable(x)
    ensures |d| == CellsFor(x)
  {
    PlanFacts(x);
    SolvePlan(x, ValuesFor(SortedPairsOf(x), PlanFor(x).stack))
  }

  ghost function ChecksOf(x: Input): (d: seq<U64>)
    requires Buildable(x)
    ensures |d| == CellsFor(x)
  {
    PlanFacts(x);
    SolvePlan(x, ChecksFor(x.S, PlanFor(x).stack))
  }

  ghost function BuiltPlain(x: Input): PlainMap
    requires Buildable(x)
  {
    PlainMap(ParamsOf(x), DataOf(x))
  }

  ghost function BuiltVerified(x: Input): VerifiedMap
    requires Buildable(x)
  {
    VerifiedMap(ParamsOf(x), DataOf(x), ChecksOf(x))
  }

  ghost function BuiltPaired(x: Input): PairedMap
    requires Buildable(x)
  {
    PairedMap(ParamsOf(x), Zip(DataOf(x), ChecksOf(x)))
  }

  // ----- what the plan's arrays answer

  lemma ParamsFacts(x: Input)
    requires Buildable(x)
    ensures ValidGeometry(ParamsOf(x).g, ParamsOf(x).dataLen) && ParamsOf(x).dataLen == CellsFor(x) > 0
  {
    hide PlanFor, ValidGeometry, CellsFor, Given;
    PlanFacts(x);
  }

  /** The solved array answers, for the i-th key, the value of the stack entry holding that key's mixed hash. */
  lemma PlanAnswers(x: Input, vals: seq<U64>, i: nat) returns (k: nat)
    requires Buildable(x) && |x.keys| < INDEX_LIMIT && i < |x.keys| == |vals|
    ensures var o, p := PlanFor(x), ParamsOf(x);
            && |SolvePlan(x, vals)| == p.dataLen
            && k < |o.stack| == |vals| && o.stack[k] == MixedKey(x.S, x.H, p, x.keys[i])
            && o.stack[k] == Mixed(x.S, Hashed(x), o.seed)[i]
            && Within(x.S.edges(p.g)(o.stack[k]), p.dataLen)
            && Gather(x.S, p, SolvePlan(x, vals), o.stack[k]) == vals[k]
  {
    hide PlanFor, ValidGeometry, Solve, Fold3, CellsFor, Lawful;
    PlanFacts(x);
    var o := PlanFor(x);
    var mixed := Mixed(x.S, Hashed(x), o.seed);
    assert mixed[i] in multiset(mixed);
    assert mixed[i] in multiset(o.stack);
    k :| 0 <= k < |o.stack| && o.stack[k] == mixed[i];
    SolveSolves(EdgesOf(x.S.edges(o.g), o.stack), o.roles, vals, Zeros(CellsFor(x)), 0);
  }

  /** Every inserted key answers its own value. */
  lemma PlainAnswers(x: Input, i: nat)
    requires Buildable(x) && |x.keys| < INDEX_LIMIT && i < |x.keys|
    ensures var m := BuiltPlain(x);
            && ValidPlain(m) && PlainReads(x.S, x.H, m, x.keys[i])
            && LookupPlain(x.S, x.H, m, x.keys[i]) == x.values[i]
  {
    hide PlanFor, ValidGeometry, Gather, SolvePlan, LowerBound, CellsFor, Lawful;
    PlanFacts(x);
    ParamsFacts(x);
    var o := PlanFor(x);
    var mixed := Mixed(x.S, Hashed(x), o.seed);
    var k := PlanAnswers(x, ValuesFor(SortedPairsOf(x), o.stack), i);
    LookupFinds(mixed, x.values, SortedPairsOf(x), i);
    MixedDistinct(x.S, Hashed(x), o.seed);
  }

  /** Every inserted key finds its check word. */
  lemma ChecksAnswer(x: Input, i: nat)
    requires Buildable(x) && |x.keys| < INDEX_LIMIT && i < |x.keys|
    ensures var p, w := ParamsOf(x), MixedKey(x.S, x.H, ParamsOf(x), x.keys[i]);
            && |ChecksOf(x)| == p.dataLen && Within(x.S.edges(p.g)(w), p.dataLen)
            && Gather(x.S, p, ChecksOf(x), w) == x.S.check(w)
  {
    hide PlanFor, ValidGeometry, Gather, SolvePlan, CellsFor, Lawful;
    PlanFacts(x);
    var k := PlanAnswers(x, ChecksFor(x.S, PlanFor(x).stack), i);
  }

  /** A verified map finds every inserted key's check word, so it answers the key's own value:
      "not found" only where that is the value stored. */
  lemma VerifiedAnswers(x: Input, i: nat)
    requires Buildable(x) && |x.keys| < INDEX_LIMIT && i < |x.keys|
    ensures var m := BuiltVerified(x);
            && ValidVerified(m) && VerifiedReads(x.S, x.H, m, x.keys[i])
            && LookupVerified(x.S, x.H, m, x.keys[i]) == x.values[i]
            && (LookupVerified(x.S, x.H, m, x.keys[i]) == NOT_FOUND <==> x.values[i] == NOT_FOUND)
  {
    hide PlanFor, ValidGeometry, Gather, SolvePlan, CellsFor, Lawful, DataOf, ChecksOf;
    ParamsFacts(x);
    PlainAnswers(x, i);
    ChecksAnswer(x, i);
  }

  lemma PairedAnswers(x: Input, i: nat)
    requires Buildable(x) && |x.keys| < INDEX_LIMIT && i < |x.keys|
    ensures var m := BuiltPaired(x);
            && ValidPaired(m) && PairedReads(x.S, x.H, m, x.keys[i])
            && LookupPaired(x.S, x.H, m, x.keys[i]) == x.values[i]
  {
    hide PlanFor, LookupPaired, LookupVerified, DataOf, ChecksOf, ParamsOf, Lawful;
    VerifiedAnswers(x, i);
    PairedAgreesWithSplit(x.S, x.H, BuiltVerified(x), BuiltPaired(x), x.keys[i]);
  }

  /** On the same input the three layouts hold the same words; the two checked ones
      answer alike for every key, present or absent, and never differently from the
      plain one unless they report the key missing. */
  lemma LayoutsAgree(x: Input, key: Key)
    requires Buildable(x)
    ensures var plain, v, p := BuiltPlain(x), BuiltVerified(x), BuiltPaired(x);
            && plain.par == v.par == p.par && plain.data == v.data == SlotValues(p.slots)
            && v.checks == SlotChecks(p.slots)
            && ValidPlain(plain) && ValidVerified(v) && ValidPaired(p)
            && PlainReads(x.S, x.H, plain, key) && VerifiedReads(x.S, x.H, v, key) && PairedReads(x.S, x.H, p, key)
            && LookupPaired(x.S, x.H, p, key) == LookupVerified(x.S, x.H, v, key)
            && (LookupVerified(x.S, x.H, v, key) == NOT_FOUND
                || LookupVerified(x.S, x.H, v, key) == LookupPlain(x.S, x.H, plain, key))
  {
    hide PlanFor, ValidGeometry, CellsFor, SolvePlan, Gather, MixedKey, Lawful, DataOf, ChecksOf;
    ParamsFacts(x);
    SafeIsReadable(x.S, x.H, ParamsOf(x), key);
    PairedAgreesWithSplit(x.S, x.H, BuiltVerified(x), BuiltPaired(x), key);
  }

  // ----- too many keys for the assignment index

  /** What a checked map answers where nothing was assigned. */
  function Unassigned(S: Scheme, H: Hasher, p: MapParams, key: Key): U64 {
    if S.check(MixedKey(S, H, p, key)) == 0 then 0 else NOT_FOUND
  }

  /** With more than 2^31 keys building still succeeds, but nothing was assigned: every key
      answers 0 in the plain map, and is missing from the checked ones unless its check word is 0. */
  lemma PastIndexLimit(x: Input, key: Key)
    requires Buildable(x) && |x.keys| > INDEX_LIMIT
    ensures var plain, v, p := BuiltPlain(x), BuiltVerified(x), BuiltPaired(x);
            && PlainReads(x.S, x.H, plain, key) && VerifiedReads(x.S, x.H, v, key) && PairedReads(x.S, x.H, p, key)
            && LookupPlain(x.S, x.H, plain, key) == 0
            && LookupVerified(x.S, x.H, v, key) == LookupPaired(x.S, x.H, p, key)
                 == Unassigned(x.S, x.H, v.par, key)
  {
    hide PlanFor, ValidGeometry, CellsFor, MixedKey, Lawful, Xor, LookupPaired;
    LayoutsAgree(x, key);
    PlanFacts(x);
    ParamsFacts(x);
    XorZero(0);
  }

  /** Exactly when a built plain map answers every key: past 2^31 of them, only if all values are 0. */
  lemma PlainAnswersExactly(x: Input)
    requires Buildable(x) && |x.keys| != INDEX_LIMIT
    ensures (forall i | 0 <= i < |x.keys| ::
               PlainReads(x.S, x.H, BuiltPlain(x), x.keys[i])
               && LookupPlain(x.S, x.H, BuiltPlain(x), x.keys[i]) == x.values[i])
       <==> |x.keys| < INDEX_LIMIT || forall i | 0 <= i < |x.keys| :: x.values[i] == 0
  {
    hide PlanFor, BuiltPlain, LookupPlain, Lawful, PlainReads;
    forall i | 0 <= i < |x.keys|
      ensures PlainReads(x.S, x.H, BuiltPlain(x), x.keys[i])
      ensures LookupPlain(x.S, x.H, BuiltPlain(x), x.keys[i]) == if |x.keys| < INDEX_LIMIT then x.values[i] else 0
    {
      if |x.keys| < INDEX_LIMIT {
        PlainAnswers(x, i);
      } else {
        PastIndexLimit(x, x.keys[i]);
      }
    }
  }

  /** Exactly when a built checked map, of either layout, answers every key. */
  lemma CheckedAnswerExactly(x: Input)
    requires Buildable(x) && |x.keys| != INDEX_LIMIT
    ensures (forall i | 0 <= i < |x.keys| ::
               VerifiedReads(x.S, x.H, BuiltVerified(x), x.keys[i])
               && LookupVerified(x.S, x.H, BuiltVerified(x), x.keys[i]) == x.values[i])
       <==> |x.keys| < INDEX_LIMIT
            || forall i | 0 <= i < |x.keys| :: x.values[i] == Unassigned(x.S, x.H, ParamsOf(x), x.keys[i])
    ensures (forall i | 0 <= i < |x.keys| ::
               PairedReads(x.S, x.H, BuiltPaired(x), x.keys[i])
               && LookupPaired(x.S, x.H, BuiltPaired(x), x.keys[i]) == x.values[i])
       <==> |x.keys| < INDEX_LIMIT
            || forall i | 0 <= i < |x.keys| :: x.values[i] == Unassigned(x.S, x.H, ParamsOf(x), x.keys[i])
  {
    hide PlanFor, LookupVerified, LookupPaired, Lawful, VerifiedReads, PairedReads, Unassigned, DataOf, ChecksOf;
    hide ParamsOf;
    forall i | 0 <= i < |x.keys|
      ensures VerifiedReads(x.S, x.H, BuiltVerified(x), x.keys[i]) && PairedReads(x.S, x.H, BuiltPaired(x), x.keys[i])
      ensures LookupVerified(x.S, x.H, BuiltVerified(x), x.keys[i]) == LookupPaired(x.S, x.H, BuiltPaired(x), x.keys[i])
           == if |x.keys| < INDEX_LIMIT then x.values[i] else Unassigned(x.S, x.H, ParamsOf(x), x.keys[i])
    {
      if |x.keys| < INDEX_LIMIT {
        VerifiedAnswers(x, i);
        PairedAnswers(x, i);
      } else {
        PastIndexLimit(x, x.keys[i]);
      }
    }
  }
}
