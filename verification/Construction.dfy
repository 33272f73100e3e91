/** The peeling engine on its arrays: scatter, count, speculative worklist,
    masks and retries, refining the functions of the other modules. */
module Construction {
  import opened ReturnCodes
  import opened Words
  import opened Mixing
  import opened Geometry
  import opened Hypergraph
  import opened Peeling
  import opened Counting
  import opened Scattering
  import opened Schemes
  import opened Attempts

  /** The parameters the construction updates in place. */
  class Params {
    var seed: U64
    var segLen: U32
    var mask: U32
    var segCount: U32
    var scl: U32
    var arrayLen: U32

    constructor (g: Geometry, cells: U32)
      ensures G() == g && arrayLen == cells && seed == 0
    {
      seed := 0;
      segLen, mask, segCount, scl := g.segLen, g.mask, g.segCount, g.scl;
      arrayLen := cells;
    }

    function G(): Geometry
      reads this
    {
      Geometry(segLen, mask, segCount, scl)
    }

    /** The geometry part of an iteration's start. */
    method SwingSegments(size: nat, iteration: nat)
      modifies this`segLen, this`mask, this`segCount, this`scl
      ensures G() == Swing(old(G()), size, iteration)
    {
      if size > 4 && size < 1000000 {
        if iteration % 4 == 2 {
          segLen := segLen / 2;
          mask := (segLen + TWO32 - 1) % TWO32;
          segCount := (segCount * 2 + 2) % TWO32;
          scl := (segCount * segLen) % TWO32;
        } else if iteration % 4 == 3 {
          segLen := (segLen * 2) % TWO32;
          mask := (segLen + TWO32 - 1) % TWO32;
          segCount := (segCount / 2 + TWO32 - 1) % TWO32;
          scl := (segCount * segLen) % TWO32;
        }
      }
    }
  }

  /** Advances the generator and returns its next output. */
  method NextSeed(state: U64) returns (state': U64, seed: U64)
    ensures state' == Add64(state, GOLDEN) && seed == SplitMixOutput(state')
  {
    state' := Add64(state, GOLDEN);
    seed := SplitMixOutput(state');
  }

  method FindBlockBits(segCount: U32) returns (bits: nat)
    ensures bits == BlockBits(segCount)
  {
    bits := 1;
    while Pow2(bits) < segCount
      invariant 1 <= bits <= 32 && (bits > 1 ==> Pow2(bits - 1) < segCount)
      invariant BlockBitsFrom(bits, segCount) == BlockBits(segCount)
      decreases 32 - bits
    {
      assert bits < 32 by { PowerSizes(); }
      bits := bits + 1;
    }
  }

  // ----- scatter

  /** The scatter state held in the arrays. */
  ghost function ScatterView(order: array<U64>, starts: array<U32>, blocks: nat): SState
    reads order, starts
    requires blocks <= starts.Length
  {
    SState(order[..], starts[..blocks])
  }

  method Scatter(ghost words: seq<U64>, hashed: array<U64>, seed: U64, bits: nat, starts: array<U32>, order: array<U64>)
    requires 1 <= bits <= 31 && Pow2(bits) <= starts.Length && 1 <= hashed.Length < TWO32
    requires |words| == hashed.Length && forall i | 0 <= i < |words| :: words[i] == MixSplit(hashed[i], seed)
    requires order.Length == hashed.Length + 1 && order != hashed
    requires order[..] == seq(hashed.Length, i => 0) + [1]
    modifies starts, order
    ensures order[..] == Scattered(words, bits) + [1]
  {
    hide ScatterTo, MixSplit, Pow2, StartCursors, Open, Place;
    ghost var keys := hashed[..];
    StartIs(words, bits);
    FillStarts(hashed.Length, bits, starts);
    var i := 0;
    while i < hashed.Length
      invariant 0 <= i <= hashed.Length && hashed[..] == keys
      invariant order.Length == |words| + 1 && Pow2(bits) <= starts.Length
      invariant ScatterView(order, starts, Pow2(bits)) == ScatterTo(words, bits, i)
    {
      assert hashed[i] == keys[i];
      var hash := MixSplit(hashed[i], seed);
      ghost var to := ProbeTarget(words, bits, i);
      ScatterNext(words, bits, i);
      PlaceWord(ScatterTo(words, bits, i), to, hash, bits, starts, order);
      i := i + 1;
    }
    ScatteredIs(words, bits);
  }

  method FillStarts(size: nat, bits: nat, starts: array<U32>)
    requires 1 <= bits <= 31 && Pow2(bits) <= starts.Length && 1 <= size < TWO32
    modifies starts
    ensures starts[..Pow2(bits)] == StartCursors(size, bits)
  {
    var i := 0;
    while i < Pow2(bits)
      invariant 0 <= i <= Pow2(bits)
      invariant forall b | 0 <= b < i :: starts[b] == StartCursor(size, bits, b)
    {
      starts[i] := StartCursor(size, bits, i);
      i := i + 1;
    }
  }

  /** Probes for an open block and writes the word where its cursor points. The sentinel is never written. */
  method PlaceWord(ghost s: SState, ghost to: nat, hash: U64, bits: nat, starts: array<U32>, order: array<U64>)
    requires 1 <= bits <= 31 && Pow2(bits) <= starts.Length && 2 <= order.Length <= TWO32
    requires ScatterShape(s, order.Length - 1, Pow2(bits)) && Open(s, order.Length - 1, Pow2(bits), to)
    requires ScatterView(order, starts, Pow2(bits)) == s
    modifies starts, order
    ensures ScatterView(order, starts, Pow2(bits)) == Place(s, order.Length - 1, bits, hash)
  {
    hide Probe, Pow2, Shr;
    var blocks := Pow2(bits);
    ghost var size := order.Length - 1;
    BlockBelow(hash, bits);
    var seg := Shr(hash, 64 - bits);
    ghost var fuel := blocks;
    assert forall b | 0 <= b < blocks :: starts[b] == s.starts[b] <= size;
    while order[starts[seg]] != 0
      invariant seg < blocks && Distance(seg, to, blocks) < fuel
      invariant order[..] == s.order && forall b | 0 <= b < blocks :: starts[b] == s.starts[b] <= size
      invariant Probe(s, size, blocks, seg, fuel) == Probe(s, size, blocks, Shr(hash, 64 - bits), blocks)
      decreases fuel
    {
      assert order[starts[seg]] == s.order[s.starts[seg]];
      ProbeNext(s, size, blocks, seg, fuel);
      NextBlock(seg, to, blocks);
      seg := NextSegment(seg, bits);
      fuel := fuel - 1;
    }
    assert order[starts[seg]] == s.order[s.starts[seg]];
    PlaceResult(s, size, bits, hash, seg, fuel);
    var p := starts[seg];
    order[p] := hash;
    starts[seg] := p + 1;
  }

  /** The next block, cyclically: the mask takes the place of a remainder. */
  function NextSegment(seg: nat, bits: nat): (r: nat)
    requires 1 <= bits <= 31 && seg < Pow2(bits)
    ensures r == (seg + 1) % Pow2(bits)
  {
    AndMask(seg + 1, bits);
    And(seg + 1, Pow2(bits) - 1)
  }

  // ----- count

  /** Counts one word at one cell. Folding in role zero, which the code leaves out, changes nothing. */
  method RaiseCell(c: U32, role: U8, word: U64, t2count: array<U8>, t2hash: array<U64>)
    requires c < t2count.Length == t2hash.Length && role < 3
    modifies t2count, t2hash
    ensures t2count[..] == old(t2count[..])[c := Raise(old(t2count[c]), role)]
    ensures t2hash[..] == old(t2hash[..])[c := Xor64(old(t2hash[c]), word)]
  {
    hide Xor, Xor64;
    var raised := (t2count[c] + 4) % TWO8;
    XorZero(raised);
    t2count[c] := if role == 0 then raised else Xor8(raised, role);
    t2hash[c] := Xor64(t2hash[c], word);
  }

  /** Adds one edge to the tallies and makes the two tests on its three cells. */
  method AddEdge(ghost E: seq<Edge>, ghost n: nat, hash: U64, g: Geometry, t2count: array<U8>, t2hash: array<U64>)
    returns (duplicate: bool, wrapped: bool)
    requires n < |E| && E[n] == EdgeOf(g, hash) && ValidGeometry(g, t2count.Length)
    requires t2count[..] == CountsAfter(E, t2count.Length, n)
    requires t2hash[..] == WordsAfter(E, t2count.Length, n)
    modifies t2count, t2hash
    ensures t2count[..] == CountsAfter(E, t2count.Length, n + 1)
    ensures t2hash[..] == WordsAfter(E, t2count.Length, n + 1)
    ensures duplicate == DuplicateAt(E, n) && wrapped == WrapAt(E, n)
  {
    hide ValidGeometry, CountsAfter, WordsAfter, Raise, Xor64, Counter, Tallied, Position;
    ghost var cells := t2count.Length;
    assert t2hash.Length == |t2hash[..]| == cells;
    EdgeProper(g, cells, hash);
    CountStep(E, cells, n);
    var i1, i2, i3 := Positions(hash, g);
    RaiseCell(i1, 0, hash, t2count, t2hash);
    RaiseCell(i2, 1, hash, t2count, t2hash);
    RaiseCell(i3, 2, hash, t2count, t2hash);
    duplicate, wrapped := Alarms(E, n + 1, i1, i2, i3, t2count, t2hash);
  }

  method Positions(hash: U64, g: Geometry) returns (i1: U32, i2: U32, i3: U32)
    ensures i1 == EdgeOf(g, hash).cell0 && i2 == EdgeOf(g, hash).cell1 && i3 == EdgeOf(g, hash).cell2
  {
    var (h0, h1, h2) := GetH012(hash, g);
    i1, i2, i3 := h0, h1, h2;
  }

  /** The tests, with the code's prefilter on the AND of the three word XORs: it never hides an alarm. */
  method Alarms(ghost E: seq<Edge>, ghost n: nat, i1: nat, i2: nat, i3: nat, t2count: array<U8>, t2hash: array<U64>)
    returns (duplicate: bool, wrapped: bool)
    requires n <= |E| && i1 < t2count.Length && i2 < t2count.Length && i3 < t2count.Length
    requires t2count[..] == CountsAfter(E, t2count.Length, n)
    requires t2hash[..] == WordsAfter(E, t2count.Length, n)
    ensures duplicate <==> (LooksDoubled(Tallied(E, i1, n)) || LooksDoubled(Tallied(E, i2, n))
                            || LooksDoubled(Tallied(E, i3, n)))
    ensures wrapped <==> (Counter(Tallied(E, i1, n)) < 4 || Counter(Tallied(E, i2, n)) < 4
                          || Counter(Tallied(E, i3, n)) < 4)
  {
    hide Tallied, Counter;
    var w1, w2, w3 := t2hash[i1], t2hash[i2], t2hash[i3];
    var k1, k2, k3 := t2count[i1], t2count[i2], t2count[i3];
    assert |t2hash[..]| == |t2count[..]|;
    assert t2count[..][i1] == k1 && t2count[..][i2] == k2 && t2count[..][i3] == k3;
    assert t2hash[..][i1] == w1 && t2hash[..][i2] == w2 && t2hash[..][i3] == w3;
    duplicate := false;
    if And(And(w1, w2), w3) == 0 {
      duplicate := (w1 == 0 && k1 == 8) || (w2 == 0 && k2 == 8) || (w3 == 0 && k3 == 8);
    }
    wrapped := k1 < 4 || k2 < 4 || k3 < 4;
  }

  method CountPass(ghost E: seq<Edge>, order: array<U64>, g: Geometry, t2count: array<U8>, t2hash: array<U64>)
    returns (duplicate: bool, hasError: bool)
    requires order.Length >= 1 && order != t2hash && t2hash.Length == t2count.Length
    requires ValidGeometry(g, t2count.Length)
    requires |E| == order.Length - 1 && forall i | 0 <= i < |E| :: E[i] == EdgeOf(g, order[i])
    requires forall c | 0 <= c < t2count.Length :: t2count[c] == 0 && t2hash[c] == 0
    modifies t2count, t2hash
    ensures duplicate == SomeAlarm(E)
    ensures duplicate ==> exists n: nat :: AlarmsFirst(E, n) && hasError == Overflowed(E, n)
    ensures !duplicate ==>
              && hasError == Overflowed(E, |E|)
              && t2count[..] == CountsAfter(E, t2count.Length, |E|)
              && t2hash[..] == WordsAfter(E, t2count.Length, |E|)
  {
    hide ValidGeometry, EdgeOf, Tallied, DuplicateAt, WrapAt, Overflowed, CountsAfter, WordsAfter;
    ghost var words := order[..];
    StartCounts(E, t2count[..], t2hash[..]);
    duplicate, hasError := false, false;
    var i := 0;
    while i < order.Length - 1
      invariant 0 <= i <= order.Length - 1 && order[..] == words && !duplicate
      invariant forall j | 0 <= j < i :: !DuplicateAt(E, j)
      invariant hasError == Overflowed(E, i)
      invariant t2count[..] == CountsAfter(E, t2count.Length, i)
      invariant t2hash[..] == WordsAfter(E, t2count.Length, i)
    {
      assert words[i] == order[i];
      WrapExact(E, i);
      var wrapped;
      duplicate, wrapped := AddEdge(E, i, order[i], g, t2count, t2hash);
      if duplicate {
        assert AlarmsFirst(E, i);
        return;
      }
      if wrapped {
        hasError := true;
      }
      i := i + 1;
    }
  }

  lemma StartCounts(E: seq<Edge>, count: seq<U8>, word: seq<U64>)
    requires |count| == |word| && forall c | 0 <= c < |count| :: count[c] == 0 && word[c] == 0
    ensures count == CountsAfter(E, |count|, 0) && word == WordsAfter(E, |count|, 0)
    ensures !Overflowed(E, 0)
  {
    forall c: nat
      ensures Tallied(E, c, 0) == Tally(0, 0, 0)
    {
      TalliedNone(E, c);
    }
  }

  // ----- worklist

  method InitWorklist(t2count: array<U8>, alone: array<U32>) returns (qsize: nat)
    requires alone.Length == t2count.Length < TWO32
    modifies alone
    ensures qsize <= alone.Length && alone[..qsize] == InitialWork(t2count[..], t2count.Length)
  {
    qsize := 0;
    var i := 0;
    while i < t2count.Length
      invariant 0 <= i <= t2count.Length && qsize <= i
      invariant alone[..qsize] == InitialWork(t2count[..], i)
    {
      alone[qsize] := i;
      if t2count[i] / 4 == 1 {
        qsize := qsize + 1;
      }
      i := i + 1;
    }
  }

  // ----- peeling

  /** The peeling state held in the arrays: what lies beyond the two sizes is scratch. */
  ghost function PeelView(t2count: array<U8>, t2hash: array<U64>, alone: array<U32>, qsize: nat,
                          order: array<U64>, roles: array<U8>, stacksize: nat): PState
    reads t2count, t2hash, alone, order, roles
    requires qsize <= alone.Length && stacksize <= order.Length && stacksize <= roles.Length
  {
    PState(t2count[..], t2hash[..], alone[..qsize], order[..stacksize], roles[..stacksize])
  }

  ghost predicate Separate(t2hash: array<U64>, t2count: array<U8>, order: array<U64>, roles: array<U8>) {
    t2hash != order && t2count != roles
  }

  /** Takes a peeled word away from one cell: the write to the worklist is made
      first and kept only if the degree was two. */
  method DischargeCell(c: U32, role: U8, word: U64, qsize: nat,
                       t2count: array<U8>, t2hash: array<U64>, alone: array<U32>)
    returns (qsize': nat)
    requires c < t2count.Length == t2hash.Length && qsize < alone.Length && role < 3
    modifies t2count, t2hash, alone
    ensures qsize' <= alone.Length
    ensures alone[..qsize'] == old(alone[..qsize]) + if old(t2count[c]) / 4 == 2 then [c] else []
    ensures t2count[..] == old(t2count[..])[c := Lower(old(t2count[c]), role)]
    ensures t2hash[..] == old(t2hash[..])[c := Xor64(old(t2hash[c]), word)]
  {
    hide Lower, Xor64;
    qsize' := qsize;
    alone[qsize'] := c;
    if t2count[c] / 4 == 2 {
      qsize' := qsize' + 1;
    }
    t2count[c] := Lower(t2count[c], role);
    t2hash[c] := Xor64(t2hash[c], word);
  }

  /** Peels the word of a degree-one cell off the other two cells it recovers. */
  method PeelCell(idx: U32, ghost e: Edge, ghost c1: nat, ghost c2: nat, qsize: nat, stacksize: nat, g: Geometry,
                  t2count: array<U8>, t2hash: array<U64>, alone: array<U32>, order: array<U64>, roles: array<U8>)
    returns (qsize': nat)
    requires ValidGeometry(g, t2count.Length) && t2count.Length == t2hash.Length == alone.Length
    requires Separate(t2hash, t2count, order, roles)
    requires idx < t2count.Length && t2count[idx] % 4 < 3
    requires e == EdgeOf(g, t2hash[idx]) && idx == At(e, t2count[idx] % 4)
    requires c1 == At(e, (t2count[idx] % 4 + 1) % 3) && c2 == At(e, (t2count[idx] % 4 + 2) % 3)
    requires c1 < t2count.Length && c2 < t2count.Length && c1 != c2
    requires qsize < alone.Length && (t2count[c1] / 4 == 2 ==> qsize + 1 < alone.Length)
    requires stacksize < order.Length && stacksize < roles.Length
    modifies t2count, t2hash, alone, order, roles
    ensures qsize' <= alone.Length
    ensures alone[..qsize'] == old(alone[..qsize]) + (if old(t2count[c1]) / 4 == 2 then [c1] else [])
                                                   + (if old(t2count[c2]) / 4 == 2 then [c2] else [])
    ensures t2count[..] == old(t2count[..])[c1 := Lower(old(t2count[c1]), (old(t2count[idx]) % 4 + 1) % 3)]
                                           [c2 := Lower(old(t2count[c2]), (old(t2count[idx]) % 4 + 2) % 3)]
    ensures t2hash[..] == old(t2hash[..])[c1 := Xor64(old(t2hash[c1]), old(t2hash[idx]))]
                                         [c2 := Xor64(old(t2hash[c2]), old(t2hash[idx]))]
    ensures order[..] == old(order[..])[stacksize := old(t2hash[idx])]
    ensures roles[..] == old(roles[..])[stacksize := old(t2count[idx]) % 4]
  {
    hide ValidGeometry, Lower, Xor64, Position, Recover;
    var hash := t2hash[idx];
    var found := t2count[idx] % 4;
    roles[stacksize] := found;
    order[stacksize] := hash;
    RecoverExact(hash, found, g, t2count.Length);
    var nb := Recover(idx, hash, found, g);
    assert nb == Neighbours(c1, (found + 1) % 3, c2, (found + 2) % 3);
    assert t2count[..] == old(t2count[..]) && t2hash[..] == old(t2hash[..]);
    qsize' := DischargeCell(nb.other1, nb.role1, hash, qsize, t2count, t2hash, alone);
    assert t2count[c2] == t2count[..][c2] && t2hash[c2] == t2hash[..][c2];
    qsize' := DischargeCell(nb.other2, nb.role2, hash, qsize', t2count, t2hash, alone);
  }

  /** The code computes the edges f gives. */
  ghost predicate Gives(f: U64 -> Edge, g: Geometry) {
    forall w: U64 :: f(w) == EdgeOf(g, w)
  }

  lemma GivesAt(f: U64 -> Edge, g: Geometry, w: U64)
    requires Gives(f, g)
    ensures f(w) == EdgeOf(g, w)
  {
  }

  lemma ComputedGives(S: Scheme, g: Geometry)
    requires Computed(S)
    ensures Gives(S.edges(g), g)
  {
    hide EdgeOf;
  }

  /** One turn of the worklist loop on the arrays is one Step. */
  method PeelTurn(ghost f: U64 -> Edge, ghost E: seq<Edge>, ghost alive: seq<bool>, g: Geometry,
                  qsize: nat, stacksize: nat,
                  t2count: array<U8>, t2hash: array<U64>, alone: array<U32>, order: array<U64>, roles: array<U8>)
    returns (qsize': nat, stacksize': nat)
    requires ValidGeometry(g, t2count.Length) && Hashing(f, t2count.Length) && Gives(f, g)
    requires t2count.Length == t2hash.Length == alone.Length < TWO32
    requires Separate(t2hash, t2count, order, roles) && |E| == roles.Length == order.Length - 1
    requires 0 < qsize <= alone.Length && stacksize <= roles.Length
    requires Inv(f, t2count.Length, E,
                 PeelView(t2count, t2hash, alone, qsize, order, roles, stacksize), alive)
    modifies t2count, t2hash, alone, order, roles
    ensures qsize' <= alone.Length && stacksize' <= roles.Length && order[|E|] == old(order[|E|])
    ensures PeelView(t2count, t2hash, alone, qsize', order, roles, stacksize')
         == Step(f, t2count.Length, old(PeelView(t2count, t2hash, alone, qsize, order, roles, stacksize)))
  {
    hide ValidGeometry, Hashing, Lower, Xor64, EdgeOf, Inv, Step, Shape, At, Gives;
    ghost var cells := t2count.Length;
    ghost var s := PeelView(t2count, t2hash, alone, qsize, order, roles, stacksize);
    assert Shape(s, cells) by { InvShape(f, cells, E, s, alive); }
    var idx := alone[qsize - 1];
    assert idx == Top(s, cells) && s.count[idx] == t2count[idx] && s.word[idx] == t2hash[idx];
    assert alone[..qsize - 1] == s.work[..qsize - 1];
    if t2count[idx] / 4 != 1 {
      StepPops(f, cells, s, idx);
      qsize', stacksize' := qsize - 1, stacksize;
    } else {
      ghost var e, c1, c2 := TurnFacts(f, cells, E, s, alive, idx);
      StepPeels(f, cells, s, idx, e, t2count[idx] % 4, c1, c2);
      GivesAt(f, g, t2hash[idx]);
      ghost var found := s.count[idx] % 4;
      qsize' := PeelCell(idx, e, c1, c2, qsize - 1, stacksize, g, t2count, t2hash, alone, order, roles);
      stacksize' := stacksize + 1;
      assert order[..stacksize'] == s.stack + [s.word[idx]];
      assert roles[..stacksize'] == s.roles + [found];
    }
  }

  lemma InvShape(f: U64 -> Edge, cells: nat, E: seq<Edge>, s: PState, alive: seq<bool>)
    requires Inv(f, cells, E, s, alive)
    ensures Shape(s, cells)
  {
  }

  /** What a turn that peels relies on: a genuine word and role, and room for every write it makes. */
  lemma TurnFacts(f: U64 -> Edge, cells: nat, E: seq<Edge>, s: PState, alive: seq<bool>, idx: nat)
    returns (e: Edge, c1: nat, c2: nat)
    requires Hashing(f, cells) && Inv(f, cells, E, s, alive) && s.work != [] && idx == Top(s, cells)
    requires s.count[idx] / 4 == 1
    ensures e == f(s.word[idx]) && s.count[idx] % 4 < 3 && idx == At(e, s.count[idx] % 4)
    ensures c1 == At(e, (s.count[idx] % 4 + 1) % 3) && c2 == At(e, (s.count[idx] % 4 + 2) % 3)
    ensures c1 < cells && c2 < cells && c1 != c2 && e.word == s.word[idx]
    ensures |s.stack| < |E| && |s.work| <= cells && (s.count[c1] / 4 == 2 ==> |s.work| < cells)
  {
    hide Degree, Counter, UsedCells, Exclusive;
    var i := PopIsReal(f, cells, E, s, alive, idx);
    e := E[i];
    var found := s.count[idx] % 4;
    c1, c2 := At(e, (found + 1) % 3), At(e, (found + 2) % 3);
    OtherCells(e, cells, found);
    PeelKeepsAccount(E, alive, s.stack, i);
    DistinctBelow(s.work, cells);
    NeighbourDegrees(s.count, s.word, E, alive, UsedCells(f, s.stack, s.roles), i, c1);
    if s.count[c1] / 4 == 2 {
      assert c1 !in s.work;
      DistinctBelow(s.work + [c1], cells);
    }
  }

  lemma {:induction false} DistinctBelow(s: seq<nat>, n: nat)
    requires forall i, j | 0 <= i < j < |s| :: s[i] != s[j]
    requires forall x <- s :: x < n
    ensures |s| <= n
    decreases n
  {
    if s != [] {
      assert s[0] in s;
      if i :| 0 <= i < |s| && s[i] == n - 1 {
        var rest := s[..i] + s[i + 1..];
        assert forall x <- rest :: x in s && x != n - 1;
        DistinctBelow(rest, n - 1);
      } else {
        assert forall x <- s :: x != n - 1;
        DistinctBelow(s, n - 1);
      }
    }
  }

  /** Runs the worklist dry. The result is what every run from this state reaches. */
  method PeelLoop(ghost f: U64 -> Edge, ghost words: seq<U64>, g: Geometry, qsize0: nat,
                  t2count: array<U8>, t2hash: array<U64>, alone: array<U32>, order: array<U64>, roles: array<U8>)
    returns (stacksize: nat)
    requires ValidGeometry(g, t2count.Length) && Hashing(f, t2count.Length) && Gives(f, g)
    requires t2count.Length == t2hash.Length == alone.Length < TWO32
    requires Separate(t2hash, t2count, order, roles) && |words| == roles.Length == order.Length - 1
    requires qsize0 <= alone.Length && !Overflowed(EdgesOf(f, words), |words|)
    requires PeelView(t2count, t2hash, alone, qsize0, order, roles, 0)
          == StartState(f, t2count.Length, words)
    modifies t2count, t2hash, alone, order, roles
    ensures stacksize <= |words| && order[|words|] == old(order[|words|])
    ensures order[..stacksize]
         == Final(f, t2count.Length, StartState(f, t2count.Length, words)).stack
    ensures roles[..stacksize]
         == Final(f, t2count.Length, StartState(f, t2count.Length, words)).roles
  {
    hide ValidGeometry, Hashing, EdgeOf, Inv, Step, Overflowed, Gives;
    ghost var cells := t2count.Length;
    ghost var E := EdgesOf(f, words);
    ghost var s0 := StartState(f, cells, words);
    ghost var s, alive, turns := s0, AllAlive(|words|), 0;
    StartInv(f, cells, words);
    var qsize: nat := qsize0;
    stacksize := 0;
    while qsize > 0
      invariant qsize <= alone.Length && stacksize <= |words| && order[|words|] == old(order[|words|])
      invariant s == PeelView(t2count, t2hash, alone, qsize, order, roles, stacksize)
      invariant Inv(f, cells, E, s, alive) && s == Run(f, cells, s0, turns)
      decreases |words| - stacksize, qsize
    {
      ghost var s1 := Step(f, cells, s);
      ghost var alive1 := StepKeepsInv(f, cells, E, s, alive);
      qsize, stacksize := PeelTurn(f, E, alive, g, qsize, stacksize, t2count, t2hash, alone, order, roles);
      RunLast(f, cells, s0, turns);
      s, alive, turns := s1, alive1, turns + 1;
    }
    FinalUnique(f, cells, s0, turns);
  }

  /** Clears what an attempt left behind; the sentinel stays. */
  method Reset(t2count: array<U8>, t2hash: array<U64>, order: array<U64>)
    requires t2count.Length == t2hash.Length && t2hash != order && order.Length >= 1
    modifies t2count, t2hash, order
    ensures forall c | 0 <= c < t2count.Length :: t2count[c] == 0 && t2hash[c] == 0
    ensures order[..] == seq(order.Length - 1, i => 0) + [old(order[order.Length - 1])]
  {
    var i := 0;
    while i < order.Length - 1
      invariant 0 <= i <= order.Length - 1
      invariant forall j | 0 <= j < i :: order[j] == 0
      invariant order[order.Length - 1] == old(order[order.Length - 1])
    {
      order[i] := 0;
      i := i + 1;
    }
    i := 0;
    while i < t2count.Length
      invariant 0 <= i <= t2count.Length
      invariant order[..] == seq(order.Length - 1, i => 0) + [old(order[order.Length - 1])]
      invariant forall c | 0 <= c < i :: t2count[c] == 0 && t2hash[c] == 0
    {
      t2count[i] := 0;
      t2hash[i] := 0;
      i := i + 1;
    }
  }


  datatype Verdict = Done | Again | Doubled

  /** One attempt from cleared buffers. */
  method TryPeel(ghost S: Scheme, hashed: array<U64>, seed: U64, g: Geometry, starts: array<U32>, bits: nat,
                 alone: array<U32>, t2count: array<U8>, t2hash: array<U64>, roles: array<U8>, order: array<U64>)
    returns (v: Verdict)
    requires Lawful(S) && Computed(S)
    requires ValidGeometry(g, t2count.Length) && t2count.Length == t2hash.Length == alone.Length < TWO32
    requires 1 <= hashed.Length < TWO32 && roles.Length == hashed.Length == order.Length - 1
    requires Separate(t2hash, t2count, order, roles) && hashed != order && hashed != t2hash && starts != alone
    requires bits == BlockBits(g.segCount) <= 31 && Pow2(bits) <= starts.Length
    requires order[..] == seq(hashed.Length, i => 0) + [1]
    requires forall c | 0 <= c < t2count.Length :: t2count[c] == 0 && t2hash[c] == 0
    modifies starts, alone, t2count, t2hash, roles, order
    ensures order[hashed.Length] == 1
    ensures var a := AttemptAt(S, hashed[..], g, t2count.Length, seed);
            && (v == Done <==> a.Success?) && (v == Again <==> a == Retry) && (v == Doubled <==> a == Duplicate)
            && (v == Done ==> order[..hashed.Length] == a.stack && roles[..] == a.roles)
  {
    hide ValidGeometry, EdgeOf, Overflowed, DuplicateAt, MixSplit, Scattered, Final, StartState, Lawful, Computed;
    hide Gives;
    var size := hashed.Length;
    ghost var cells, f := t2count.Length, S.edges(g);
    LawfulEdges(S, g, cells);
    ComputedGives(S, g);
    ghost var mixed := MixedHere(S, hashed[..], seed);
    Scatter(mixed, hashed, seed, bits, starts, order);
    ghost var words := Scattered(mixed, bits);
    assert order[..size] == words && order[size] == 1;
    EdgesHere(f, g, words);
    var duplicate, hasError := CountPass(EdgesOf(f, words), order, g, t2count, t2hash);
    if duplicate {
      return Doubled;
    }
    if hasError {
      return Again;
    }
    var qsize := InitWorklist(t2count, alone);
    assert PeelView(t2count, t2hash, alone, qsize, order, roles, 0) == StartState(f, cells, words) by {
      StartStateIs(f, cells, words);
    }
    var stacksize := PeelLoop(f, words, g, qsize, t2count, t2hash, alone, order, roles);
    v := if stacksize == size then Done else Again;
    assert stacksize == size ==> roles[..stacksize] == roles[..];
  }

  lemma MixedHere(S: Scheme, hashed: seq<U64>, seed: U64) returns (mixed: seq<U64>)
    requires Computed(S)
    ensures mixed == Mixed(S, hashed, seed) && |mixed| == |hashed|
    ensures forall i | 0 <= i < |mixed| :: mixed[i] == MixSplit(hashed[i], seed)
  {
    hide Computed, MixSplit;
    mixed := Mixed(S, hashed, seed);
    forall i | 0 <= i < |mixed|
      ensures mixed[i] == MixSplit(hashed[i], seed)
    {
      MixIs(S, hashed[i], seed);
    }
  }

  lemma EdgesHere(f: U64 -> Edge, g: Geometry, words: seq<U64>)
    requires Gives(f, g)
    ensures forall i | 0 <= i < |words| :: EdgesOf(f, words)[i] == EdgeOf(g, words[i])
  {
    hide EdgeOf;
  }

  lemma StartStateIs(f: U64 -> Edge, cells: nat, words: seq<U64>)
    ensures var E := EdgesOf(f, words);
            StartState(f, cells, words) == PState(CountsAfter(E, cells, |words|), WordsAfter(E, cells, |words|),
                                                  InitialWork(CountsAfter(E, cells, |words|), cells), [], [])
  {
  }

  /** Peels with retries: a fresh seed and the next geometry for each attempt. The
      buffers come in cleared. The outcome, and on success the parameters, the
      stack and the roles, are those of the function PeelFrom. */
  method FcmPeel(ghost S: Scheme, hashed: array<U64>, p: Params, alone: array<U32>, t2count: array<U8>,
                 t2hash: array<U64>, roles: array<U8>, order: array<U64>)
    returns (rc: int)
    requires p.arrayLen == t2count.Length == t2hash.Length == alone.Length
    requires 1 <= hashed.Length < TWO32 && roles.Length == hashed.Length == order.Length - 1
    requires Separate(t2hash, t2count, order, roles) && hashed != order && hashed != t2hash
    requires forall c | 0 <= c < t2count.Length :: t2count[c] == 0 && t2hash[c] == 0
    requires forall i | 0 <= i < hashed.Length :: order[i] == 0
    requires Computed(S) && LoopInput(S, hashed[..], p.G(), p.arrayLen)
    modifies p, alone, t2count, t2hash, roles, order
    ensures p.arrayLen == old(p.arrayLen)
    ensures rc == FCM_OK || rc == FCM_E_DUPLICATE_KEY || rc == FCM_E_CONSTRUCT_FAIL
    ensures var o := PeelFrom(S, hashed[..], old(p.G()), p.arrayLen, 0);
            && (rc == FCM_OK <==> o.Built?) && (rc == FCM_E_DUPLICATE_KEY <==> o.DuplicateKey?)
            && (rc == FCM_OK ==> p.seed == o.seed && p.G() == o.g)
            && (rc == FCM_OK ==> order[..hashed.Length] == o.stack && roles[..] == o.roles)
  {
    hide ValidGeometry, AttemptAt, Swing, SplitMixOutput, PeelFrom, Computed, Lawful, BlockBits, BlockBitsFrom, Pow2;
    hide GeometryAt, GeometryBefore;
    ghost var g0, cells, keys := p.G(), p.arrayLen, hashed[..];
    var size := hashed.Length;
    var counter, seed := NextSeed(1);
    p.seed := seed;
    order[size] := 1;
    var starts := new U32[0];
    var iteration := 0;
    GeometryMoves(g0, size, 0);
    while true
      invariant 0 <= iteration <= MAX_ITERATIONS + 1 && fresh(starts)
      invariant hashed[..] == keys && p.arrayLen == cells
      invariant counter == SeedState(iteration) && p.seed == SeedAt(iteration)
      invariant p.G() == GeometryBefore(g0, size, iteration)
      invariant order[..] == seq(size, i => 0) + [1]
      invariant forall c | 0 <= c < t2count.Length :: t2count[c] == 0 && t2hash[c] == 0
      invariant PeelFrom(S, keys, g0, cells, iteration) == PeelFrom(S, keys, g0, cells, 0)
      decreases MAX_ITERATIONS + 1 - iteration
    {
      if iteration > MAX_ITERATIONS {
        PeelFromEnd(S, keys, g0, cells);
        return FCM_E_CONSTRUCT_FAIL;
      }
      p.SwingSegments(size, iteration);
      GeometryMoves(g0, size, iteration);
      PeelFromStep(S, keys, g0, cells, iteration);
      SeedIs(S, iteration);
      var bits := FindBlockBits(p.segCount);
      BlockBitsFit(p.G(), cells);
      if Pow2(bits) > starts.Length {
        starts := new U32[Pow2(bits)];
      }
      var v := TryPeel(S, hashed, p.seed, p.G(), starts, bits, alone, t2count, t2hash, roles, order);
      if v == Done {
        return FCM_OK;
      } else if v == Doubled {
        return FCM_E_DUPLICATE_KEY;
      }
      Reset(t2count, t2hash, order);
      counter, seed := NextSeed(counter);
      p.seed := seed;
      iteration := iteration + 1;
    }
  }

  /** The number of blocks fits in 32 bits. */
  lemma BlockBitsFit(g: Geometry, cells: nat)
    requires ValidGeometry(g, cells) && g.segLen >= 2
    ensures BlockBits(g.segCount) <= 31
  {
    hide Pow2, BlockBits, ValidGeometry;
    SegCountSmall(g, cells);
    var b := BlockBits(g.segCount);
    assert b == 32 ==> Pow2(31) < g.segCount;
    PowerOf31();
  }

  lemma PowerOf31()
    ensures 2 * Pow2(31) == TWO32
  {
    PowerSizes();
  }

  lemma SegCountSmall(g: Geometry, cells: nat)
    requires ValidGeometry(g, cells) && g.segLen >= 2
    ensures 2 * g.segCount < TWO32
  {
    MulMono(2, g.segLen, g.segCount + 2, g.segCount + 2);
  }
}
