/** Back-substitution: walking the peeling stack backwards, each word's
    exclusive cell is set so that its three cells XOR to its value. */
module Assigning {
  import opened Words
  import opened Hypergraph
  import opened Peeling

  /** What a lookup reads: the XOR of an edge's three cells. */
  function Fold3(d: seq<U64>, e: Edge): U64
    requires Within(e, |d|)
  {
    Xor64(Xor64(d[e.cell0], d[e.cell1]), d[e.cell2])
  }

  /** Sets the cell of the given role to v ^ (the other two). */
  function Put(d: seq<U64>, e: Edge, role: nat, v: U64): (r: seq<U64>)
    requires Proper(e, |d|) && role < 3
    ensures |r| == |d|
  {
    d[At(e, role) := Xor64(Xor64(v, d[At(e, (role + 1) % 3)]), d[At(e, (role + 2) % 3)])]
  }

  lemma PutSolves(d: seq<U64>, e: Edge, role: nat, v: U64)
    requires Proper(e, |d|) && role < 3
    ensures Fold3(Put(d, e, role, v), e) == v
  {
    hide Xor;
    var a, b := d[At(e, (role + 1) % 3)], d[At(e, (role + 2) % 3)];
    var x := Xor(Xor(v, a), b);
    XorCancel(Xor(v, a), b);
    XorCancel(v, a);
    XorSwap(x, a, b);
    if role == 0 {
    } else if role == 1 {
      XorComm(b, x);
    } else {
      XorComm(Xor(a, b), x);
      XorAssoc(x, a, b);
    }
  }

  lemma PutKeeps(d: seq<U64>, e: Edge, role: nat, v: U64, f: Edge)
    requires Proper(e, |d|) && Proper(f, |d|) && role < 3
    requires !Touches(f, At(e, role))
    ensures Fold3(Put(d, e, role, v), f) == Fold3(d, f)
  {
  }

  /** The array after stack entries k and up have been assigned, last first. */
  function Solve(E: seq<Edge>, roles: seq<nat>, vals: seq<U64>, d: seq<U64>, k: nat): (r: seq<U64>)
    requires k <= |E| == |roles| == |vals| && forall i | 0 <= i < |E| :: Proper(E[i], |d|) && roles[i] < 3
    ensures |r| == |d|
    decreases |E| - k
  {
    if k == |E| then d else Put(Solve(E, roles, vals, d, k + 1), E[k], roles[k], vals[k])
  }

  lemma SolveStep(E: seq<Edge>, roles: seq<nat>, vals: seq<U64>, d: seq<U64>, k: nat)
    requires k < |E| == |roles| == |vals| && forall i | 0 <= i < |E| :: Proper(E[i], |d|) && roles[i] < 3
    ensures |Solve(E, roles, vals, d, k + 1)| == |d|
    ensures Solve(E, roles, vals, d, k) == Put(Solve(E, roles, vals, d, k + 1), E[k], roles[k], vals[k])
  {
    hide Put;
  }

  lemma SolveNone(E: seq<Edge>, roles: seq<nat>, vals: seq<U64>, d: seq<U64>)
    requires |E| == |roles| == |vals| && forall i | 0 <= i < |E| :: Proper(E[i], |d|) && roles[i] < 3
    ensures Solve(E, roles, vals, d, |E|) == d
  {
  }

  /** Each assignment keeps every equation already established, so in the end all
      of them hold at once, whatever the array held before. */
  lemma {:induction false} SolveSolves(E: seq<Edge>, roles: seq<nat>, vals: seq<U64>, d: seq<U64>, k: nat)
    requires k <= |E| == |roles| == |vals| && forall i | 0 <= i < |E| :: Proper(E[i], |d|) && roles[i] < 3
    requires Exclusive(E, roles)
    ensures forall j | k <= j < |E| :: Fold3(Solve(E, roles, vals, d, k), E[j]) == vals[j]
    decreases |E| - k
  {
    hide Fold3, Put;
    if k < |E| {
      SolveSolves(E, roles, vals, d, k + 1);
      var d1 := Solve(E, roles, vals, d, k + 1);
      PutSolves(d1, E[k], roles[k], vals[k]);
      forall j | k < j < |E|
        ensures Fold3(Solve(E, roles, vals, d, k), E[j]) == vals[j]
      {
        PutKeeps(d1, E[k], roles[k], vals[k], E[j]);
      }
    }
  }

  /** The number of stack entries, read as a signed 32-bit number. */
  function Signed32(n: U32): int {
    if n < INDEX_LIMIT then n else n - TWO32
  }

  const INDEX_LIMIT: U32 := 0x8000_0000

  /** What the assignment loop leaves: its signed index counts down from the last entry, and
      when it starts out negative nothing is assigned. */
  function Assigned(E: seq<Edge>, roles: seq<nat>, vals: seq<U64>, d: seq<U64>): (r: seq<U64>)
    requires |E| == |roles| == |vals| < TWO32 && forall i | 0 <= i < |E| :: Proper(E[i], |d|) && roles[i] < 3
    ensures |r| == |d|
  {
    if Signed32(|E|) >= 0 then Solve(E, roles, vals, d, 0) else d
  }

  /** The values the loop's index takes. */
  predicate IndexOf(n: U32, i: int) {
    i < n && if Signed32(n) < 0 then i < 0 else i >= -1
  }

  /** The array when the index has come down to i. */
  function AssignedAbove(E: seq<Edge>, roles: seq<nat>, vals: seq<U64>, d: seq<U64>, i: int): (r: seq<U64>)
    requires |E| == |roles| == |vals| < TWO32 && forall i | 0 <= i < |E| :: Proper(E[i], |d|) && roles[i] < 3
    requires IndexOf(|E|, i)
    ensures |r| == |d|
  {
    if Signed32(|E|) >= 0 then Solve(E, roles, vals, d, i + 1) else d
  }

  lemma AssignedFirst(E: seq<Edge>, roles: seq<nat>, vals: seq<U64>, d: seq<U64>)
    requires |E| == |roles| == |vals| < TWO32 && forall i | 0 <= i < |E| :: Proper(E[i], |d|) && roles[i] < 3
    ensures IndexOf(|E|, Signed32(|E|) - 1) && AssignedAbove(E, roles, vals, d, Signed32(|E|) - 1) == d
  {
    SolveNone(E, roles, vals, d);
  }

  lemma AssignedStep(E: seq<Edge>, roles: seq<nat>, vals: seq<U64>, d: seq<U64>, i: nat)
    requires |E| == |roles| == |vals| < TWO32 && forall i | 0 <= i < |E| :: Proper(E[i], |d|) && roles[i] < 3
    requires IndexOf(|E|, i)
    ensures IndexOf(|E|, i - 1)
    ensures AssignedAbove(E, roles, vals, d, i - 1) == Put(AssignedAbove(E, roles, vals, d, i), E[i], roles[i], vals[i])
  {
    hide Put;
    SolveStep(E, roles, vals, d, i);
  }

  lemma AssignedLast(E: seq<Edge>, roles: seq<nat>, vals: seq<U64>, d: seq<U64>, i: int)
    requires |E| == |roles| == |vals| < TWO32 && forall i | 0 <= i < |E| :: Proper(E[i], |d|) && roles[i] < 3
    requires IndexOf(|E|, i) && i < 0
    ensures AssignedAbove(E, roles, vals, d, i) == Assigned(E, roles, vals, d)
  {
  }

  // ----- values by hash

  datatype Pair = Pair(hash: U64, value: U64)

  ghost predicate SortedPairs(p: seq<Pair>) {
    forall i, j | 0 <= i < j < |p| :: p[i].hash <= p[j].hash
  }

  /** Any sorting routine: the order of equal hashes is left open. */
  ghost predicate IsSorter(sort: seq<Pair> -> seq<Pair>) {
    forall p: seq<Pair> :: SortedPairs(sort(p)) && multiset(sort(p)) == multiset(p)
  }

  /** First index whose hash is not below h. */
  function LowerBound(p: seq<Pair>, h: U64): (r: nat)
    ensures r <= |p| && (r < |p| ==> p[r].hash >= h) && forall i | 0 <= i < r :: p[i].hash < h
  {
    if p == [] || p[0].hash >= h then 0 else 1 + LowerBound(p[1..], h)
  }

  lemma LowerBoundUnique(p: seq<Pair>, h: U64, r: nat)
    requires r <= |p| && (r < |p| ==> p[r].hash >= h) && forall i | 0 <= i < r :: p[i].hash < h
    ensures r == LowerBound(p, h)
  {
  }

  ghost predicate HashIn(p: seq<Pair>, h: U64) {
    exists i :: 0 <= i < |p| && p[i].hash == h
  }

  lemma LowerBoundIn(p: seq<Pair>, h: U64)
    requires SortedPairs(p) && HashIn(p, h)
    ensures LowerBound(p, h) < |p| && p[LowerBound(p, h)].hash == h
  {
    var i :| 0 <= i < |p| && p[i].hash == h;
    var l := LowerBound(p, h);
    assert l <= i;
  }

  /** Binary search over the sorted pairs: the value at the lower bound. */
  method PairLookup(pairs: array<Pair>, h: U64) returns (v: U64)
    requires SortedPairs(pairs[..]) && HashIn(pairs[..], h)
    ensures LowerBound(pairs[..], h) < pairs.Length && v == pairs[LowerBound(pairs[..], h)].value
  {
    var lo, hi := 0, pairs.Length;
    while lo < hi
      invariant 0 <= lo <= hi <= pairs.Length
      invariant forall i | 0 <= i < lo :: pairs[i].hash < h
      invariant forall i | hi <= i < pairs.Length :: pairs[i].hash >= h
    {
      var mid := lo + (hi - lo) / 2;
      assert forall i | 0 <= i < mid :: pairs[..][i].hash <= pairs[..][mid].hash;
      assert forall i | mid <= i < pairs.Length :: pairs[..][mid].hash <= pairs[..][i].hash;
      if pairs[mid].hash < h {
        lo := mid + 1;
      } else {
        hi := mid;
      }
    }
    LowerBoundIn(pairs[..], h);
    LowerBoundUnique(pairs[..], h, lo);
    v := pairs[lo].value;
  }

  function PairsOf(mixed: seq<U64>, values: seq<U64>): (p: seq<Pair>)
    requires |mixed| == |values|
    ensures |p| == |mixed| && forall i | 0 <= i < |p| :: p[i] == Pair(mixed[i], values[i])
  {
    seq(|mixed|, i requires 0 <= i < |mixed| => Pair(mixed[i], values[i]))
  }

  /** A sorted permutation of the pairs: every hash is found, and with distinct
      hashes the search returns the value it was paired with. */
  lemma LookupFinds(mixed: seq<U64>, values: seq<U64>, sorted: seq<Pair>, i: nat)
    requires |mixed| == |values| && i < |mixed|
    requires SortedPairs(sorted) && multiset(sorted) == multiset(PairsOf(mixed, values))
    ensures HashIn(sorted, mixed[i])
    ensures Distinct(mixed) ==>
              LowerBound(sorted, mixed[i]) < |sorted| && sorted[LowerBound(sorted, mixed[i])].value == values[i]
  {
    hide LowerBound, SortedPairs;
    var pairs := PairsOf(mixed, values);
    assert pairs[i] in multiset(pairs);
    var k := IndexIn(sorted, pairs[i]);
    LowerBoundIn(sorted, mixed[i]);
    var found := sorted[LowerBound(sorted, mixed[i])];
    assert found in multiset(sorted);
    var j := IndexIn(pairs, found);
    assert mixed[j] == mixed[i];
  }

  lemma IndexIn(p: seq<Pair>, x: Pair) returns (k: nat)
    requires x in multiset(p)
    ensures k < |p| && p[k] == x
  {
    k :| 0 <= k < |p| && p[k] == x;
  }

  /** The value each stack entry is assigned. */
  ghost function ValuesFor(sorted: seq<Pair>, stack: seq<U64>): (vals: seq<U64>)
    ensures |vals| == |stack|
    ensures forall k | 0 <= k < |stack| ::
              LowerBound(sorted, stack[k]) < |sorted| ==> vals[k] == sorted[LowerBound(sorted, stack[k])].value
  {
    seq(|stack|, k requires 0 <= k < |stack| =>
      var l := LowerBound(sorted, stack[k]); if l < |sorted| then sorted[l].value else 0)
  }

  function SlotOf(i1: nat, i2: nat, i3: nat, k: nat): nat
    requires k < 5
  {
    [i1, i2, i3, i1, i2][k]
  }

  /** Writes the cell of the found role so that the three cells XOR to the value, taking the other
      two roles from the positions listed one and a half times over. */
  method PutCell(ghost e: Edge, i1: nat, i2: nat, i3: nat, found: nat, v: U64, data: array<U64>)
    requires Proper(e, data.Length) && e.cell0 == i1 && e.cell1 == i2 && e.cell2 == i3 && found < 3
    modifies data
    ensures data[..] == Put(old(data[..]), e, found, v)
  {
    hide Xor64;
    data[SlotOf(i1, i2, i3, found)] :=
      Xor64(Xor64(v, data[SlotOf(i1, i2, i3, found + 1)]), data[SlotOf(i1, i2, i3, found + 2)]);
  }
}
