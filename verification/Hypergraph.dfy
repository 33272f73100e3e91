/** Peeling of 3-uniform hypergraphs, apart from how edges get their cells.
    Incidence is counted on occurrences (indices), so repeated edges are covered. */
module Hypergraph {
  import opened Words

  /** A word and its cell in each of the three roles. */
  datatype Edge = Edge(word: U64, cell0: nat, cell1: nat, cell2: nat)

  function At(e: Edge, role: nat): nat {
    if role == 0 then e.cell0 else if role == 1 then e.cell1 else e.cell2
  }

  predicate Touches(e: Edge, c: nat) {
    e.cell0 == c || e.cell1 == c || e.cell2 == c
  }

  function RoleAt(e: Edge, c: nat): nat {
    if e.cell0 == c then 0 else if e.cell1 == c then 1 else 2
  }

  /** The three cells exist. */
  predicate Within(e: Edge, cells: nat) {
    e.cell0 < cells && e.cell1 < cells && e.cell2 < cells
  }

  /** They are distinct as well. */
  predicate Proper(e: Edge, cells: nat) {
    && e.cell0 < cells && e.cell1 < cells && e.cell2 < cells
    && e.cell0 != e.cell1 && e.cell0 != e.cell2 && e.cell1 != e.cell2
  }

  /** A way of giving every word three distinct cells below a bound. */
  ghost predicate Hashing(f: U64 -> Edge, cells: nat) {
    forall w: U64 :: f(w).word == w && Proper(f(w), cells)
  }

  function EdgesOf(f: U64 -> Edge, words: seq<U64>): (E: seq<Edge>)
    ensures |E| == |words|
    ensures forall i | 0 <= i < |E| :: E[i] == f(words[i])
  {
    seq(|words|, i requires 0 <= i < |words| => f(words[i]))
  }

  // ----- what a cell knows about the occurrences touching it

  /** How many there are, the XOR of their roles and the XOR of their words. */
  datatype Tally = Tally(deg: nat, role: nat, word: U64)

  function AddTo(t: Tally, e: Edge, c: nat): Tally {
    if Touches(e, c) then Tally(t.deg + 1, Xor(t.role, RoleAt(e, c)), Xor64(t.word, e.word)) else t
  }

  /** Tally of cell c over the live occurrences among the first n. */
  function TallyOf(E: seq<Edge>, alive: seq<bool>, c: nat, n: nat): (t: Tally)
    requires n <= |E| == |alive|
    ensures t.role < 4
  {
    if n == 0 then Tally(0, 0, 0)
    else
      var t := TallyOf(E, alive, c, n - 1);
      XorBound(t.role, RoleAt(E[n - 1], c), 2);
      if alive[n - 1] then AddTo(t, E[n - 1], c) else t
  }

  /** The packed counter of a cell: six bits of degree above two bits of role, wrapping at a byte. */
  function Counter(t: Tally): U8
    requires t.role < 4
  {
    (4 * t.deg) % TWO8 + t.role
  }

  /** One more in the degree bits, the role folded into the role bits. */
  function Raise(b: U8, role: nat): U8
    requires role < 3
  {
    Xor8((b + 4) % TWO8, role)
  }

  /** One less in the degree bits, the role folded into the role bits. */
  function Lower(b: U8, role: nat): U8
    requires role < 3
  {
    Xor8((b + 252) % TWO8, role)
  }

  lemma CounterXor(d: nat, r: nat, role: nat)
    requires r < 4 && role < 4
    ensures Xor(4 * d + r, role) == 4 * d + Xor(r, role) && Xor(r, role) < 4
  {
    hide Xor;
    assert Pow2(2) == 4;
    XorBound(r, role, 2);
    XorBlockOf(d, 4 * d, r, role, 2);
  }

  /** Byte arithmetic on the degree bits leaves the role bits alone. */
  lemma DegreeBits(d: nat, x: nat)
    requires x < 4
    ensures (4 * d) % TWO8 == 4 * (d % 64)
    ensures (4 * (d % 64) + x + 4) % TWO8 == 4 * ((d + 1) % 64) + x
    ensures (4 * ((d + 1) % 64) + x + 252) % TWO8 == 4 * (d % 64) + x
  {
    var q, m := d / 64, d % 64;
    DegreeBitsOf(d, q, m, x);
  }

  lemma DegreeBitsOf(d: nat, q: nat, m: nat, x: nat)
    requires x < 4 && m < 64 && d == 64 * q + m
    ensures d % 64 == m && (d + 1) % 64 == if m == 63 then 0 else m + 1
    ensures (4 * d) % TWO8 == 4 * m
    ensures (4 * m + x + 4) % TWO8 == 4 * (if m == 63 then 0 else m + 1) + x
    ensures (4 * (if m == 63 then 0 else m + 1) + x + 252) % TWO8 == 4 * m + x
  {
    DivUnique(d, 64, q, m);
    DivUnique(4 * d, TWO8, q, 4 * m);
    if m == 63 {
      DivUnique(d + 1, 64, q + 1, 0);
      DivUnique(4 * m + x + 4, TWO8, 1, x);
      DivUnique(x + 252, TWO8, 0, x + 252);
    } else {
      DivUnique(d + 1, 64, q, m + 1);
      DivUnique(4 * m + x + 4, TWO8, 0, 4 * m + x + 4);
      DivUnique(4 * (m + 1) + x + 252, TWO8, 1, 4 * m + x);
    }
  }

  /** Raising a counter counts one more occurrence, even when it wraps. */
  lemma RaiseCounter(t: Tally, e: Edge, c: nat)
    requires t.role < 4 && Touches(e, c)
    ensures AddTo(t, e, c).role < 4
    ensures Raise(Counter(t), RoleAt(e, c)) == Counter(AddTo(t, e, c))
  {
    hide Xor;
    DegreeBits(t.deg, t.role);
    DegreeBits(t.deg + 1, t.role);
    CounterXor((t.deg + 1) % 64, t.role, RoleAt(e, c));
  }

  /** Lowering it uncounts one. */
  lemma LowerCounter(t: Tally, e: Edge, c: nat)
    requires t.role < 4 && Touches(e, c)
    ensures AddTo(t, e, c).role < 4
    ensures Lower(Counter(AddTo(t, e, c)), RoleAt(e, c)) == Counter(t)
  {
    hide Xor, Touches, RoleAt;
    var r := RoleAt(e, c);
    assert r < 3 by { RoleBelow(e, c); }
    CounterXor(t.deg, t.role, r);
    DegreeBits(t.deg, t.role);
    DegreeBits(t.deg + 1, t.role);
    LowerByte(t.deg, t.role, r, Xor(t.role, r));
  }

  lemma RoleBelow(e: Edge, c: nat)
    ensures RoleAt(e, c) < 3
  {
  }

  lemma LowerByte(d: nat, r: nat, role: nat, x: nat)
    requires r < 4 && role < 3 && x == Xor(r, role) < 4
    ensures Lower(4 * ((d + 1) % 64) + x, role) == 4 * (d % 64) + r
  {
    hide Xor;
    DegreeBits(d, x);
    CounterXor(d % 64, x, role);
    XorCancel(r, role);
  }

  /** Removing a live occurrence undoes its addition, wherever it stands. */
  lemma {:induction false} TallyRemove(E: seq<Edge>, alive: seq<bool>, e: nat, c: nat, n: nat)
    requires n <= |E| == |alive| && e < |E| && alive[e]
    ensures n <= e ==> TallyOf(E, alive[e := false], c, n) == TallyOf(E, alive, c, n)
    ensures e < n ==> TallyOf(E, alive, c, n) == AddTo(TallyOf(E, alive[e := false], c, n), E[e], c)
  {
    if n > 0 {
      TallyRemove(E, alive, e, c, n - 1);
      if e < n - 1 {
        AddSwap(TallyOf(E, alive[e := false], c, n - 1), E[e], E[n - 1], c);
      }
    }
  }

  lemma AddSwap(t: Tally, e: Edge, f: Edge, c: nat)
    ensures AddTo(AddTo(t, e, c), f, c) == AddTo(AddTo(t, f, c), e, c)
  {
    hide Xor;
    XorSwap(t.role, RoleAt(e, c), RoleAt(f, c));
    XorSwap(t.word, e.word, f.word);
  }

  lemma {:induction false} DegreeZero(E: seq<Edge>, alive: seq<bool>, c: nat, n: nat)
    requires n <= |E| == |alive|
    ensures TallyOf(E, alive, c, n).deg == 0 <==> forall i | 0 <= i < n :: !(alive[i] && Touches(E[i], c))
    ensures TallyOf(E, alive, c, n).deg == 0 ==> TallyOf(E, alive, c, n) == Tally(0, 0, 0)
  {
    if n > 0 {
      DegreeZero(E, alive, c, n - 1);
    }
  }

  /** A degree-one cell holds the very word, and the role, of its only live occurrence. */
  lemma {:induction false} DegreeOne(E: seq<Edge>, alive: seq<bool>, c: nat, n: nat) returns (e: nat)
    requires n <= |E| == |alive|
    requires TallyOf(E, alive, c, n).deg == 1
    ensures e < n && alive[e] && Touches(E[e], c)
    ensures forall i | 0 <= i < n && alive[i] && Touches(E[i], c) :: i == e
    ensures TallyOf(E, alive, c, n) == Tally(1, RoleAt(E[e], c), E[e].word)
  {
    if alive[n - 1] && Touches(E[n - 1], c) {
      e := n - 1;
      DegreeZero(E, alive, c, n - 1);
      XorZero(RoleAt(E[e], c));
      XorZero(E[e].word);
    } else {
      e := DegreeOne(E, alive, c, n - 1);
    }
  }

  /** A degree-two cell holds the XOR of its only two live occurrences. */
  lemma {:induction false} DegreeTwo(E: seq<Edge>, alive: seq<bool>, c: nat, n: nat) returns (d: nat, e: nat)
    requires n <= |E| == |alive|
    requires TallyOf(E, alive, c, n).deg == 2
    ensures d < e < n && alive[d] && alive[e] && Touches(E[d], c) && Touches(E[e], c)
    ensures forall i | 0 <= i < n && alive[i] && Touches(E[i], c) :: i == d || i == e
    ensures TallyOf(E, alive, c, n)
         == Tally(2, Xor(RoleAt(E[d], c), RoleAt(E[e], c)), Xor64(E[d].word, E[e].word))
  {
    hide Xor;
    if alive[n - 1] && Touches(E[n - 1], c) {
      e := n - 1;
      d := DegreeOne(E, alive, c, n - 1);
    } else {
      d, e := DegreeTwo(E, alive, c, n - 1);
    }
  }

  // ----- the words of the live occurrences

  function EdgeWords(E: seq<Edge>): (w: seq<U64>)
    ensures |w| == |E|
  {
    seq(|E|, i requires 0 <= i < |E| => E[i].word)
  }

  function AliveWords(E: seq<Edge>, alive: seq<bool>, n: nat): multiset<U64>
    requires n <= |E| == |alive|
  {
    if n == 0 then multiset{}
    else if alive[n - 1] then AliveWords(E, alive, n - 1) + multiset{E[n - 1].word}
    else AliveWords(E, alive, n - 1)
  }

  lemma {:induction false} AliveWordsRemove(E: seq<Edge>, alive: seq<bool>, e: nat, n: nat)
    requires n <= |E| == |alive| && e < |E| && alive[e]
    ensures n <= e ==> AliveWords(E, alive[e := false], n) == AliveWords(E, alive, n)
    ensures e < n ==> AliveWords(E, alive, n) == AliveWords(E, alive[e := false], n) + multiset{E[e].word}
  {
    if n > 0 {
      AliveWordsRemove(E, alive, e, n - 1);
    }
  }

  lemma {:induction false} AliveWordsAll(E: seq<Edge>, alive: seq<bool>, n: nat)
    requires n <= |E| == |alive| && forall i | 0 <= i < n :: alive[i]
    ensures AliveWords(E, alive, n) == multiset(EdgeWords(E)[..n])
  {
    if n > 0 {
      AliveWordsAll(E, alive, n - 1);
      assert EdgeWords(E)[..n] == EdgeWords(E)[..n - 1] + [E[n - 1].word];
    }
  }

  lemma {:induction false} AliveWordsNone(E: seq<Edge>, alive: seq<bool>, n: nat)
    requires n <= |E| == |alive|
    ensures AliveWords(E, alive, n) == multiset{} <==> forall i | 0 <= i < n :: !alive[i]
  {
    if n > 0 {
      AliveWordsNone(E, alive, n - 1);
      if alive[n - 1] {
        assert E[n - 1].word in AliveWords(E, alive, n);
      }
    }
  }

  // ----- peeling orders

  /** Every edge has, in its role, a cell that no later edge of the stack touches. */
  ghost predicate Exclusive(S: seq<Edge>, roles: seq<nat>) {
    && |S| == |roles|
    && (forall k | 0 <= k < |S| :: roles[k] < 3)
    && (forall j, k | 0 <= k < j < |S| :: !Touches(S[j], At(S[k], roles[k])))
  }

  /** A peeling order never repeats an edge: copies share all their cells. */
  lemma ExclusiveDistinct(S: seq<Edge>, roles: seq<nat>)
    requires Exclusive(S, roles)
    ensures forall j, k | 0 <= k < j < |S| :: S[j] != S[k]
  {
    forall j, k | 0 <= k < j < |S|
      ensures S[j] != S[k]
    {
      assert !Touches(S[j], At(S[k], roles[k]));
    }
  }

  /** If a peeling order of all edges exists, every non-empty set of unpeeled
      occurrences leaves some cell with degree one: no order of peeling gets stuck. */
  lemma PeelableHasLeaf(E: seq<Edge>, alive: seq<bool>, S: seq<Edge>, roles: seq<nat>, i: nat) returns (c: nat)
    requires |E| == |alive| && i < |E| && alive[i]
    requires Exclusive(S, roles)
    requires forall j, k | 0 <= k < j < |E| :: E[j] != E[k]
    requires forall k | 0 <= k < |E| :: E[k] in S
    ensures TallyOf(E, alive, c, |E|).deg == 1
  {
    c := LeafFrom(E, alive, S, roles, i, 0);
  }

  lemma {:induction false} LeafFrom(E: seq<Edge>, alive: seq<bool>, S: seq<Edge>, roles: seq<nat>, i: nat, k: nat)
    returns (c: nat)
    requires |E| == |alive| && i < |E| && alive[i]
    requires Exclusive(S, roles) && k <= |S|
    requires forall j, k | 0 <= k < j < |E| :: E[j] != E[k]
    requires forall k | 0 <= k < |E| :: E[k] in S
    requires forall e | 0 <= e < |E| && alive[e] :: E[e] in S[k..]
    ensures TallyOf(E, alive, c, |E|).deg == 1
    decreases |S| - k
  {
    assert E[i] in S[k..];
    if e :| 0 <= e < |E| && alive[e] && E[e] == S[k] {
      c := At(S[k], roles[k]);
      TallyRemove(E, alive, e, c, |E|);
      DegreeZero(E, alive[e := false], c, |E|);
      forall f | 0 <= f < |E| && alive[e := false][f]
        ensures !Touches(E[f], c)
      {
        assert E[f] in S[k..];
      }
    } else {
      assert S[k..] == [S[k]] + S[k + 1..];
      c := LeafFrom(E, alive, S, roles, i, k + 1);
    }
  }
}
