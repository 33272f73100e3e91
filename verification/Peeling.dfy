/** The peeling state machine in its simple form, the invariant every step
    keeps, and what a finished run means. */
module Peeling {
  import opened Words
  import opened Hypergraph

  /** Counters and word XORs per cell, the worklist, and the stack of peeled words with their roles. */
  datatype PState = PState(count: seq<U8>, word: seq<U64>, work: seq<nat>, stack: seq<U64>, roles: seq<nat>)

  predicate Shape(s: PState, cells: nat) {
    && |s.count| == cells && |s.word| == cells
    && (forall c <- s.work :: c < cells)
    && |s.stack| == |s.roles|
    && (forall r <- s.roles :: r < 3)
  }

  /** The cell on top of the worklist. */
  function Top(s: PState, cells: nat): (idx: nat)
    requires Shape(s, cells) && s.work != []
    ensures idx < cells
  {
    assert s.work[|s.work| - 1] in s.work;
    s.work[|s.work| - 1]
  }

  /** Takes one incidence away from a cell, queueing the cell when its degree drops to one. */
  function Discharge(s: PState, c: nat, role: nat, word: U64): PState
    requires c < |s.count| == |s.word| && role < 3
  {
    s.(work := if s.count[c] / 4 == 2 then s.work + [c] else s.work,
       count := s.count[c := Lower(s.count[c], role)],
       word := s.word[c := Xor64(s.word[c], word)])
  }

  /** One turn of the worklist loop. */
  function Step(f: U64 -> Edge, cells: nat, s: PState): PState
    requires Hashing(f, cells) && Shape(s, cells)
  {
    if s.work == [] then s
    else
      var idx := Top(s, cells);
      var popped := s.(work := s.work[..|s.work| - 1]);
      if s.count[idx] / 4 != 1 || s.count[idx] % 4 == 3 then popped
      else
        var word, found := s.word[idx], s.count[idx] % 4;
        var e := f(word);
        var r1, r2 := (found + 1) % 3, (found + 2) % 3;
        var pushed := popped.(stack := s.stack + [word], roles := s.roles + [found]);
        Discharge(Discharge(pushed, At(e, r1), r1, word), At(e, r2), r2, word)
  }

  lemma DischargeShape(s: PState, cells: nat, c: nat, role: nat, word: U64)
    requires Shape(s, cells) && c < cells && role < 3
    ensures Shape(Discharge(s, c, role, word), cells)
  {
    hide Lower, Xor64;
    var s' := Discharge(s, c, role, word);
    assert forall d <- s'.work :: d in s.work || d == c;
  }

  lemma StepShape(f: U64 -> Edge, cells: nat, s: PState)
    requires Hashing(f, cells) && Shape(s, cells)
    ensures Shape(Step(f, cells, s), cells)
  {
    hide Discharge;
    if s.work != [] {
      var idx := Top(s, cells);
      var popped := s.(work := s.work[..|s.work| - 1]);
      assert forall c <- popped.work :: c in s.work;
      if s.count[idx] / 4 == 1 && s.count[idx] % 4 < 3 {
        var found := s.count[idx] % 4;
        var e := f(s.word[idx]);
        var pushed := popped.(stack := s.stack + [s.word[idx]], roles := s.roles + [found]);
        var r1, r2 := (found + 1) % 3, (found + 2) % 3;
        DischargeShape(pushed, cells, At(e, r1), r1, s.word[idx]);
        DischargeShape(Discharge(pushed, At(e, r1), r1, s.word[idx]), cells, At(e, r2), r2, s.word[idx]);
      }
    }
  }

  // ----- the invariant

  /** Cells spent as the exclusive cell of a stack entry. */
  function UsedCells(f: U64 -> Edge, stack: seq<U64>, roles: seq<nat>): set<nat>
    requires |stack| == |roles|
  {
    if stack == [] then {}
    else
      var k := |stack| - 1;
      UsedCells(f, stack[..k], roles[..k]) + {At(f(stack[k]), roles[k])}
  }

  /** Cell c carries the exact degree, role XOR and word XOR of the unpeeled occurrences. */
  ghost predicate Exact(count: seq<U8>, word: seq<U64>, E: seq<Edge>, alive: seq<bool>, c: nat)
    requires c < |count| == |word| && |E| == |alive|
  {
    var t := TallyOf(E, alive, c, |E|);
    t.deg < 64 && count[c] == Counter(t) && word[c] == t.word
  }

  function Degree(E: seq<Edge>, alive: seq<bool>, c: nat): nat
    requires |E| == |alive|
  {
    TallyOf(E, alive, c, |E|).deg
  }

  ghost predicate ExactOutside(count: seq<U8>, word: seq<U64>, E: seq<Edge>, alive: seq<bool>, used: set<nat>)
    requires |count| == |word| && |E| == |alive|
  {
    forall c | 0 <= c < |count| && c !in used :: Exact(count, word, E, alive, c)
  }

  /** Used cells are untouched by what is left. */
  ghost predicate UsedFree(E: seq<Edge>, alive: seq<bool>, used: set<nat>)
    requires |E| == |alive|
  {
    forall c <- used :: Degree(E, alive, c) == 0
  }

  /** The worklist holds no cell twice, and every unused cell of degree one. */
  ghost predicate WorkOk(work: seq<nat>, cells: nat, E: seq<Edge>, alive: seq<bool>, used: set<nat>)
    requires |E| == |alive|
  {
    && (forall i, j | 0 <= i < j < |work| :: work[i] != work[j])
    && (forall c <- work :: c < cells && c !in used && Degree(E, alive, c) <= 1)
    && (forall c | 0 <= c < cells && c !in used && Degree(E, alive, c) == 1 :: c in work)
  }

  /** The peeled words and the live ones make up the input. */
  ghost predicate Accounted(E: seq<Edge>, alive: seq<bool>, stack: seq<U64>)
    requires |E| == |alive|
  {
    multiset(stack) + AliveWords(E, alive, |E|) == multiset(EdgeWords(E))
  }

  ghost predicate Inv(f: U64 -> Edge, cells: nat, E: seq<Edge>, s: PState, alive: seq<bool>) {
    && Shape(s, cells) && |alive| == |E|
    && (forall i | 0 <= i < |E| :: E[i] == f(E[i].word))
    && var used := UsedCells(f, s.stack, s.roles);
    && ExactOutside(s.count, s.word, E, alive, used)
    && UsedFree(E, alive, used)
    && WorkOk(s.work, cells, E, alive, used)
    && Accounted(E, alive, s.stack)
    && Exclusive(EdgesOf(f, s.stack), s.roles)
  }

  /** Occurrence e, alone in one of its cells, is peeled. */
  ghost predicate LeafPeeled(E: seq<Edge>, alive: seq<bool>, e: nat, alive': seq<bool>)
    requires |E| == |alive|
  {
    e < |E| && alive[e] && alive' == alive[e := false] && exists c: nat :: Touches(E[e], c) && Degree(E, alive, c) == 1
  }

  /** Every cell a live occurrence touches is touched by another: nothing can be peeled. */
  ghost predicate Stuck(E: seq<Edge>, alive: seq<bool>)
    requires |E| == |alive|
  {
    forall i, c: nat | 0 <= i < |E| && alive[i] && Touches(E[i], c) :: Degree(E, alive, c) >= 2
  }

  /** Peeling the listed occurrences one after the other, in any order that is possible at all. */
  ghost predicate PeelsTo(E: seq<Edge>, alive: seq<bool>, order: seq<nat>, rest: seq<bool>)
    requires |E| == |alive|
    decreases |order|
  {
    if order == [] then rest == alive
    else
      && order[0] < |E|
      && LeafPeeled(E, alive, order[0], alive[order[0] := false])
      && PeelsTo(E, alive[order[0] := false], order[1..], rest)
  }

  // ----- every step keeps the invariant

  /** Popping a cell whose degree is not one loses nothing. */
  lemma PopKeepsWork(work: seq<nat>, cells: nat, E: seq<Edge>, alive: seq<bool>, used: set<nat>)
    requires |E| == |alive| && WorkOk(work, cells, E, alive, used) && work != []
    requires Degree(E, alive, work[|work| - 1]) != 1
    ensures WorkOk(work[..|work| - 1], cells, E, alive, used)
  {
    hide Degree;
    var rest := work[..|work| - 1];
    assert work == rest + [work[|work| - 1]];
    assert forall c <- rest :: c in work;
    forall c | 0 <= c < cells && c !in used && Degree(E, alive, c) == 1
      ensures c in rest
    {
      assert c in work;
    }
  }

  lemma CounterDegree(t: Tally)
    requires t.role < 4 && t.deg < 64
    ensures Counter(t) / 4 == t.deg && Counter(t) % 4 == t.role
  {
    assert (4 * t.deg) % TWO8 == 4 * t.deg;
    assert (4 * t.deg + t.role) / 4 == t.deg;
  }

  /** The tallies of all cells after occurrence e is peeled. */
  ghost predicate Peeled(E: seq<Edge>, alive: seq<bool>, alive': seq<bool>, e: nat)
    requires |E| == |alive| == |alive'| && e < |E|
  {
    forall c: nat :: TallyOf(E, alive, c, |E|) == AddTo(TallyOf(E, alive', c, |E|), E[e], c)
  }

  lemma PeeledHolds(E: seq<Edge>, alive: seq<bool>, e: nat)
    requires |E| == |alive| && e < |E| && alive[e]
    ensures Peeled(E, alive, alive[e := false], e)
  {
    hide AddTo;
    forall c: nat
      ensures TallyOf(E, alive, c, |E|) == AddTo(TallyOf(E, alive[e := false], c, |E|), E[e], c)
    {
      TallyRemove(E, alive, e, c, |E|);
    }
  }

  /** A degree-one cell of the worklist holds a real unpeeled word and its true role there. */
  lemma PopIsReal(f: U64 -> Edge, cells: nat, E: seq<Edge>, s: PState, alive: seq<bool>, idx: nat) returns (e: nat)
    requires Inv(f, cells, E, s, alive) && s.work != [] && idx == Top(s, cells)
    requires s.count[idx] / 4 == 1
    ensures e < |E| && alive[e] && E[e] == f(s.word[idx])
    ensures s.count[idx] % 4 < 3 && idx == At(E[e], s.count[idx] % 4)
    ensures Degree(E, alive, idx) == 1
  {
    hide TallyOf, UsedCells, Exclusive, Accounted, Counter;
    PopIsExact(s.count, s.word, E, alive, UsedCells(f, s.stack, s.roles), s.work, cells, idx);
    CounterDegree(TallyOf(E, alive, idx, |E|));
    e := DegreeOne(E, alive, idx, |E|);
  }

  /** What is on the worklist is unused, so its counter is exact. */
  lemma PopIsExact(count: seq<U8>, word: seq<U64>, E: seq<Edge>, alive: seq<bool>, used: set<nat>,
                   work: seq<nat>, cells: nat, idx: nat)
    requires |count| == |word| == cells && |E| == |alive| && idx in work
    requires ExactOutside(count, word, E, alive, used) && WorkOk(work, cells, E, alive, used)
    ensures idx < cells && Exact(count, word, E, alive, idx)
  {
  }

  /** Counters stay exact: only the two other cells of the edge change. */
  lemma PeelKeepsExact(count: seq<U8>, word: seq<U64>, E: seq<Edge>, alive: seq<bool>, used: set<nat>,
                       e: nat, found: nat, count': seq<U8>, word': seq<U64>)
    requires |count| == |word| && |E| == |alive| && e < |E| && alive[e] && found < 3
    requires Proper(E[e], |count|)
    requires ExactOutside(count, word, E, alive, used)
    requires var c1, r1 := At(E[e], (found + 1) % 3), (found + 1) % 3;
             var c2, r2 := At(E[e], (found + 2) % 3), (found + 2) % 3;
             && count' == count[c1 := Lower(count[c1], r1)][c2 := Lower(count[c2], r2)]
             && word' == word[c1 := Xor64(word[c1], E[e].word)][c2 := Xor64(word[c2], E[e].word)]
    ensures ExactOutside(count', word', E, alive[e := false], used + {At(E[e], found)})
  {
    hide TallyOf, Lower, Xor64;
    PeeledHolds(E, alive, e);
    forall c | 0 <= c < |count| && c !in used && c != At(E[e], found)
      ensures Exact(count', word', E, alive[e := false], c)
    {
      assert Exact(count, word, E, alive, c);
      PeelKeepsCell(count, word, E, alive, e, c, found, count', word');
    }
  }

  lemma PeelKeepsCell(count: seq<U8>, word: seq<U64>, E: seq<Edge>, alive: seq<bool>,
                      e: nat, c: nat, found: nat, count': seq<U8>, word': seq<U64>)
    requires c < |count| == |word| == |count'| == |word'| && |E| == |alive| && e < |E| && alive[e] && found < 3
    requires Proper(E[e], |count|) && c != At(E[e], found)
    requires Exact(count, word, E, alive, c)
    requires Touches(E[e], c) ==> count'[c] == Lower(count[c], RoleAt(E[e], c)) && word'[c] == Xor64(word[c], E[e].word)
    requires !Touches(E[e], c) ==> count'[c] == count[c] && word'[c] == word[c]
    ensures Exact(count', word', E, alive[e := false], c)
  {
    hide TallyOf, Lower, Counter, Xor;
    TallyRemove(E, alive, e, c, |E|);
    var t' := TallyOf(E, alive[e := false], c, |E|);
    if Touches(E[e], c) {
      LowerCounter(t', E[e], c);
      XorCancel(t'.word, E[e].word);
    }
  }

  /** Degrees drop by one exactly at the three cells of the peeled edge. */
  lemma PeelDegrees(E: seq<Edge>, alive: seq<bool>, e: nat, idx: nat, c1: nat, c2: nat)
    requires |E| == |alive| && e < |E| && alive[e]
    requires forall c: nat :: Touches(E[e], c) <==> c == idx || c == c1 || c == c2
    ensures forall c: nat :: Degree(E, alive, c)
                          == Degree(E, alive[e := false], c) + if c == idx || c == c1 || c == c2 then 1 else 0
  {
    hide TallyOf;
    forall c: nat
      ensures Degree(E, alive, c)
           == Degree(E, alive[e := false], c) + if c == idx || c == c1 || c == c2 then 1 else 0
    {
      TallyRemove(E, alive, e, c, |E|);
    }
  }

  lemma OtherCells(e: Edge, cells: nat, found: nat)
    requires Proper(e, cells) && found < 3
    ensures var c0, c1, c2 := At(e, found), At(e, (found + 1) % 3), At(e, (found + 2) % 3);
            && c0 < cells && c1 < cells && c2 < cells && c0 != c1 && c0 != c2 && c1 != c2
            && (forall c: nat :: Touches(e, c) <==> c == c0 || c == c1 || c == c2)
            && RoleAt(e, c0) == found && RoleAt(e, c1) == (found + 1) % 3 && RoleAt(e, c2) == (found + 2) % 3
  {
  }

  /** The worklist after a turn that peels: idx is gone, neighbours that had degree two are in. */
  ghost predicate WorkAfter(work: seq<nat>, work': seq<nat>, E: seq<Edge>, alive: seq<bool>, c1: nat, c2: nat)
    requires |E| == |alive|
  {
    && work != []
    && work' == work[..|work| - 1] + (if Degree(E, alive, c1) == 2 then [c1] else [])
                                   + (if Degree(E, alive, c2) == 2 then [c2] else [])
  }

  /** The worklist stays sound, complete and free of repeats. */
  lemma PeelKeepsWork(work: seq<nat>, cells: nat, E: seq<Edge>, alive: seq<bool>, alive': seq<bool>, used: set<nat>,
                      idx: nat, c1: nat, c2: nat, work': seq<nat>)
    requires |E| == |alive| == |alive'| && idx < cells && c1 < cells && c2 < cells
    requires idx != c1 && idx != c2 && c1 != c2 && c1 !in used && c2 !in used
    requires WorkOk(work, cells, E, alive, used) && WorkAfter(work, work', E, alive, c1, c2)
    requires work[|work| - 1] == idx && Degree(E, alive, idx) == 1
    requires forall c: nat :: Degree(E, alive, c)
                           == Degree(E, alive', c) + if c == idx || c == c1 || c == c2 then 1 else 0
    ensures WorkOk(work', cells, E, alive', used + {idx})
  {
    hide Degree;
    var rest := work[..|work| - 1];
    assert work == rest + [idx];
    forall c | c in work'
      ensures c < cells && c !in used + {idx} && Degree(E, alive', c) <= 1
    {
      assert Degree(E, alive, c) >= Degree(E, alive', c);
      assert c in rest ==> c in work && c != idx;
    }
    forall c | 0 <= c < cells && c !in used + {idx} && Degree(E, alive', c) == 1
      ensures c in work'
    {
      assert Degree(E, alive, c) == 1 + if c == c1 || c == c2 then 1 else 0;
      assert c != c1 && c != c2 ==> c in work;
    }
    WorkDistinct(work, work', E, alive, c1, c2);
  }

  lemma WorkDistinct(work: seq<nat>, work': seq<nat>, E: seq<Edge>, alive: seq<bool>, c1: nat, c2: nat)
    requires |E| == |alive| && WorkAfter(work, work', E, alive, c1, c2) && c1 != c2
    requires forall i, j | 0 <= i < j < |work| :: work[i] != work[j]
    requires forall c <- work :: Degree(E, alive, c) <= 1
    ensures forall i, j | 0 <= i < j < |work'| :: work'[i] != work'[j]
  {
    hide Degree;
    var rest := work[..|work| - 1];
    assert forall i | 0 <= i < |rest| :: rest[i] == work[i] && work[i] in work;
  }

  lemma PeelKeepsUsed(E: seq<Edge>, alive: seq<bool>, alive': seq<bool>, used: set<nat>, idx: nat, c1: nat, c2: nat)
    requires |E| == |alive| == |alive'|
    requires UsedFree(E, alive, used) && Degree(E, alive, idx) == 1
    requires forall c: nat :: Degree(E, alive, c)
                           == Degree(E, alive', c) + if c == idx || c == c1 || c == c2 then 1 else 0
    ensures UsedFree(E, alive', used + {idx})
  {
    hide Degree;
    forall c | c in used + {idx}
      ensures Degree(E, alive', c) == 0
    {
      assert Degree(E, alive, c) >= Degree(E, alive', c);
    }
  }

  lemma PeelKeepsAccount(E: seq<Edge>, alive: seq<bool>, stack: seq<U64>, e: nat)
    requires |E| == |alive| && e < |E| && alive[e] && Accounted(E, alive, stack)
    ensures Accounted(E, alive[e := false], stack + [E[e].word])
    ensures |stack| < |E|
  {
    AliveWordsRemove(E, alive, e, |E|);
    assert |multiset(EdgeWords(E))| == |E|;
    assert |multiset(stack)| == |stack|;
  }

  lemma {:induction false} UsedCellsAt(f: U64 -> Edge, stack: seq<U64>, roles: seq<nat>, k: nat)
    requires k < |stack| == |roles|
    ensures At(f(stack[k]), roles[k]) in UsedCells(f, stack, roles)
  {
    var n := |stack| - 1;
    if k < n {
      UsedCellsAt(f, stack[..n], roles[..n], k);
    }
  }

  /** The new top of the stack avoids every cell already used. */
  lemma PeelKeepsExclusive(f: U64 -> Edge, stack: seq<U64>, roles: seq<nat>, E: seq<Edge>, alive: seq<bool>,
                           e: nat, found: nat)
    requires |stack| == |roles| && found < 3
    requires |E| == |alive| && e < |E| && alive[e] && E[e] == f(E[e].word)
    requires UsedFree(E, alive, UsedCells(f, stack, roles))
    requires Exclusive(EdgesOf(f, stack), roles)
    ensures Exclusive(EdgesOf(f, stack + [E[e].word]), roles + [found])
    ensures UsedCells(f, stack + [E[e].word], roles + [found]) == UsedCells(f, stack, roles) + {At(E[e], found)}
  {
    assert (stack + [E[e].word])[..|stack|] == stack && (roles + [found])[..|roles|] == roles;
    var S := EdgesOf(f, stack + [E[e].word]);
    forall k | 0 <= k < |stack|
      ensures !Touches(S[|stack|], At(S[k], roles[k]))
    {
      UsedCellsAt(f, stack, roles, k);
      DegreeZero(E, alive, At(S[k], roles[k]), |E|);
    }
    forall j, k | 0 <= k < j < |S|
      ensures !Touches(S[j], At(S[k], (roles + [found])[k]))
    {
      assert j < |stack| ==> S[j] == EdgesOf(f, stack)[j];
    }
  }

  /** One turn of the loop keeps the invariant. When it peels, it peels a live occurrence. */
  lemma StepKeepsInv(f: U64 -> Edge, cells: nat, E: seq<Edge>, s: PState, alive: seq<bool>) returns (alive': seq<bool>)
    requires Hashing(f, cells) && Inv(f, cells, E, s, alive)
    ensures Inv(f, cells, E, Step(f, cells, s), alive')
    ensures alive' == alive || exists e :: 0 <= e < |E| && LeafPeeled(E, alive, e, alive')
    ensures s.work != [] ==> var s' := Step(f, cells, s);
              |s'.stack| > |s.stack| || (s'.stack == s.stack && |s'.work| < |s.work|)
  {
    hide TallyOf, UsedCells, Exclusive, Accounted, Counter, Discharge;
    alive' := alive;
    if s.work != [] {
      var idx := Top(s, cells);
      var used := UsedCells(f, s.stack, s.roles);
      PopIsExact(s.count, s.word, E, alive, used, s.work, cells, idx);
      CounterDegree(TallyOf(E, alive, idx, |E|));
      if s.count[idx] / 4 != 1 {
        PopKeepsWork(s.work, cells, E, alive, used);
      } else {
        var e := PopIsReal(f, cells, E, s, alive, idx);
        alive' := alive[e := false];
        assert LeafPeeled(E, alive, e, alive');
        PeelStep(f, cells, E, s, alive, idx, e);
      }
    }
  }

  /** The state after a turn that peels, field by field. */
  lemma StepPeels(f: U64 -> Edge, cells: nat, s: PState, idx: nat, e: Edge, found: nat, c1: nat, c2: nat)
    requires Hashing(f, cells) && Shape(s, cells)
    requires s.work != [] && idx == Top(s, cells) && s.count[idx] / 4 == 1 && s.count[idx] % 4 == found < 3
    requires e == f(s.word[idx]) && c1 == At(e, (found + 1) % 3) && c2 == At(e, (found + 2) % 3)
    ensures c1 < cells && c2 < cells && e.word == s.word[idx]
    ensures Step(f, cells, s) == PState(
              s.count[c1 := Lower(s.count[c1], (found + 1) % 3)][c2 := Lower(s.count[c2], (found + 2) % 3)],
              s.word[c1 := Xor64(s.word[c1], e.word)][c2 := Xor64(s.word[c2], e.word)],
              s.work[..|s.work| - 1] + (if s.count[c1] / 4 == 2 then [c1] else [])
                                     + (if s.count[c2] / 4 == 2 then [c2] else []),
              s.stack + [e.word], s.roles + [found])
  {
    hide Discharge;
    OtherCells(e, cells, found);
    var pushed := s.(work := s.work[..|s.work| - 1], stack := s.stack + [e.word], roles := s.roles + [found]);
    DischargeTwice(pushed, cells, c1, (found + 1) % 3, c2, (found + 2) % 3, e.word);
  }

  lemma StepPops(f: U64 -> Edge, cells: nat, s: PState, idx: nat)
    requires Hashing(f, cells) && Shape(s, cells)
    requires s.work != [] && idx == Top(s, cells) && s.count[idx] / 4 != 1
    ensures Step(f, cells, s) == s.(work := s.work[..|s.work| - 1])
  {
  }

  lemma DischargeTwice(s: PState, cells: nat, c1: nat, r1: nat, c2: nat, r2: nat, word: U64)
    requires |s.count| == |s.word| == cells && c1 < cells && c2 < cells && c1 != c2 && r1 < 3 && r2 < 3
    ensures Discharge(Discharge(s, c1, r1, word), c2, r2, word) == PState(
              s.count[c1 := Lower(s.count[c1], r1)][c2 := Lower(s.count[c2], r2)],
              s.word[c1 := Xor64(s.word[c1], word)][c2 := Xor64(s.word[c2], word)],
              s.work + (if s.count[c1] / 4 == 2 then [c1] else []) + (if s.count[c2] / 4 == 2 then [c2] else []),
              s.stack, s.roles)
  {
    hide Lower, Xor64;
  }

  lemma PeelStep(f: U64 -> Edge, cells: nat, E: seq<Edge>, s: PState, alive: seq<bool>, idx: nat, e: nat)
    requires Hashing(f, cells) && Inv(f, cells, E, s, alive)
    requires s.work != [] && idx == Top(s, cells) && s.count[idx] / 4 == 1 && s.count[idx] % 4 < 3
    requires e < |E| && alive[e] && E[e] == f(s.word[idx]) && idx == At(E[e], s.count[idx] % 4)
    requires Degree(E, alive, idx) == 1
    ensures Inv(f, cells, E, Step(f, cells, s), alive[e := false])
    ensures Step(f, cells, s).stack == s.stack + [E[e].word]
  {
    hide Degree, UsedCells, Exclusive, Accounted, Counter, Lower, Xor64, Step, WorkOk, UsedFree, ExactOutside;
    var used := UsedCells(f, s.stack, s.roles);
    var found := s.count[idx] % 4;
    var c1, c2 := At(E[e], (found + 1) % 3), At(E[e], (found + 2) % 3);
    StepPeels(f, cells, s, idx, E[e], found, c1, c2);
    OtherCells(E[e], cells, found);
    PeelDegrees(E, alive, e, idx, c1, c2);
    NeighbourDegrees(s.count, s.word, E, alive, used, e, c1);
    NeighbourDegrees(s.count, s.word, E, alive, used, e, c2);
    var s' := Step(f, cells, s);
    StepShape(f, cells, s);
    PeelKeepsExact(s.count, s.word, E, alive, used, e, found, s'.count, s'.word);
    PeelKeepsWork(s.work, cells, E, alive, alive[e := false], used, idx, c1, c2, s'.work);
    PeelKeepsUsed(E, alive, alive[e := false], used, idx, c1, c2);
    PeelKeepsAccount(E, alive, s.stack, e);
    PeelKeepsExclusive(f, s.stack, s.roles, E, alive, e, found);
  }

  /** The degree test the loop makes at a neighbour is exact. */
  lemma NeighbourDegrees(count: seq<U8>, word: seq<U64>, E: seq<Edge>, alive: seq<bool>, used: set<nat>, e: nat, c: nat)
    requires |count| == |word| && |E| == |alive| && e < |E| && alive[e] && c < |count| && Touches(E[e], c)
    requires ExactOutside(count, word, E, alive, used) && UsedFree(E, alive, used)
    ensures c !in used
    ensures count[c] / 4 == Degree(E, alive, c)
  {
    hide TallyOf, Counter;
    DegreeZero(E, alive, c, |E|);
    assert Exact(count, word, E, alive, c);
    CounterDegree(TallyOf(E, alive, c, |E|));
  }

  // ----- whole runs

  /** The state after n turns; an empty worklist is final. */
  function Run(f: U64 -> Edge, cells: nat, s: PState, n: nat): (r: PState)
    requires Hashing(f, cells) && Shape(s, cells)
    ensures Shape(r, cells)
    decreases n
  {
    if n == 0 then s
    else
      StepShape(f, cells, s);
      Run(f, cells, Step(f, cells, s), n - 1)
  }

  lemma {:induction false} RunLast(f: U64 -> Edge, cells: nat, s: PState, n: nat)
    requires Hashing(f, cells) && Shape(s, cells)
    ensures Run(f, cells, s, n + 1) == Step(f, cells, Run(f, cells, s, n))
    decreases n
  {
    hide Step, Shape;
    StepShape(f, cells, s);
    if n > 0 {
      RunLast(f, cells, Step(f, cells, s), n - 1);
    }
  }

  lemma {:induction false} RunHalted(f: U64 -> Edge, cells: nat, s: PState, m: nat, n: nat)
    requires Hashing(f, cells) && Shape(s, cells)
    requires m <= n && Run(f, cells, s, m).work == []
    ensures Run(f, cells, s, n) == Run(f, cells, s, m)
    decreases n
  {
    hide Shape;
    if m < n {
      RunHalted(f, cells, s, m, n - 1);
      RunLast(f, cells, s, n - 1);
    }
  }

  /** Where a run from s ends. */
  ghost function Final(f: U64 -> Edge, cells: nat, s: PState): PState
    requires Hashing(f, cells) && Shape(s, cells)
  {
    if n: nat :| Run(f, cells, s, n).work == [] then Run(f, cells, s, n) else s
  }

  lemma FinalUnique(f: U64 -> Edge, cells: nat, s: PState, n: nat)
    requires Hashing(f, cells) && Shape(s, cells)
    requires Run(f, cells, s, n).work == []
    ensures Final(f, cells, s) == Run(f, cells, s, n)
  {
    hide Run, Shape;
    var m: nat :| Run(f, cells, s, m).work == [] && Final(f, cells, s) == Run(f, cells, s, m);
    if m <= n {
      RunHalted(f, cells, s, m, n);
    } else {
      RunHalted(f, cells, s, n, m);
    }
  }

  /** Every run ends: a turn peels, or shortens the worklist without peeling. */
  lemma {:induction false} RunEnds(f: U64 -> Edge, cells: nat, E: seq<Edge>, s: PState, alive: seq<bool>)
    returns (n: nat, order: seq<nat>, alive': seq<bool>)
    requires Hashing(f, cells) && Inv(f, cells, E, s, alive)
    ensures Shape(s, cells) && PeelsTo(E, alive, order, alive')
    ensures Run(f, cells, s, n).work == [] && Inv(f, cells, E, Run(f, cells, s, n), alive')
    decreases |E| - |s.stack|, |s.work|
  {
    hide Step, LeafPeeled;
    StackBound(f, cells, E, s, alive);
    if s.work == [] {
      n, order, alive' := 0, [], alive;
    } else {
      var alive1 := StepKeepsInv(f, cells, E, s, alive);
      var s1 := Step(f, cells, s);
      StackBound(f, cells, E, s1, alive1);
      n, order, alive' := RunEnds(f, cells, E, s1, alive1);
      n := n + 1;
      if alive1 != alive {
        var e :| 0 <= e < |E| && LeafPeeled(E, alive, e, alive1);
        order := PeelsFirst(E, alive, e, alive1, order, alive');
      }
    }
  }

  lemma PeelsFirst(E: seq<Edge>, alive: seq<bool>, e: nat, alive1: seq<bool>, order: seq<nat>, rest: seq<bool>)
    returns (order': seq<nat>)
    requires |E| == |alive| && LeafPeeled(E, alive, e, alive1) && |alive1| == |E| && PeelsTo(E, alive1, order, rest)
    ensures PeelsTo(E, alive, order', rest)
  {
    order' := [e] + order;
    assert order'[1..] == order;
  }

  lemma StackBound(f: U64 -> Edge, cells: nat, E: seq<Edge>, s: PState, alive: seq<bool>)
    requires Inv(f, cells, E, s, alive)
    ensures |s.stack| + |AliveWords(E, alive, |E|)| == |E|
  {
    hide UsedCells, Exclusive, WorkOk, ExactOutside, UsedFree;
    assert |multiset(EdgeWords(E))| == |E|;
    assert |multiset(s.stack)| == |s.stack|;
  }

  // ----- what a finished run means

  /** Peeling order on words: each has a cell no later word touches. */
  ghost predicate PeelStack(f: U64 -> Edge, stack: seq<U64>, roles: seq<nat>) {
    Exclusive(EdgesOf(f, stack), roles)
  }

  /** Some order peels all the words. */
  ghost predicate Peelable(f: U64 -> Edge, words: seq<U64>) {
    exists stack: seq<U64>, roles: seq<nat> ::
      multiset(stack) == multiset(words) && PeelStack(f, stack, roles)
  }

  ghost predicate Distinct<T>(s: seq<T>) {
    forall i, j | 0 <= i < j < |s| :: s[i] != s[j]
  }

  lemma {:induction false} DistinctCounts<T>(s: seq<T>, x: T)
    requires Distinct(s)
    ensures multiset(s)[x] <= 1
  {
    if s != [] {
      var n := |s| - 1;
      assert s == s[..n] + [s[n]];
      DistinctCounts(s[..n], x);
    }
  }

  /** Being free of repeats depends on the multiset only. */
  lemma DistinctPermutation<T>(s: seq<T>, t: seq<T>)
    requires Distinct(s) && multiset(s) == multiset(t)
    ensures Distinct(t)
  {
    forall i, j | 0 <= i < j < |t|
      ensures t[i] != t[j]
    {
      if t[i] == t[j] {
        DistinctCounts(s, t[j]);
        RepeatCounts(t, i, j);
      }
    }
  }

  lemma RepeatCounts<T>(t: seq<T>, i: nat, j: nat)
    requires i < j < |t| && t[i] == t[j]
    ensures multiset(t)[t[j]] >= 2
  {
    assert t == t[..j] + [t[j]] + t[j + 1..];
    assert t[..j][i] == t[j];
    assert t[j] in multiset(t[..j]);
  }

  lemma PeelStackDistinct(f: U64 -> Edge, stack: seq<U64>, roles: seq<nat>)
    requires PeelStack(f, stack, roles)
    ensures Distinct(stack)
  {
    hide Exclusive;
    ExclusiveDistinct(EdgesOf(f, stack), roles);
    forall i, j | 0 <= i < j < |stack|
      ensures stack[i] != stack[j]
    {
      assert EdgesOf(f, stack)[i] != EdgesOf(f, stack)[j];
    }
  }

  lemma WordsOfEdges(f: U64 -> Edge, cells: nat, words: seq<U64>)
    requires Hashing(f, cells)
    ensures EdgeWords(EdgesOf(f, words)) == words
  {
  }

  /** With an empty worklist, every cell a live occurrence touches is touched twice. */
  lemma FinishedIsStuck(cells: nat, E: seq<Edge>, alive: seq<bool>, used: set<nat>)
    requires |E| == |alive| && forall i | 0 <= i < |E| :: Proper(E[i], cells)
    requires UsedFree(E, alive, used) && WorkOk([], cells, E, alive, used)
    ensures Stuck(E, alive)
  {
    hide TallyOf;
    forall i, c: nat | 0 <= i < |E| && alive[i] && Touches(E[i], c)
      ensures Degree(E, alive, c) >= 2
    {
      DegreeZero(E, alive, c, |E|);
    }
  }

  // ----- the order of peeling does not matter

  lemma {:induction false} DegreeMonotone(E: seq<Edge>, core: seq<bool>, alive: seq<bool>, c: nat, n: nat)
    requires n <= |E| == |core| == |alive| && forall i | 0 <= i < |E| && core[i] :: alive[i]
    ensures TallyOf(E, core, c, n).deg <= TallyOf(E, alive, c, n).deg
  {
    if n > 0 {
      DegreeMonotone(E, core, alive, c, n - 1);
    }
  }

  /** No order of peeling ever reaches into a stuck set. */
  lemma {:induction false} CoreStays(E: seq<Edge>, core: seq<bool>, alive: seq<bool>, order: seq<nat>, rest: seq<bool>)
    requires |E| == |core| == |alive| && Stuck(E, core) && PeelsTo(E, alive, order, rest)
    requires forall i | 0 <= i < |E| && core[i] :: alive[i]
    ensures |rest| == |E| && forall i | 0 <= i < |E| && core[i] :: rest[i] && alive[i]
    decreases |order|
  {
    hide TallyOf;
    if order != [] {
      var e := order[0];
      var c: nat :| Touches(E[e], c) && Degree(E, alive, c) == 1;
      DegreeMonotone(E, core, alive, c, |E|);
      assert core[e] ==> Degree(E, core, c) >= 2;
      CoreStays(E, core, alive[e := false], order[1..], rest);
    }
  }

  lemma {:induction false} PeelsShrinks(E: seq<Edge>, alive: seq<bool>, order: seq<nat>, rest: seq<bool>)
    requires |E| == |alive| && PeelsTo(E, alive, order, rest)
    ensures |rest| == |E| && forall i | 0 <= i < |E| && rest[i] :: alive[i]
    decreases |order|
  {
    hide LeafPeeled;
    if order != [] {
      PeelsShrinks(E, alive[order[0] := false], order[1..], rest);
    }
  }

  /** Whatever order is taken, peeling gets stuck on the same occurrences. */
  lemma ResidueUnique(E: seq<Edge>, alive: seq<bool>,
                      order1: seq<nat>, rest1: seq<bool>, order2: seq<nat>, rest2: seq<bool>)
    requires |E| == |alive| == |rest1| == |rest2|
    requires PeelsTo(E, alive, order1, rest1) && Stuck(E, rest1)
    requires PeelsTo(E, alive, order2, rest2) && Stuck(E, rest2)
    ensures rest1 == rest2
  {
    hide PeelsTo, Stuck;
    PeelsShrinks(E, alive, order1, rest1);
    PeelsShrinks(E, alive, order2, rest2);
    CoreStays(E, rest1, alive, order2, rest2);
    CoreStays(E, rest2, alive, order1, rest1);
  }

  /** The loop leaves what every other order would leave: whichever way all possible peeling
      is done, the final state is exact for the occurrences that remain. */
  lemma EveryOrderAgrees(f: U64 -> Edge, cells: nat, E: seq<Edge>, s: PState, alive: seq<bool>,
                         order: seq<nat>, rest: seq<bool>)
    requires Hashing(f, cells) && Inv(f, cells, E, s, alive) && |rest| == |E|
    requires PeelsTo(E, alive, order, rest) && Stuck(E, rest)
    ensures Shape(s, cells) && Final(f, cells, s).work == [] && Inv(f, cells, E, Final(f, cells, s), rest)
  {
    hide Run, PeelsTo, Stuck, UsedCells, Exclusive, Accounted, ExactOutside, UsedFree, WorkOk;
    var n, order', rest' := RunEnds(f, cells, E, s, alive);
    FinalUnique(f, cells, s, n);
    var s' := Final(f, cells, s);
    forall i | 0 <= i < |E|
      ensures Proper(E[i], cells)
    {
      assert E[i] == f(E[i].word);
    }
    FinishedIsStuck(cells, E, rest', UsedCells(f, s'.stack, s'.roles));
    ResidueUnique(E, alive, order, rest, order', rest');
  }

  /** A run that empties its worklist peeled everything exactly when some order could:
      the order in which cells are taken never matters. */
  lemma FinishedExactly(f: U64 -> Edge, cells: nat, words: seq<U64>, s: PState, alive: seq<bool>)
    requires Hashing(f, cells) && Inv(f, cells, EdgesOf(f, words), s, alive) && s.work == []
    ensures |s.stack| <= |words|
    ensures |s.stack| == |words| <==> Peelable(f, words)
    ensures |s.stack| == |words| ==> multiset(s.stack) == multiset(words) && PeelStack(f, s.stack, s.roles)
    ensures Stuck(EdgesOf(f, words), alive)
  {
    hide UsedCells, Exclusive, WorkOk, ExactOutside, UsedFree, Stuck;
    var E := EdgesOf(f, words);
    FinishedIsStuck(cells, E, alive, UsedCells(f, s.stack, s.roles));
    StackBound(f, cells, E, s, alive);
    WordsOfEdges(f, cells, words);
    assert |s.stack| == |words| ==> AliveWords(E, alive, |E|) == multiset{};
    assert PeelStack(f, s.stack, s.roles);
    if Peelable(f, words) {
      var stack: seq<U64>, roles: seq<nat> :| multiset(stack) == multiset(words) && PeelStack(f, stack, roles);
      WorkRemains(f, cells, words, s, alive, stack, roles);
    }
  }

  /** While an order exists and words are left, the worklist is not empty. */
  lemma WorkRemains(f: U64 -> Edge, cells: nat, words: seq<U64>, s: PState, alive: seq<bool>,
                    stack: seq<U64>, roles: seq<nat>)
    requires Hashing(f, cells) && Inv(f, cells, EdgesOf(f, words), s, alive)
    requires multiset(stack) == multiset(words) && PeelStack(f, stack, roles)
    ensures |s.stack| != |words| ==> s.work != []
  {
    hide UsedCells, Exclusive, TallyOf;
    var E := EdgesOf(f, words);
    StackBound(f, cells, E, s, alive);
    AliveWordsNone(E, alive, |E|);
    if i :| 0 <= i < |E| && alive[i] {
      OrderCovers(f, cells, words, stack, roles);
      var c := PeelableHasLeaf(E, alive, EdgesOf(f, stack), roles, i);
      var e := DegreeOne(E, alive, c, |E|);
      assert Degree(E, alive, c) == 1;
      assert c in s.work;
    }
  }

  /** An order of all the words lists every edge, and shows that none repeats. */
  lemma OrderCovers(f: U64 -> Edge, cells: nat, words: seq<U64>, stack: seq<U64>, roles: seq<nat>)
    requires Hashing(f, cells)
    requires multiset(stack) == multiset(words) && PeelStack(f, stack, roles)
    ensures forall j, k | 0 <= k < j < |words| :: EdgesOf(f, words)[j] != EdgesOf(f, words)[k]
    ensures forall k | 0 <= k < |words| :: EdgesOf(f, words)[k] in EdgesOf(f, stack)
  {
    hide PeelStack;
    PeelStackDistinct(f, stack, roles);
    DistinctPermutation(stack, words);
    forall j, k | 0 <= k < j < |words|
      ensures EdgesOf(f, words)[j] != EdgesOf(f, words)[k]
    {
    }
    forall k | 0 <= k < |words|
      ensures EdgesOf(f, words)[k] in EdgesOf(f, stack)
    {
      assert words[k] in multiset(words);
      assert words[k] in multiset(stack);
      var i :| 0 <= i < |stack| && stack[i] == words[k];
      assert EdgesOf(f, stack)[i] == EdgesOf(f, words)[k];
    }
  }
}
