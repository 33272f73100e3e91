/** The counting pass before peeling: exact tallies in wrapping bytes, the two
    alarms it can raise, and the state it hands to the peeling loop. */
module Counting {
  import opened Words
  import opened Hypergraph
  import opened Peeling

  function AllAlive(n: nat): (alive: seq<bool>)
    ensures |alive| == n && forall i | 0 <= i < n :: alive[i]
  {
    seq(n, i => true)
  }

  /** Tally of cell c over the first n edges. */
  function Tallied(E: seq<Edge>, c: nat, n: nat): (t: Tally)
    requires n <= |E|
    ensures t.role < 4
  {
    TallyOf(E, AllAlive(|E|), c, n)
  }

  function CountsAfter(E: seq<Edge>, cells: nat, n: nat): (r: seq<U8>)
    requires n <= |E|
    ensures |r| == cells && forall c | 0 <= c < cells :: r[c] == Counter(Tallied(E, c, n))
  {
    seq(cells, c requires 0 <= c < cells => Counter(Tallied(E, c, n)))
  }

  function WordsAfter(E: seq<Edge>, cells: nat, n: nat): (r: seq<U64>)
    requires n <= |E|
    ensures |r| == cells && forall c | 0 <= c < cells :: r[c] == Tallied(E, c, n).word
  {
    seq(cells, c requires 0 <= c < cells => Tallied(E, c, n).word)
  }

  lemma TalliedStep(E: seq<Edge>, c: nat, n: nat)
    requires n < |E|
    ensures Tallied(E, c, n + 1) == AddTo(Tallied(E, c, n), E[n], c)
  {
  }

  /** Raising three counters and folding the word into three cells counts one more edge. */
  lemma CountStep(E: seq<Edge>, cells: nat, n: nat)
    requires n < |E| && Proper(E[n], cells)
    ensures var e, k, w := E[n], CountsAfter(E, cells, n), WordsAfter(E, cells, n);
            && CountsAfter(E, cells, n + 1) ==
                 k[e.cell0 := Raise(k[e.cell0], 0)][e.cell1 := Raise(k[e.cell1], 1)][e.cell2 := Raise(k[e.cell2], 2)]
            && WordsAfter(E, cells, n + 1) ==
                 w[e.cell0 := Xor64(w[e.cell0], e.word)][e.cell1 := Xor64(w[e.cell1], e.word)]
                  [e.cell2 := Xor64(w[e.cell2], e.word)]
  {
    hide Tallied, Counter, Raise, Xor64, AddTo;
    forall c | 0 <= c < cells
      ensures Tallied(E, c, n + 1) == AddTo(Tallied(E, c, n), E[n], c)
      ensures !Touches(E[n], c) ==> Tallied(E, c, n + 1) == Tallied(E, c, n)
      ensures Touches(E[n], c) ==> Tallied(E, c, n + 1).word == Xor64(Tallied(E, c, n).word, E[n].word)
      ensures Touches(E[n], c) ==> Counter(Tallied(E, c, n + 1)) == Raise(Counter(Tallied(E, c, n)), RoleAt(E[n], c))
    {
      CountCell(E, c, n);
    }
  }

  lemma CountCell(E: seq<Edge>, c: nat, n: nat)
    requires n < |E|
    ensures Tallied(E, c, n + 1) == AddTo(Tallied(E, c, n), E[n], c)
    ensures !Touches(E[n], c) ==> Tallied(E, c, n + 1) == Tallied(E, c, n)
    ensures Touches(E[n], c) ==> Tallied(E, c, n + 1).word == Xor64(Tallied(E, c, n).word, E[n].word)
    ensures Touches(E[n], c) ==> Counter(Tallied(E, c, n + 1)) == Raise(Counter(Tallied(E, c, n)), RoleAt(E[n], c))
  {
    hide Tallied, Counter, Raise, Xor64;
    TalliedStep(E, c, n);
    if Touches(E[n], c) {
      RaiseCounter(Tallied(E, c, n), E[n], c);
    }
  }

  // ----- the two alarms

  /** A counter below four right after it was raised has wrapped. */
  predicate WrapAt(E: seq<Edge>, n: nat)
    requires n < |E|
  {
    || Counter(Tallied(E, E[n].cell0, n + 1)) < 4
    || Counter(Tallied(E, E[n].cell1, n + 1)) < 4
    || Counter(Tallied(E, E[n].cell2, n + 1)) < 4
  }

  /** A cell whose word XOR is zero while its counter reads two occurrences in one role. */
  predicate LooksDoubled(t: Tally)
    requires t.role < 4
  {
    t.word == 0 && Counter(t) == 8
  }

  predicate DuplicateAt(E: seq<Edge>, n: nat)
    requires n < |E|
  {
    || LooksDoubled(Tallied(E, E[n].cell0, n + 1))
    || LooksDoubled(Tallied(E, E[n].cell1, n + 1))
    || LooksDoubled(Tallied(E, E[n].cell2, n + 1))
  }

  /** Some cell is touched at least 64 times among the first n edges. */
  ghost predicate Overflowed(E: seq<Edge>, n: nat)
    requires n <= |E|
  {
    exists c: nat :: Tallied(E, c, n).deg >= 64
  }

  lemma CounterLow(t: Tally)
    requires t.role < 4
    ensures Counter(t) < 4 <==> t.deg % 64 == 0
    ensures Counter(t) == 8 ==> t.deg % 64 == 2
  {
  }

  /** The wrap test misses nothing: it fires on the very edge that brings a cell to 64. */
  lemma WrapExact(E: seq<Edge>, n: nat)
    requires n < |E|
    ensures Overflowed(E, n + 1) <==> Overflowed(E, n) || WrapAt(E, n)
  {
    hide Tallied, Counter;
    forall c: nat
      ensures Tallied(E, c, n + 1) == AddTo(Tallied(E, c, n), E[n], c)
    {
      TalliedStep(E, c, n);
    }
    CounterLow(Tallied(E, E[n].cell0, n + 1));
    CounterLow(Tallied(E, E[n].cell1, n + 1));
    CounterLow(Tallied(E, E[n].cell2, n + 1));
    WrapOneWay(E, n);
    if Overflowed(E, n) {
      var c: nat :| Tallied(E, c, n).deg >= 64;
      assert Tallied(E, c, n + 1).deg >= 64;
    }
    if WrapAt(E, n) {
      var c := if Counter(Tallied(E, E[n].cell0, n + 1)) < 4 then E[n].cell0
               else if Counter(Tallied(E, E[n].cell1, n + 1)) < 4 then E[n].cell1 else E[n].cell2;
      CounterLow(Tallied(E, c, n + 1));
      assert Tallied(E, c, n + 1) == AddTo(Tallied(E, c, n), E[n], c);
      assert Tallied(E, c, n + 1).deg >= 64;
    }
  }

  lemma WrapOneWay(E: seq<Edge>, n: nat)
    requires n < |E|
    ensures Overflowed(E, n + 1) ==> Overflowed(E, n) || WrapAt(E, n)
  {
    hide Tallied, Counter;
    if Overflowed(E, n + 1) {
      var c: nat :| Tallied(E, c, n + 1).deg >= 64;
      TalliedStep(E, c, n);
      CounterLow(Tallied(E, c, n + 1));
      assert Tallied(E, c, n).deg >= 64 || (Touches(E[n], c) && Tallied(E, c, n + 1).deg == 64);
    }
  }

  lemma {:induction false} DegreeGrows(E: seq<Edge>, c: nat, m: nat, n: nat)
    requires m <= n <= |E|
    ensures Tallied(E, c, m).deg <= Tallied(E, c, n).deg
    decreases n
  {
    hide Tallied;
    if m < n {
      DegreeGrows(E, c, m, n - 1);
      TalliedStep(E, c, n - 1);
    }
  }

  /** The alarm is raised at some edge. */
  ghost predicate SomeAlarm(E: seq<Edge>) {
    exists i | 0 <= i < |E| :: DuplicateAt(E, i)
  }

  /** The alarm is raised at edge n, and at no earlier one. */
  predicate AlarmsFirst(E: seq<Edge>, n: nat) {
    n < |E| && DuplicateAt(E, n) && forall i | 0 <= i < n :: !DuplicateAt(E, i)
  }

  lemma SomeAlarmIsFirst(E: seq<Edge>) returns (n: nat)
    requires SomeAlarm(E)
    ensures AlarmsFirst(E, n)
  {
    hide DuplicateAt;
    var i :| 0 <= i < |E| && DuplicateAt(E, i);
    n := 0;
    while !DuplicateAt(E, n)
      invariant n <= i && forall k | 0 <= k < n :: !DuplicateAt(E, k)
      decreases i - n
    {
      n := n + 1;
    }
  }

  /** The duplicate alarm at edge n means that its word repeats an earlier one, unless one of
      its cells was touched 66 times or more by then. */
  lemma DuplicateMeans(E: seq<Edge>, n: nat)
    requires n < |E| && DuplicateAt(E, n)
    ensures (exists i :: 0 <= i < n && E[i].word == E[n].word)
         || (exists c: nat :: Touches(E[n], c) && Tallied(E, c, n + 1).deg >= 66)
  {
    hide Tallied, Counter;
    var c := AlarmCell(E, n);
    if Tallied(E, c, n + 1).deg == 2 {
      var i := PartnerOf(E, c, n);
      XorZeroMeansEqual(E[i].word, E[n].word);
    }
  }

  lemma AlarmCell(E: seq<Edge>, n: nat) returns (c: nat)
    requires n < |E| && DuplicateAt(E, n)
    ensures Touches(E[n], c) && Tallied(E, c, n + 1).word == 0 && Tallied(E, c, n + 1).deg % 64 == 2
  {
    hide Tallied, Counter;
    c := if LooksDoubled(Tallied(E, E[n].cell0, n + 1)) then E[n].cell0
         else if LooksDoubled(Tallied(E, E[n].cell1, n + 1)) then E[n].cell1 else E[n].cell2;
    CounterLow(Tallied(E, c, n + 1));
  }

  /** The duplicate alarm at edge n, wrapped counters included: one of its cells has been
      touched 2, 66, 130 or so times, and its roles and words cancel. */
  lemma AlarmExact(E: seq<Edge>, n: nat)
    requires n < |E|
    ensures DuplicateAt(E, n) <==>
            exists c: nat :: Touches(E[n], c) && Tallied(E, c, n + 1).deg % 64 == 2
                             && Tallied(E, c, n + 1).role == 0 && Tallied(E, c, n + 1).word == 0
  {
    hide Tallied, Counter;
    CounterEight(Tallied(E, E[n].cell0, n + 1));
    CounterEight(Tallied(E, E[n].cell1, n + 1));
    CounterEight(Tallied(E, E[n].cell2, n + 1));
    assert Touches(E[n], E[n].cell0) && Touches(E[n], E[n].cell1) && Touches(E[n], E[n].cell2);
  }

  lemma CounterEight(t: Tally)
    requires t.role < 4
    ensures Counter(t) == 8 <==> t.deg % 64 == 2 && t.role == 0
  {
    DegreeBits(t.deg, t.role);
  }

  /** Words fix their edges, as hashing does. */
  ghost predicate WordsFixEdges(E: seq<Edge>) {
    forall i, j | 0 <= i < |E| && 0 <= j < |E| && E[i].word == E[j].word :: E[i] == E[j]
  }

  lemma HashingFixesEdges(f: U64 -> Edge, cells: nat, words: seq<U64>)
    requires Hashing(f, cells)
    ensures WordsFixEdges(EdgesOf(f, words))
  {
    WordsOfEdges(f, cells, words);
    assert forall i | 0 <= i < |words| :: EdgesOf(f, words)[i] == f(EdgesOf(f, words)[i].word);
  }

  /** If no counter had wrapped before edge n, the duplicate alarm fires there if and only if
      its word repeats an earlier one and the two are alone in one of its cells. */
  lemma DuplicateExact(E: seq<Edge>, n: nat)
    requires n < |E| && WordsFixEdges(E) && !Overflowed(E, n)
    ensures DuplicateAt(E, n) <==>
            exists i, c: nat :: 0 <= i < n && E[i].word == E[n].word && Touches(E[n], c)
                                && Tallied(E, c, n + 1).deg == 2
  {
    hide Tallied, Counter, Overflowed;
    if DuplicateAt(E, n) {
      var i, c := AlarmIsHonest(E, n);
    }
    if i, c: nat :| 0 <= i < n && E[i].word == E[n].word && Touches(E[n], c) && Tallied(E, c, n + 1).deg == 2 {
      var j := PartnerOf(E, c, n);
      assert E[i] == E[n];
      XorSelf(E[n].word);
      XorSelf(RoleAt(E[n], c));
      assert LooksDoubled(Tally(2, 0, 0)) by { assert Counter(Tally(2, 0, 0)) == 8 by { CounterOfTwo(); } }
    }
  }

  /** An alarm before which no counter had wrapped comes from a repeated word. */
  lemma AlarmIsHonest(E: seq<Edge>, n: nat) returns (i: nat, c: nat)
    requires n < |E| && DuplicateAt(E, n) && !Overflowed(E, n)
    ensures i < n && E[i].word == E[n].word && Touches(E[n], c) && Tallied(E, c, n + 1).deg == 2
  {
    hide Tallied, Counter, Overflowed;
    c := AlarmCell(E, n);
    TalliedStep(E, c, n);
    BelowOverflow(E, c, n);
    i := PartnerOf(E, c, n);
    XorZeroMeansEqual(E[i].word, E[n].word);
  }

  lemma BelowOverflow(E: seq<Edge>, c: nat, n: nat)
    requires n <= |E| && !Overflowed(E, n)
    ensures Tallied(E, c, n).deg < 64
  {
    hide Tallied;
  }

  lemma CounterOfTwo()
    ensures Counter(Tally(2, 0, 0)) == 8
  {
  }

  /** The one other occurrence at a degree-two cell of edge n. */
  lemma PartnerOf(E: seq<Edge>, c: nat, n: nat) returns (i: nat)
    requires n < |E| && Touches(E[n], c) && Tallied(E, c, n + 1).deg == 2
    ensures i < n && Touches(E[i], c) && forall k | 0 <= k < n && Touches(E[k], c) :: k == i
    ensures Tallied(E, c, n + 1) == Tally(2, Xor(RoleAt(E[i], c), RoleAt(E[n], c)), Xor64(E[i].word, E[n].word))
  {
    hide TallyOf, Xor;
    var d, e := DegreeTwo(E, AllAlive(|E|), c, n + 1);
    i := d;
  }

  // ----- the state handed to the peeling loop

  /** Cells of degree one among the first n, in index order. */
  function InitialWork(count: seq<U8>, n: nat): (work: seq<nat>)
    requires n <= |count|
    ensures forall c <- work :: c < n && count[c] / 4 == 1
    ensures forall c | 0 <= c < n && count[c] / 4 == 1 :: c in work
    ensures forall i, j | 0 <= i < j < |work| :: work[i] != work[j]
    ensures |work| <= n
  {
    if n == 0 then []
    else if count[n - 1] / 4 == 1 then
      assert n - 1 !in InitialWork(count, n - 1);
      InitialWork(count, n - 1) + [n - 1]
    else InitialWork(count, n - 1)
  }

  function StartState(f: U64 -> Edge, cells: nat, words: seq<U64>): (s: PState)
    ensures Shape(s, cells)
  {
    var E := EdgesOf(f, words);
    var count := CountsAfter(E, cells, |E|);
    PState(count, WordsAfter(E, cells, |E|), InitialWork(count, cells), [], [])
  }

  /** Without overflow the invariant holds at the start, with nothing peeled. */
  lemma StartInv(f: U64 -> Edge, cells: nat, words: seq<U64>)
    requires Hashing(f, cells)
    requires !Overflowed(EdgesOf(f, words), |words|)
    ensures Inv(f, cells, EdgesOf(f, words), StartState(f, cells, words), AllAlive(|words|))
  {
    hide TallyOf, Counter, Tallied;
    var E := EdgesOf(f, words);
    var s := StartState(f, cells, words);
    var alive := AllAlive(|words|);
    StartExact(E, cells);
    assert forall i | 0 <= i < |E| :: E[i] == f(E[i].word) by {
      WordsOfEdges(f, cells, words);
      assert forall i | 0 <= i < |E| :: EdgeWords(E)[i] == words[i];
    }
    AliveWordsAll(E, alive, |E|);
    assert EdgeWords(E)[..|E|] == EdgeWords(E);
  }

  lemma StartExact(E: seq<Edge>, cells: nat)
    requires !Overflowed(E, |E|)
    ensures ExactOutside(CountsAfter(E, cells, |E|), WordsAfter(E, cells, |E|), E, AllAlive(|E|), {})
    ensures WorkOk(InitialWork(CountsAfter(E, cells, |E|), cells), cells, E, AllAlive(|E|), {})
  {
    hide TallyOf, Counter;
    forall c | 0 <= c < cells
      ensures Exact(CountsAfter(E, cells, |E|), WordsAfter(E, cells, |E|), E, AllAlive(|E|), c)
      ensures CountsAfter(E, cells, |E|)[c] / 4 == Degree(E, AllAlive(|E|), c)
    {
      assert Tallied(E, c, |E|).deg < 64;
      CounterDegree(Tallied(E, c, |E|));
    }
  }

  // ----- one attempt, as a function of the scattered words

  datatype Attempt = Success(stack: seq<U64>, roles: seq<nat>) | Duplicate | Retry

  ghost function AttemptOn(f: U64 -> Edge, cells: nat, words: seq<U64>): Attempt
    requires Hashing(f, cells)
  {
    var E := EdgesOf(f, words);
    if SomeAlarm(E) then Duplicate
    else if Overflowed(E, |E|) then Retry
    else
      var f := Final(f, cells, StartState(f, cells, words));
      if |f.stack| == |words| then Success(f.stack, f.roles) else Retry
  }

  /** An attempt without alarms runs to the end, and succeeds exactly when some peeling order exists. */
  lemma AttemptExact(f: U64 -> Edge, cells: nat, words: seq<U64>)
    requires Hashing(f, cells)
    ensures var a := AttemptOn(f, cells, words);
            && (!a.Duplicate? ==>
                  (a.Success? <==> !Overflowed(EdgesOf(f, words), |words|) && Peelable(f, words)))
            && (a.Success? ==> multiset(a.stack) == multiset(words) && PeelStack(f, a.stack, a.roles))
  {
    hide StartState, Overflowed, Peelable, PeelStack, DuplicateAt;
    var E := EdgesOf(f, words);
    if !Overflowed(E, |E|) {
      StartInv(f, cells, words);
      var s := StartState(f, cells, words);
      var n, _, alive := RunEnds(f, cells, E, s, AllAlive(|words|));
      FinalUnique(f, cells, s, n);
      FinishedExactly(f, cells, words, Final(f, cells, s), alive);
    }
  }

  // ----- overflow does not depend on the order of the words

  /** How many of the words touch cell c. */
  function Load(f: U64 -> Edge, words: seq<U64>, c: nat): nat {
    if words == [] then 0
    else
      var n := |words| - 1;
      Load(f, words[..n], c) + if Touches(f(words[n]), c) then 1 else 0
  }

  lemma {:induction false} LoadIsDegree(f: U64 -> Edge, words: seq<U64>, c: nat, n: nat)
    requires n <= |words|
    ensures Tallied(EdgesOf(f, words), c, n).deg == Load(f, words[..n], c)
  {
    hide Tallied;
    if n == 0 {
      assert Tallied(EdgesOf(f, words), c, 0) == Tally(0, 0, 0) by { TalliedNone(EdgesOf(f, words), c); }
    } else {
      LoadIsDegree(f, words, c, n - 1);
      TalliedStep(EdgesOf(f, words), c, n - 1);
      assert words[..n][..n - 1] == words[..n - 1];
    }
  }

  lemma TalliedNone(E: seq<Edge>, c: nat)
    ensures Tallied(E, c, 0) == Tally(0, 0, 0)
  {
  }

  lemma {:induction false} LoadConcat(f: U64 -> Edge, s: seq<U64>, t: seq<U64>, c: nat)
    ensures Load(f, s + t, c) == Load(f, s, c) + Load(f, t, c)
  {
    if t == [] {
      assert s + t == s;
    } else {
      var n := |t| - 1;
      LoadConcat(f, s, t[..n], c);
      assert (s + t)[..|s + t| - 1] == s + t[..n];
    }
  }

  lemma {:induction false} LoadPermutation(f: U64 -> Edge, s: seq<U64>, t: seq<U64>, c: nat)
    requires multiset(s) == multiset(t)
    ensures Load(f, s, c) == Load(f, t, c)
    decreases |s|
  {
    assert |multiset(s)| == |s| && |multiset(t)| == |t|;
    if s != [] {
      var i := Matching(s, t);
      LoadPermutation(f, s[..|s| - 1], t[..i] + t[i + 1..], c);
      LoadWithout(f, t, i, c);
    }
  }

  /** Taking the last element of s out of a permutation t leaves permutations. */
  lemma Matching(s: seq<U64>, t: seq<U64>) returns (i: nat)
    requires multiset(s) == multiset(t) && s != []
    ensures i < |t| && t[i] == s[|s| - 1]
    ensures multiset(s[..|s| - 1]) == multiset(t[..i] + t[i + 1..])
  {
    var n := |s| - 1;
    assert s[n] in multiset(t);
    i :| 0 <= i < |t| && t[i] == s[n];
    assert t == t[..i] + [t[i]] + t[i + 1..];
    assert s == s[..n] + [s[n]];
    assert multiset(s) == multiset(s[..n]) + multiset{s[n]};
    assert multiset(t) == multiset(t[..i]) + multiset{t[i]} + multiset(t[i + 1..]);
    assert multiset(t[..i] + t[i + 1..]) == multiset(t) - multiset{s[n]};
  }

  lemma LoadWithout(f: U64 -> Edge, t: seq<U64>, i: nat, c: nat)
    requires i < |t|
    ensures Load(f, t, c) == Load(f, t[..i] + t[i + 1..], c) + if Touches(f(t[i]), c) then 1 else 0
  {
    assert t == t[..i] + [t[i]] + t[i + 1..];
    assert (t[..i] + [t[i]])[..i] == t[..i];
    LoadConcat(f, t[..i], t[i + 1..], c);
    LoadConcat(f, t[..i] + [t[i]], t[i + 1..], c);
  }

  /** Some cell is touched by 64 words or more. */
  ghost predicate Overfull(f: U64 -> Edge, words: seq<U64>) {
    exists c: nat :: Load(f, words, c) >= 64
  }

  lemma OverfullIsOverflow(f: U64 -> Edge, words: seq<U64>, mixed: seq<U64>)
    requires multiset(words) == multiset(mixed)
    ensures Overflowed(EdgesOf(f, words), |words|) <==> Overfull(f, mixed)
    ensures Peelable(f, words) <==> Peelable(f, mixed)
  {
    hide Tallied, Load, PeelStack;
    assert words[..|words|] == words;
    forall c: nat
      ensures Tallied(EdgesOf(f, words), c, |words|).deg == Load(f, mixed, c)
    {
      LoadIsDegree(f, words, c, |words|);
      LoadPermutation(f, words, mixed, c);
    }
  }
}
