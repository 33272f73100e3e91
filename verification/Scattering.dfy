/** Spreading the mixed words over the order array by their leading bits: one
    cursor per block, and a probe over the blocks when a cursor's slot is taken.
    A word that happens to be zero leaves its slot looking empty. */
module Scattering {
  import opened Words

  /** The order array with its sentinel, and the cursor of every block. */
  datatype SState = SState(order: seq<U64>, starts: seq<nat>)

  predicate ScatterShape(s: SState, size: nat, blocks: nat) {
    && size >= 1 && blocks >= 1
    && |s.order| == size + 1 && |s.starts| == blocks
    && s.order[size] == 1
    && (forall b | 0 <= b < blocks :: s.starts[b] <= size)
  }

  predicate Open(s: SState, size: nat, blocks: nat, b: nat)
    requires ScatterShape(s, size, blocks)
  {
    b < blocks && s.order[s.starts[b]] == 0
  }

  /** The first block from b on, cyclically, whose cursor faces an empty slot; at most fuel blocks on. */
  function Probe(s: SState, size: nat, blocks: nat, b: nat, fuel: nat): (r: nat)
    requires ScatterShape(s, size, blocks) && b < blocks
    ensures r < blocks
    decreases fuel
  {
    if fuel == 0 || Open(s, size, blocks, b) then b
    else Probe(s, size, blocks, (b + 1) % blocks, fuel - 1)
  }

  function Place(s: SState, size: nat, bits: nat, word: U64): (s': SState)
    requires 1 <= bits <= 32 && ScatterShape(s, size, Pow2(bits))
    ensures ScatterShape(s', size, Pow2(bits))
  {
    BlockBelow(word, bits);
    var b := Probe(s, size, Pow2(bits), Shr(word, 64 - bits), Pow2(bits));
    var p := s.starts[b];
    if s.order[p] == 0 then SState(s.order[p := word], s.starts[b := p + 1]) else s
  }

  lemma BlockBelow(word: U64, bits: nat)
    requires 1 <= bits <= 32
    ensures Shr(word, 64 - bits) < Pow2(bits)
  {
    PowerSizes();
    ShrBound(word, bits, 64 - bits);
  }

  /** Cursors start evenly spread. */
  function StartCursor(size: nat, bits: nat, b: nat): (p: nat)
    requires b < Pow2(bits) && size >= 1
    ensures p < size
  {
    StartCursorBelow(b * size, size, Pow2(bits), b);
    Shr(b * size, bits)
  }

  lemma StartCursorBelow(product: nat, size: nat, blocks: nat, b: nat)
    requires product == b * size && b < blocks && size >= 1
    ensures product / blocks < size
  {
    MulMono(b, blocks - 1, size, size);
    assert (blocks - 1) * size == size * blocks - size;
    QuotientBelow(product, blocks, size);
  }

  function StartCursors(size: nat, bits: nat): (starts: seq<nat>)
    requires size >= 1
    ensures |starts| == Pow2(bits)
    ensures forall b | 0 <= b < Pow2(bits) :: starts[b] == StartCursor(size, bits, b)
  {
    seq(Pow2(bits), b requires 0 <= b < Pow2(bits) => StartCursor(size, bits, b))
  }

  function StartScatter(size: nat, bits: nat): (s: SState)
    requires size >= 1
    ensures ScatterShape(s, size, Pow2(bits))
  {
    SState(seq(size, i => 0) + [1], StartCursors(size, bits))
  }

  /** The state after the first n words. */
  function ScatterTo(words: seq<U64>, bits: nat, n: nat): (s: SState)
    requires n <= |words| && 1 <= |words| && 1 <= bits <= 32
    ensures ScatterShape(s, |words|, Pow2(bits))
  {
    if n == 0 then StartScatter(|words|, bits)
    else Place(ScatterTo(words, bits, n - 1), |words|, bits, words[n - 1])
  }

  // ----- the invariant

  /** An unclaimed slot that is first or follows a claimed one. */
  predicate GapStart(claimed: set<nat>, p: nat) {
    p !in claimed && (p == 0 || p - 1 in claimed)
  }

  /** Equal but for how often zero occurs. */
  ghost predicate SameWords(a: multiset<U64>, b: multiset<U64>) {
    forall v: U64 | v != 0 :: a[v] == b[v]
  }

  /** Slots claimed so far. An unclaimed slot is empty, and if it is first, or
      follows a claimed one, some cursor faces it. */
  ghost predicate ScatterInv(s: SState, size: nat, blocks: nat, words: seq<U64>, n: nat, claimed: set<nat>) {
    && ScatterShape(s, size, blocks) && n <= |words|
    && (forall p <- claimed :: p < size) && |claimed| <= n
    && (forall p | 0 <= p < size && p !in claimed :: s.order[p] == 0)
    && (forall p | 0 <= p < size && GapStart(claimed, p) :: p in s.starts)
    && SameWords(multiset(s.order[..size]), multiset(words[..n]))
  }

  lemma StartScatterInv(words: seq<U64>, bits: nat)
    requires 1 <= |words| && bits >= 1
    ensures ScatterInv(StartScatter(|words|, bits), |words|, Pow2(bits), words, 0, {})
  {
    var s := StartScatter(|words|, bits);
    assert s.starts[0] == StartCursor(|words|, bits, 0) == 0;
    assert s.order[..|words|] == seq(|words|, i => 0);
    assert forall v: U64 | v in s.order[..|words|] :: v == 0;
  }

  /** While a slot is unclaimed, some block is open: the first unclaimed slot is faced. */
  lemma SomeBlockOpen(s: SState, size: nat, blocks: nat, words: seq<U64>, n: nat, claimed: set<nat>) returns (b: nat)
    requires ScatterInv(s, size, blocks, words, n, claimed) && n < size
    ensures Open(s, size, blocks, b)
  {
    var p := FirstUnclaimed(claimed, size);
    b :| 0 <= b < blocks && s.starts[b] == p;
  }

  lemma FirstUnclaimed(claimed: set<nat>, size: nat) returns (p: nat)
    requires |claimed| < size
    ensures p < size && GapStart(claimed, p)
  {
    p := 0;
    while p in claimed
      invariant forall q | 0 <= q < p :: q in claimed
      invariant p <= |claimed|
      decreases size - p
    {
      p := p + 1;
      InitialSegment(claimed, p);
    }
  }

  lemma InitialSegment(claimed: set<nat>, p: nat)
    requires forall q | 0 <= q < p :: q in claimed
    ensures p <= |claimed|
  {
    if p > 0 {
      var rest := claimed - {p - 1};
      assert forall q | 0 <= q < p - 1 :: q in rest;
      InitialSegment(rest, p - 1);
    }
  }

  /** Blocks still to probe before reaching the open block b. */
  function Distance(from: nat, to: nat, blocks: nat): int
  {
    if from <= to then to - from else to + blocks - from
  }

  /** The probe ends: it reaches an open block before it has gone round. */
  lemma {:induction false} ProbeFinds(s: SState, size: nat, blocks: nat, from: nat, fuel: nat, to: nat)
    requires ScatterShape(s, size, blocks) && from < blocks && Open(s, size, blocks, to)
    requires Distance(from, to, blocks) < fuel
    ensures Open(s, size, blocks, Probe(s, size, blocks, from, fuel))
    decreases fuel
  {
    hide ScatterShape;
    if !Open(s, size, blocks, from) {
      assert from != to;
      NextBlock(from, to, blocks);
      ProbeFinds(s, size, blocks, (from + 1) % blocks, fuel - 1, to);
    }
  }

  lemma NextBlock(from: nat, to: nat, blocks: nat)
    requires from < blocks && to < blocks && from != to
    ensures (from + 1) % blocks == if from + 1 == blocks then 0 else from + 1
    ensures Distance((from + 1) % blocks, to, blocks) == Distance(from, to, blocks) - 1 >= 0
  {
  }

  /** Claiming the slot an open cursor faces keeps the invariant; zero words included. */
  lemma PlaceKeepsInv(s: SState, size: nat, bits: nat, words: seq<U64>, n: nat, claimed: set<nat>)
    returns (claimed': set<nat>)
    requires 1 <= bits <= 32 && n < size == |words|
    requires ScatterInv(s, size, Pow2(bits), words, n, claimed)
    ensures ScatterInv(Place(s, size, bits, words[n]), size, Pow2(bits), words, n + 1, claimed')
  {
    hide Probe, Shr, Pow2;
    var blocks := Pow2(bits);
    var to := SomeBlockOpen(s, size, blocks, words, n, claimed);
    BlockBelow(words[n], bits);
    ProbeFinds(s, size, blocks, Shr(words[n], 64 - bits), blocks, to);
    var b := Probe(s, size, blocks, Shr(words[n], 64 - bits), blocks);
    var p := s.starts[b];
    claimed' := claimed + {p};
    ClaimKeepsFaced(s, size, blocks, claimed, b);
    ClaimKeepsWords(s.order[..size], words, n, p);
    assert s.order[p := words[n]][..size] == s.order[..size][p := words[n]];
  }

  lemma ClaimKeepsFaced(s: SState, size: nat, blocks: nat, claimed: set<nat>, b: nat)
    requires ScatterShape(s, size, blocks) && b < blocks
    requires forall p | 0 <= p < size && GapStart(claimed, p) :: p in s.starts
    ensures var claimed', starts := claimed + {s.starts[b]}, s.starts[b := s.starts[b] + 1];
            forall q | 0 <= q < size && GapStart(claimed', q) :: q in starts
  {
    var p := s.starts[b];
    var starts := s.starts[b := p + 1];
    forall q | 0 <= q < size && GapStart(claimed + {p}, q)
      ensures q in starts
    {
      if q == p + 1 {
        assert starts[b] == q;
      } else {
        assert GapStart(claimed, q);
        var b' :| 0 <= b' < blocks && s.starts[b'] == q;
        assert starts[b'] == q;
      }
    }
  }

  /** Overwriting an empty slot adds the word and loses only a zero. */
  lemma ClaimKeepsWords(order: seq<U64>, words: seq<U64>, n: nat, p: nat)
    requires n < |words| && p < |order| && order[p] == 0
    requires SameWords(multiset(order), multiset(words[..n]))
    ensures SameWords(multiset(order[p := words[n]]), multiset(words[..n + 1]))
  {
    assert words[..n + 1] == words[..n] + [words[n]];
    assert order == order[..p] + [0] + order[p + 1..];
    assert order[p := words[n]] == order[..p] + [words[n]] + order[p + 1..];
    assert multiset(order) == multiset(order[..p]) + multiset{0} + multiset(order[p + 1..]);
    assert multiset(order[p := words[n]]) == multiset(order[..p]) + multiset{words[n]} + multiset(order[p + 1..]);
  }

  lemma {:induction false} ScatterToInv(words: seq<U64>, bits: nat, n: nat) returns (claimed: set<nat>)
    requires n <= |words| && 1 <= |words| && 1 <= bits <= 32
    ensures ScatterInv(ScatterTo(words, bits, n), |words|, Pow2(bits), words, n, claimed)
  {
    hide Place, ScatterInv, StartScatter, Pow2;
    if n == 0 {
      StartScatterInv(words, bits);
      claimed := {};
    } else {
      claimed := ScatterToInv(words, bits, n - 1);
      claimed := PlaceKeepsInv(ScatterTo(words, bits, n - 1), |words|, bits, words, n - 1, claimed);
    }
  }

  /** The order array the counting pass reads. */
  function Scattered(words: seq<U64>, bits: nat): (r: seq<U64>)
    requires 1 <= |words| && 1 <= bits <= 32
    ensures |r| == |words|
  {
    ScatterTo(words, bits, |words|).order[..|words|]
  }

  /** Scattering permutes the words, even when one of them is zero. */
  lemma ScatterPermutes(words: seq<U64>, bits: nat)
    requires 1 <= |words| && 1 <= bits <= 32
    ensures multiset(Scattered(words, bits)) == multiset(words)
  {
    var claimed := ScatterToInv(words, bits, |words|);
    assert words[..|words|] == words;
    SameNonZero(multiset(Scattered(words, bits)), multiset(words));
  }

  lemma SameNonZero(a: multiset<U64>, b: multiset<U64>)
    requires |a| == |b|
    requires SameWords(a, b)
    ensures a == b
  {
    var a', b' := a[0 := 0], b[0 := 0];
    assert a' == b';
    assert |a| == |a'| + a[0] && |b| == |b'| + b[0];
  }

  /** Before each placement some block is open: the probing loop of the code ends. */
  lemma ProbeTarget(words: seq<U64>, bits: nat, n: nat) returns (to: nat)
    requires n < |words| && 1 <= bits <= 32
    ensures Open(ScatterTo(words, bits, n), |words|, Pow2(bits), to)
  {
    var claimed := ScatterToInv(words, bits, n);
    to := SomeBlockOpen(ScatterTo(words, bits, n), |words|, Pow2(bits), words, n, claimed);
  }

  lemma ProbeNext(s: SState, size: nat, blocks: nat, b: nat, fuel: nat)
    requires ScatterShape(s, size, blocks) && b < blocks && !Open(s, size, blocks, b) && fuel > 0
    ensures Probe(s, size, blocks, (b + 1) % blocks, fuel - 1) == Probe(s, size, blocks, b, fuel)
  {
  }

  /** The state after a placement, once the probe has stopped at block b. */
  lemma PlaceResult(s: SState, size: nat, bits: nat, word: U64, b: nat, fuel: nat)
    requires 1 <= bits <= 32 && ScatterShape(s, size, Pow2(bits)) && Open(s, size, Pow2(bits), b)
    requires Shr(word, 64 - bits) < Pow2(bits)
    requires Probe(s, size, Pow2(bits), b, fuel) == Probe(s, size, Pow2(bits), Shr(word, 64 - bits), Pow2(bits))
    ensures s.starts[b] < size
    ensures Place(s, size, bits, word) == SState(s.order[s.starts[b] := word], s.starts[b := s.starts[b] + 1])
  {
    hide Pow2, Shr;
    assert Probe(s, size, Pow2(bits), b, fuel) == b;
  }

  /** The array starts empty, and the cursors a block's share of the words apart. */
  lemma StartExact(words: seq<U64>, bits: nat)
    requires 1 <= |words| && 1 <= bits <= 32
    ensures var s := ScatterTo(words, bits, 0);
            && |s.starts| == Pow2(bits) && |s.order| == |words| + 1 && s.order[|words|] == 1
            && (forall i | 0 <= i < |words| :: s.order[i] == 0)
            && (forall b | 0 <= b < |s.starts| :: s.starts[b] == (b * |words|) / Pow2(bits))
  {
    hide Pow2;
  }

  /** Where each word goes: to the slot that the nearest open block faces, going round from the
      block its leading bits name; that cursor alone then moves on. */
  lemma PlaceExact(words: seq<U64>, bits: nat, n: nat) returns (b: nat)
    requires n < |words| && 1 <= bits <= 32
    ensures var s, own, blocks := ScatterTo(words, bits, n), words[n] / Pow2(64 - bits), Pow2(bits);
            && own < blocks && b < blocks && Open(s, |words|, blocks, b)
            && (forall c | 0 <= c < blocks && Distance(own, c, blocks) < Distance(own, b, blocks) ::
                  !Open(s, |words|, blocks, c))
            && ScatterTo(words, bits, n + 1) ==
               SState(s.order[s.starts[b] := words[n]], s.starts[b := s.starts[b] + 1])
  {
    hide Probe, Pow2, ScatterTo, Shr, Open;
    var s, blocks := ScatterTo(words, bits, n), Pow2(bits);
    var own := Shr(words[n], 64 - bits);
    assert own == words[n] / Pow2(64 - bits) by { hide *; LeadingBits(words[n], bits); }
    BlockBelow(words[n], bits);
    var to := ProbeTarget(words, bits, n);
    OpenBlock(s, |words|, bits, to);
    ProbeFinds(s, |words|, blocks, own, blocks, to);
    ProbeNearest(s, |words|, blocks, own, blocks);
    ScatterNext(words, bits, n);
    b := Probe(s, |words|, blocks, own, blocks);
    OpenBlock(s, |words|, bits, b);
  }

  lemma LeadingBits(word: U64, bits: nat)
    requires 1 <= bits <= 32
    ensures Shr(word, 64 - bits) == word / Pow2(64 - bits)
  {
  }

  lemma OpenBlock(s: SState, size: nat, bits: nat, b: nat)
    requires ScatterShape(s, size, Pow2(bits)) && Open(s, size, Pow2(bits), b)
    ensures b < Pow2(bits) && s.starts[b] < size && s.order[s.starts[b]] == 0
  {
  }

  lemma {:induction false} ProbeNearest(s: SState, size: nat, blocks: nat, from: nat, fuel: nat)
    requires ScatterShape(s, size, blocks) && from < blocks
    ensures forall c | 0 <= c < blocks
                && Distance(from, c, blocks) < Distance(from, Probe(s, size, blocks, from, fuel), blocks) ::
              !Open(s, size, blocks, c)
    decreases fuel
  {
    hide ScatterShape;
    if fuel > 0 && !Open(s, size, blocks, from) {
      ProbeNearest(s, size, blocks, (from + 1) % blocks, fuel - 1);
      forall c | 0 <= c < blocks && c != from
        ensures Distance((from + 1) % blocks, c, blocks) == Distance(from, c, blocks) - 1
      {
        NextBlock(from, c, blocks);
      }
    }
  }

  lemma ScatterNext(words: seq<U64>, bits: nat, n: nat)
    requires n < |words| && 1 <= bits <= 32
    ensures ScatterShape(ScatterTo(words, bits, n), |words|, Pow2(bits))
    ensures ScatterTo(words, bits, n + 1) == Place(ScatterTo(words, bits, n), |words|, bits, words[n])
  {
    hide Place, Pow2;
  }

  lemma ScatteredIs(words: seq<U64>, bits: nat)
    requires 1 <= |words| && 1 <= bits <= 32
    ensures ScatterTo(words, bits, |words|).order == Scattered(words, bits) + [1]
  {
    hide Place, Pow2;
  }

  lemma StartIs(words: seq<U64>, bits: nat)
    requires 1 <= |words| && 1 <= bits <= 32
    ensures ScatterTo(words, bits, 0) == SState(seq(|words|, i => 0) + [1], StartCursors(|words|, bits))
  {
    hide StartCursors, Pow2;
  }
}
