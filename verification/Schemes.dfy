/** The arithmetic the construction depends on, gathered in one record: which
    seeds it tries, how it mixes, where a word's cells are and what its check
    word is. What peeling and retrying achieve holds for every lawful scheme;
    the library's own scheme is lawful. */
module Schemes {
  import opened Words
  import opened Mixing
  import opened Geometry
  import opened Hypergraph

  datatype Scheme = Scheme(
    seeds: nat -> U64,
    mix: (U64, U64) -> U64,
    edges: Geometry -> (U64 -> Edge),
    check: U64 -> U64)

  /** Mixing is injective under every seed, and valid geometries give distinct cells in range. */
  ghost predicate Lawful(S: Scheme) {
    && (forall seed: U64, j: U64, k: U64 | S.mix(j, seed) == S.mix(k, seed) :: j == k)
    && (forall g: Geometry, cells: nat | ValidGeometry(g, cells) :: Hashing(S.edges(g), cells))
  }

  lemma LawfulMix(S: Scheme, j: U64, k: U64, seed: U64)
    requires Lawful(S)
    ensures S.mix(j, seed) == S.mix(k, seed) <==> j == k
  {
  }

  lemma LawfulEdges(S: Scheme, g: Geometry, cells: nat)
    requires Lawful(S) && ValidGeometry(g, cells)
    ensures Hashing(S.edges(g), cells)
  {
  }

  /** The word with the three positions computed for it. */
  function EdgeOf(g: Geometry, word: U64): Edge {
    Edge(word, Position(word, g, 0), Position(word, g, 1), Position(word, g, 2))
  }

  /** The library's scheme. */
  function Fcm(): Scheme {
    Scheme((j: nat) => SeedAt(j), (key: U64, seed: U64) => MixSplit(key, seed),
           (g: Geometry) => ((word: U64) => EdgeOf(g, word)), (word: U64) => Fingerprint(word))
  }

  lemma EdgeProper(g: Geometry, cells: nat, word: U64)
    requires ValidGeometry(g, cells)
    ensures Proper(EdgeOf(g, word), cells)
    ensures EdgeOf(g, word).word == word
  {
    hide Position, ValidGeometry;
    PositionSafety(word, g, cells);
    assert Position(word, g, 0) < cells && Position(word, g, 1) < cells && Position(word, g, 2) < cells;
  }

  /** The scheme's functions are those the code computes. */
  ghost predicate Computed(S: Scheme) {
    && (forall j: nat :: S.seeds(j) == SeedAt(j))
    && (forall key: U64, seed: U64 :: S.mix(key, seed) == MixSplit(key, seed))
    && (forall g: Geometry, word: U64 :: S.edges(g)(word) == EdgeOf(g, word))
    && (forall word: U64 :: S.check(word) == Fingerprint(word))
  }

  lemma SeedIs(S: Scheme, j: nat)
    requires Computed(S)
    ensures S.seeds(j) == SeedAt(j)
  {
  }

  lemma MixIs(S: Scheme, key: U64, seed: U64)
    requires Computed(S)
    ensures S.mix(key, seed) == MixSplit(key, seed)
  {
  }

  lemma EdgeIs(S: Scheme, g: Geometry, word: U64)
    requires Computed(S)
    ensures S.edges(g)(word) == EdgeOf(g, word)
  {
  }

  lemma CheckIs(S: Scheme, word: U64)
    requires Computed(S)
    ensures S.check(word) == Fingerprint(word)
  {
  }

  lemma FcmComputed()
    ensures Computed(Fcm())
  {
    hide EdgeOf, MixSplit, SeedAt, Fingerprint;
  }

  lemma FcmLawful()
    ensures Lawful(Fcm())
  {
    hide EdgeOf, MixSplit, SeedAt, Fingerprint, ValidGeometry;
    forall seed: U64, j: U64, k: U64 | Fcm().mix(j, seed) == Fcm().mix(k, seed)
      ensures j == k
    {
      MixInjective(j, k, seed);
    }
    forall g: Geometry, cells: nat | ValidGeometry(g, cells)
      ensures Hashing(Fcm().edges(g), cells)
    {
      forall w: U64
        ensures Fcm().edges(g)(w).word == w && Proper(Fcm().edges(g)(w), cells)
      {
        EdgeProper(g, cells, w);
      }
    }
  }
}
