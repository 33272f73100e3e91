# Verification model of fastconstmap's construction and query core

fastconstmap stores an immutable map from byte strings to 64-bit values. To
build one it hashes every key, mixes the hash with a seed, and lets the mixed
word choose one cell in each of three consecutive segments of an array. It then
peels: a word that is alone in some cell is removed, which may leave other words
alone, until none is left. Walking that order backwards it sets each word's own
cell so that its three cells XOR to the word's value. A lookup is one hash and
three reads.

This project models that core (`src/constmap.c`) in Dafny and proves that it
does what the library is for. The main results:

- **Peeling** keeps one invariant at every turn of the worklist loop: each cell
  that is not yet spent carries, packed in a byte, the exact degree and role XOR
  of the unpeeled words touching it, and beside it their word XOR; the worklist
  holds every unspent cell of degree one, and no cell twice. The array code
  (speculative writes, masks, 32-bit wraparound) refines a simple state machine
  turn by turn, and a run that empties its worklist has peeled everything if and
  only if *some* peeling order exists. Otherwise it stops at the very set of words
  that every other order stops at, each of whose cells is touched twice or more.
- **Retries**: the outcome of a construction is decided by the first attempt that
  raises the duplicate alarm, or overfills no cell and has a peeling order; it
  fails if and only if there is none. Success implies pairwise distinct key hashes.
- **Back-substitution** makes all equations hold at once whatever the array held,
  so every inserted key answers its own value, in all three layouts, and still
  does after the map is written to a buffer and read back.
- **Storage**: round trips in both directions; detection of every single-byte
  change outside the length field, but for one kind of change to a plain map's
  magic, and the exact condition for it and for the length field; and a parameter
  check after which no hash reads outside the array. Of whole segments within 32
  bits the check accepts exactly the smallest array that is safe.

Four properties one might expect are false of the code.

The duplicate alarm reads a counter of six degree bits, so a cell touched 66 times
reads as touched twice. `FalseAlarm.ConstructorRejects` gives 66 distinct key
hashes for which every constructor reports a duplicate key, whatever the values,
the sizing and the sorting. `Attempts.OutcomeExact` says exactly
when a duplicate is reported, for distinct hashes as for repeated ones: if and
only if the deciding attempt raises the alarm. `Counting.AlarmExact` says exactly
when that is: some word brings one of its cells to 2, 66, 130 or so touches whose
words and roles cancel. While no counter had wrapped before that word (the code's
`has_error` is still clear) this means a repeated word and nothing else, so two key
hashes are equal (`Counting.DuplicateExact`, `Attempts.CleanAlarmExact`). At the
return code: a reported duplicate comes from the deciding attempt; it is real if
no counter had wrapped in it by then, and where the hashes are distinct one of the
alarmed word's cells had been touched 66 times or more
(`Attempts.PeelFromExact`, `Maps.DuplicateReported`).

With more than 2^31 keys the assignment loop's signed index starts out negative and
nothing is assigned, yet FCM_OK is returned. `Inputs.BuiltPastLimit` is an input of
2^31 + 1 keys that builds, none of which its plain map answers.
`MapModel.PlainAnswersExactly` and `MapModel.CheckedAnswerExactly` say when a built
map answers every key, `MapModel.PastIndexLimit` what is answered past the limit;
the answer theorems are stated below it. That building succeeds at all, for as many
keys as there are first positions, is `Inputs.StairBuilds` and `Inputs.InputBuilds`.

The checksum covers the magic, and still one changed byte of it can go unnoticed:
`Escape.MagicEscapes` is a buffer of 40 bytes that is a plain map with either header
size, one byte apart. `EndToEnd.PlainCorruption` gives the exact condition.

The parameter check is stricter than safety. `Formats.SpareSlotRejected` is an array
with one slot to spare that is rejected though no position leaves it, and
`Formats.WrappedSegmentsRejected` one whose segments exceed 32 bits.
`Geometry.CellsNeeded` says for all segments how many slots are enough, and
`Formats.AcceptsLeastSafe` that the check accepts the least such number where
nothing wraps.

## How the model is laid out

Words are bounded integers (`U8`, `U32`, `U64`) with XOR, AND and OR defined bit
by bit; every wraparound is written out.

| file | part of the program |
|---|---|
| `ReturnCodes.dfy`, `Words.dfy`, `Mixing.dfy` | return codes; word operations; mixers, check words, seed generator |
| `Geometry.dfy` | the three positions of a word, and recovering two from the third |
| `Hypergraph.dfy`, `Peeling.dfy`, `Counting.dfy` | tallies on occurrences, the peeling state machine and its invariant, the counting pass |
| `Schemes.dfy` | the arithmetic gathered in one record, and the laws it obeys |
| `Scattering.dfy`, `Attempts.dfy` | the scatter over block cursors; seeds, geometries and outcomes of the retry loop |
| `Construction.dfy` | the peeling engine on its arrays |
| `Assigning.dfy`, `MapModel.dfy`, `Maps.dfy` | back-substitution, maps as values, the three map classes with building, lookup and batched lookup |
| `Bytes.dfy`, `Formats.dfy`, `Storage.dfy` | little-endian words and 64-bit FNV-1a (section 2 of draft-eastlake-fnv), the serialized form and its parser, writers and readers |
| `EndToEnd.dfy` | the end-to-end theorems |
| `Inputs.dfy`, `FalseAlarm.dfy`, `Escape.dfy` | inputs that build; the false duplicate alarm; a changed byte that goes unnoticed |
| `Evaluation.dfy`, `Vectors.dfy` | evaluating XORs, wrapped products and checksums; known seeds, mixed hashes, cells and a known file |

`dafny verify dfyconfig.toml` checks everything.

Files are exchanged with other implementations of the format
(`tests/test_interop.py:41`), so the arithmetic below the theorems matters bit by
bit. The lemmas named `...Exact` restate it without the functions that compute it
(mixing, check words, positions, parsing, return codes), and `Vectors.dfy` fixes
values: the first seed, two mixed hashes, three cells, and a one-key file with the
answer it gives.

The peeling, retry and map theorems are stated for a `Scheme`: a record of the
seed sequence, the mixing, the positions and the check word. They need two laws
of it (`Schemes.Lawful`), not its formulas. The library's own record is
`Schemes.Fcm()`, and `EndToEnd.LibraryScheme` shows that it obeys the laws and
that its members are what the code computes, so every theorem about a lawful
scheme is one about the library. The methods that do the arithmetic take the
scheme as a ghost parameter and require it to be the computed one
(`Schemes.Computed`).

What the code takes from elsewhere is a parameter here: the two key hashes
(`Hasher`), the sorting routine (`IsSorter`: any function that returns a sorted
permutation; `Inputs.SorterExists` shows there is one) and the two numbers the
floating-point sizing produces (`Sizing`: a power-of-two segment length of at least
4 before the clamp, and any 32-bit capacity, with the sum that wraps written out).

## Where the code and its comments differ

The model follows the code.

- `src/constmap.h:100` says `out` is untouched on error. Once the hash is known
  to be valid the constructors clear it (`src/constmap.c:446`) and set its hash.
- `src/constmap.c:1056` says the segment parameters are checked on every
  deserialized map. Only the paired readers check them (`src/constmap.c:1264`,
  `src/constmap.c:1289`).
- `src/constmap.c:244` says the segment count never exceeds the original total.
  The halved geometry has more segments than that; the buffer grows when needed.

## Model

| member | source | states |
|---|---|---|
| Mixing.MurmurBijection | src/constmap.c:38-45 | the finaliser has a two-sided inverse on 64-bit words |
| Mixing.MixBijection | src/constmap.c:47-49 | for every seed, mixing has a two-sided inverse, so reseeding neither creates nor removes collisions |
| Mixing.MixExact | src/constmap.c:38-49 | mixing in plain arithmetic: the sum modulo 2^64, then three folds by 33 bits, each keeping the top 33 bits and XORing the low 31 with the top 31, around two wrapped products by the two constants |
| Vectors.KnownMixes | src/constmap.c:38-49 | key hash 1 under seed 0 mixes to 0xb456bcfc34c2cb2c, key hash 2 under the first seed to 0x6a042f70e47f37ba |
| Mixing.SeedsDiffer | src/constmap.c:51-57 | the first 2^64 outputs of the seed generator from its start at 1 are pairwise distinct |
| Vectors.FirstSeed | src/constmap.c:51-57 | the seed of the first attempt is 0x910a2dec89025cc1 |
| Mixing.FingerprintInvolution | src/constmap.c:413-415 | the check word function is its own inverse |
| Mixing.FingerprintExact | src/constmap.c:413-415 | the check word keeps the upper half of the mixed hash and XORs the lower half with it |
| Mixing.FingerprintSeparates | src/constmap.c:413-415 | under one seed two key hashes share a check word if and only if they are equal |
| Geometry.MulHighExact | src/constmap.c:115-129 | the portable half-word product is exactly floor(hash * n / 2^64), no intermediate word wraps in a way that matters, and it stays below n |
| Geometry.PositionExact | src/constmap.c:146-155 | the three positions in plain arithmetic: with first = floor(hash * count * L / 2^64), role r is in segment first / L + r at offset first % L, XORed for role 1 with (hash / 2^18) % L and for role 2 with hash % L |
| Geometry.PositionSafety | src/constmap.c:146-155 | for every hash and valid geometry the three positions are in range, pairwise distinct and in three consecutive segments |
| Vectors.KnownCells | src/constmap.c:146-155 | over three segments of four cells the word 0x6a042f70e47f37ba has the cells 1, 6 and 11 |
| Geometry.CellsNeeded | src/constmap.c:146-155 | for all segment lengths and counts, also where the 32-bit sums wrap: all positions of all hashes are below a slot count if and only if it holds the segments in reach of the first position and two more |
| Geometry.RecoverExact | src/constmap.c:351-379 | from the cell of any role, the branch-free masks yield exactly the other two positions and their roles, despite 32-bit wraparound |
| Hypergraph.RaiseCounter | src/constmap.c:307-315 | raising the packed byte counts one more occurrence modulo 64 and XORs its role in |
| Hypergraph.LowerCounter | src/constmap.c:381-391 | lowering the packed byte undoes one occurrence |
| Hypergraph.TallyRemove | src/constmap.c:381-391 | removing a live occurrence, wherever it stands, undoes its part of every cell's degree, role XOR and word XOR |
| Hypergraph.DegreeOne | src/constmap.c:356-361 | a cell of degree one holds the very word, and the role, of its only live occurrence |
| Hypergraph.PeelableHasLeaf | src/constmap.c:354-392 | if any peeling order of all edges exists, every non-empty unpeeled set has a cell of degree one |
| Hypergraph.ExclusiveDistinct | src/constmap.c:354-397 | a peeling order never contains the same edge twice |
| Peeling.StepKeepsInv | src/constmap.c:354-392 | one turn of the loop keeps the global invariant and either peels or shortens the worklist |
| Peeling.PopIsReal | src/constmap.c:354-361 | a degree-one pop yields a live word, found is below 3 and is that word's role at the cell |
| Peeling.PeelKeepsExact | src/constmap.c:381-391 | after a peel every unspent cell again has its exact counter and word XOR |
| Peeling.PeelKeepsWork | src/constmap.c:381-388 | after a peel the worklist again holds every unspent degree-one cell, only unspent cells of degree at most one, none twice |
| Peeling.PeelKeepsExclusive | src/constmap.c:359-363 | the new top of the stack touches none of the cells spent by earlier entries |
| Peeling.RunEnds | src/constmap.c:354-392 | every run from an invariant state reaches an empty worklist, by the lexicographic measure (words left, worklist length) |
| Peeling.FinalUnique | src/constmap.c:354-392 | where a run ends does not depend on how many further turns are taken |
| Peeling.WorkRemains | src/constmap.c:354-397 | while an order exists and words are left, the worklist is not empty |
| Peeling.FinishedExactly | src/constmap.c:394-397 | an emptied worklist means everything was peeled if and only if some peeling order exists; then the stack is such an order and a permutation of the words; otherwise every cell that an unpeeled word touches is touched twice or more |
| Peeling.ResidueUnique | src/constmap.c:354-397 | any two orders of peeling that get stuck leave the same words |
| Peeling.EveryOrderAgrees | src/constmap.c:354-397 | the loop's final state is exact for the words that any other stuck order leaves |
| Counting.CountStep | src/constmap.c:303-315 | the three counter and word updates take the tallies of n edges to those of n + 1, also when a byte wraps |
| Counting.WrapExact | src/constmap.c:325-327 | the wrap test misses nothing: some cell has been touched 64 times if and only if it was before or the test fires on this edge |
| Counting.DuplicateMeans | src/constmap.c:317-323 | a duplicate alarm at a word means that it repeats an earlier one or that one of its cells was touched 66 times or more by then |
| Counting.AlarmExact | src/constmap.c:317-323 | the alarm fires at a word, wrapped counters included, if and only if one of its cells has a number of touches that is 2 modulo 64, with all their roles and all their words cancelling |
| Counting.DuplicateExact | src/constmap.c:317-327 | if no counter had wrapped before a word, the alarm fires at it if and only if it repeats an earlier word and the two are alone in one of their cells |
| Counting.StartInv | src/constmap.c:344-348 | without overflow the counted tallies and the scanned worklist satisfy the invariant with nothing peeled |
| Counting.AttemptExact | src/constmap.c:301-397 | an attempt without duplicate alarm succeeds if and only if no cell is touched 64 times and a peeling order exists |
| Counting.LoadPermutation | src/constmap.c:303-328 | how many words touch a cell does not depend on the order of the words |
| Counting.InitialWork | src/constmap.c:344-348 | the scan lists exactly the cells of degree one, each once |
| Scattering.SomeBlockOpen | src/constmap.c:291-299 | before every placement some block cursor faces an empty slot, also when mixed words are zero |
| Scattering.ProbeFinds | src/constmap.c:293-296 | the cyclic probe reaches an open block before it has gone round |
| Scattering.PlaceKeepsInv | src/constmap.c:290-299 | each placement keeps the invariant that every first-unclaimed slot of a gap is faced by a cursor, and the non-zero words placed are those read |
| Scattering.PlaceExact | src/constmap.c:291-298 | each word goes to the slot faced by the nearest open block, going round from the block its leading bits name, and that block's cursor alone moves on |
| Scattering.ScatterPermutes | src/constmap.c:287-299 | the order array ends as a permutation of the mixed words, even when some are zero |
| Schemes.FcmLawful | src/constmap.c:38-155 | the library's mixing and positions meet the two laws the peeling and retry theorems rest on: injective under every seed, three distinct cells in range for every valid geometry |
| Attempts.HalveKeepsCells | src/constmap.c:258-274 | halving the segment length keeps the geometry valid over the same number of cells, and doubling undoes it |
| Attempts.GeometryAtExact | src/constmap.c:252-274 | over all attempts the geometry is the initial one, or its half on every fourth attempt of mid-sized maps; always valid over the original array length |
| Attempts.BlockBits | src/constmap.c:276-278 | the least exponent, at least one, whose power of two is not below the segment count |
| Attempts.RepeatsAreHopeless | src/constmap.c:354-397 | repeated key hashes leave no attempt a peeling order |
| Attempts.PeelFromExact | src/constmap.c:252-406 | success is the deciding attempt having a peeling order, and implies distinct hashes; failure means no attempt decides; a duplicate report is the deciding attempt's first alarm, which means equal hashes if no counter had wrapped before it, and a cell of the alarmed word touched 66 times or more if the hashes are distinct |
| Attempts.CleanAlarmExact | src/constmap.c:303-331 | at any attempt, before a counter has wrapped, the alarm fires exactly at a repeated word alone with its copy in a cell, and then two key hashes are equal |
| Attempts.OutcomeExact | src/constmap.c:252-406 | the return code, both ways: duplicate if and only if the deciding attempt raises the alarm, success if and only if it does not, failure if and only if no attempt decides |
| Attempts.DistinctOutcome | src/constmap.c:252-406 | for distinct hashes that overfill no cell, building succeeds if and only if some attempt has a peeling order, and never reports a duplicate |
| Attempts.OneKeyBuilds | src/constmap.c:252-406 | a single key always builds, whatever its hash |
| Attempts.RetriesReseed | src/constmap.c:399-406 | any two of the attempts have different seeds, and every key hash mixes to different words under them |
| Attempts.RepeatsNeverBuild | src/constmap.c:354-397 | repeated hashes never give FCM_OK |
| Inputs.StairBuilds | src/constmap.c:252-406 | for every valid geometry and every key count up to its number of first positions, some distinct key hashes build at the first attempt |
| Inputs.InputBuilds | src/constmap.c:440-521 | for every sorter, sizing and values up to that many, some input with distinct keys gets FCM_OK from the constructors |
| Inputs.BuiltPastLimit | src/constmap.c:489-521 | an input of 2^31 + 1 keys builds with FCM_OK, and in its plain map no key answers its value |
| FalseAlarm.AlarmRaised | src/constmap.c:317-323 | the 66 chosen distinct words raise the duplicate alarm in every order and every geometry |
| FalseAlarm.DistinctRejected | src/constmap.c:317-331 | for every initial geometry the 66 distinct key hashes are rejected as duplicates |
| FalseAlarm.ConstructorRejects | src/constmap.c:440-478 | every constructor returns FCM_E_DUPLICATE_KEY for keys with these 66 distinct hashes |
| FalseAlarm.RejectedInput | src/constmap.c:440-478 | for every sorter, sizing and values there is such an input, with 66 distinct keys |
| Construction.Params.SwingSegments | src/constmap.c:258-274 | updates the four geometry fields as the functional swing does |
| Construction.Scatter | src/constmap.c:287-299 | the probing loops terminate and leave the functional scatter result with the sentinel intact |
| Construction.PlaceWord | src/constmap.c:291-298 | the cursor probe terminates and places the word in the first open block from its own |
| Construction.AddEdge | src/constmap.c:304-327 | one edge's updates give the tallies of one more edge, and the two tests are exactly the two alarms |
| Construction.Alarms | src/constmap.c:317-327 | the prefilter on the AND of the three word XORs hides no alarm |
| Construction.CountPass | src/constmap.c:301-343 | reports a duplicate if and only if some edge raises the alarm, and then an error if and only if a counter had wrapped before the first such edge; otherwise reports an error if and only if a cell was touched 64 times, with exact tallies left behind |
| Construction.InitWorklist | src/constmap.c:344-348 | the speculative scan leaves exactly the degree-one cells, inside the array |
| Construction.DischargeCell | src/constmap.c:381-391 | writing the worklist slot first and keeping it only at degree two is the same as a conditional push |
| Construction.TurnFacts | src/constmap.c:354-388 | every speculative write stays inside the worklist array and the stack stays below the word count |
| Construction.PeelTurn | src/constmap.c:354-392 | one turn on the arrays is one step of the state machine; the sentinel survives |
| Construction.PeelLoop | src/constmap.c:350-392 | the loop terminates in the unique final state of the state machine |
| Construction.Reset | src/constmap.c:333-341 | counters, word XORs and the order array are zero again, the sentinel is kept |
| Construction.FcmPeel | src/constmap.c:232-406 | return code, seed, geometry, stack and roles are those of the functional outcome; the array length never changes |
| Assigning.SolveSolves | src/constmap.c:488-499 | after the backward walk all equations hold at once, whatever the array held before |
| Assigning.PutSolves | src/constmap.c:495-498 | setting the cell of any role makes the word's three cells XOR to the value |
| Assigning.PutKeeps | src/constmap.c:498 | the assignment keeps every equation that does not touch the cell |
| Assigning.PairLookup | src/constmap.c:174-182 | binary search returns the value at the first pair whose hash is not below the one sought |
| Assigning.LookupFinds | src/constmap.c:480-491 | in any sorted permutation of the pairs every hash is found, and with distinct hashes its own value is returned |
| MapModel.CellsCoverCapacity | src/constmap.c:197-213 | the segment length is the computed one, at most 2^18; the array holds the capacity if and only if the 32-bit sum does not wrap, then in whole segments with less than one to spare or as the three-segment minimum |
| MapModel.InitialGeometry | src/constmap.c:197-213 | the initial geometry is valid over the array length for every 32-bit capacity |
| MapModel.BuiltRecords | src/constmap.c:501-509 | a built map records the number of keys, the hash code given, the array length, and the seed and geometry of one and the same attempt, of which there are 101 |
| MapModel.HashedByCode | src/constmap.c:93-96 | hash code 0 peels the keys' XXH64, code 1 their XXH3 |
| MapModel.LookupsUseTheirHash | src/constmap.c:93-96 | with two hashers that agree on the hash a map's code names, all three kinds answer every key alike |
| MapModel.PlanFacts | src/constmap.c:476-478 | a successful peeling leaves distinct hashes and a peeling order that is a permutation of the mixed hashes, over a valid geometry |
| MapModel.PlainAnswers | src/constmap.c:440-521 | in a plain map built from fewer than 2^31 keys every key answers its own value |
| MapModel.VerifiedAnswers | src/constmap.c:524-610 | in a verified map built from fewer than 2^31 keys every key finds its check word and answers its own value, so "not found" only where that is the value |
| MapModel.PairedAnswers | src/constmap.c:612-695 | in a paired map built from fewer than 2^31 keys every key finds its check word in the slots and answers its own value |
| MapModel.PlainAnswersExactly | src/constmap.c:489-499 | a built plain map answers every key its value if and only if there are fewer than 2^31 keys or all values are 0 |
| MapModel.CheckedAnswerExactly | src/constmap.c:571-584 | a built verified or paired map answers every key its value if and only if there are fewer than 2^31 keys or every value is what an unassigned map answers |
| MapModel.PastIndexLimit | src/constmap.c:489-499 | past 2^31 keys every key answers 0 in the plain map, and in the verified and the paired one is not found unless its check word is 0, and then answers 0 |
| MapModel.PairedAgreesWithSplit | src/constmap.c:744-765 | zipping a verified map's arrays into slots changes no answer, for present or absent keys |
| Maps.ConstMap.Build | src/constmap.c:440-521 | the return code; an unknown hash leaves the object alone, any other error leaves it empty, success leaves the map the plan determines |
| Maps.VerifiedConstMap.Build | src/constmap.c:524-610 | as for the plain map, with the check words |
| Maps.PairedVerifiedConstMap.Build | src/constmap.c:612-695 | the slots' value and check words are the verified map's two arrays |
| Maps.DuplicateReported | src/constmap.c:476-478 | the constructors' duplicate code is the deciding attempt's first alarm, with what that shows about the key hashes |
| Maps.BuildCodeExact | src/constmap.c:440-478 | the return code as a number: -5 for an unknown hash code, -1 for more keys than 32 bits count, 0 for no keys, else 0, -3 or -4 by the attempts 0 to 100 |
| Maps.BuildUsesItsHash | src/constmap.c:101-112 | with two hashers that agree on the hash the code names, the return code and the maps of all three kinds are the same |
| Maps.ConstMap.Lookup | src/constmap.c:734-742 | 0 for an empty map, else the XOR of the three cells of the key's word, mixed from the hash of the map's code, for every map whose array the key's positions are in |
| Maps.ConstMap.LookupMany | src/constmap.c:785-812 | whole blocks and tail alike give, for every i, the single-key answer, and nothing else is written |
| Maps.VerifiedConstMap.Lookup | src/constmap.c:744-754 | the value if the check words match, else not found, for every map whose arrays the key's positions are in |
| Maps.VerifiedConstMap.LookupMany | src/constmap.c:814-843 | every entry is the single-key answer |
| Maps.PairedVerifiedConstMap.Lookup | src/constmap.c:756-765 | the slot value if the slot check matches, else not found |
| Maps.PairedVerifiedConstMap.LookupMany | src/constmap.c:845-872 | every entry is the single-key answer |
| Maps.HashBlock | src/constmap.c:101-112 | choosing the hash once per block gives every key's mixed hash, the one single lookups use |
| Vectors.OneKeyFileAnswers | src/constmap.c:1104-1124 | a file of 136 given bytes, checksum and all, is accepted, and answers 7 for every key that XXH64 sends to 2 |
| Bytes.UnLEofLE | src/constmap.c:952-984 | decoding an encoded word gives it back |
| Bytes.LEofUnLE | src/constmap.c:952-984 | encoding a decoded word gives its bytes back |
| Bytes.WriteU64 | src/constmap.c:958-967 | the eight stores write the little-endian bytes and touch nothing else |
| Bytes.WriteU32 | src/constmap.c:952-957 | the four stores write the little-endian bytes and touch nothing else |
| Bytes.ReadU64 | src/constmap.c:974-983 | or-ing the shifted bytes is the little-endian value |
| Bytes.ReadU32 | src/constmap.c:968-973 | or-ing the shifted bytes is the little-endian value |
| Bytes.FnvStepInjective | src/constmap.c:986-993 | an FNV-1a step loses neither the state nor the byte |
| Bytes.FnvDetects | src/constmap.c:986-993 | changing one byte anywhere changes the checksum |
| Formats.TablesOk | src/constmap.c:924-939 | in each table the magics differ, both hashes have a 32-byte format listed before any other of that hash, and no other hash has one |
| Formats.MagicsSpelled | src/constmap.c:924-939 | the letters of the seven magics, with the hash code and the header size of each |
| Formats.SerializedLayout | src/constmap.c:996-1020 | the byte offset of every field and word of a serialized map, and the checksum of all that precedes it at the end |
| Formats.ParseSerialized | src/constmap.c:996-1048 | parsing what a writer wrote, with anything behind it, gives back every field, every word and the derived parameters |
| Formats.ParseExact | src/constmap.c:1022-1048 | the parser's answer for each kind of buffer, with the code as a number and the fields at their byte offsets: under 8 bytes, unknown magic, short header, short body, wrong checksum, accepted |
| Formats.TruncatedParse | src/constmap.c:1025-1043 | any proper prefix of what an accepted buffer's length field covers is rejected with -7, wherever it is cut |
| Formats.RewriteReproduces | src/constmap.c:996-1048 | writing back an accepted buffer with a 32-byte header picks the same format and reproduces its bytes |
| Formats.OneByteCorruption | src/constmap.c:1041-1047 | changing one byte behind the magic and outside the length field of an accepted buffer always gives FCM_E_CHECKSUM |
| Formats.MagicCorruption | src/constmap.c:1022-1047 | changing one byte of the magic gives FCM_E_INVALID_FORMAT if no format has that magic, FCM_E_CHECKSUM if one with the same header size has |
| Formats.LengthCorruption | src/constmap.c:1036-1047 | changing one byte of the length field of a buffer that ends with its checksum gives FCM_E_SHORT_BUFFER for a larger length; a smaller one is accepted if and only if the checksum of what is left is at the new end, else FCM_E_CHECKSUM |
| Formats.ParamsOkExact | src/constmap.c:1050-1066 | the parameter check accepts a header if and only if its parameters describe its array: a power-of-two segment length, at least one segment, and a slot count of all segments |
| Formats.AcceptedIsSafe | src/constmap.c:1050-1066 | after the check no hash has a position outside the array, and its three positions are distinct |
| Formats.AcceptsLeastSafe | src/constmap.c:1050-1066 | the check accepts a non-empty array if and only if its segments are well formed and within 32 bits and it has the least slot count that keeps every position in range |
| Formats.SpareSlotRejected | src/constmap.c:1050-1066 | segment length 4, count 1 and 13 slots are rejected although every position is in range |
| Formats.WrappedSegmentsRejected | src/constmap.c:1050-1066 | segment length 4, count 2^30 + 1 and 12 slots are rejected although every position is in range |
| Storage.ParseBuffer | src/constmap.c:1022-1048 | returns the parse that `Formats.ParseExact` describes: the code, or every header field |
| Storage.ReaderCodes | src/constmap.c:1022-1066 | a rejection carries -5, -6 or -7, so never FCM_OK; the paired reader adds -9, exactly where the parameter check fails |
| Storage.WordLayout | src/constmap.c:1179-1279 | where a reader of each kind takes every value and check word from, by byte offset |
| Storage.WritePlain | src/constmap.c:1079-1091 | the buffer starts with the serialized map and is untouched behind it; unknown hash is an error that writes nothing |
| Storage.WriteVerified | src/constmap.c:1151-1166 | the same for data followed by checks |
| Storage.WritePaired | src/constmap.c:1231-1244 | the same for interleaved slots |
| Storage.ReadPlain | src/constmap.c:1104-1124 | FCM_OK if and only if the buffer parses; an accepted buffer gives its map, a rejected one its code and a zeroed object |
| Storage.ReadVerified | src/constmap.c:1179-1204 | the same for the verified kind |
| Storage.ReadPaired | src/constmap.c:1257-1279 | the same, and whatever is accepted is safe to look up in |
| MapModel.LayoutsAgree | tests/test_constmap.py:257-268 | on the same input the three layouts hold the same words, and the two checked ones answer alike for every key |
| EndToEnd.PlainRoundTrip | src/constmap.c:1079-1124 | read(write(m)) is m, empty map and both hashes included |
| EndToEnd.VerifiedRoundTrip | src/constmap.c:1151-1204 | read(write(m)) is m |
| EndToEnd.PairedRoundTrip | src/constmap.c:1231-1279 | read(write(m)) is m, and the parameter check passes |
| EndToEnd.BuiltIsStorable | src/constmap.c:501-509 | every built or cleared map has a format and consistent parameters that pass the parameter check |
| EndToEnd.PlainSurvivesStorage | src/constmap.c:1079-1124 | every key of a built plain map answers its value after write and read |
| EndToEnd.VerifiedSurvivesStorage | src/constmap.c:1151-1204 | the same for the verified kind |
| EndToEnd.PairedSurvivesStorage | src/constmap.c:1231-1279 | the same for the paired kind |
| EndToEnd.RewritePlain | src/constmap.c:1079-1124 | re-writing a read 32-byte-header buffer reproduces it |
| EndToEnd.RewriteVerified | src/constmap.c:1151-1204 | re-writing a read buffer reproduces it |
| EndToEnd.RewritePaired | src/constmap.c:1231-1279 | re-writing a read buffer reproduces it |
| EndToEnd.LegacyNormalises | src/constmap.c:924-928 | a CMAP0001 buffer comes back as CMAP0003 with key count zero and the same words, and reads back to the same map |
| EndToEnd.KindsApart | tests/test_constmap.py:243-254 | no buffer is accepted as two kinds; the other readers report an invalid format |
| EndToEnd.Truncated | src/constmap.c:1025-1043 | no reader accepts a truncated map; each says it is too short |
| EndToEnd.CheckedCorruption | src/constmap.c:1022-1047 | a verified or paired buffer with any one byte changed outside the length field is rejected |
| EndToEnd.PlainCorruption | src/constmap.c:1022-1047 | a plain buffer with one byte changed outside the length field is accepted if and only if the change swaps the 28-byte format's magic for another and the buffer, as that format delimits it, carries its own checksum |
| Escape.MagicEscapes | src/constmap.c:1022-1047 | a buffer that is accepted as a 28-byte-header plain map and, with the last magic byte changed, as a 32-byte-header one of exactly its length |
| EndToEnd.ServeFromStorage | tests/test_constmap.py:222-229 | build, write, read and batched lookup in a row return the built map's answers, which below 2^31 keys are the values |

## Left out

- Maps.ConstMap.Build: excludes exactly 2^31 keys, where the first value of the signed 32-bit assignment index overflows (src/constmap.c:489); above that it takes the conversion to a negative number, as common compilers do. The two other Build methods are alike.
- Maps.ConstMap.Lookup: requires the key's three positions to be in the array; where a map read without a parameter check puts them outside, the code reads out of bounds and nothing is claimed. Maps.ConstMap.LookupMany and both methods of the two other kinds are alike.
- Formats.Expected: is not reduced to a word, as with a 64-bit `size_t`; where `size_t` has 32 bits the expected length (src/constmap.c:1041) can wrap.
- The bodies of XXH64 and XXH3 (third_party/xxhash): any two functions from byte strings to 64-bit words.
- The logarithms behind the segment length and capacity (src/constmap.c:135-143), and the conversion of a capacity past 32 bits: parameters as stated above.
- The sorting routine's internals (src/constmap.c:485): any function returning a sorted permutation.
- Allocation failures (FCM_E_NOMEM), frees and null `out` pointers.
- Probabilities: the success rate of a seed, the false-positive rate of a check word, bytes per key.
- SSE2 and NEON slot reads, prefetching and timing: the scalar slot XOR is modelled.
- The `*_view` functions: they decode the same words in place, after an alignment test on the buffer address.
- The 128-bit branches of the high product: they compute floor(hash * n / 2^64), which the portable branch is proved equal to.
- src/fastconstmap_module.c: Python objects, file access and threading around this core.
