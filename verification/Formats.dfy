/** The serialized form of a map: header, words and checksum, and the parser
    that accepts it. */
module Formats {
  import opened ReturnCodes
  import opened Words
  import opened Geometry
  import opened MapModel
  import opened Bytes

  /** A magic number, the key hash it stands for and its header size. */
  datatype Format = Format(magic: seq<U8>, hash: U32, headerSize: nat)

  const CMAP: seq<U8> := [0x43, 0x4D, 0x41, 0x50, 0x30, 0x30, 0x30]
  const VMAP: seq<U8> := [0x56, 0x4D, 0x41, 0x50, 0x30, 0x30, 0x30]
  const VCMP: seq<U8> := [0x56, 0x43, 0x4D, 0x50, 0x30, 0x30, 0x30]
  const PMAP: seq<U8> := [0x50, 0x4D, 0x41, 0x50, 0x30, 0x30, 0x30]
  const PVCM: seq<U8> := [0x50, 0x56, 0x43, 0x4D, 0x30, 0x30, 0x30]

  const CMAP3: Format := Format(CMAP + [0x33], HASH_XXH64, 32)
  const CMAP1: Format := Format(CMAP + [0x31], HASH_XXH64, 28)
  const CMAP2: Format := Format(CMAP + [0x32], HASH_XXH3, 32)
  const VMAP1: Format := Format(VMAP + [0x31], HASH_XXH64, 32)
  const VCMP2: Format := Format(VCMP + [0x32], HASH_XXH3, 32)
  const PMAP1: Format := Format(PMAP + [0x31], HASH_XXH64, 32)
  const PVCM1: Format := Format(PVCM + [0x31], HASH_XXH3, 32)

  const PLAIN_FORMATS: seq<Format> := [CMAP3, CMAP1, CMAP2]
  const VERIFIED_FORMATS: seq<Format> := [VMAP1, VCMP2]
  const PAIRED_FORMATS: seq<Format> := [PMAP1, PVCM1]

  /** Index of the first format with this hash, or the table's length. */
  function FormatFor(formats: seq<Format>, hash: U32): (i: nat)
    ensures i <= |formats| && (i < |formats| ==> formats[i].hash == hash)
    ensures forall j | 0 <= j < i :: formats[j].hash != hash
  {
    if formats == [] || formats[0].hash == hash then 0 else 1 + FormatFor(formats[1..], hash)
  }

  /** Index of the first format whose magic opens the buffer, or the table's length. */
  function Recognise(formats: seq<Format>, magic: seq<U8>): (i: nat)
    ensures i <= |formats| && (i < |formats| ==> formats[i].magic == magic)
    ensures forall j | 0 <= j < i :: formats[j].magic != magic
  {
    if formats == [] || formats[0].magic == magic then 0 else 1 + Recognise(formats[1..], magic)
  }

  /** A table readers and writers can share: eight-byte distinct magics, headers of 28 or 32
      bytes, and for every hash at least one 32-byte header, listed before any other. */
  predicate TableOk(formats: seq<Format>) {
    && HeadersOk(formats)
    && (forall i, j | 0 <= i < j < |formats| :: formats[i].magic != formats[j].magic)
    && (forall i | 0 <= i < |formats| && formats[i].headerSize == 32 :: FormatFor(formats, formats[i].hash) == i)
    && FormatFor(formats, HASH_XXH64) == 0 < |formats| && formats[0].headerSize == 32
    && (forall i | 0 <= i < |formats| :: formats[i].hash == HASH_XXH64 || formats[i].hash == HASH_XXH3)
    && FormatFor(formats, HASH_XXH3) < |formats| && formats[FormatFor(formats, HASH_XXH3)].headerSize == 32
    && (forall h: U32 | h != HASH_XXH64 && h != HASH_XXH3 :: FormatFor(formats, h) == |formats|)
  }

  lemma TablesOk()
    ensures TableOk(PLAIN_FORMATS) && TableOk(VERIFIED_FORMATS) && TableOk(PAIRED_FORMATS)
  {
    PlainTableOk();
    VerifiedTableOk();
    PairedTableOk();
  }

  lemma PlainTableOk()
    ensures TableOk(PLAIN_FORMATS)
  {
    assert CMAP3.magic[7] != CMAP1.magic[7] && CMAP3.magic[7] != CMAP2.magic[7] && CMAP1.magic[7] != CMAP2.magic[7];
    assert PLAIN_FORMATS[1..] == [CMAP1, CMAP2] && PLAIN_FORMATS[1..][1..] == [CMAP2];
    assert FormatFor([CMAP2], HASH_XXH3) == 0;
    assert FormatFor(PLAIN_FORMATS[1..], HASH_XXH3) == 1;
    assert FormatFor(PLAIN_FORMATS, HASH_XXH3) == 2;
  }

  lemma VerifiedTableOk()
    ensures TableOk(VERIFIED_FORMATS)
  {
    assert VMAP1.magic[7] != VCMP2.magic[7];
    assert VERIFIED_FORMATS[1..] == [VCMP2];
  }

  lemma PairedTableOk()
    ensures TableOk(PAIRED_FORMATS)
  {
    assert PMAP1.magic[1] != PVCM1.magic[1];
    assert PAIRED_FORMATS[1..] == [PVCM1];
  }

  /** The magics, letter by letter, with the hash code and the header size each stands for. */
  lemma MagicsSpelled()
    ensures forall i | 0 <= i < 8 :: CMAP3.magic[i] == "CMAP0003"[i] as int && CMAP1.magic[i] == "CMAP0001"[i] as int
                                     && CMAP2.magic[i] == "CMAP0002"[i] as int
    ensures forall i | 0 <= i < 8 :: VMAP1.magic[i] == "VMAP0001"[i] as int && VCMP2.magic[i] == "VCMP0002"[i] as int
    ensures forall i | 0 <= i < 8 :: PMAP1.magic[i] == "PMAP0001"[i] as int && PVCM1.magic[i] == "PVCM0001"[i] as int
    ensures CMAP3.hash == CMAP1.hash == VMAP1.hash == PMAP1.hash == 0 && CMAP2.hash == VCMP2.hash == PVCM1.hash == 1
    ensures CMAP1.headerSize == 28 && forall f <- [CMAP3, CMAP2, VMAP1, VCMP2, PMAP1, PVCM1] :: f.headerSize == 32
  {
  }

  // ----- writing

  function HeaderBytes(f: Format, p: MapParams): (b: seq<U8>)
    ensures |b| == |f.magic| + 24
  {
    f.magic + LE(p.seed, 8) + LE(p.g.segLen, 4) + LE(p.g.segCount, 4) + LE(p.dataLen, 4) + LE(p.n, 4)
  }

  function WordBytes(words: seq<U64>): (b: seq<U8>)
    ensures |b| == 8 * |words|
  {
    if words == [] then [] else WordBytes(words[..|words| - 1]) + LE(words[|words| - 1], 8)
  }

  function Body(f: Format, p: MapParams, words: seq<U64>): seq<U8> {
    HeaderBytes(f, p) + WordBytes(words)
  }

  function Serialized(f: Format, p: MapParams, words: seq<U64>): seq<U8> {
    Body(f, p, words) + LE(Fnv(Body(f, p, words)), 8)
  }

  // ----- parsing


  datatype Header = Header(format: Format, seed: U64, segLen: U32, segCount: U32, dataLen: U32, n: U32)

  datatype Parsed = Accepted(header: Header) | Rejected(code: int)

  function HeaderOf(b: seq<U8>, f: Format): Header
    requires f.headerSize in {28, 32} && f.headerSize <= |b|
  {
    Header(f, ReadU64(b, 8), ReadU32(b, 16), ReadU32(b, 20), ReadU32(b, 24),
           if f.headerSize == 32 then ReadU32(b, 28) else 0)
  }

  /** Bytes a map with this header occupies; entryBytes is what one unit of its length takes. */
  function Expected(h: Header, entryBytes: nat): (n: nat)
    ensures n >= h.format.headerSize + 8
  {
    h.format.headerSize + h.dataLen * entryBytes + 8
  }

  predicate HeadersOk(formats: seq<Format>) {
    forall i | 0 <= i < |formats| :: |formats[i].magic| == 8 && formats[i].headerSize in {28, 32}
  }

  function Parse(b: seq<U8>, formats: seq<Format>, entryBytes: nat): Parsed
    requires HeadersOk(formats)
  {
    if |b| < 8 then Rejected(FCM_E_SHORT_BUFFER)
    else
      var i := Recognise(formats, b[..8]);
      if i == |formats| then Rejected(FCM_E_INVALID_FORMAT) else ParseAs(b, formats[i], entryBytes)
  }

  function ParseAs(b: seq<U8>, f: Format, entryBytes: nat): Parsed
    requires f.headerSize in {28, 32}
  {
    if |b| < f.headerSize + 8 then Rejected(FCM_E_SHORT_BUFFER)
    else
      var h := HeaderOf(b, f);
      var expected := Expected(h, entryBytes);
      if |b| < expected then Rejected(FCM_E_SHORT_BUFFER)
      else if ReadU64(b, expected - 8) != Fnv(b[..expected - 8]) then Rejected(FCM_E_CHECKSUM)
      else Accepted(h)
  }

  lemma ParseAccepts(b: seq<U8>, formats: seq<Format>, entryBytes: nat)
    requires HeadersOk(formats) && Parse(b, formats, entryBytes).Accepted?
    ensures var h := Parse(b, formats, entryBytes).header;
            && |b| >= 8 && Recognise(formats, b[..8]) < |formats| && h.format == formats[Recognise(formats, b[..8])]
            && h.format in formats && h.format.headerSize in {28, 32} && |h.format.magic| == 8
            && h.format.headerSize + 8 <= Expected(h, entryBytes) <= |b|
            && b[..8] == h.format.magic && h == HeaderOf(b, h.format)
            && ReadU64(b, Expected(h, entryBytes) - 8) == Fnv(b[..Expected(h, entryBytes) - 8])
  {
    hide ReadU64, ReadU32, Fnv, Expected;
  }

  /** The words stored from offset p on. */
  function WordsAt(b: seq<U8>, p: nat, count: nat): (w: seq<U64>)
    requires p + 8 * count <= |b|
    ensures |w| == count && forall i | 0 <= i < count :: w[i] == ReadU64(b, p + 8 * i)
  {
    seq(count, i requires 0 <= i < count => ReadU64(b, p + 8 * i))
  }

  lemma WordsSplit(b: seq<U8>, p: nat, m: nat, n: nat)
    requires p + 8 * m + 8 * n <= |b|
    ensures WordsAt(b, p, m + n) == WordsAt(b, p, m) + WordsAt(b, p + 8 * m, n)
    ensures WordsAt(b, p, m + n)[..m] == WordsAt(b, p, m) && WordsAt(b, p, m + n)[m..] == WordsAt(b, p + 8 * m, n)
  {
    hide ReadU64;
    var w, x, y := WordsAt(b, p, m + n), WordsAt(b, p, m), WordsAt(b, p + 8 * m, n);
    assert forall i | 0 <= i < n :: y[i] == ReadU64(b, p + 8 * (m + i));
    assert w == x + y;
  }

  /** The parameters a reader derives: mask and segment_count_length are not stored. */
  function ParamsFrom(h: Header): MapParams {
    MapParams(h.seed,
              Geometry(h.segLen, if h.segLen == 0 then 0 else h.segLen - 1, h.segCount,
                       (h.segCount * h.segLen) % TWO32),
              h.dataLen, h.n, h.format.hash)
  }

  /** The derived fields agree with the stored ones. */
  predicate Consistent(p: MapParams) {
    && p.g.mask == (if p.g.segLen == 0 then 0 else p.g.segLen - 1)
    && p.g.scl == (p.g.segCount * p.g.segLen) % TWO32
  }

  lemma ValidIsConsistent(p: MapParams)
    requires ValidGeometry(p.g, p.dataLen) || p == EmptyParams(p.hash)
    ensures Consistent(p)
  {
    if ValidGeometry(p.g, p.dataLen) {
      MulMono(p.g.segCount, p.g.segCount + 2, p.g.segLen, p.g.segLen);
    }
  }

  // ----- round trips

  /** Field by field, the header of a serialized map. */
  lemma HeaderFields(b: seq<U8>, f: Format, p: MapParams)
    requires |f.magic| == 8 && f.headerSize == 32 && HeaderBytes(f, p) <= b
    ensures b[..8] == f.magic && HeaderOf(b, f) == Header(f, p.seed, p.g.segLen, p.g.segCount, p.dataLen, p.n)
  {
    hide LE, UnLE;
    var hb := HeaderBytes(f, p);
    assert b[..32] == hb;
    LE4Back(p.g.segLen);
    LE4Back(p.g.segCount);
    LE4Back(p.dataLen);
    LE4Back(p.n);
    LE8Back(p.seed);
    assert b[8..16] == hb[8..16] == LE(p.seed, 8);
    assert b[16..20] == hb[16..20] == LE(p.g.segLen, 4);
    assert b[20..24] == hb[20..24] == LE(p.g.segCount, 4);
    assert b[24..28] == hb[24..28] == LE(p.dataLen, 4);
    assert b[28..32] == hb[28..32] == LE(p.n, 4);
  }

  lemma LE4Back(v: U32)
    ensures |LE(v, 4)| == 4 && UnLE(LE(v, 4)) == v
  {
    PowerSizes();
    UnLEofLE(v, 4);
  }

  lemma LE8Back(v: U64)
    ensures |LE(v, 8)| == 8 && UnLE(LE(v, 8)) == v
  {
    PowerSizes();
    UnLEofLE(v, 8);
  }

  lemma {:induction false} WordBytesAt(words: seq<U64>, i: nat)
    requires i < |words|
    ensures WordBytes(words)[8 * i..8 * i + 8] == LE(words[i], 8)
  {
    hide LE;
    var n := |words| - 1;
    LE8Back(words[n]);
    if i == n {
      assert WordBytes(words)[8 * n..] == LE(words[n], 8);
    } else {
      WordBytesAt(words[..n], i);
      assert WordBytes(words)[8 * i..8 * i + 8] == WordBytes(words[..n])[8 * i..8 * i + 8];
    }
  }

  lemma WordsBack(b: seq<U8>, f: Format, p: MapParams, words: seq<U64>)
    requires |f.magic| == 8 && Body(f, p, words) <= b
    ensures |b| >= 32 + 8 * |words|
    ensures WordsAt(b, 32, |words|) == words
  {
    hide LE, UnLE, HeaderBytes, WordBytes;
    BodyLength(f, p, words);
    var hb, wb := HeaderBytes(f, p), WordBytes(words);
    forall i | 0 <= i < |words|
      ensures ReadU64(b, 32 + 8 * i) == words[i]
    {
      WordBytesAt(words, i);
      LE8Back(words[i]);
      SliceBehind(b, hb, wb, 32, 8 * i, 8);
    }
  }

  lemma SliceBehind(b: seq<U8>, x: seq<U8>, y: seq<U8>, p: nat, at: nat, k: nat)
    requires |x| == p && at + k <= |y| && x + y <= b
    ensures |b| >= p + at + k && b[p + at..p + at + k] == y[at..at + k]
  {
    assert b[..|x + y|] == x + y;
  }

  /** Parsing what a writer wrote, with anything behind it, gives back every field and every word. */
  lemma ParseSerialized(b: seq<U8>, formats: seq<Format>, entryBytes: nat, i: nat, p: MapParams, words: seq<U64>)
    requires TableOk(formats) && i < |formats| && formats[i].headerSize == 32 && formats[i].hash == p.hash
    requires 8 * |words| == p.dataLen * entryBytes && Serialized(formats[i], p, words) <= b
    ensures Parse(b, formats, entryBytes)
         == Accepted(Header(formats[i], p.seed, p.g.segLen, p.g.segCount, p.dataLen, p.n))
    ensures |b| >= 32 + 8 * |words| && WordsAt(b, 32, |words|) == words
    ensures Consistent(p) ==> ParamsFrom(Parse(b, formats, entryBytes).header) == p
  {
    hide LE, UnLE, Fnv, HeaderBytes, WordBytes, HeaderOf, Parse, ParseAs, Expected, WordsAt, TableOk, Body;
    var f := formats[i];
    TableHeaders(formats);
    SerializedParts(b, f, p, words);
    RecogniseKnown(formats, b[..8], i);
    ParseByMagic(b, formats, entryBytes);
    AcceptedAs(b, f, p, words, entryBytes);
  }

  lemma RecogniseKnown(formats: seq<Format>, magic: seq<U8>, i: nat)
    requires TableOk(formats) && i < |formats| && formats[i].magic == magic
    ensures Recognise(formats, magic) == i
  {
    hide Recognise, FormatFor;
  }

  /** Where the parts of a serialized map are. */
  lemma SerializedParts(b: seq<U8>, f: Format, p: MapParams, words: seq<U64>)
    requires |f.magic| == 8 && f.headerSize == 32 && Serialized(f, p, words) <= b
    ensures |b| >= 40 + 8 * |words| && b[..8] == f.magic
    ensures HeaderOf(b, f) == Header(f, p.seed, p.g.segLen, p.g.segCount, p.dataLen, p.n)
    ensures WordsAt(b, 32, |words|) == words
    ensures ReadU64(b, 32 + 8 * |words|) == Fnv(b[..32 + 8 * |words|])
  {
    hide LE, UnLE, Fnv, HeaderBytes, WordBytes, HeaderOf, WordsAt;
    var body := Body(f, p, words);
    BodyLength(f, p, words);
    assert b[..|body|] == body;
    HeaderFields(b, f, p) by { assert HeaderBytes(f, p) == body[..32]; }
    WordsBack(b, f, p, words);
    LE8Back(Fnv(body));
    assert b[|body|..|body| + 8] == Serialized(f, p, words)[|body|..] == LE(Fnv(body), 8);
  }

  lemma AcceptedAs(b: seq<U8>, f: Format, p: MapParams, words: seq<U64>, entryBytes: nat)
    requires |f.magic| == 8 && f.headerSize == 32 && 8 * |words| == p.dataLen * entryBytes
    requires |b| >= 40 + 8 * |words|
    requires HeaderOf(b, f) == Header(f, p.seed, p.g.segLen, p.g.segCount, p.dataLen, p.n)
    requires ReadU64(b, 32 + 8 * |words|) == Fnv(b[..32 + 8 * |words|])
    ensures ParseAs(b, f, entryBytes) == Accepted(HeaderOf(b, f))
  {
    hide HeaderOf, Fnv, ReadU64;
  }

  lemma BodyLength(f: Format, p: MapParams, words: seq<U64>)
    requires |f.magic| == 8
    ensures |HeaderBytes(f, p)| == 32 && |WordBytes(words)| == 8 * |words| && |Body(f, p, words)| == 32 + 8 * |words|
    ensures Body(f, p, words)[..32] == HeaderBytes(f, p)
    ensures |Serialized(f, p, words)| == 40 + 8 * |words|
  {
  }

  /** Where a serialized map has its fields and words, byte offset by byte offset. */
  lemma SerializedLayout(b: seq<U8>, f: Format, p: MapParams, words: seq<U64>)
    requires |f.magic| == 8 && f.headerSize == 32 && b == Serialized(f, p, words)
    ensures |b| == 40 + 8 * |words| && b[..8] == f.magic
    ensures ReadU64(b, 8) == p.seed && ReadU32(b, 16) == p.g.segLen && ReadU32(b, 20) == p.g.segCount
    ensures ReadU32(b, 24) == p.dataLen && ReadU32(b, 28) == p.n
    ensures forall i | 0 <= i < |words| :: ReadU64(b, 32 + 8 * i) == words[i]
    ensures ReadU64(b, 32 + 8 * |words|) == Fnv(b[..32 + 8 * |words|])
  {
    hide Serialized, ReadU64, ReadU32, Fnv;
    SerializedParts(b, f, p, words);
    BodyLength(f, p, words);
    assert forall i | 0 <= i < |words| :: WordsAt(b, 32, |words|)[i] == ReadU64(b, 32 + 8 * i);
  }

  // ----- which code a buffer gets

  /** The format a buffer's magic names, if any. */
  predicate Names(b: seq<U8>, f: Format) {
    |b| >= 8 && b[..8] == f.magic
  }

  /** The parser's answers, one by one: what decides is the length, the magic, and the checksum at
      the end that the length field gives. */
  lemma ParseExact(b: seq<U8>, formats: seq<Format>, entryBytes: nat, f: Format)
    requires HeadersOk(formats)
    ensures |b| < 8 ==> Parse(b, formats, entryBytes) == Rejected(-7)
    ensures |b| >= 8 && (forall k | 0 <= k < |formats| :: !Names(b, formats[k])) ==>
              Parse(b, formats, entryBytes) == Rejected(-5)
    ensures f in formats && Names(b, f)
            && (forall k | 0 <= k < |formats| && Names(b, formats[k]) :: formats[k] == f) ==>
              if |b| < f.headerSize + 8 then Parse(b, formats, entryBytes) == Rejected(-7)
              else
                var end := SumOffset(f, ReadU32(b, 24), entryBytes);
                if |b| < end + 8 then Parse(b, formats, entryBytes) == Rejected(-7)
                else if ReadU64(b, end) != Fnv(b[..end]) then Parse(b, formats, entryBytes) == Rejected(-6)
                else Parse(b, formats, entryBytes) == Accepted(
                       Header(f, ReadU64(b, 8), ReadU32(b, 16), ReadU32(b, 20), ReadU32(b, 24),
                              if f.headerSize == 32 then ReadU32(b, 28) else 0))
  {
    hide Fnv, ReadU64, ReadU32, Recognise, Parse, SumOffset, Expected;
    if |b| < 8 {
      ShortParse(b, formats, entryBytes);
    } else {
      ParseByMagic(b, formats, entryBytes);
      var k := Recognise(formats, b[..8]);
      assert k < |formats| ==> Names(b, formats[k]);
      if f in formats && Names(b, f) {
        var j :| 0 <= j < |formats| && formats[j] == f;
        assert Names(b, formats[j]) && k < |formats|;
        if |b| >= f.headerSize + 8 {
          ExpectedIs(HeaderOf(b, f), entryBytes);
        }
      }
    }
  }

  lemma ShortParse(b: seq<U8>, formats: seq<Format>, entryBytes: nat)
    requires HeadersOk(formats) && |b| < 8
    ensures Parse(b, formats, entryBytes) == Rejected(FCM_E_SHORT_BUFFER)
  {
  }

  /** A rejection never looks like success. */
  lemma RejectionCodes(b: seq<U8>, formats: seq<Format>, entryBytes: nat)
    requires HeadersOk(formats)
    ensures var r := Parse(b, formats, entryBytes); r.Rejected? ==> r.code in {-5, -6, -7}
  {
    hide Fnv, ReadU64, ReadU32, Recognise, Expected;
  }

  /** A truncated map is always too short, wherever it was cut. */
  lemma TruncatedParse(b: seq<U8>, formats: seq<Format>, entryBytes: nat, len: nat)
    requires HeadersOk(formats) && Parse(b, formats, entryBytes).Accepted?
    requires len <= |b| && len < Expected(Parse(b, formats, entryBytes).header, entryBytes)
    ensures Parse(b[..len], formats, entryBytes) == Rejected(-7)
  {
    hide Fnv, ReadU64, ReadU32, Recognise, Parse, Expected;
    ParseAccepts(b, formats, entryBytes);
    var h, b' := Parse(b, formats, entryBytes).header, b[..len];
    if len < 8 {
      ShortParse(b', formats, entryBytes);
    } else {
      assert b'[..8] == b[..8];
      ParseByMagic(b', formats, entryBytes);
      if len >= h.format.headerSize + 8 {
        assert b'[24..28] == b[24..28];
        SameLengthField(b, b');
        HeaderLength(b, h.format);
        HeaderLength(b', h.format);
        SameExpected(h, HeaderOf(b', h.format), entryBytes);
      }
    }
  }

  lemma SameLengthField(b: seq<U8>, b': seq<U8>)
    requires |b| >= 28 && |b'| >= 28 && b[24..28] == b'[24..28]
    ensures ReadU32(b, 24) == ReadU32(b', 24)
  {
  }

  // ----- re-writing what was read

  lemma {:induction false} WordBytesOf(b: seq<U8>, p: nat, count: nat)
    requires p + 8 * count <= |b|
    ensures WordBytes(WordsAt(b, p, count)) == b[p..p + 8 * count]
  {
    hide LE, UnLE;
    if count > 0 {
      var w := WordsAt(b, p, count);
      WordBytesOf(b, p, count - 1);
      assert w[..count - 1] == WordsAt(b, p, count - 1);
      LEofUnLE(b[p + 8 * (count - 1)..p + 8 * count]);
    }
  }

  lemma HeaderBytesOf(b: seq<U8>, f: Format)
    requires f.headerSize == 32 <= |b| && |f.magic| == 8 && b[..8] == f.magic
    ensures HeaderBytes(f, ParamsFrom(HeaderOf(b, f))) == b[..32]
  {
    hide LE, UnLE;
    LEofUnLE(b[8..16]);
    LEofUnLE(b[16..20]);
    LEofUnLE(b[20..24]);
    LEofUnLE(b[24..28]);
    LEofUnLE(b[28..32]);
    assert b[..32] == b[..8] + b[8..16] + b[16..20] + b[20..24] + b[24..28] + b[28..32];
  }

  /** Writing back an accepted buffer with a 32-byte header reproduces its bytes, and the
      writer picks the same format. */
  lemma RewriteReproduces(b: seq<U8>, formats: seq<Format>, entryBytes: nat, count: nat)
    requires TableOk(formats) && Parse(b, formats, entryBytes).Accepted?
    requires var h := Parse(b, formats, entryBytes).header;
             h.format.headerSize == 32 && 8 * count == h.dataLen * entryBytes
    ensures var h := Parse(b, formats, entryBytes).header;
            && Expected(h, entryBytes) == 40 + 8 * count <= |b|
            && FormatFor(formats, h.format.hash) < |formats|
            && formats[FormatFor(formats, h.format.hash)] == h.format
            && Serialized(h.format, ParamsFrom(h), WordsAt(b, 32, count)) == b[..Expected(h, entryBytes)]
  {
    hide Parse, HeaderOf, Serialized, ParamsFrom, WordsAt, Fnv, ReadU64, TableOk, HeadersOk, FormatFor;
    TableHeaders(formats);
    ParseAccepts(b, formats, entryBytes);
    var h := Parse(b, formats, entryBytes).header;
    SameFormat(formats, h.format);
    RewriteBytes(b, h.format, count);
  }

  lemma TableHeaders(formats: seq<Format>)
    requires TableOk(formats)
    ensures HeadersOk(formats)
  {
  }

  lemma SameFormat(formats: seq<Format>, f: Format)
    requires TableOk(formats) && f in formats && f.headerSize == 32
    ensures FormatFor(formats, f.hash) < |formats| && formats[FormatFor(formats, f.hash)] == f
  {
    var i :| 0 <= i < |formats| && formats[i] == f;
    assert FormatFor(formats, formats[i].hash) == i;
  }

  lemma RewriteBytes(b: seq<U8>, f: Format, count: nat)
    requires f.headerSize == 32 && |f.magic| == 8 && 40 + 8 * count <= |b| && b[..8] == f.magic
    requires ReadU64(b, 32 + 8 * count) == Fnv(b[..32 + 8 * count])
    ensures Serialized(f, ParamsFrom(HeaderOf(b, f)), WordsAt(b, 32, count)) == b[..40 + 8 * count]
  {
    hide LE, Fnv, HeaderBytes, WordBytes, ReadU64, ParamsFrom, HeaderOf, WordsAt;
    HeaderBytesOf(b, f);
    WordBytesOf(b, 32, count);
    var end := 32 + 8 * count;
    assert b[..32] + b[32..end] == b[..end];
    StoredSum(b, end);
    assert b[..end] + b[end..end + 8] == b[..end + 8];
  }

  lemma StoredSum(b: seq<U8>, p: nat)
    requires p + 8 <= |b|
    ensures LE(ReadU64(b, p), 8) == b[p..p + 8]
  {
    LEofUnLE(b[p..p + 8]);
  }

  // ----- corruption

  /** Changing one byte behind the magic, outside the length field, of an accepted
      map always makes the parser report a checksum error. */
  lemma OneByteCorruption(b: seq<U8>, formats: seq<Format>, entryBytes: nat, i: nat, x: U8)
    requires HeadersOk(formats) && Parse(b, formats, entryBytes).Accepted?
    requires 8 <= i < Expected(Parse(b, formats, entryBytes).header, entryBytes) <= |b|
    requires !(24 <= i < 28) && x != b[i]
    ensures Parse(b[i := x], formats, entryBytes) == Rejected(FCM_E_CHECKSUM)
  {
    hide Fnv, ReadU64, ReadU32, Expected, ParseAs;
    ParseAccepts(b, formats, entryBytes);
    var b' := b[i := x];
    assert b'[..8] == b[..8];
    var f := Parse(b, formats, entryBytes).header.format;
    CorruptAs(b, f, f, entryBytes, i, x);
  }

  /** Where the checksum of a map with d units of words is. */
  function SumOffset(f: Format, d: nat, entryBytes: nat): nat {
    f.headerSize + d * entryBytes
  }

  predicate CarriesSum(b: seq<U8>, end: nat) {
    end + 8 <= |b| && ReadU64(b, end) == Fnv(b[..end])
  }

  /** Changing a byte of the length field of a buffer that ends with its checksum: a larger length
      always makes it too short, and a smaller one is accepted if and only if the words before the
      new end happen to be followed by their checksum. */
  lemma LengthCorruption(b: seq<U8>, formats: seq<Format>, entryBytes: nat, i: nat, x: U8)
    requires HeadersOk(formats) && Parse(b, formats, entryBytes).Accepted? && entryBytes >= 1
    requires |b| == Expected(Parse(b, formats, entryBytes).header, entryBytes)
    requires 24 <= i < 28 <= |b| && x != b[i]
    ensures var f, d, d' := Parse(b, formats, entryBytes).header.format, ReadU32(b, 24), ReadU32(b[i := x], 24);
            var r := Parse(b[i := x], formats, entryBytes);
            && d' != d
            && (d' > d ==> r == Rejected(FCM_E_SHORT_BUFFER))
            && (d' < d ==> (r.Accepted? <==> CarriesSum(b[i := x], SumOffset(f, d', entryBytes))))
            && (d' < d && r.Rejected? ==> r == Rejected(FCM_E_CHECKSUM))
  {
    hide *;
    ParseAccepts(b, formats, entryBytes);
    var b' := b[i := x];
    var h := Parse(b, formats, entryBytes).header;
    assert b'[..8] == b[..8];
    LengthDiffers(b, b', i);
    ParseByMagic(b, formats, entryBytes);
    ParseByMagic(b', formats, entryBytes);
    HeaderLength(b, h.format);
    ExpectedIs(h, entryBytes);
    LengthMoved(b', h.format, h.dataLen, ReadU32(b', 24), entryBytes);
  }

  lemma ExpectedIs(h: Header, entryBytes: nat)
    ensures Expected(h, entryBytes) == SumOffset(h.format, h.dataLen, entryBytes) + 8
  {
  }

  lemma HeaderLength(b: seq<U8>, f: Format)
    requires f.headerSize in {28, 32} && f.headerSize <= |b|
    ensures HeaderOf(b, f).dataLen == ReadU32(b, 24) && HeaderOf(b, f).format == f
  {
    hide ReadU32, ReadU64;
  }

  lemma LengthDiffers(b: seq<U8>, b': seq<U8>, i: nat)
    requires 24 <= i < 28 <= |b| == |b'| && b[i] != b'[i]
    ensures ReadU32(b, 24) != ReadU32(b', 24)
  {
    hide LE, UnLE;
    LEofUnLE(b[24..28]);
    LEofUnLE(b'[24..28]);
    assert b[24..28][i - 24] != b'[24..28][i - 24];
  }

  lemma LengthMoved(b: seq<U8>, f: Format, d: nat, d': nat, entryBytes: nat)
    requires f.headerSize in {28, 32} && |b| == SumOffset(f, d, entryBytes) + 8 && entryBytes >= 1
    requires |b| >= 28 && ReadU32(b, 24) == d'
    ensures d' > d ==> ParseAs(b, f, entryBytes) == Rejected(FCM_E_SHORT_BUFFER)
    ensures d' < d ==> (ParseAs(b, f, entryBytes).Accepted? <==> CarriesSum(b, SumOffset(f, d', entryBytes)))
    ensures d' < d && ParseAs(b, f, entryBytes).Rejected? ==> ParseAs(b, f, entryBytes) == Rejected(FCM_E_CHECKSUM)
  {
    hide Fnv, ReadU32, ReadU64, SumOffset, Expected;
    OffsetsGrow(f, 0, d, entryBytes);
    HeaderLength(b, f);
    ExpectedIs(HeaderOf(b, f), entryBytes);
    if d' > d {
      OffsetsGrow(f, d, d', entryBytes);
    } else {
      OffsetsGrow(f, d', d, entryBytes);
    }
  }

  lemma OffsetsGrow(f: Format, d: nat, d': nat, entryBytes: nat)
    requires d <= d' && entryBytes >= 1
    ensures f.headerSize <= SumOffset(f, d, entryBytes) <= SumOffset(f, d', entryBytes)
    ensures d < d' ==> SumOffset(f, d, entryBytes) < SumOffset(f, d', entryBytes)
  {
    MulMono(d, d', entryBytes, entryBytes);
    if d < d' {
      MulMono(d + 1, d', entryBytes, entryBytes);
      assert (d + 1) * entryBytes == d * entryBytes + entryBytes;
    }
  }

  /** Changing one byte of the magic: an unknown magic is a format error, and one that stands
      for the same header size a checksum error. */
  lemma MagicCorruption(b: seq<U8>, formats: seq<Format>, entryBytes: nat, i: nat, x: U8)
    requires HeadersOk(formats) && Parse(b, formats, entryBytes).Accepted?
    requires i < 8 <= |b| && x != b[i]
    ensures var k := Recognise(formats, b[i := x][..8]);
            && (k == |formats| ==> Parse(b[i := x], formats, entryBytes) == Rejected(FCM_E_INVALID_FORMAT))
            && (k < |formats| && formats[k].headerSize == Parse(b, formats, entryBytes).header.format.headerSize ==>
                  Parse(b[i := x], formats, entryBytes) == Rejected(FCM_E_CHECKSUM))
  {
    hide *;
    ParseAccepts(b, formats, entryBytes);
    ParseByMagic(b[i := x], formats, entryBytes);
    var h, k := Parse(b, formats, entryBytes).header, Recognise(formats, b[i := x][..8]);
    if k < |formats| && formats[k].headerSize == h.format.headerSize {
      assert i < Expected(h, entryBytes);
      CorruptAs(b, h.format, formats[k], entryBytes, i, x);
    }
  }

  lemma ParseByMagic(b: seq<U8>, formats: seq<Format>, entryBytes: nat)
    requires HeadersOk(formats) && |b| >= 8
    ensures var k := Recognise(formats, b[..8]);
            && k <= |formats|
            && Parse(b, formats, entryBytes)
               == if k == |formats| then Rejected(FCM_E_INVALID_FORMAT) else ParseAs(b, formats[k], entryBytes)
  {
    hide ParseAs;
  }

  /** Any one changed byte outside the length field is noticed, unless it turns the magic into
      one that stands for the other header size. */
  lemma AnyByteCorruption(b: seq<U8>, formats: seq<Format>, entryBytes: nat, i: nat, x: U8)
    requires HeadersOk(formats) && Parse(b, formats, entryBytes).Accepted?
    requires i < Expected(Parse(b, formats, entryBytes).header, entryBytes) <= |b|
    requires !(24 <= i < 28) && x != b[i]
    ensures Parse(b[i := x], formats, entryBytes).Rejected? ||
            (i < 8 <= |b| && var k := Recognise(formats, b[i := x][..8]);
             k < |formats| && formats[k].headerSize != Parse(b, formats, entryBytes).header.format.headerSize)
  {
    hide Parse, Recognise, Expected;
    if i < 8 {
      ParseAccepts(b, formats, entryBytes);
      MagicCorruption(b, formats, entryBytes, i, x);
      ParseByMagic(b[i := x], formats, entryBytes);
    } else {
      OneByteCorruption(b, formats, entryBytes, i, x);
    }
  }

  /** Read under any format with the same header size, a changed map fails its checksum. */
  lemma CorruptAs(b: seq<U8>, f: Format, f': Format, entryBytes: nat, i: nat, x: U8)
    requires f.headerSize == f'.headerSize && f.headerSize in {28, 32} && f.headerSize <= |b|
    requires var expected := Expected(HeaderOf(b, f), entryBytes);
             && i < expected <= |b| && f.headerSize + 8 <= expected
             && ReadU64(b, expected - 8) == Fnv(b[..expected - 8])
    requires !(24 <= i < 28) && x != b[i]
    ensures ParseAs(b[i := x], f', entryBytes) == Rejected(FCM_E_CHECKSUM)
  {
    hide Fnv, ReadU64, ReadU32, Expected;
    var b' := b[i := x];
    assert HeaderOf(b', f').dataLen == HeaderOf(b, f).dataLen by { SameLength(b, b'); }
    SameExpected(HeaderOf(b, f), HeaderOf(b', f'), entryBytes);
    var end := Expected(HeaderOf(b, f), entryBytes) - 8;
    if i < end {
      assert b'[..end] == b[..end][i := x];
      FnvDetects(b[..end], i, x);
      SameWord(b, b', end);
    } else {
      assert b'[..end] == b[..end];
      WordDiffers(b, b', end, i);
    }
  }

  lemma SameLength(b: seq<U8>, b': seq<U8>)
    requires 28 <= |b| == |b'| && forall j | 24 <= j < 28 :: b[j] == b'[j]
    ensures ReadU32(b, 24) == ReadU32(b', 24)
  {
    assert b[24..28] == b'[24..28];
  }

  lemma SameExpected(h: Header, h': Header, entryBytes: nat)
    requires h.dataLen == h'.dataLen && h.format.headerSize == h'.format.headerSize
    ensures Expected(h, entryBytes) == Expected(h', entryBytes)
  {
  }

  lemma SameWord(b: seq<U8>, b': seq<U8>, p: nat)
    requires p + 8 <= |b| == |b'| && forall j | p <= j < p + 8 :: b[j] == b'[j]
    ensures ReadU64(b, p) == ReadU64(b', p)
  {
    assert b[p..p + 8] == b'[p..p + 8];
  }

  lemma WordDiffers(b: seq<U8>, b': seq<U8>, p: nat, i: nat)
    requires p <= i < p + 8 <= |b| == |b'| && b[i] != b'[i]
    ensures ReadU64(b, p) != ReadU64(b', p)
  {
    StoredSum(b, p);
    StoredSum(b', p);
    assert b[p..p + 8][i - p] != b'[p..p + 8][i - p];
  }

  // ----- the parameter check of the paired readers

  function ParamsOk(segLen: U32, segCount: U32, slotCount: U32): bool {
    if slotCount == 0 then true
    else if segLen == 0 || And(segLen, segLen - 1) != 0 then false
    else if segCount == 0 then false
    else ((segCount + 2) * segLen) % TWO64 == slotCount
  }

  /** The check accepts a header exactly when its parameters describe its array. */
  lemma ParamsOkExact(h: Header)
    ensures ParamsOk(h.segLen, h.segCount, h.dataLen) <==> SafeParams(ParamsFrom(h))
  {
    hide And, IsPow2;
    NotPow2Zero();
    if h.segLen > 0 {
      Pow2Test(h.segLen);
      SegmentProducts(h.segLen, h.segCount, (h.segCount + 2) * h.segLen, h.segCount * h.segLen);
    }
  }

  /** What an accepted header is good for: no hash ever reads outside the array, and the
      three cells it reads are distinct. */
  lemma AcceptedIsSafe(h: Header, hash: U64)
    requires ParamsOk(h.segLen, h.segCount, h.dataLen) && h.dataLen > 0
    ensures forall r | 0 <= r < 3 :: Position(hash, ParamsFrom(h).g, r) < h.dataLen
    ensures forall r, s | 0 <= r < s < 3 :: Position(hash, ParamsFrom(h).g, r) != Position(hash, ParamsFrom(h).g, s)
  {
    hide ParamsOk, ValidGeometry, Position, MulHigh32;
    ParamsOkExact(h);
    PositionSafety(hash, ParamsFrom(h).g, h.dataLen);
  }

  /** The check is stricter than safety: of the headers whose segments fit in 32 bits it accepts
      the non-empty arrays that keep every position in range and have no slot to spare. */
  lemma AcceptsLeastSafe(h: Header)
    requires h.dataLen > 0
    ensures var g := ParamsFrom(h).g;
            ParamsOk(h.segLen, h.segCount, h.dataLen) <==>
              && IsPow2(h.segLen) && h.segCount >= 1 && (h.segCount + 2) * h.segLen <= TWO32
              && AllBelow(g, h.dataLen) && !AllBelow(g, h.dataLen - 1)
  {
    hide ParamsOk, IsPow2, AllBelow, Reach;
    var g := ParamsFrom(h).g;
    ParamsOkExact(h);
    NotPow2Zero();
    if IsPow2(h.segLen) && h.segCount >= 1 && (h.segCount + 2) * h.segLen <= TWO32 {
      CellsNeeded(g, h.dataLen);
      CellsNeeded(g, h.dataLen - 1);
      ReachUnwrapped(g);
    }
  }

  /** With segments that exceed 32 bits the positions wrap: an array can then be safe that
      the check rejects, here one of 12 slots for 2^30 + 1 segments. */
  lemma WrappedSegmentsRejected(h: Header)
    requires h.segLen == 4 && h.segCount == 0x4000_0001 && h.dataLen == 12
    ensures !ParamsOk(h.segLen, h.segCount, h.dataLen) && AllBelow(ParamsFrom(h).g, h.dataLen)
  {
    hide AllBelow;
    CellsNeeded(ParamsFrom(h).g, 12);
  }

  /** One spare slot is enough to be rejected, although no position goes out of range. */
  lemma SpareSlotRejected(h: Header)
    requires h.segLen == 4 && h.segCount == 1 && h.dataLen == 13
    ensures !ParamsOk(h.segLen, h.segCount, h.dataLen) && AllBelow(ParamsFrom(h).g, h.dataLen)
  {
    hide AllBelow;
    CellsNeeded(ParamsFrom(h).g, 13);
  }

  lemma SegmentProducts(L: U32, n: U32, total: nat, most: nat)
    requires total == (n + 2) * L && most == n * L
    ensures total % TWO64 == total && most <= total
    ensures total < TWO32 ==> most % TWO32 == most
  {
    MulMono(n + 2, TWO32 + 1, L, TWO32 - 1);
    MulMono(n, n + 2, L, L);
  }

  lemma NotPow2Zero()
    ensures !IsPow2(0)
  {
  }

  // ----- payloads

  /** Value and check words alternating. */
  function Interleaved(slots: seq<Slot>): (w: seq<U64>)
    ensures |w| == 2 * |slots|
    ensures forall i | 0 <= i < |slots| :: w[2 * i] == slots[i].value && w[2 * i + 1] == slots[i].check
  {
    seq(2 * |slots|, i requires 0 <= i < 2 * |slots| =>
      if i % 2 == 0 then slots[i / 2].value else slots[i / 2].check)
  }

  function SlotsOf(words: seq<U64>): (s: seq<Slot>)
    requires |words| % 2 == 0
    ensures |s| == |words| / 2 && forall i | 0 <= i < |s| :: s[i] == Slot(words[2 * i], words[2 * i + 1])
  {
    seq(|words| / 2, i requires 0 <= i < |words| / 2 => Slot(words[2 * i], words[2 * i + 1]))
  }

  lemma InterleaveBack(slots: seq<Slot>)
    ensures SlotsOf(Interleaved(slots)) == slots
  {
  }

  lemma SlotsBack(words: seq<U64>)
    requires |words| % 2 == 0
    ensures Interleaved(SlotsOf(words)) == words
  {
    hide Interleaved, SlotsOf;
    forall i | 0 <= i < |words|
      ensures |Interleaved(SlotsOf(words))| == |words| && Interleaved(SlotsOf(words))[i] == words[i]
    {
      SlotsBackAt(words, SlotsOf(words), i / 2, i);
    }
  }

  lemma SlotsBackAt(words: seq<U64>, s: seq<Slot>, k: nat, i: nat)
    requires |words| % 2 == 0 && i < |words| && s == SlotsOf(words) && k == i / 2
    ensures |Interleaved(s)| == |words| && Interleaved(s)[i] == words[i]
  {
    hide Interleaved, SlotsOf;
    InterleavedAt(s, words, k);
    assert i == 2 * k || i == 2 * k + 1;
  }

  lemma InterleavedAt(s: seq<Slot>, words: seq<U64>, k: nat)
    requires |words| % 2 == 0 && s == SlotsOf(words) && 2 * k < |words|
    ensures |Interleaved(s)| == |words|
    ensures Interleaved(s)[2 * k] == words[2 * k] && Interleaved(s)[2 * k + 1] == words[2 * k + 1]
  {
  }
}
