/** What the whole library promises: built maps answer for every key, in every
    layout, and keep answering after being stored and loaded. */
module EndToEnd {
  import opened ReturnCodes
  import opened Words
  import opened Geometry
  import opened Schemes
  import opened Assigning
  import opened MapModel
  import opened Maps
  import opened Bytes
  import opened Formats
  import opened Storage

  // ----- the library's scheme

  /** Everything proved for lawful, computed schemes holds for the library. */
  lemma LibraryScheme()
    ensures Lawful(Fcm()) && Computed(Fcm())
  {
    hide Fcm, Lawful, Computed;
    FcmLawful();
    FcmComputed();
  }

  /** The slot columns a paired build leaves determine its map. */
  lemma ColumnsDetermine(m: PairedMap, x: Input)
    requires Buildable(x)
    requires var v := BuiltVerified(x);
             m.par == v.par && SlotValues(m.slots) == v.data && SlotChecks(m.slots) == v.checks
    ensures m == BuiltPaired(x)
  {
    hide DataOf, ChecksOf, ParamsOf, PlanFor, Lawful;
    assert forall i | 0 <= i < |m.slots| :: m.slots[i] == Slot(SlotValues(m.slots)[i], SlotChecks(m.slots)[i]);
    assert m.slots == Zip(DataOf(x), ChecksOf(x));
  }

  // ----- storage round trips

  /** The scalar fields of a map a constructor or reader left behind. */
  predicate Storable(p: MapParams) {
    KnownHash(p.hash) && Consistent(p)
  }

  /** The bytes a writer produces for a map with these parameters and words. */
  function StoredAs(formats: seq<Format>, p: MapParams, words: seq<U64>): seq<U8>
    requires FormatFor(formats, p.hash) < |formats|
  {
    Serialized(formats[FormatFor(formats, p.hash)], p, words)
  }

  lemma PlainRoundTrip(m: PlainMap, b: seq<U8>)
    requires Storable(m.par) && |m.data| == m.par.dataLen
    requires FormatFor(PLAIN_FORMATS, m.par.hash) < |PLAIN_FORMATS|
    requires StoredAs(PLAIN_FORMATS, m.par, m.data) <= b
    ensures ParsePlain(b).Accepted? && PlainFrom(b, ParsePlain(b).header) == m
  {
    hide TableOk, Serialized, Parse, ParamsFrom, FormatFor, Consistent;
    TablesOk();
    WriterFormat(PLAIN_FORMATS, m.par.hash);
    ParseSerialized(b, PLAIN_FORMATS, 8, FormatFor(PLAIN_FORMATS, m.par.hash), m.par, m.data);
  }

  lemma VerifiedRoundTrip(m: VerifiedMap, b: seq<U8>)
    requires Storable(m.par) && |m.data| == |m.checks| == m.par.dataLen
    requires FormatFor(VERIFIED_FORMATS, m.par.hash) < |VERIFIED_FORMATS|
    requires StoredAs(VERIFIED_FORMATS, m.par, m.data + m.checks) <= b
    ensures ParseVerified(b).Accepted? && VerifiedFrom(b, ParseVerified(b).header) == m
  {
    hide TableOk, Serialized, Parse, ParamsFrom, FormatFor, Consistent, ReadU64;
    TablesOk();
    WriterFormat(VERIFIED_FORMATS, m.par.hash);
    ParseSerialized(b, VERIFIED_FORMATS, 16, FormatFor(VERIFIED_FORMATS, m.par.hash), m.par, m.data + m.checks);
    WordsSplit(b, 32, |m.data|, |m.checks|);
    assert (m.data + m.checks)[..|m.data|] == m.data && (m.data + m.checks)[|m.data|..] == m.checks;
  }

  lemma PairedRoundTrip(m: PairedMap, b: seq<U8>)
    requires Storable(m.par) && ValidPaired(m)
    requires FormatFor(PAIRED_FORMATS, m.par.hash) < |PAIRED_FORMATS|
    requires StoredAs(PAIRED_FORMATS, m.par, Interleaved(m.slots)) <= b
    ensures ParsePaired(b).Accepted? && PairedFrom(b, ParsePaired(b).header) == m
  {
    hide TableOk, Serialized, Parse, ParamsFrom, FormatFor, Consistent, ReadU64, SafeParams, ParamsOk;
    TablesOk();
    WriterFormat(PAIRED_FORMATS, m.par.hash);
    var i := FormatFor(PAIRED_FORMATS, m.par.hash);
    ParseSerialized(b, PAIRED_FORMATS, 16, i, m.par, Interleaved(m.slots));
    ParamsOkExact(Header(PAIRED_FORMATS[i], m.par.seed, m.par.g.segLen, m.par.g.segCount, m.par.dataLen, m.par.n));
    InterleaveBack(m.slots);
  }

  /** No prefix of a stored map is read: wherever the file was cut, it is too short. */
  lemma Truncated(b: seq<U8>, len: nat)
    requires len <= |b|
    ensures ParsePlain(b).Accepted? && len < Expected(ParsePlain(b).header, 8) ==> ParsePlain(b[..len]) == Rejected(-7)
    ensures ParseVerified(b).Accepted? && len < Expected(ParseVerified(b).header, 16) ==>
              ParseVerified(b[..len]) == Rejected(-7)
    ensures ParsePaired(b).Accepted? && len < Expected(ParsePaired(b).header, 16) ==>
              ParsePaired(b[..len]) == Rejected(-7)
  {
    hide TableOk, Parse, ParamsOk, Expected;
    TablesOk();
    TableHeaders(PLAIN_FORMATS);
    TableHeaders(VERIFIED_FORMATS);
    TableHeaders(PAIRED_FORMATS);
    if ParsePlain(b).Accepted? && len < Expected(ParsePlain(b).header, 8) {
      TruncatedParse(b, PLAIN_FORMATS, 8, len);
    }
    if ParseVerified(b).Accepted? && len < Expected(ParseVerified(b).header, 16) {
      TruncatedParse(b, VERIFIED_FORMATS, 16, len);
    }
    if ParsePaired(b).Accepted? && len < Expected(ParsePaired(b).header, 16) {
      TruncatedParse(b, PAIRED_FORMATS, 16, len);
    }
  }

  /** No buffer is accepted as two kinds: the others reject its magic. */
  lemma KindsApart(b: seq<U8>)
    ensures ParsePlain(b).Accepted? ==> ParseVerified(b) == ParsePaired(b) == Rejected(FCM_E_INVALID_FORMAT)
    ensures ParseVerified(b).Accepted? ==> ParsePlain(b) == ParsePaired(b) == Rejected(FCM_E_INVALID_FORMAT)
    ensures ParsePaired(b).Accepted? ==> ParsePlain(b) == ParseVerified(b) == Rejected(FCM_E_INVALID_FORMAT)
  {
    hide TableOk, Parse, ParamsOk;
    TablesOk();
    FirstByteTells(b, PLAIN_FORMATS, 8, 0x43) by { TableHeaders(PLAIN_FORMATS); }
    FirstByteTells(b, VERIFIED_FORMATS, 16, 0x56) by { TableHeaders(VERIFIED_FORMATS); }
    FirstByteTells(b, PAIRED_FORMATS, 16, 0x50) by { TableHeaders(PAIRED_FORMATS); }
  }

  /** The first byte of every magic tells the kind. */
  lemma FirstByteTells(b: seq<U8>, formats: seq<Format>, entryBytes: nat, c: U8)
    requires HeadersOk(formats) && forall i | 0 <= i < |formats| :: formats[i].magic[0] == c
    ensures Parse(b, formats, entryBytes).Accepted? ==> |b| >= 8 && b[0] == c
    ensures |b| >= 8 && b[0] != c ==> Parse(b, formats, entryBytes) == Rejected(FCM_E_INVALID_FORMAT)
  {
    hide ParseAs;
    if |b| >= 8 {
      var i := Recognise(formats, b[..8]);
      assert i < |formats| ==> b[..8][0] == c;
    }
  }

  /** No reader of a checked map accepts it with one byte changed outside the length field. */
  lemma CheckedCorruption(b: seq<U8>, i: nat, x: U8)
    requires i < |b| && !(24 <= i < 28) && x != b[i]
    ensures ParseVerified(b).Accepted? && i < Expected(ParseVerified(b).header, 16) ==>
              ParseVerified(b[i := x]).Rejected?
    ensures ParsePaired(b).Accepted? && i < Expected(ParsePaired(b).header, 16) ==>
              ParsePaired(b[i := x]).Rejected?
  {
    hide TableOk, Parse, ParamsOk, Recognise, HeadersOk;
    TablesOk();
    if ParseVerified(b).Accepted? && i < Expected(ParseVerified(b).header, 16) {
      CheckedFormats(b, i, x, VERIFIED_FORMATS);
    }
    if ParsePaired(b).Accepted? && i < Expected(ParsePaired(b).header, 16) {
      CheckedFormats(b, i, x, PAIRED_FORMATS);
    }
  }

  lemma CheckedFormats(b: seq<U8>, i: nat, x: U8, formats: seq<Format>)
    requires formats == VERIFIED_FORMATS || formats == PAIRED_FORMATS
    requires TableOk(formats) && Parse(b, formats, 16).Accepted?
    requires i < |b| && i < Expected(Parse(b, formats, 16).header, 16) && !(24 <= i < 28) && x != b[i]
    ensures Parse(b[i := x], formats, 16).Rejected?
  {
    hide TableOk, Parse, Recognise, Expected;
    TableHeaders(formats);
    ParseAccepts(b, formats, 16);
    AlwaysFull(b, formats);
    AnyByteCorruption(b, formats, 16, i, x);
    assert forall k | 0 <= k < |formats| :: formats[k].headerSize == 32;
  }

  /** For plain maps exactly one kind of change may escape: the last magic byte, turned from or
      into that of the only format with a 28-byte header, where the words as that format
      delimits them happen to carry their own checksum. */
  lemma PlainCorruption(b: seq<U8>, i: nat, x: U8)
    requires ParsePlain(b).Accepted? && i < Expected(ParsePlain(b).header, 8) <= |b| && !(24 <= i < 28) && x != b[i]
    ensures var b', end := b[i := x], (if x == 0x31 then 28 else 32) + 8 * ParsePlain(b).header.dataLen;
            ParsePlain(b').Accepted? <==>
              && i == 7 && (x == 0x31 || (b[7] == 0x31 && x in {0x32, 0x33}))
              && end + 8 <= |b'| && ReadU64(b', end) == Fnv(b'[..end])
  {
    hide TableOk, Parse, ParseAs, Recognise, Expected, Fnv, ReadU64, HeaderOf;
    TablesOk();
    TableHeaders(PLAIN_FORMATS);
    ParseAccepts(b, PLAIN_FORMATS, 8);
    AnyByteCorruption(b, PLAIN_FORMATS, 8, i, x);
    var b' := b[i := x];
    var f, k := ParsePlain(b).header.format, Recognise(PLAIN_FORMATS, b'[..8]);
    assert b[..8] == f.magic && b[..8][7] == b[7];
    if i < 8 {
      ParseByMagic(b', PLAIN_FORMATS, 8);
      MagicSwapped(f, b'[..8], i, x);
      if i == 7 && (x == 0x31 || (b[7] == 0x31 && x in {0x32, 0x33})) {
        SwappedParse(b, b', f, PLAIN_FORMATS[k]);
      }
    } else {
      OneByteCorruption(b, PLAIN_FORMATS, 8, i, x);
    }
  }

  /** Which plain magics are one byte apart. */
  lemma MagicSwapped(f: Format, magic: seq<U8>, i: nat, x: U8)
    requires f in PLAIN_FORMATS && i < 8 && x != f.magic[i] && magic == f.magic[i := x]
    ensures var k := Recognise(PLAIN_FORMATS, magic);
            && (k < 3 <==> i == 7 && x in {0x31, 0x32, 0x33})
            && (k < 3 ==> PLAIN_FORMATS[k].headerSize == if x == 0x31 then 28 else 32)
            && f.headerSize == if f.magic[7] == 0x31 then 28 else 32
  {
    hide Recognise;
    var k := Recognise(PLAIN_FORMATS, magic);
    assert f == CMAP1 || f == CMAP2 || f == CMAP3;
    assert f.magic[..7] == CMAP;
    if i < 7 {
      forall j | 0 <= j < 3
        ensures PLAIN_FORMATS[j].magic != magic
      {
        assert PLAIN_FORMATS[j].magic[i] == CMAP[i] == f.magic[i];
      }
    } else {
      assert magic == CMAP + [x];
      assert (CMAP + [x])[7] == x;
      assert x == 0x31 ==> magic == PLAIN_FORMATS[1].magic;
      assert x == 0x32 ==> magic == PLAIN_FORMATS[2].magic;
      assert x == 0x33 ==> magic == PLAIN_FORMATS[0].magic;
      assert forall j | 0 <= j < 3 && PLAIN_FORMATS[j].magic == magic :: PLAIN_FORMATS[j].magic[7] == x;
    }
  }

  /** A buffer read under the format of a new magic: same length field, another end. */
  lemma SwappedParse(b: seq<U8>, b': seq<U8>, f: Format, f': Format)
    requires f.headerSize in {28, 32} && f'.headerSize in {28, 32} && f.headerSize <= |b| == |b'|
    requires forall j | 24 <= j < 28 :: b[j] == b'[j]
    ensures var end := f'.headerSize + 8 * HeaderOf(b, f).dataLen;
            ParseAs(b', f', 8).Accepted? <==> end + 8 <= |b'| && ReadU64(b', end) == Fnv(b'[..end])
  {
    hide Fnv, ReadU64, ReadU32;
    SameLength(b, b');
  }

  /** What a constructor builds, or clears, can be stored. */
  lemma BuiltIsStorable(x: Input)
    requires Buildable(x) && KnownHash(x.hash)
    ensures Storable(ParamsOf(x)) && SafeParams(ParamsOf(x))
    ensures ParamsOk(ParamsOf(x).g.segLen, ParamsOf(x).g.segCount, ParamsOf(x).dataLen)
    ensures Storable(EmptyParams(x.hash))
  {
    hide PlanFor, ValidGeometry, ParamsOk, CellsFor, Lawful;
    ParamsFacts(x);
    var p := ParamsOf(x);
    ValidIsConsistent(p);
    ValidIsConsistent(EmptyParams(x.hash));
    ParamsOkExact(Header(CMAP3, p.seed, p.g.segLen, p.g.segCount, p.dataLen, p.n));
    assert ParamsFrom(Header(CMAP3, p.seed, p.g.segLen, p.g.segCount, p.dataLen, p.n)).g == p.g;
  }

  // ----- built, stored, loaded, looked up

  /** Every key of a built map still answers its value after the map was written and read back. */
  lemma PlainSurvivesStorage(x: Input, b: seq<U8>, i: nat)
    requires Buildable(x) && KnownHash(x.hash) && |x.keys| < INDEX_LIMIT && i < |x.keys|
    requires FormatFor(PLAIN_FORMATS, x.hash) < |PLAIN_FORMATS|
    requires StoredAs(PLAIN_FORMATS, BuiltPlain(x).par, BuiltPlain(x).data) <= b
    ensures ParsePlain(b).Accepted?
    ensures var m := PlainFrom(b, ParsePlain(b).header);
            && ValidPlain(m) && PlainReads(x.S, x.H, m, x.keys[i])
            && LookupPlain(x.S, x.H, m, x.keys[i]) == x.values[i]
  {
    hide PlanFor, Serialized, LookupPlain, DataOf, Consistent, SafeParams, Lawful, FormatFor;
    BuiltIsStorable(x);
    PlainAnswers(x, i);
    PlainRoundTrip(BuiltPlain(x), b);
  }

  lemma VerifiedSurvivesStorage(x: Input, b: seq<U8>, i: nat)
    requires Buildable(x) && KnownHash(x.hash) && |x.keys| < INDEX_LIMIT && i < |x.keys|
    requires FormatFor(VERIFIED_FORMATS, x.hash) < |VERIFIED_FORMATS|
    requires StoredAs(VERIFIED_FORMATS, BuiltVerified(x).par, BuiltVerified(x).data + BuiltVerified(x).checks) <= b
    ensures ParseVerified(b).Accepted?
    ensures var m := VerifiedFrom(b, ParseVerified(b).header);
            && ValidVerified(m) && VerifiedReads(x.S, x.H, m, x.keys[i])
            && LookupVerified(x.S, x.H, m, x.keys[i]) == x.values[i]
  {
    hide PlanFor, Serialized, LookupVerified, DataOf, ChecksOf, Consistent, SafeParams, Lawful, FormatFor;
    BuiltIsStorable(x);
    VerifiedAnswers(x, i);
    VerifiedRoundTrip(BuiltVerified(x), b);
  }

  /** A stored paired map comes back as it was built. */
  lemma BuiltComesBack(x: Input, b: seq<U8>)
    requires Buildable(x) && KnownHash(x.hash)
    requires FormatFor(PAIRED_FORMATS, x.hash) < |PAIRED_FORMATS|
    requires StoredAs(PAIRED_FORMATS, BuiltPaired(x).par, Interleaved(BuiltPaired(x).slots)) <= b
    ensures ParsePaired(b).Accepted? && PairedFrom(b, ParsePaired(b).header) == BuiltPaired(x)
    ensures ValidPaired(BuiltPaired(x))
  {
    hide PlanFor, Serialized, DataOf, ChecksOf, Consistent, SafeParams, Lawful, FormatFor, Interleaved;
    BuiltIsStorable(x);
    BuiltShape(x);
    PairedRoundTrip(BuiltPaired(x), b);
  }

  lemma PairedSurvivesStorage(x: Input, b: seq<U8>, i: nat)
    requires Buildable(x) && KnownHash(x.hash) && |x.keys| < INDEX_LIMIT && i < |x.keys|
    requires FormatFor(PAIRED_FORMATS, x.hash) < |PAIRED_FORMATS|
    requires StoredAs(PAIRED_FORMATS, BuiltPaired(x).par, Interleaved(BuiltPaired(x).slots)) <= b
    ensures ParsePaired(b).Accepted?
    ensures var m := PairedFrom(b, ParsePaired(b).header);
            && ValidPaired(m) && PairedReads(x.S, x.H, m, x.keys[i])
            && LookupPaired(x.S, x.H, m, x.keys[i]) == x.values[i]
  {
    hide PlanFor, StoredAs, LookupPaired, BuiltPaired, ParsePaired, PairedFrom, PairedReads, Lawful, FormatFor;
    hide Interleaved;
    PairedAnswers(x, i);
    BuiltComesBack(x, b);
  }

  // ----- re-writing what was read

  lemma RewritePlain(b: seq<U8>)
    requires ParsePlain(b).Accepted? && ParsePlain(b).header.format.headerSize == 32
    ensures var h := ParsePlain(b).header;
            var m := PlainFrom(b, h);
            && FormatFor(PLAIN_FORMATS, m.par.hash) < |PLAIN_FORMATS| && Expected(h, 8) <= |b|
            && StoredAs(PLAIN_FORMATS, m.par, m.data) == b[..Expected(h, 8)]
  {
    hide TableOk, Serialized, Parse, FormatFor;
    TablesOk();
    RewriteReproduces(b, PLAIN_FORMATS, 8, ParsePlain(b).header.dataLen);
  }

  lemma RewriteVerified(b: seq<U8>)
    requires ParseVerified(b).Accepted?
    ensures var h := ParseVerified(b).header;
            var m := VerifiedFrom(b, h);
            && FormatFor(VERIFIED_FORMATS, m.par.hash) < |VERIFIED_FORMATS| && Expected(h, 16) <= |b|
            && StoredAs(VERIFIED_FORMATS, m.par, m.data + m.checks)
               == b[..Expected(h, 16)]
  {
    hide TableOk, Serialized, Parse, FormatFor, ReadU64;
    TablesOk();
    var h := ParseVerified(b).header;
    AlwaysFull(b, VERIFIED_FORMATS);
    RewriteReproduces(b, VERIFIED_FORMATS, 16, 2 * h.dataLen);
    WordsSplit(b, 32, h.dataLen, h.dataLen);
  }

  lemma RewritePaired(b: seq<U8>)
    requires ParsePaired(b).Accepted?
    ensures var h := ParsePaired(b).header;
            var m := PairedFrom(b, h);
            && FormatFor(PAIRED_FORMATS, m.par.hash) < |PAIRED_FORMATS| && Expected(h, 16) <= |b|
            && StoredAs(PAIRED_FORMATS, m.par, Interleaved(m.slots))
               == b[..Expected(h, 16)]
  {
    hide TableOk, Serialized, Parse, FormatFor, ReadU64, ParamsOk, Interleaved, SlotsOf;
    TablesOk();
    var h := ParsePaired(b).header;
    AlwaysFull(b, PAIRED_FORMATS);
    RewriteReproduces(b, PAIRED_FORMATS, 16, 2 * h.dataLen);
    SlotsBack(WordsAt(b, 32, 2 * h.dataLen));
  }

  /** The checked kinds only have 32-byte headers. */
  lemma AlwaysFull(b: seq<U8>, formats: seq<Format>)
    requires formats == VERIFIED_FORMATS || formats == PAIRED_FORMATS
    requires HeadersOk(formats) && Parse(b, formats, 16).Accepted?
    ensures Parse(b, formats, 16).header.format.headerSize == 32
  {
    hide Parse, HeadersOk;
    ParseAccepts(b, formats, 16);
  }

  /** Only one plain format has a 28-byte header, and it carries no key count. */
  lemma LegacyHeader(b: seq<U8>)
    requires ParsePlain(b).Accepted? && ParsePlain(b).header.format.headerSize == 28
    ensures ParsePlain(b).header.format == CMAP1 && ParsePlain(b).header.n == 0
    ensures |b| >= Expected(ParsePlain(b).header, 8)
    ensures FormatFor(PLAIN_FORMATS, HASH_XXH64) == 0
  {
    hide Parse, TableOk;
    TablesOk();
    ParseAccepts(b, PLAIN_FORMATS, 8) by { TableHeaders(PLAIN_FORMATS); }
  }

  /** A 28-byte-header buffer comes back as the current format: no key count, the same
      words, four bytes longer, and reading that gives the same map. */
  lemma LegacyNormalises(b: seq<U8>, b': seq<U8>)
    requires ParsePlain(b).Accepted? && ParsePlain(b).header.format.headerSize == 28
    requires var m := PlainFrom(b, ParsePlain(b).header); b' == Serialized(CMAP3, m.par, m.data)
    ensures var h := ParsePlain(b).header;
            && h.format == CMAP1 && h.n == 0 && |b'| == Expected(h, 8) + 4
            && FormatFor(PLAIN_FORMATS, h.format.hash) == 0
            && ParsePlain(b') == Accepted(h.(format := CMAP3))
            && PlainFrom(b', ParsePlain(b').header) == PlainFrom(b, h)
  {
    hide Serialized, Parse, ParsePlain, TableOk, FormatFor;
    LegacyHeader(b);
    var h := ParsePlain(b).header;
    var m := PlainFrom(b, h);
    Recoded(b', h.(format := CMAP3), m);
  }

  /** The current plain format reads back to the header and map it was written from. */
  lemma Recoded(b: seq<U8>, h: Header, m: PlainMap)
    requires h.format == CMAP3 && m.par == ParamsFrom(h) && |m.data| == h.dataLen
    requires b == Serialized(CMAP3, m.par, m.data)
    ensures |b| == Expected(h, 8) && ParsePlain(b) == Accepted(h) && PlainFrom(b, h) == m
  {
    hide Serialized, Parse, TableOk;
    TablesOk();
    BodyLength(CMAP3, m.par, m.data);
    assert PLAIN_FORMATS[0] == CMAP3;
    ParseSerialized(b, PLAIN_FORMATS, 8, 0, m.par, m.data);
  }

  // ----- a client

  /** What the client gets: the built map's own answers, which are the values while the
      assignment index could count them. */
  ghost predicate Served(x: Input, answers: seq<U64>) {
    && Buildable(x) && |answers| == |x.keys|
    && (forall i | 0 <= i < |x.keys| ::
          PairedReads(x.S, x.H, BuiltPaired(x), x.keys[i])
          && answers[i] == LookupPaired(x.S, x.H, BuiltPaired(x), x.keys[i]))
    && (|x.keys| < INDEX_LIMIT ==> answers == x.values)
  }

  /** Builds a paired map, stores it, loads it into another object and answers every key. */
  method ServeFromStorage(x: Input) returns (rc: int, answers: array<U64>)
    requires BuildInput(x)
    ensures rc == BuildCode(x)
    ensures rc == FCM_OK && x.keys != [] ==> Served(x, answers[..])
    ensures rc == FCM_OK && x.keys == [] ==> answers.Length == 0
  {
    hide PlanFor, Serialized, LookupPaired, ParsePaired, PairedFrom, PairedReads, SafeParams, FormatFor;
    hide BuiltPaired, BuiltVerified, Interleaved, Lawful, Computed, Served;
    answers := new U64[|x.keys|];
    var built := new PairedVerifiedConstMap();
    rc := built.Build(x);
    if rc != FCM_OK || |x.keys| == 0 {
      return;
    }
    ColumnsDetermine(built.Value(), x);
    ghost var m := BuiltPaired(x);
    BuiltShape(x);
    BuiltReads(x);
    var buf := new U8[40 + 16 * built.par.dataLen];
    var written := WritePaired(built, buf);
    assert buf[..40 + 16 * m.par.dataLen] == buf[..];
    assert StoredAs(PAIRED_FORMATS, m.par, Interleaved(m.slots)) <= buf[..];
    BuiltComesBack(x, buf[..]);
    var loaded := new PairedVerifiedConstMap();
    assert buf[..buf.Length] == buf[..];
    rc := ReadPaired(loaded, buf, buf.Length);
    loaded.LookupMany(x.S, x.H, x.keys, answers);
    BuiltServes(x, answers[..]);
  }

  lemma BuiltReads(x: Input)
    requires Buildable(x)
    ensures forall i | 0 <= i < |x.keys| :: PairedReads(x.S, x.H, BuiltPaired(x), x.keys[i])
  {
    hide PlanFor, Lawful, LookupPaired, LookupVerified, BuiltPaired, PairedReads;
    forall i | 0 <= i < |x.keys|
      ensures PairedReads(x.S, x.H, BuiltPaired(x), x.keys[i])
    {
      LayoutsAgree(x, x.keys[i]);
    }
  }

  lemma BuiltServes(x: Input, answers: seq<U64>)
    requires Buildable(x) && |answers| == |x.keys|
    requires forall i | 0 <= i < |x.keys| :: PairedReads(x.S, x.H, BuiltPaired(x), x.keys[i])
    requires forall i | 0 <= i < |x.keys| :: answers[i] == LookupPaired(x.S, x.H, BuiltPaired(x), x.keys[i])
    ensures Served(x, answers)
  {
    hide PlanFor, Lawful, LookupPaired, BuiltPaired, PairedReads;
    if |x.keys| < INDEX_LIMIT {
      forall i | 0 <= i < |x.keys|
        ensures answers[i] == x.values[i]
      {
        PairedAnswers(x, i);
      }
    }
  }

  lemma BuiltShape(x: Input)
    requires Buildable(x)
    ensures |BuiltPaired(x).slots| == BuiltPaired(x).par.dataLen && BuiltPaired(x).par.hash == x.hash
  {
    hide PlanFor, CellsFor, Lawful;
  }
}
