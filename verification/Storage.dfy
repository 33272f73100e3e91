/** Writing maps into byte buffers and reading them back. */
module Storage {
  import opened ReturnCodes
  import opened Words
  import opened MapModel
  import opened Maps
  import opened Bytes
  import opened Formats

  // ----- what readers return

  function PlainFrom(b: seq<U8>, h: Header): PlainMap
    requires h.format.headerSize + 8 * h.dataLen <= |b|
  {
    PlainMap(ParamsFrom(h), WordsAt(b, h.format.headerSize, h.dataLen))
  }

  function VerifiedFrom(b: seq<U8>, h: Header): VerifiedMap
    requires h.format.headerSize + 16 * h.dataLen <= |b|
  {
    VerifiedMap(ParamsFrom(h), WordsAt(b, h.format.headerSize, h.dataLen),
                WordsAt(b, h.format.headerSize + 8 * h.dataLen, h.dataLen))
  }

  function PairedFrom(b: seq<U8>, h: Header): PairedMap
    requires h.format.headerSize + 16 * h.dataLen <= |b|
  {
    PairedMap(ParamsFrom(h), SlotsOf(WordsAt(b, h.format.headerSize, 2 * h.dataLen)))
  }

  /** Where the words of a map of each kind are read: the plain values behind the header, the
      verified values and then the check words, the paired ones side by side. */
  lemma WordLayout(b: seq<U8>, h: Header, i: nat)
    requires i < h.dataLen
    ensures h.format.headerSize + 8 * h.dataLen <= |b| ==>
              PlainFrom(b, h).data[i] == ReadU64(b, h.format.headerSize + 8 * i)
    ensures h.format.headerSize + 16 * h.dataLen <= |b| ==>
              && VerifiedFrom(b, h).data[i] == ReadU64(b, h.format.headerSize + 8 * i)
              && VerifiedFrom(b, h).checks[i] == ReadU64(b, h.format.headerSize + 8 * (h.dataLen + i))
              && PairedFrom(b, h).slots[i].value == ReadU64(b, h.format.headerSize + 16 * i)
              && PairedFrom(b, h).slots[i].check == ReadU64(b, h.format.headerSize + 16 * i + 8)
  {
    hide ReadU64, ParamsFrom;
  }

  function ParsePlain(b: seq<U8>): (r: Parsed)
    ensures r.Accepted? ==> r.header.format.headerSize + 8 * r.header.dataLen + 8 <= |b|
  {
    TablesOk();
    var r := Parse(b, PLAIN_FORMATS, 8);
    if r.Accepted? then ParseAccepts(b, PLAIN_FORMATS, 8); r else r
  }

  function ParseVerified(b: seq<U8>): (r: Parsed)
    ensures r.Accepted? ==> r.header.format.headerSize + 16 * r.header.dataLen + 8 <= |b|
  {
    TablesOk();
    var r := Parse(b, VERIFIED_FORMATS, 16);
    if r.Accepted? then ParseAccepts(b, VERIFIED_FORMATS, 16); r else r
  }

  /** The paired readers also check the segment parameters. */
  function ParsePaired(b: seq<U8>): (r: Parsed)
    ensures r.Accepted? ==> r.header.format.headerSize + 16 * r.header.dataLen + 8 <= |b|
  {
    TablesOk();
    var r := Parse(b, PAIRED_FORMATS, 16);
    if r.Accepted? then
      ParseAccepts(b, PAIRED_FORMATS, 16);
      if ParamsOk(r.header.segLen, r.header.segCount, r.header.dataLen) then r else Rejected(FCM_E_INVALID_PARAMS)
    else r
  }

  /** No reader rejects a buffer with the code for success; only the paired one gives -9. */
  lemma ReaderCodes(b: seq<U8>)
    ensures var r := ParsePlain(b); r.Rejected? ==> r.code in {-5, -6, -7}
    ensures var r := ParseVerified(b); r.Rejected? ==> r.code in {-5, -6, -7}
    ensures var r := ParsePaired(b); r.Rejected? ==> r.code in {-5, -6, -7, -9}
    ensures ParsePaired(b) == Rejected(-9) <==>
              HeadersOk(PAIRED_FORMATS) && Parse(b, PAIRED_FORMATS, 16).Accepted? &&
              var h := Parse(b, PAIRED_FORMATS, 16).header; !SafeParams(ParamsFrom(h))
  {
    hide Parse, TableOk, ParamsOk, SafeParams, ParamsFrom;
    TablesOk();
    TableHeaders(PLAIN_FORMATS);
    TableHeaders(VERIFIED_FORMATS);
    TableHeaders(PAIRED_FORMATS);
    RejectionCodes(b, PLAIN_FORMATS, 8);
    RejectionCodes(b, VERIFIED_FORMATS, 16);
    RejectionCodes(b, PAIRED_FORMATS, 16);
    if Parse(b, PAIRED_FORMATS, 16).Accepted? {
      ParamsOkExact(Parse(b, PAIRED_FORMATS, 16).header);
    }
  }

  // ----- parsing a buffer

  method ParseBuffer(buf: array<U8>, len: nat, formats: seq<Format>, entryBytes: nat) returns (r: Parsed)
    requires len <= buf.Length && HeadersOk(formats)
    ensures r == Parse(buf[..len], formats, entryBytes)
  {
    hide Fnv, ReadU64, ReadU32;
    ghost var b := buf[..len];
    if len < 8 {
      return Rejected(FCM_E_SHORT_BUFFER);
    }
    var i := 0;
    while i < |formats| && buf[..8] != formats[i].magic
      invariant 0 <= i <= |formats|
      invariant forall j | 0 <= j < i :: formats[j].magic != buf[..8]
    {
      i := i + 1;
    }
    assert b[..8] == buf[..8];
    FirstMatch(formats, b[..8], i);
    if i == |formats| {
      return Rejected(FCM_E_INVALID_FORMAT);
    }
    var f := formats[i];
    if len < f.headerSize + 8 {
      return Rejected(FCM_E_SHORT_BUFFER);
    }
    var h := HeaderOf(buf[..len], f);
    var expected := Expected(h, entryBytes);
    if len < expected {
      return Rejected(FCM_E_SHORT_BUFFER);
    }
    var gotSum := ReadU64(buf[..len], expected - 8);
    var expectedSum := Fnv1a64(buf, expected - 8);
    assert buf[..expected - 8] == b[..expected - 8];
    if gotSum != expectedSum {
      return Rejected(FCM_E_CHECKSUM);
    }
    return Accepted(h);
  }

  lemma FirstMatch(formats: seq<Format>, magic: seq<U8>, i: nat)
    requires i <= |formats| && (i < |formats| ==> formats[i].magic == magic)
    requires forall j | 0 <= j < i :: formats[j].magic != magic
    ensures i == Recognise(formats, magic)
  {
  }

  method FindFormat(formats: seq<Format>, hash: U32) returns (i: nat)
    ensures i == FormatFor(formats, hash)
  {
    i := 0;
    while i < |formats| && formats[i].hash != hash
      invariant 0 <= i <= |formats|
      invariant forall j | 0 <= j < i :: formats[j].hash != hash
    {
      i := i + 1;
    }
    FirstHash(formats, hash, i);
  }

  lemma FirstHash(formats: seq<Format>, hash: U32, i: nat)
    requires i <= |formats| && (i < |formats| ==> formats[i].hash == hash)
    requires forall j | 0 <= j < i :: formats[j].hash != hash
    ensures i == FormatFor(formats, hash)
  {
  }

  // ----- writing

  /** One word behind what has been written. */
  method PutWord(buf: array<U8>, p: nat, v: U64) returns (q: nat)
    requires p + 8 <= buf.Length
    modifies buf
    ensures q == p + 8
    ensures buf[..q] == old(buf[..p]) + LE(v, 8) && (forall j | q <= j < buf.Length :: buf[j] == old(buf[j]))
  {
    hide LE;
    assert |LE(v, 8)| == 8 by { BytesLength(v, 8); }
    WriteU64(buf, p, v);
    q := p + 8;
  }

  method PutHalfWord(buf: array<U8>, p: nat, v: U32) returns (q: nat)
    requires p + 4 <= buf.Length
    modifies buf
    ensures q == p + 4
    ensures buf[..q] == old(buf[..p]) + LE(v, 4) && (forall j | q <= j < buf.Length :: buf[j] == old(buf[j]))
  {
    hide LE;
    assert |LE(v, 4)| == 4 by { BytesLength(v, 4); }
    WriteU32(buf, p, v);
    q := p + 4;
  }

  method WriteHeader(buf: array<U8>, f: Format, par: MapParams) returns (p: nat)
    requires buf.Length >= 32 && |f.magic| == 8
    modifies buf
    ensures p == 32 && buf[..32] == HeaderBytes(f, par) && (forall j | 32 <= j < buf.Length :: buf[j] == old(buf[j]))
  {
    hide LE;
    forall i | 0 <= i < 8 {
      buf[i] := f.magic[i];
    }
    assert buf[..8] == f.magic;
    p := PutWord(buf, 8, par.seed);
    p := PutHalfWord(buf, p, par.g.segLen);
    p := PutHalfWord(buf, p, par.g.segCount);
    p := PutHalfWord(buf, p, par.dataLen);
    p := PutHalfWord(buf, p, par.n);
  }

  method WriteArray(buf: array<U8>, start: nat, a: array<U64>) returns (p: nat)
    requires start + 8 * a.Length <= buf.Length
    modifies buf
    ensures p == start + 8 * a.Length
    ensures buf[..p] == old(buf[..start]) + WordBytes(a[..])
    ensures forall j | p <= j < buf.Length :: buf[j] == old(buf[j])
  {
    hide LE, WordBytes;
    p := start;
    var i := 0;
    assert WordBytes(a[..0]) == [] by { WordBytesNone(a[..0]); }
    while i < a.Length
      invariant 0 <= i <= a.Length && p == start + 8 * i
      invariant buf[..p] == old(buf[..start]) + WordBytes(a[..i])
      invariant forall j | p <= j < buf.Length :: buf[j] == old(buf[j])
    {
      WordBytesSnoc(a[..i], a[i]);
      assert a[..i + 1] == a[..i] + [a[i]];
      p := PutWord(buf, p, a[i]);
      i := i + 1;
    }
    assert a[..i] == a[..];
  }

  /** A slot's value word, then its check word. */
  method PutSlotWords(buf: array<U8>, p: nat, slot: Slot) returns (q: nat)
    requires p + 16 <= buf.Length
    modifies buf
    ensures q == p + 16
    ensures buf[..q] == old(buf[..p]) + (LE(slot.value, 8) + LE(slot.check, 8))
    ensures forall j | q <= j < buf.Length :: buf[j] == old(buf[j])
  {
    hide LE;
    q := PutWord(buf, p, slot.value);
    q := PutWord(buf, q, slot.check);
  }

  method WriteSlots(buf: array<U8>, start: nat, slots: array<Slot>) returns (p: nat)
    requires start + 16 * slots.Length <= buf.Length
    modifies buf
    ensures p == start + 16 * slots.Length
    ensures buf[..p] == old(buf[..start]) + WordBytes(Interleaved(slots[..]))
    ensures forall j | p <= j < buf.Length :: buf[j] == old(buf[j])
  {
    hide LE, WordBytes, Interleaved;
    p := start;
    var i := 0;
    assert WordBytes(Interleaved(slots[..0])) == [] by {
      InterleavedParts(slots[..0], 0);
      WordBytesNone(Interleaved(slots[..0]));
    }
    while i < slots.Length
      invariant 0 <= i <= slots.Length && p == start + 16 * i
      invariant buf[..p] == old(buf[..start]) + WordBytes(Interleaved(slots[..i]))
      invariant forall j | p <= j < buf.Length :: buf[j] == old(buf[j])
    {
      InterleavedBytes(slots[..i], slots[i]);
      assert slots[..i + 1] == slots[..i] + [slots[i]];
      p := PutSlotWords(buf, p, slots[i]);
      i := i + 1;
    }
    assert slots[..i] == slots[..];
  }

  lemma InterleavedBytes(s: seq<Slot>, x: Slot)
    ensures WordBytes(Interleaved(s + [x])) == WordBytes(Interleaved(s)) + (LE(x.value, 8) + LE(x.check, 8))
  {
    hide LE, WordBytes, Interleaved;
    InterleavedSnoc(s, x);
    WordBytesSnoc(Interleaved(s), x.value);
    WordBytesSnoc(Interleaved(s) + [x.value], x.check);
  }

  lemma WordBytesNone(w: seq<U64>)
    requires w == []
    ensures WordBytes(w) == []
  {
  }

  lemma WordBytesSnoc(w: seq<U64>, v: U64)
    ensures WordBytes(w + [v]) == WordBytes(w) + LE(v, 8)
  {
    hide LE;
    assert (w + [v])[..|w|] == w;
  }

  lemma {:induction false} WordBytesConcat(v: seq<U64>, w: seq<U64>)
    ensures WordBytes(v + w) == WordBytes(v) + WordBytes(w)
  {
    hide LE;
    if w == [] {
      assert v + w == v;
    } else {
      WordBytesConcat(v, w[..|w| - 1]);
      assert (v + w)[..|v + w| - 1] == v + w[..|w| - 1];
    }
  }

  lemma InterleavedSnoc(s: seq<Slot>, x: Slot)
    ensures Interleaved(s + [x]) == Interleaved(s) + [x.value] + [x.check]
  {
    hide Interleaved;
    forall i | 0 <= i < 2 * |s| + 2
      ensures |Interleaved(s + [x])| == 2 * |s| + 2
      ensures Interleaved(s + [x])[i] == (Interleaved(s) + [x.value] + [x.check])[i]
    {
      InterleavedParts(s, i / 2);
      InterleavedParts(s + [x], i / 2);
      assert i == 2 * (i / 2) || i == 2 * (i / 2) + 1;
    }
  }

  lemma InterleavedParts(s: seq<Slot>, k: nat)
    ensures |Interleaved(s)| == 2 * |s|
    ensures k < |s| ==> Interleaved(s)[2 * k] == s[k].value && Interleaved(s)[2 * k + 1] == s[k].check
  {
  }

  /** The trailer over everything written so far. */
  method WriteChecksum(buf: array<U8>, p: nat)
    requires p + 8 <= buf.Length
    modifies buf
    ensures buf[..p + 8] == old(buf[..p]) + LE(Fnv(old(buf[..p])), 8)
    ensures forall j | p + 8 <= j < buf.Length :: buf[j] == old(buf[j])
  {
    hide LE, Fnv;
    var sum := Fnv1a64(buf, p);
    var _ := PutWord(buf, p, sum);
  }

  method WritePlain(m: ConstMap, buf: array<U8>) returns (rc: int)
    requires m.data.Length == m.par.dataLen && 40 + 8 * m.par.dataLen <= buf.Length
    modifies buf
    ensures rc == if KnownHash(m.par.hash) then FCM_OK else FCM_E_INVALID_FORMAT
    ensures rc != FCM_OK ==> buf[..] == old(buf[..])
    ensures rc == FCM_OK ==>
              var i, size := FormatFor(PLAIN_FORMATS, m.par.hash), 40 + 8 * m.par.dataLen;
              && i < |PLAIN_FORMATS| && PLAIN_FORMATS[i].headerSize == 32
              && buf[..size] == Serialized(PLAIN_FORMATS[i], m.par, m.data[..])
              && (forall j | size <= j < buf.Length :: buf[j] == old(buf[j]))
  {
    hide LE, Fnv, WordBytes, HeaderBytes, TableOk, FormatFor;
    WriterFormat(PLAIN_FORMATS, m.par.hash) by { TablesOk(); }
    var i := FindFormat(PLAIN_FORMATS, m.par.hash);
    if i == |PLAIN_FORMATS| {
      return FCM_E_INVALID_FORMAT;
    }
    var p := WriteHeader(buf, PLAIN_FORMATS[i], m.par);
    p := WriteArray(buf, p, m.data);
    WriteChecksum(buf, p);
    rc := FCM_OK;
  }

  /** A writer has a format exactly for the two known hashes, and it has a 32-byte header. */
  lemma WriterFormat(formats: seq<Format>, hash: U32)
    requires TableOk(formats)
    ensures var i := FormatFor(formats, hash);
            && (i < |formats| <==> KnownHash(hash))
            && (i < |formats| ==> formats[i].headerSize == 32 && |formats[i].magic| == 8 && formats[i].hash == hash)
  {
  }

  method WriteVerified(m: VerifiedConstMap, buf: array<U8>) returns (rc: int)
    requires m.data.Length == m.checks.Length == m.par.dataLen && 40 + 16 * m.par.dataLen <= buf.Length
    modifies buf
    ensures rc == if KnownHash(m.par.hash) then FCM_OK else FCM_E_INVALID_FORMAT
    ensures rc != FCM_OK ==> buf[..] == old(buf[..])
    ensures rc == FCM_OK ==>
              var i, size := FormatFor(VERIFIED_FORMATS, m.par.hash), 40 + 16 * m.par.dataLen;
              && i < |VERIFIED_FORMATS| && VERIFIED_FORMATS[i].headerSize == 32
              && buf[..size] == Serialized(VERIFIED_FORMATS[i], m.par, m.data[..] + m.checks[..])
              && (forall j | size <= j < buf.Length :: buf[j] == old(buf[j]))
  {
    hide LE, Fnv, WordBytes, HeaderBytes, TableOk, FormatFor;
    WriterFormat(VERIFIED_FORMATS, m.par.hash) by { TablesOk(); }
    var i := FindFormat(VERIFIED_FORMATS, m.par.hash);
    if i == |VERIFIED_FORMATS| {
      return FCM_E_INVALID_FORMAT;
    }
    WordBytesConcat(m.data[..], m.checks[..]);
    var p := WriteHeader(buf, VERIFIED_FORMATS[i], m.par);
    p := WriteArray(buf, p, m.data);
    p := WriteArray(buf, p, m.checks);
    assert buf[..p] == Body(VERIFIED_FORMATS[i], m.par, m.data[..] + m.checks[..]);
    WriteChecksum(buf, p);
    rc := FCM_OK;
  }

  method WritePaired(m: PairedVerifiedConstMap, buf: array<U8>) returns (rc: int)
    requires m.slots.Length == m.par.dataLen && 40 + 16 * m.par.dataLen <= buf.Length
    modifies buf
    ensures rc == if KnownHash(m.par.hash) then FCM_OK else FCM_E_INVALID_FORMAT
    ensures rc != FCM_OK ==> buf[..] == old(buf[..])
    ensures rc == FCM_OK ==>
              var i, size := FormatFor(PAIRED_FORMATS, m.par.hash), 40 + 16 * m.par.dataLen;
              && i < |PAIRED_FORMATS| && PAIRED_FORMATS[i].headerSize == 32
              && buf[..size] == Serialized(PAIRED_FORMATS[i], m.par, Interleaved(m.slots[..]))
              && (forall j | size <= j < buf.Length :: buf[j] == old(buf[j]))
  {
    hide LE, Fnv, WordBytes, HeaderBytes, TableOk, FormatFor;
    WriterFormat(PAIRED_FORMATS, m.par.hash) by { TablesOk(); }
    var i := FindFormat(PAIRED_FORMATS, m.par.hash);
    if i == |PAIRED_FORMATS| {
      return FCM_E_INVALID_FORMAT;
    }
    var p := WriteHeader(buf, PAIRED_FORMATS[i], m.par);
    p := WriteSlots(buf, p, m.slots);
    WriteChecksum(buf, p);
    rc := FCM_OK;
  }

  // ----- reading

  method ReadArray(buf: array<U8>, len: nat, start: nat, count: nat) returns (a: array<U64>)
    requires start + 8 * count <= len <= buf.Length
    ensures fresh(a) && a[..] == WordsAt(buf[..len], start, count)
  {
    hide ReadU64;
    a := new U64[count];
    var i := 0;
    while i < count
      invariant 0 <= i <= count
      invariant forall j | 0 <= j < i :: a[j] == ReadU64(buf[..len], start + 8 * j)
    {
      a[i] := ReadU64(buf[..len], start + 8 * i);
      i := i + 1;
    }
  }

  method ReadSlots(buf: array<U8>, len: nat, start: nat, count: nat) returns (slots: array<Slot>)
    requires start + 16 * count <= len <= buf.Length
    ensures fresh(slots) && slots[..] == SlotsOf(WordsAt(buf[..len], start, 2 * count))
  {
    hide ReadU64;
    slots := new Slot[count](i => Slot(0, 0));
    var i := 0;
    while i < count
      invariant 0 <= i <= count
      invariant forall j | 0 <= j < i ::
                  slots[j] == Slot(ReadU64(buf[..len], start + 16 * j), ReadU64(buf[..len], start + 16 * j + 8))
    {
      slots[i] := Slot(ReadU64(buf[..len], start + 16 * i), ReadU64(buf[..len], start + 16 * i + 8));
      i := i + 1;
    }
    ghost var words := WordsAt(buf[..len], start, 2 * count);
    assert forall j | 0 <= j < count ::
        && words[2 * j] == ReadU64(buf[..len], start + 16 * j)
        && words[2 * j + 1] == ReadU64(buf[..len], start + 16 * j + 8);
  }

  /** A rejected buffer leaves the object zeroed. */
  method ReadPlain(m: ConstMap, buf: array<U8>, len: nat) returns (rc: int)
    requires len <= buf.Length
    modifies m
    ensures fresh(m.data)
    ensures rc == 0 <==> ParsePlain(buf[..len]).Accepted?
    ensures match ParsePlain(buf[..len])
            case Accepted(h) => rc == FCM_OK && m.Value() == PlainFrom(buf[..len], h)
            case Rejected(code) => rc == code && m.Value() == PlainMap(EmptyParams(HASH_XXH64), [])
  {
    hide Parse, ReadU64, WordsAt, TableOk;
    m.par := EmptyParams(HASH_XXH64);
    m.data := new U64[0];
    ReaderCodes(buf[..len]);
    TablesOk();
    var r := ParseBuffer(buf, len, PLAIN_FORMATS, 8) by { TableHeaders(PLAIN_FORMATS); }
    assert r == ParsePlain(buf[..len]);
    match r {
      case Rejected(code) =>
        return code;
      case Accepted(h) =>
        m.data := ReadArray(buf, len, h.format.headerSize, h.dataLen);
        m.par := ParamsFrom(h);
        return FCM_OK;
    }
  }

  method ReadVerified(m: VerifiedConstMap, buf: array<U8>, len: nat) returns (rc: int)
    requires len <= buf.Length
    modifies m
    ensures fresh(m.data) && fresh(m.checks)
    ensures rc == 0 <==> ParseVerified(buf[..len]).Accepted?
    ensures match ParseVerified(buf[..len])
            case Accepted(h) => rc == FCM_OK && m.Value() == VerifiedFrom(buf[..len], h)
            case Rejected(code) => rc == code && m.Value() == VerifiedMap(EmptyParams(HASH_XXH64), [], [])
  {
    hide Parse, ReadU64, WordsAt, TableOk;
    m.par := EmptyParams(HASH_XXH64);
    m.data, m.checks := new U64[0], new U64[0];
    ReaderCodes(buf[..len]);
    TablesOk();
    var r := ParseBuffer(buf, len, VERIFIED_FORMATS, 16) by { TableHeaders(VERIFIED_FORMATS); }
    assert r == ParseVerified(buf[..len]);
    match r {
      case Rejected(code) =>
        return code;
      case Accepted(h) =>
        var data := ReadArray(buf, len, h.format.headerSize, h.dataLen);
        var checks := ReadArray(buf, len, h.format.headerSize + 8 * h.dataLen, h.dataLen);
        m.data, m.checks, m.par := data, checks, ParamsFrom(h);
        return FCM_OK;
    }
  }

  /** What a paired reader accepts is safe to look up in, whoever wrote it. */
  method ReadPaired(m: PairedVerifiedConstMap, buf: array<U8>, len: nat) returns (rc: int)
    requires len <= buf.Length
    modifies m
    ensures fresh(m.slots) && ValidPaired(m.Value())
    ensures rc == 0 <==> ParsePaired(buf[..len]).Accepted?
    ensures match ParsePaired(buf[..len])
            case Accepted(h) => rc == FCM_OK && m.Value() == PairedFrom(buf[..len], h)
            case Rejected(code) => rc == code && m.Value() == PairedMap(EmptyParams(HASH_XXH64), [])
  {
    hide Parse, ReadU64, WordsAt, TableOk, SlotsOf, ParamsOk, SafeParams;
    m.par := EmptyParams(HASH_XXH64);
    m.slots := new Slot[0];
    assert SafeParams(EmptyParams(HASH_XXH64)) by { EmptyIsSafe(); }
    ReaderCodes(buf[..len]);
    TablesOk();
    var r := ParseBuffer(buf, len, PAIRED_FORMATS, 16) by { TableHeaders(PAIRED_FORMATS); }
    if r.Rejected? {
      return r.code;
    }
    var h := r.header;
    if !ParamsOk(h.segLen, h.segCount, h.dataLen) {
      return FCM_E_INVALID_PARAMS;
    }
    assert r == ParsePaired(buf[..len]);
    ParamsOkExact(h);
    m.slots := ReadSlots(buf, len, h.format.headerSize, h.dataLen);
    m.par := ParamsFrom(h);
    rc := FCM_OK;
  }

  lemma EmptyIsSafe()
    ensures SafeParams(EmptyParams(HASH_XXH64))
  {
  }
}
