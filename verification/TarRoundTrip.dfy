/** What the canonical writer stores is what a pax reader finds, and exactly when. */
module TarRoundTrip {
  import opened Results
  import opened Numerals
  import opened Bytes
  import opened Ustar
  import PaxRecord
  import R = PaxReader

  predicate NulFree(bs: Bytes) {
    forall i :: 0 <= i < |bs| ==> bs[i] != 0
  }

  /** Readable by all, writable by its owner: 0o644; everything else is zero or empty. */
  const STATUS := R.Status(6 * 64 + 4 * 8 + 4, 0, 0, 0, [], [], [])

  // ----- one header block

  lemma SpacesSum()
    ensures Sum(BLANK) == 8 * 32
  {
    assert BLANK == [32, 32, 32, 32, 32, 32, 32, 32];
    assert Sum([32, 32, 32, 32]) == 128 by {
      assert [32, 32, 32, 32][..3] == [32, 32, 32];
      assert [32, 32, 32][..2] == [32, 32];
      assert [32, 32][..1] == [32];
    }
    assert BLANK == [32, 32, 32, 32] + [32, 32, 32, 32];
    SumConcat([32, 32, 32, 32], [32, 32, 32, 32]);
  }

  /** Recomputing the checksum over a written header gives the sum that was stored in it. */
  lemma ChecksumAgrees(f: Fields)
    requires FieldsFit(f)
    ensures R.BlankedSum(Header(f)) == Sum(Layout(f, BLANK))
    ensures R.ReadOctalField(Header(f)[148..156]) == Some(Sum(Layout(f, BLANK)))
  {
    hide Sum, Digits, Pad, DigitBytes, ReadNumber, R.ReadOctalField, Layout, LayoutByte, ChecksumField;
    var blank := Layout(f, BLANK);
    var field := ChecksumField(Sum(blank));
    ChecksumFits(blank);
    var block := Layout(f, field);
    LayoutParts(f, field);
    SumConcat(block[..148] + BLANK, block[156..]);
    SumConcat(block[..148], BLANK);
    SpacesSum();
    ChecksumFieldReads(Sum(blank));
  }

  /** Only the checksum bytes differ between the blanked block and the written one. */
  lemma LayoutParts(f: Fields, field: Bytes)
    requires FieldsFit(f) && |field| == 8
    ensures var block := Layout(f, field);
            block[148..156] == field && Layout(f, BLANK) == block[..148] + BLANK + block[156..]
  {
  }

  lemma ChecksumFieldReads(sum: nat)
    requires |ChecksumField(sum)| == 8 && ReadNumber(ChecksumField(sum)[..6], 8) == Some(sum)
    ensures R.ReadOctalField(ChecksumField(sum)) == Some(sum)
  {
    hide Digits, ReadNumber;
    var digits := DigitBytes(Pad(Digits(sum, 8), 6));
    UntilStops(digits, [0, SPACE], 0);
    assert digits + [] == digits;
    UntilStops(digits, [], SPACE);
    assert ChecksumField(sum)[..6] == digits;
  }

  lemma SizeFieldReads(f: Fields, size: nat)
    requires FieldsFit(f) && Octal(size, 12) == Ok(f.size)
    ensures R.ReadOctalField(Header(f)[124..136]) == Some(size)
  {
    hide Sum, Value, Pow, ChecksumField;
    ChecksumFits(Layout(f, BLANK));
    assert Header(f)[124..136] == f.size;
    var digits := f.size[..11];
    assert f.size == digits + [0];
    OctalText(size, 11);
    assert digits == DigitBytes(Pad(Digits(size, 8), 11));
    UntilStops(digits, [0], 0);
    assert digits + [] == digits;
    UntilStops(digits, [], SPACE);
  }

  /** The name and prefix as a reader sees them: each stops at its first NUL. */
  function Seen(name: Bytes, prefix: Bytes): (r: Bytes) {
    var n, p := Until(name, 0), Until(prefix, 0);
    if p == [] then n else p + [SLASH] + n
  }

  lemma HeaderReads(f: Fields, size: nat)
    requires FieldsFit(f) && Octal(size, 12) == Ok(f.size)
    ensures R.ReadHeader(Header(f)) == Some(R.Header(Seen(f.name, f.prefix), size, f.typeflag, STATUS))
  {
    hide Sum, Octal, Until, R.ReadOctalField, R.ReadStatus, R.BlankedSum, Layout, LayoutByte, ChecksumField, Header;
    ChecksumAgrees(f);
    SizeFieldReads(f, size);
    StatusReads(f);
    FieldsStand(f);
    UntilIgnores(f.name, Nuls(100 - |f.name|), 0);
    UntilIgnores(f.prefix, Nuls(155 - |f.prefix|), 0);
  }

  /** Octal digits and a NUL read as their number. */
  lemma OctalFieldReads(digits: Bytes, n: nat)
    requires ReadNumber(digits, 8) == Some(n)
    ensures R.ReadOctalField(digits + [0]) == Some(n)
  {
    hide Value;
    UntilStops(digits, [0], 0);
    assert digits + [] == digits;
    UntilStops(digits, [], R.SPACE);
  }

  lemma {:induction false} ZerosRead(k: nat)
    ensures Value(Zeros(k), 8) == 0
  {
    if k > 0 {
      ZerosRead(k - 1);
      assert Zeros(k)[..k - 1] == Zeros(k - 1);
    }
  }

  lemma ModeReads()
    ensures R.ReadOctalField(MODE) == Some(420)
  {
    hide R.ReadOctalField;
    var digits := Ascii("0000644");
    assert digits == DigitBytes(Zeros(4) + [6, 4, 4]);
    ReadDigitBytes(Zeros(4) + [6, 4, 4], 8);
    PaddingIsSilent(4, [6, 4, 4], 8);
    assert [6, 4, 4][..2] == [6, 4] && [6, 4][..1] == [6] && [6][..0] == [];
    assert Value([6], 8) == 6 && Value([6, 4], 8) == 52 && Value([6, 4, 4], 8) == 420;
    OctalFieldReads(digits, 420);
  }

  lemma ZeroFieldsRead()
    ensures R.ReadOctalField(OWNER) == Some(0) && R.ReadOctalField(MTIME) == Some(0)
  {
    hide R.ReadOctalField, Value;
    assert Ascii("0000000") == DigitBytes(Zeros(7));
    ReadDigitBytes(Zeros(7), 8);
    ZerosRead(7);
    OctalFieldReads(Ascii("0000000"), 0);
    assert Ascii("00000000000") == DigitBytes(Zeros(11));
    ReadDigitBytes(Zeros(11), 8);
    ZerosRead(11);
    OctalFieldReads(Ascii("00000000000"), 0);
  }

  /** Every header says 0o644, and zero or nothing everywhere else. */
  lemma StatusReads(f: Fields)
    requires FieldsFit(f)
    ensures R.ReadStatus(Header(f)) == Some(STATUS)
  {
    hide R.ReadOctalField, Header, Until;
    StatusFieldsStand(f);
    ModeReads();
    ZeroFieldsRead();
    assert [] + Nuls(100) == Nuls(100) && [] + Nuls(32) == Nuls(32);
    UntilStops([], Nuls(100), 0);
    UntilStops([], Nuls(32), 0);
  }

  lemma StatusFieldsStand(f: Fields)
    requires FieldsFit(f)
    ensures var block := Header(f);
            && block[100..108] == MODE && block[108..116] == OWNER && block[116..124] == OWNER && block[136..148] == MTIME
            && block[157..257] == Nuls(100) && block[265..297] == Nuls(32) && block[297..329] == Nuls(32)
  {
    hide Sum, ChecksumField;
    ChecksumFits(Layout(f, BLANK));
  }

  /** The fields at their places. */
  lemma FieldsStand(f: Fields)
    requires FieldsFit(f)
    ensures var block := Header(f);
            && block[257..263] == MAGIC && block[263..265] == VERSION && block[156] == f.typeflag
            && block[..100] == f.name + Nuls(100 - |f.name|) && block[345..500] == f.prefix + Nuls(155 - |f.prefix|)
  {
    hide Sum, ChecksumField;
    ChecksumFits(Layout(f, BLANK));
  }

  /** The same for a member with a payload, read from the front of a longer archive. */
  lemma EntryReads(name: Bytes, payload: Bytes, typeflag: Byte, prefix: Bytes, size: nat, rest: Bytes)
    requires |name| <= 100 && |prefix| <= 155 && size <= MAX_ENTRY
    ensures var bs := Entry(name, payload, typeflag, prefix, size).value + rest;
            && |bs| == BLOCK + R.RoundUp(|payload|) + |rest|
            && R.ReadHeader(bs[..BLOCK]) == Some(R.Header(Seen(name, prefix), size, typeflag, STATUS))
            && bs[BLOCK..BLOCK + |payload|] == payload
            && bs[BLOCK + R.RoundUp(|payload|)..] == rest
            && bs[257] != 0
  {
    hide R.ReadHeader, Header, Octal, Padding, Seen;
    MaxEntryIsElevenOctalDigits();
    var f := Fields(name, prefix, Octal(size, 12).value, typeflag);
    var header, pad := Header(f), Padding(|payload|);
    var bs := header + payload + pad + rest;
    assert Entry(name, payload, typeflag, prefix, size).value + rest == bs;
    HeaderReads(f, size);
    PaddingRoundsUp(|payload|);
    assert bs[..BLOCK] == header;
    assert bs[BLOCK..BLOCK + |payload|] == payload;
    assert bs[BLOCK + |payload| + |pad|..] == rest;
    FieldsStand(f);
    assert header[257] == header[257..263][0] == MAGIC[0];
  }

  lemma PaddingRoundsUp(length: nat)
    ensures length + |Padding(length)| == R.RoundUp(length)
  {
  }

  // ----- extended-header records

  lemma RecordFromParts(bs: Bytes, prefix: Bytes, length: nat, keyword: Bytes, value: Bytes)
    requires Until(bs, SPACE) == prefix && ReadNumber(prefix, 10) == Some(length)
    requires |prefix| + 1 < length <= |bs| && bs[length - 1] == NEWLINE
    requires bs[|prefix| + 1..length - 1] == keyword + ([EQUALS] + value)
    requires forall i :: 0 <= i < |keyword| ==> keyword[i] != EQUALS
    ensures R.ReadRecord(bs) == Some(R.Record(keyword, value, length))
  {
    hide Until, ReadNumber, R.ReadBody;
    BodyFromParts(bs, |prefix| + 1, length, keyword, value);
  }

  lemma BodyFromParts(bs: Bytes, start: nat, length: nat, keyword: Bytes, value: Bytes)
    requires start < length <= |bs| && bs[length - 1] == NEWLINE
    requires bs[start..length - 1] == keyword + ([EQUALS] + value)
    requires forall i :: 0 <= i < |keyword| ==> keyword[i] != EQUALS
    ensures R.ReadBody(bs, start, length) == Some(R.Record(keyword, value, length))
  {
    hide Until;
    KeywordAndValue(bs[start..length - 1], keyword, value);
  }

  lemma KeywordAndValue(text: Bytes, keyword: Bytes, value: Bytes)
    requires text == keyword + ([EQUALS] + value) && forall i :: 0 <= i < |keyword| ==> keyword[i] != EQUALS
    ensures Until(text, EQUALS) == keyword && |keyword| < |text| && text[|keyword| + 1..] == value
  {
    hide Until;
    UntilStops(keyword, [EQUALS] + value, EQUALS);
  }

  /** A written record is read back as its keyword and value, whatever bytes the value holds. */
  lemma RecordReads(keyword: Bytes, value: Bytes, rest: Bytes)
    requires forall i :: 0 <= i < |keyword| ==> keyword[i] != EQUALS
    ensures var record := PaxRecord.Record(keyword, value);
            R.ReadRecord(record + rest) == Some(R.Record(keyword, value, |record|))
  {
    hide Until, Decimal, R.ReadRecord, ReadNumber;
    var body := PaxRecord.Body(keyword, value);
    var length := PaxRecord.LeastLength(|body|);
    var digits := Decimal(length);
    var bs := PaxRecord.Record(keyword, value) + rest;
    assert |digits| + 1 + |body| == length;
    assert Until(bs, SPACE) == digits by {
      assert bs == digits + ([SPACE] + body + rest);
      UntilStops(digits, [SPACE] + body + rest, SPACE);
    }
    ReadDecimal(length);
    assert bs[|digits| + 1..length - 1] == keyword + ([EQUALS] + value);
    RecordFromParts(bs, digits, length, keyword, value);
  }

  lemma RecordsReadOn(keyword: Bytes, value: Bytes, rest: Bytes)
    requires forall i :: 0 <= i < |keyword| ==> keyword[i] != EQUALS
    requires R.ReadRecords(rest).Some?
    ensures R.ReadRecords(PaxRecord.Record(keyword, value) + rest)
         == Some(map[keyword := value] + R.ReadRecords(rest).value)
  {
    var record := PaxRecord.Record(keyword, value);
    RecordReads(keyword, value, rest);
    assert (record + rest)[|record|..] == rest;
  }

  /** The overrides that the records of an entry announce. */
  ghost function Announced(path: Bytes, size: nat): (r: map<Bytes, Bytes>) {
    map[PATH := path] + if size > MAX_ENTRY then map[SIZE := Decimal(size)] else map[]
  }

  lemma RecordsRead(path: Bytes, size: nat)
    ensures R.ReadRecords(Records(path, size)) == Some(Announced(path, size))
  {
    assert R.ReadRecords([]) == Some(map[]);
    hide R.ReadRecords;
    var tail := if size > MAX_ENTRY then PaxRecord.Record(SIZE, Decimal(size)) else [];
    var extra := if size > MAX_ENTRY then map[SIZE := Decimal(size)] else map[];
    assert R.ReadRecords(tail) == Some(extra) by {
      if size > MAX_ENTRY {
        assert tail + [] == tail;
        RecordsReadOn(SIZE, Decimal(size), []);
        assert map[SIZE := Decimal(size)] + map[] == extra;
      }
    }
    RecordsReadOn(PATH, path, tail);
    assert Records(path, size) == PaxRecord.Record(PATH, path) + tail;
  }

  lemma AnnouncedOverrides(path: Bytes, size: nat, header: R.Header, headers: nat)
    requires header.size == size || size > MAX_ENTRY
    ensures R.Override(header, Announced(path, size), headers) == Some(R.Member(path, size, header.status, headers))
  {
    assert PATH[0] != SIZE[0];
    ReadDecimal(size);
  }

  // ----- the round trip

  /**
   * The one family of paths whose stored form names another file: 101 bytes, a leading slash
   * and no other slash at which the path could be split.
   */
  predicate LosesLeadingSlash(path: Bytes) {
    |path| == 101 && path[0] == SLASH && forall i :: 1 <= i < 100 ==> path[i] != SLASH
  }

  /** The bytes and size survive being written and read back. */
  ghost predicate Survives(path: Bytes, size: nat, headers: Bytes) {
    R.ReadMember(headers) == Some(R.Member(path, size, STATUS, |headers|))
  }

  lemma EmptyPrefixExactlyWhenSlashLost(path: Bytes)
    requires |path| > 100 && SplitUstarPath(path).Some?
    ensures SplitUstarPath(path).value.prefix == [] <==> LosesLeadingSlash(path)
  {
    var i := LastSplit(path, |path|).value;
    if i == 0 {
      forall j | 1 <= j < 100
        ensures path[j] != SLASH
      {
        assert !Splits(path, j);
      }
    }
  }

  lemma SeenExactly(path: Bytes)
    requires SplitUstarPath(path).Some?
    ensures var s := SplitUstarPath(path).value;
            Seen(s.name, s.prefix) == path <==> NulFree(path) && !LosesLeadingSlash(path)
  {
    var s := SplitUstarPath(path).value;
    UntilWhole(s.name, 0);
    UntilWhole(s.prefix, 0);
    if |path| > 100 {
      EmptyPrefixExactlyWhenSlashLost(path);
      assert path == s.prefix + [SLASH] + s.name;
      NulFreeParts(s.prefix, s.name);
    }
  }

  lemma NulFreeParts(prefix: Bytes, name: Bytes)
    ensures NulFree(prefix + [SLASH] + name) <==> NulFree(prefix) && NulFree(name)
  {
    var path := prefix + [SLASH] + name;
    if NulFree(path) {
      assert forall i :: 0 <= i < |name| ==> name[i] == path[|prefix| + 1 + i];
      assert forall i :: 0 <= i < |prefix| ==> prefix[i] == path[i];
    }
  }

  /** An extended entry, then a plain one: the records override the plain header. */
  lemma ExtendedMemberReads(first: Bytes, second: Bytes, name: Bytes, size: nat, records: map<Bytes, Bytes>, header: R.Header, rest: Bytes)
    requires |first| == BLOCK + R.RoundUp(size) && |second| == BLOCK
    requires R.ReadHeader(first[..BLOCK]) == Some(R.Header(name, size, EXTENDED, STATUS))
    requires R.ReadRecords(first[BLOCK..BLOCK + size]) == Some(records)
    requires R.ReadHeader(second) == Some(header) && header.typeflag == R.REGULAR
    ensures R.ReadMember(first + second + rest) == R.Override(header, records, |first + second|)
  {
    hide R.ReadHeader, R.ReadRecords, R.Override, R.RoundUp;
    var bs := first + second + rest;
    assert bs[..BLOCK] == first[..BLOCK];
    assert bs[BLOCK..BLOCK + size] == first[BLOCK..BLOCK + size];
    assert bs[|first|..|first| + BLOCK] == second;
  }

  lemma NothingRoundsUp()
    ensures R.RoundUp(0) == 0
  {
  }

  lemma PaxMemberReads(path: Bytes, size: nat, digest: Bytes -> Bytes, rest: Bytes)
    requires |digest(path)| == 16 && NeedsPax(path, size) && |Records(path, size)| <= MAX_ENTRY
    ensures var headers := CanonicalHeaders(path, size, digest).value;
            R.ReadMember(headers + rest) == Some(R.Member(path, size, STATUS, |headers|))
  {
    hide R.ReadHeader, R.ReadRecords, R.ReadMember, R.Override, R.RoundUp, Announced, Records, Entry, Seen;
    NothingRoundsUp();
    var suffix, records := digest(path), Records(path, size);
    var name := PAX_HEADERS + suffix;
    var name2, size2 := PAX_FILES + suffix, if size > MAX_ENTRY then 0 else size;
    var first := Entry(name, records, EXTENDED, [], |records|).value;
    var second := Entry(name2, [], REGULAR, [], size2).value;
    assert CanonicalHeaders(path, size, digest) == Ok(first + second);
    EntryReads(name, records, EXTENDED, [], |records|, []);
    EntryReads(name2, [], REGULAR, [], size2, []);
    assert first + [] == first && second + [] == second && second[..BLOCK] == second;
    var header := R.Header(Seen(name2, []), size2, REGULAR, STATUS);
    RecordsRead(path, size);
    ExtendedMemberReads(first, second, Seen(name, []), |records|, Announced(path, size), header, rest);
    AnnouncedOverrides(path, size, header, |first + second|);
  }

  lemma PlainMemberReads(path: Bytes, size: nat, digest: Bytes -> Bytes, rest: Bytes)
    requires |digest(path)| == 16 && !NeedsPax(path, size)
    ensures var headers := CanonicalHeaders(path, size, digest).value;
            var s := SplitUstarPath(path).value;
            R.ReadMember(headers + rest) == Some(R.Member(Seen(s.name, s.prefix), size, STATUS, |headers|))
  {
    var s := SplitUstarPath(path).value;
    EntryReads(s.name, [], REGULAR, s.prefix, size, rest);
    EntryReads(s.name, [], REGULAR, s.prefix, size, []);
  }

  const EXTENDED_FOLDER: Bytes := Ascii("PaxHeaders/")
  const PLAIN_FOLDER: Bytes := Ascii("PaxFiles/")

  /** The first and the last header of an extended entry. */
  ghost predicate HeadersAre(headers: Bytes, first: R.Header, last: R.Header) {
    && |headers| >= 512 && R.ReadHeader(headers[..512]) == Some(first)
    && R.ReadHeader(headers[|headers| - 512..]) == Some(last)
  }

  /** The placeholders that stand in for a path in the two headers of an extended entry. */
  lemma PlaceholdersRead(path: Bytes, size: nat, digest: Bytes -> Bytes)
    requires |digest(path)| == 16 && NeedsPax(path, size) && |Records(path, size)| <= MAX_ENTRY && NulFree(digest(path))
    ensures HeadersAre(CanonicalHeaders(path, size, digest).value,
                       R.Header(EXTENDED_FOLDER + digest(path), |Records(path, size)|, R.EXTENDED, STATUS),
                       R.Header(PLAIN_FOLDER + digest(path), if size >= 8589934592 then 0 else size, R.REGULAR, STATUS))
  {
    hide R.ReadHeader, R.RoundUp, Records, Entry, Seen;
    NothingRoundsUp();
    var suffix, records := digest(path), Records(path, size);
    var name := PAX_HEADERS + suffix;
    var name2, size2 := PAX_FILES + suffix, if size > MAX_ENTRY then 0 else size;
    var first := Entry(name, records, EXTENDED, [], |records|).value;
    var second := Entry(name2, [], REGULAR, [], size2).value;
    EntryReads(name, records, EXTENDED, [], |records|, []);
    EntryReads(name2, [], REGULAR, [], size2, []);
    assert first + [] == first && second + [] == second && second[..BLOCK] == second;
    assert (first + second)[..BLOCK] == first[..BLOCK] && (first + second)[|first|..] == second;
    SeenPlain(name);
    SeenPlain(name2);
  }

  lemma SeenPlain(name: Bytes)
    requires NulFree(name)
    ensures Seen(name, []) == name
  {
    UntilWhole(name, 0);
  }

  /** A path is stored faithfully exactly when it goes through pax records, or has no NUL and keeps its slash. */
  predicate Representable(path: Bytes, size: nat) {
    NeedsPax(path, size) || (NulFree(path) && !LosesLeadingSlash(path))
  }

  /** Headers read back as the path and size they were made from, exactly for representable paths. */
  lemma HeadersRoundTrip(path: Bytes, size: nat, digest: Bytes -> Bytes)
    requires |digest(path)| == 16 && CanonicalHeaders(path, size, digest).Ok?
    ensures Survives(path, size, CanonicalHeaders(path, size, digest).value) <==> Representable(path, size)
  {
    var headers := CanonicalHeaders(path, size, digest).value;
    assert headers + [] == headers;
    if NeedsPax(path, size) {
      PaxMemberReads(path, size, digest, []);
    } else {
      PlainMemberReads(path, size, digest, []);
      SeenExactly(path);
    }
  }

  /** Two representable entries with the same header bytes are the same entry. */
  lemma HeadersInjective(p: Bytes, m: nat, q: Bytes, n: nat, digest: Bytes -> Bytes)
    requires |digest(p)| == 16 && |digest(q)| == 16
    requires Representable(p, m) && Representable(q, n)
    requires CanonicalHeaders(p, m, digest).Ok? && CanonicalHeaders(p, m, digest) == CanonicalHeaders(q, n, digest)
    ensures p == q && m == n
  {
    HeadersRoundTrip(p, m, digest);
    HeadersRoundTrip(q, n, digest);
  }

  /** The failing family is not empty: this path comes back without its leading slash. */
  lemma LeadingSlashIsLost(digest: Bytes -> Bytes)
    requires |digest([SLASH] + seq(100, _ => 97))| == 16
    ensures var path := [SLASH] + seq(100, _ => 97);
            && CanonicalHeaders(path, 0, digest).Ok?
            && R.ReadMember(CanonicalHeaders(path, 0, digest).value) == Some(R.Member(path[1..], 0, STATUS, BLOCK))
  {
    var path: Bytes := [SLASH] + seq(100, _ => 97);
    assert Splits(path, 0);
    assert LosesLeadingSlash(path);
    EmptyPrefixExactlyWhenSlashLost(path);
    var s := SplitUstarPath(path).value;
    assert path == [] + [SLASH] + s.name;
    var headers := CanonicalHeaders(path, 0, digest).value;
    assert headers + [] == headers;
    PlainMemberReads(path, 0, digest, []);
    UntilWhole(s.name, 0);
    assert s.name == path[1..];
  }

  lemma StartsWithHeader(path: Bytes, size: nat, digest: Bytes -> Bytes)
    requires |digest(path)| == 16 && CanonicalHeaders(path, size, digest).Ok?
    ensures var headers := CanonicalHeaders(path, size, digest).value;
            |headers| >= BLOCK && headers[257] != 0 && |headers| % 512 == 0
  {
    hide Entry, R.ReadHeader, Records, SplitUstarPath;
    var split := SplitUstarPath(path);
    if !NeedsPax(path, size) {
      EntryReads(split.value.name, [], REGULAR, split.value.prefix, size, []);
    } else {
      var suffix, records := digest(path), Records(path, size);
      var name := PAX_HEADERS + suffix;
      var name2, size2 := PAX_FILES + suffix, if size > MAX_ENTRY then 0 else size;
      EntryReads(name, records, EXTENDED, [], |records|, []);
      EntryReads(name2, [], REGULAR, [], size2, []);
      var first := Entry(name, records, EXTENDED, [], |records|).value;
      var second := Entry(name2, [], REGULAR, [], size2).value;
      assert CanonicalHeaders(path, size, digest).value == first + second;
      BlocksAdd(BLOCK, R.RoundUp(|records|));
      BlocksAdd(|first|, |second|);
    }
  }

  lemma ArchiveStep(bs: Bytes, m: R.Member, files: seq<R.File>)
    requires !R.EndOfArchive(bs) && R.ReadMember(bs) == Some(m)
    requires m.headers > 0 && |bs| >= m.headers + R.RoundUp(m.size)
    requires R.ReadArchive(bs[m.headers + R.RoundUp(m.size)..]) == Some(files)
    ensures R.ReadArchive(bs) == Some([R.File(m.path, bs[m.headers..m.headers + m.size], m.status)] + files)
  {
    hide R.ReadMember, R.ReadHeader, R.EndOfArchive;
  }

  lemma EndReads()
    ensures R.ReadArchive(Nuls(1024)) == Some([])
  {
    hide R.ReadMember;
    assert R.EndOfArchive(Nuls(1024));
  }

  lemma BlocksAdd(a: nat, b: nat)
    requires a % 512 == 0 && b % 512 == 0
    ensures (a + b) % 512 == 0
  {
  }

  /** A member whose headers were read, its content, and the end of the archive. */
  lemma ArchiveOfOne(headers: Bytes, payload: Bytes, m: R.Member)
    requires |headers| > 257 && headers[257] != 0
    requires m.headers == |headers| && m.size == |payload|
    requires R.ReadMember(headers + (payload + Padding(|payload|) + Nuls(1024))) == Some(m)
    ensures R.ReadArchive(headers + (payload + Padding(|payload|) + Nuls(1024))) == Some([R.File(m.path, payload, m.status)])
  {
    hide R.ReadMember, R.ReadArchive, R.RoundUp;
    var bs := headers + (payload + Padding(|payload|) + Nuls(1024));
    PaddingRoundsUp(|payload|);
    assert !R.EndOfArchive(bs) by { assert bs[257] == headers[257]; }
    assert bs[|headers| + R.RoundUp(|payload|)..] == Nuls(1024);
    assert bs[|headers|..|headers| + |payload|] == payload;
    EndReads();
    ArchiveStep(bs, m, []);
    assert [R.File(m.path, payload, m.status)] + [] == [R.File(m.path, payload, m.status)];
  }

  /** The whole archive reads back as one file with its path and every payload byte, and is made of blocks. */
  lemma ArchiveRoundTrip(path: Bytes, payload: Bytes, digest: Bytes -> Bytes)
    requires |digest(path)| == 16 && CanonicalTar(path, payload, digest).Ok?
    ensures R.ReadArchive(CanonicalTar(path, payload, digest).value) == Some([R.File(path, payload, STATUS)])
       <==> Representable(path, |payload|)
    ensures |CanonicalTar(path, payload, digest).value| % 512 == 0
  {
    hide R.ReadArchive, R.ReadMember, CanonicalHeaders, SplitUstarPath, Padding, R.RoundUp;
    var headers := CanonicalHeaders(path, |payload|, digest).value;
    var rest := payload + Padding(|payload|) + Nuls(1024);
    assert CanonicalTar(path, payload, digest).value == headers + rest;
    StartsWithHeader(path, |payload|, digest);
    PaddingRoundsUp(|payload|);
    BlocksAdd(|headers|, R.RoundUp(|payload|));
    BlocksAdd(|headers| + R.RoundUp(|payload|), 1024);
    if NeedsPax(path, |payload|) {
      PaxMemberReads(path, |payload|, digest, rest);
      ArchiveOfOne(headers, payload, R.Member(path, |payload|, STATUS, |headers|));
    } else {
      var s := SplitUstarPath(path).value;
      PlainMemberReads(path, |payload|, digest, rest);
      SeenExactly(path);
      ArchiveOfOne(headers, payload, R.Member(Seen(s.name, s.prefix), |payload|, STATUS, |headers|));
    }
  }
}
