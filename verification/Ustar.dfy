/**
 * The canonical single-entry ustar/pax writer (scripts/ci/portable-contract.py). Paths are the
 * UTF-8 bytes of the source's strings; the 16 hexadecimal SHA-256 characters that name the
 * placeholder entries are an arbitrary function of the path.
 */
module Ustar {
  import opened Results
  import opened Numerals
  import opened Bytes
  import PaxRecord

  datatype TarError = OctalOverflow(value: nat, width: nat) | NameOverflow

  const BLOCK: nat := 512
  /** The largest size an 11-digit octal field holds. */
  const MAX_ENTRY: nat := 8589934591

  const REGULAR: Byte := 48
  const EXTENDED: Byte := 120

  lemma MaxEntryIsElevenOctalDigits()
    ensures Pow(8, 6) == 262144
    ensures Pow(8, 11) == MAX_ENTRY + 1
  {
    assert Pow(8, 3) == 512;
    assert Pow(8, 6) == 8 * (8 * (8 * Pow(8, 3)));
    assert Pow(8, 9) == 8 * (8 * (8 * Pow(8, 6)));
    assert Pow(8, 11) == 8 * (8 * Pow(8, 9));
  }

  /** Zero-padded octal text followed by a NUL; an error when the value is too wide. */
  function Octal(value: nat, width: nat): (r: Result<Bytes, TarError>)
    requires width >= 2
    ensures r.Ok? <==> value < Pow(8, width - 1)
    ensures r.Ok? ==> |r.value| == width && r.value[width - 1] == 0
                      && ReadNumber(r.value[..width - 1], 8) == Some(value)
    ensures r.Err? ==> r.error == OctalOverflow(value, width)
  {
    OctalText(value, width - 1);
    var digits := DigitBytes(Pad(Digits(value, 8), width - 1));
    var encoded := digits + [0];
    if |encoded| != width then Err(OctalOverflow(value, width)) else
      assert encoded[..width - 1] == digits;
      Ok(encoded)
  }

  lemma OctalText(value: nat, width: nat)
    requires width >= 1
    ensures var text := DigitBytes(Pad(Digits(value, 8), width));
            (|text| == width <==> value < Pow(8, width)) && ReadNumber(text, 8) == Some(value)
  {
    var digits := Pad(Digits(value, 8), width);
    DigitCount(value, 8, width);
    PadDenotes(value, width, 8);
    ReadDigitBytes(digits, 8);
  }

  function Padding(length: nat): (r: Bytes)
    ensures (length + |r|) % 512 == 0 && |r| < 512 && forall i :: 0 <= i < |r| ==> r[i] == 0
  {
    Nuls((512 - length % 512) % 512)
  }

  // ----- one 512-byte header block

  /** The fields of a header that vary between entries. */
  datatype Fields = Fields(name: Bytes, prefix: Bytes, size: Bytes, typeflag: Byte)

  ghost predicate FieldsFit(f: Fields) {
    |f.name| <= 100 && |f.prefix| <= 155 && |f.size| == 12
  }

  const MODE: Bytes := Ascii("0000644") + [0]
  const OWNER: Bytes := Ascii("0000000") + [0]
  const MTIME: Bytes := Ascii("00000000000") + [0]
  const MAGIC: Bytes := Ascii("ustar") + [0]
  const VERSION: Bytes := Ascii("00")
  const BLANK: Bytes := Ascii("        ")

  /** Byte `i` of the ustar layout, with `sum` as the eight checksum bytes. */
  ghost function LayoutByte(f: Fields, sum: Bytes, i: nat): (r: Byte)
    requires FieldsFit(f) && |sum| == 8 && i < BLOCK
  {
    if i < |f.name| then f.name[i] else if i < 100 then 0
    else if i < 108 then MODE[i - 100]
    else if i < 116 then OWNER[i - 108]
    else if i < 124 then OWNER[i - 116]
    else if i < 136 then f.size[i - 124]
    else if i < 148 then MTIME[i - 136]
    else if i < 156 then sum[i - 148]
    else if i < 157 then f.typeflag
    else if i < 257 then 0
    else if i < 263 then MAGIC[i - 257]
    else if i < 265 then VERSION[i - 263]
    else if i < 345 then 0
    else if i < 345 + |f.prefix| then f.prefix[i - 345]
    else 0
  }

  ghost function Layout(f: Fields, sum: Bytes): (r: Bytes)
    requires FieldsFit(f) && |sum| == 8
    ensures |r| == BLOCK
    ensures forall i :: 0 <= i < BLOCK ==> r[i] == LayoutByte(f, sum, i)
  {
    seq(BLOCK, i requires 0 <= i < BLOCK => LayoutByte(f, sum, i))
  }

  /** The checksum field: six octal digits, a NUL and a space. */
  function ChecksumField(sum: nat): (r: Bytes) {
    DigitBytes(Pad(Digits(sum, 8), 6)) + [0, SPACE]
  }

  /** No header's byte sum needs a seventh octal digit, so the field never outgrows its slot. */
  lemma ChecksumFits(block: Bytes)
    requires |block| == BLOCK
    ensures |ChecksumField(Sum(block))| == 8
    ensures ReadNumber(ChecksumField(Sum(block))[..6], 8) == Some(Sum(block))
  {
    var sum := Sum(block);
    MaxEntryIsElevenOctalDigits();
    OctalText(sum, 6);
    assert ChecksumField(sum)[..6] == DigitBytes(Pad(Digits(sum, 8), 6));
  }

  ghost function Header(f: Fields): (r: Bytes)
    requires FieldsFit(f)
    ensures |r| == BLOCK
  {
    var blank := Layout(f, BLANK);
    ChecksumFits(blank);
    Layout(f, ChecksumField(Sum(blank)))
  }

  method Write(header: array<Byte>, at: nat, bytes: Bytes)
    requires at + |bytes| <= header.Length
    modifies header
    ensures forall i :: at <= i < at + |bytes| ==> header[i] == bytes[i - at]
    ensures forall i :: 0 <= i < header.Length && !(at <= i < at + |bytes|) ==> header[i] == old(header[i])
  {
    for k := 0 to |bytes|
      invariant forall i :: at <= i < at + k ==> header[i] == bytes[i - at]
      invariant forall i :: 0 <= i < header.Length && !(at <= i < at + k) ==> header[i] == old(header[i])
    {
      header[at + k] := bytes[k];
    }
  }

  /** Writes the fields up to the checksum into a zeroed header block. */
  method FillFront(header: array<Byte>, f: Fields)
    requires header.Length == BLOCK && FieldsFit(f)
    requires forall i :: 0 <= i < BLOCK ==> header[i] == 0
    modifies header
    ensures forall i :: 0 <= i < 148 ==> header[i] == LayoutByte(f, BLANK, i)
    ensures forall i :: 148 <= i < BLOCK ==> header[i] == 0
  {
    Write(header, 0, f.name);
    Write(header, 100, MODE);
    Write(header, 108, OWNER);
    Write(header, 116, OWNER);
    Write(header, 124, f.size);
    Write(header, 136, MTIME);
  }

  /** Writes every field of a zeroed header block, with blanks for the checksum. */
  method FillFields(header: array<Byte>, f: Fields)
    requires header.Length == BLOCK && FieldsFit(f)
    requires forall i :: 0 <= i < BLOCK ==> header[i] == 0
    modifies header
    ensures header[..] == Layout(f, BLANK)
  {
    FillFront(header, f);
    Write(header, 148, BLANK);
    Write(header, 156, [f.typeflag]);
    Write(header, 257, MAGIC);
    Write(header, 263, VERSION);
    Write(header, 345, f.prefix);
    assert header[..] == Layout(f, BLANK);
  }

  lemma LayoutWithSum(f: Fields, sum: Bytes, other: Bytes, block: Bytes)
    requires FieldsFit(f) && |sum| == 8 && |other| == 8 && |block| == BLOCK
    requires forall i :: 148 <= i < 156 ==> block[i] == sum[i - 148]
    requires forall i :: 0 <= i < BLOCK && !(148 <= i < 156) ==> block[i] == Layout(f, other)[i]
    ensures block == Layout(f, sum)
  {
  }

  /** Fills one header block in place, field by field, and then its checksum. */
  method FillHeader(header: array<Byte>, f: Fields)
    requires header.Length == BLOCK && FieldsFit(f)
    requires forall i :: 0 <= i < BLOCK ==> header[i] == 0
    modifies header
    ensures header[..] == Header(f)
  {
    hide Sum, Digits, Pad, DigitBytes, ChecksumField, ReadNumber, Layout, LayoutByte;
    FillFields(header, f);
    ghost var blank := header[..];
    var sum := ChecksumField(Sum(header[..]));
    ChecksumFits(blank);
    Write(header, 148, sum);
    assert forall i :: 0 <= i < BLOCK && !(148 <= i < 156) ==> header[..][i] == blank[i];
    LayoutWithSum(f, sum, BLANK, header[..]);
  }

  /** One archive member: header, payload, zero padding to a block. */
  ghost function Entry(name: Bytes, payload: Bytes, typeflag: Byte, prefix: Bytes, size: nat): (r: Result<Bytes, TarError>)
    ensures r.Ok? <==> |name| <= 100 && |prefix| <= 155 && size <= MAX_ENTRY
  {
    MaxEntryIsElevenOctalDigits();
    if |name| > 100 || |prefix| > 155 then Err(NameOverflow) else
      match Octal(size, 12)
      case Err(e) => Err(e)
      case Ok(field) => Ok(Header(Fields(name, prefix, field, typeflag)) + payload + Padding(|payload|))
  }

  method UstarEntry(name: Bytes, payload: Bytes, typeflag: Byte, prefix: Bytes, size: Option<nat>)
    returns (r: Result<Bytes, TarError>)
    ensures r == Entry(name, payload, typeflag, prefix, if size.Some? then size.value else |payload|)
  {
    if |name| > 100 || |prefix| > 155 {
      return Err(NameOverflow);
    }
    var header := new Byte[BLOCK](_ => 0);
    var field := Octal(if size.Some? then size.value else |payload|, 12);
    if field.Err? {
      return Err(field.error);
    }
    MaxEntryIsElevenOctalDigits();
    FillHeader(header, Fields(name, prefix, field.value, typeflag));
    r := Ok(header[..] + payload + Padding(|payload|));
  }

  // ----- choosing how a path is stored

  /** A slash at `i` splits the path into a prefix and a name that both fit their fields. */
  predicate Splits(path: Bytes, i: nat) {
    i < |path| && path[i] == SLASH && i <= 155 && 0 < |path| - i - 1 <= 100
  }

  /** The last splitting slash before position `i`. */
  function LastSplit(path: Bytes, i: nat): (r: Option<nat>)
    requires i <= |path|
    ensures r.Some? ==> r.value < i && Splits(path, r.value)
                        && forall j :: r.value < j < i ==> !Splits(path, j)
    ensures r.None? ==> forall j :: 0 <= j < i ==> !Splits(path, j)
  {
    if i == 0 then None
    else if Splits(path, i - 1) then Some(i - 1)
    else LastSplit(path, i - 1)
  }

  datatype Split = Split(name: Bytes, prefix: Bytes)

  function SplitUstarPath(path: Bytes): (r: Option<Split>)
    ensures r.Some? ==> |r.value.name| <= 100 && |r.value.prefix| <= 155
    ensures |path| <= 100 ==> r == Some(Split(path, []))
    ensures |path| > 100 && r.Some? ==> path == r.value.prefix + [SLASH] + r.value.name && r.value.name != []
                                        && forall j :: |r.value.prefix| < j < |path| ==> !Splits(path, j)
    ensures r.None? <==> |path| > 100 && forall i :: 0 <= i < |path| ==> !Splits(path, i)
  {
    if |path| <= 100 then Some(Split(path, [])) else
      match LastSplit(path, |path|)
      case None => None
      case Some(i) => Some(Split(path[i + 1..], path[..i]))
  }

  /** A long path is split exactly when some slash leaves at most 155 bytes before it and 1 to 100 behind it. */
  lemma SplitsExactly(path: Bytes)
    requires |path| > 100
    ensures SplitUstarPath(path).Some? <==>
            exists i :: 0 <= i < |path| && path[i] == '/' as int && i <= 155 && 1 <= |path| - (i + 1) <= 100
  {
    forall i | 0 <= i < |path|
      ensures Splits(path, i) <==> path[i] == '/' as int && i <= 155 && 1 <= |path| - (i + 1) <= 100
    {
    }
  }

  /** A path or a size that the plain header cannot hold. */
  predicate NeedsPax(path: Bytes, size: nat) {
    SplitUstarPath(path).None? || size > MAX_ENTRY
  }

  const PATH: Bytes := Ascii("path")
  const SIZE: Bytes := Ascii("size")
  const PAX_HEADERS: Bytes := Ascii("PaxHeaders/")
  const PAX_FILES: Bytes := Ascii("PaxFiles/")

  ghost function Records(path: Bytes, size: nat): (r: Bytes) {
    PaxRecord.Record(PATH, path)
    + if size > MAX_ENTRY then PaxRecord.Record(SIZE, Decimal(size)) else []
  }

  /** The header bytes that precede one entry's payload. */
  ghost function CanonicalHeaders(path: Bytes, size: nat, digest: Bytes -> Bytes): (r: Result<Bytes, TarError>)
    requires |digest(path)| == 16
    ensures r.Ok? <==> (NeedsPax(path, size) ==> |Records(path, size)| <= MAX_ENTRY)
  {
    var split := SplitUstarPath(path);
    if !NeedsPax(path, size) then
      Entry(split.value.name, [], REGULAR, split.value.prefix, size)
    else
      var suffix := digest(path);
      var records := Records(path, size);
      match Entry(PAX_HEADERS + suffix, records, EXTENDED, [], |records|)
      case Err(e) => Err(e)
      case Ok(extended) =>
        match Entry(PAX_FILES + suffix, [], REGULAR, [], if size > MAX_ENTRY then 0 else size)
        case Err(e) => Err(e)
        case Ok(plain) => Ok(extended + plain)
  }

  ghost function CanonicalTar(path: Bytes, payload: Bytes, digest: Bytes -> Bytes): (r: Result<Bytes, TarError>)
    requires |digest(path)| == 16
  {
    match CanonicalHeaders(path, |payload|, digest)
    case Err(e) => Err(e)
    case Ok(headers) => Ok(headers + payload + Padding(|payload|) + Nuls(1024))
  }

  /** The writer as a program: the in-place header and the record search meet the definitions above. */
  method WriteTar(path: Bytes, payload: Bytes, digest: Bytes -> Bytes) returns (r: Result<Bytes, TarError>)
    requires |digest(path)| == 16
    ensures r == CanonicalTar(path, payload, digest)
  {
    var headers := WriteHeaders(path, |payload|, digest);
    match headers
    case Err(e) => r := Err(e);
    case Ok(bytes) => r := Ok(bytes + payload + Padding(|payload|) + Nuls(1024));
  }

  method WriteHeaders(path: Bytes, size: nat, digest: Bytes -> Bytes) returns (r: Result<Bytes, TarError>)
    requires |digest(path)| == 16
    ensures r == CanonicalHeaders(path, size, digest)
  {
    var split := SplitUstarPath(path);
    var oversized := size > MAX_ENTRY;
    if split.Some? && !oversized {
      r := UstarEntry(split.value.name, [], REGULAR, split.value.prefix, Some(size));
      return;
    }
    var suffix := digest(path);
    var records := PaxRecord.PaxRecord(PATH, path);
    if oversized {
      var sizes := PaxRecord.PaxRecord(SIZE, Decimal(size));
      records := records + sizes;
    } else {
      assert records == records + [];
    }
    var extended := UstarEntry(PAX_HEADERS + suffix, records, EXTENDED, [], None);
    if extended.Err? {
      return extended;
    }
    var plain := UstarEntry(PAX_FILES + suffix, [], REGULAR, [], Some(if oversized then 0 else size));
    r := if plain.Err? then plain else Ok(extended.value + plain.value);
  }
}
