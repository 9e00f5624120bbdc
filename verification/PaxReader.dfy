/**
 * A reader for the formats "ustar Interchange Format" and "pax Header Block" of the pax utility
 * in IEEE Std 1003.1-2017, written without reference to the writer.
 */
module PaxReader {
  import opened Results
  import opened Bytes

  const BLOCK: nat := 512
  const REGULAR: Byte := '0' as int
  const EXTENDED: Byte := 'x' as int

  const SPACE: Byte := ' ' as int
  const SLASH: Byte := '/' as int
  const NEWLINE: Byte := '\n' as int
  const EQUALS: Byte := '=' as int

  const MAGIC: Bytes := Ascii("ustar") + [0]
  const VERSION: Bytes := Ascii("00")
  const PATH: Bytes := Ascii("path")
  const SIZE: Bytes := Ascii("size")

  /** Who may do what with the file, whose it is, when it was changed, and the names that go with that. */
  datatype Status = Status(mode: nat, uid: nat, gid: nat, mtime: nat, linkname: Bytes, uname: Bytes, gname: Bytes)

  datatype Header = Header(path: Bytes, size: nat, typeflag: Byte, status: Status)

  /** A numeric field: digits up to the first NUL or space. */
  function ReadOctalField(field: Bytes): (r: Option<nat>) {
    ReadNumber(Until(Until(field, 0), SPACE), 8)
  }

  /** The byte sum of a header with its checksum field taken as eight spaces. */
  function BlankedSum(block: Bytes): (r: nat)
    requires |block| == BLOCK
  {
    Sum(block[..148]) + 8 * 32 + Sum(block[156..])
  }

  function ReadStatus(block: Bytes): (r: Option<Status>)
    requires |block| == BLOCK
  {
    var mode, uid, gid := ReadOctalField(block[100..108]), ReadOctalField(block[108..116]), ReadOctalField(block[116..124]);
    var mtime := ReadOctalField(block[136..148]);
    if mode.None? || uid.None? || gid.None? || mtime.None? then None else
      Some(Status(mode.value, uid.value, gid.value, mtime.value,
                  Until(block[157..257], 0), Until(block[265..297], 0), Until(block[297..329], 0)))
  }

  function ReadHeader(block: Bytes): (r: Option<Header>)
    requires |block| == BLOCK
  {
    var size, status := ReadOctalField(block[124..136]), ReadStatus(block);
    if block[257..263] != MAGIC || block[263..265] != VERSION then None
    else if ReadOctalField(block[148..156]) != Some(BlankedSum(block)) then None
    else if size.None? || status.None? then None
    else
      var name, prefix := Until(block[..100], 0), Until(block[345..500], 0);
      Some(Header(if prefix == [] then name else prefix + [SLASH] + name, size.value, block[156], status.value))
  }

  datatype Record = Record(keyword: Bytes, value: Bytes, length: nat)

  /** The record at the front: a decimal length, a space, `KEYWORD=VALUE` and a newline. */
  function ReadRecord(bs: Bytes): (r: Option<Record>)
    ensures r.Some? ==> 0 < r.value.length <= |bs|
  {
    var prefix := Until(bs, SPACE);
    var length := ReadNumber(prefix, 10);
    if length.None? then None else ReadBody(bs, |prefix| + 1, length.value)
  }

  /** The body of a record of `length` bytes, which starts at `start`. */
  function ReadBody(bs: Bytes, start: nat, length: nat): (r: Option<Record>)
    ensures r.Some? ==> r.value.length == length && 0 < length <= |bs|
  {
    if !(start < length <= |bs|) || bs[length - 1] != NEWLINE then None else
      var body := bs[start..length - 1];
      var keyword := Until(body, EQUALS);
      if |keyword| == |body| then None else Some(Record(keyword, body[|keyword| + 1..], length))
  }

  /** The keyword/value pairs of an extended header; a later record replaces an earlier one. */
  function ReadRecords(bs: Bytes): (r: Option<map<Bytes, Bytes>>)
    decreases |bs|
  {
    if bs == [] then Some(map[]) else
      match ReadRecord(bs)
      case None => None
      case Some(first) =>
        match ReadRecords(bs[first.length..])
        case None => None
        case Some(rest) => Some(map[first.keyword := first.value] + rest)
  }

  function RoundUp(size: nat): (r: nat)
    ensures r >= size && r % 512 == 0
  {
    (size + 511) / 512 * 512
  }

  /** A file's name, size and status, and how many bytes its headers took. */
  datatype Member = Member(path: Bytes, size: nat, status: Status, headers: nat)

  function Override(header: Header, records: map<Bytes, Bytes>, headers: nat): (r: Option<Member>) {
    var path := if PATH in records then records[PATH] else header.path;
    var size := if SIZE in records then ReadNumber(records[SIZE], 10) else Some(header.size);
    if size.None? then None else Some(Member(path, size.value, header.status, headers))
  }

  /** A regular file, plain or behind an extended header; other types are refused. */
  function ReadMember(bs: Bytes): (r: Option<Member>) {
    if |bs| < BLOCK then None else
      match ReadHeader(bs[..BLOCK])
      case None => None
      case Some(first) =>
        if first.typeflag == REGULAR then Some(Member(first.path, first.size, first.status, BLOCK))
        else if first.typeflag != EXTENDED then None else
          var next := BLOCK + RoundUp(first.size);
          if |bs| < next + BLOCK then None else
            match ReadRecords(bs[BLOCK..BLOCK + first.size])
            case None => None
            case Some(records) =>
              match ReadHeader(bs[next..next + BLOCK])
              case None => None
              case Some(second) =>
                if second.typeflag != REGULAR then None else Override(second, records, next + BLOCK)
  }

  datatype File = File(path: Bytes, content: Bytes, status: Status)

  predicate EndOfArchive(bs: Bytes) {
    |bs| >= 2 * BLOCK && forall i :: 0 <= i < 2 * BLOCK ==> bs[i] == 0
  }

  /** Every file of an archive, up to the two zero blocks that end it. */
  function ReadArchive(bs: Bytes): (r: Option<seq<File>>)
    decreases |bs|
  {
    if EndOfArchive(bs) then Some([]) else
      match ReadMember(bs)
      case None => None
      case Some(m) =>
        var end := m.headers + m.size;
        if m.headers == 0 || |bs| < m.headers + RoundUp(m.size) then None else
          match ReadArchive(bs[m.headers + RoundUp(m.size)..])
          case None => None
          case Some(files) => Some([File(m.path, bs[m.headers..end], m.status)] + files)
  }
}
