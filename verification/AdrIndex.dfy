/** Generating the indexes of architecture decisions and checking them (scripts/ci/adr-index.py). */
module AdrIndex {
  import opened Results
  import opened PyText
  import opened AdrRows
  import opened AdrCompare

  datatype Record = Record(number: string, filename: string, title: string, status: string,
                           superseded: bool, supersededBy: string, revisitWhen: string)
  {
    function Path(): (r: string) {
      if superseded then "superseded/" + filename else filename
    }

    /** The path from the engineering log. */
    function LogPath(): (r: string) {
      "../../adr/" + Path()
    }
  }

  /** The kinds of index table: current and superseded decisions, and the engineering log. */
  datatype Kind = Live | Dead | Log

  function Columns(kind: Kind): (r: seq<string>)
    ensures r != []
  {
    match kind
    case Live => ["ADR", "Title", "File"]
    case Dead => ["ADR", "Title", "Superseded by", "File"]
    case Log => ["ADR", "Title", "Status", "Revisit when", "Path"]
  }

  function Header(kind: Kind): (r: string) {
    PrintRow(Columns(kind))
  }

  function Cells(kind: Kind, r: Record): (cells: seq<string>)
    ensures |cells| == |Columns(kind)|
  {
    match kind
    case Live => [r.number, Link(r.title, r.Path()), Code(r.Path())]
    case Dead => [r.number, Link(r.title, r.Path()), "ADR " + r.supersededBy, Code(r.Path())]
    case Log => [r.number, r.title, r.status, r.revisitWhen, Link(Code(r.LogPath()), r.LogPath())]
  }

  function Expected(kind: Kind, r: Record): (e: Entry) {
    match kind
    case Live => Entry(r.number, [r.title, r.Path(), r.Path()])
    case Dead => Entry(r.number, [r.title, r.Path(), "ADR " + r.supersededBy, r.Path()])
    case Log => Entry(r.number, [r.title, r.status, r.revisitWhen, r.LogPath(), r.LogPath()])
  }

  /** What a reader makes of a row's cells. */
  function Decode(kind: Kind, cells: seq<string>): (e: Entry)
    requires |cells| == |Columns(kind)|
  {
    match kind
    case Live =>
      var (text, target) := Unlink(cells[1]);
      Entry(cells[0], [text, if target.Some? then target.value else "", Uncode(cells[2])])
    case Dead =>
      var (text, target) := Unlink(cells[1]);
      Entry(cells[0], [text, if target.Some? then target.value else "", cells[2], Uncode(cells[3])])
    case Log =>
      var (text, target) := Unlink(cells[4]);
      Entry(cells[0], [cells[1], cells[2], cells[3], Uncode(text), Uncode(if target.Some? then target.value else cells[4])])
  }

  // ----- records that can be listed

  /** A lower-case letter, a digit, a dash or a dot. */
  predicate IsNameChar(c: char) {
    'a' <= c <= 'z' || IsDigit(c) || c == '-' || c == '.'
  }

  /** What reading the record's file guarantees. */
  ghost predicate Loaded(r: Record) {
    && |r.number| == 4 && (forall i :: 0 <= i < 4 ==> IsDigit(r.number[i]))
    && |r.filename| > 3 && r.filename[|r.filename| - 3..] == ".md" && IsDigit(r.filename[0])
    && (forall i :: 0 <= i < |r.filename| ==> IsNameChar(r.filename[i]))
    && (r.superseded ==> |r.supersededBy| == 4 && forall i :: 0 <= i < |r.supersededBy| ==> IsDigit(r.supersededBy[i]))
    && r.title != [] && !IsSpace(r.title[|r.title| - 1]) && OneLine(r.title)
    && '|' !in r.status && Trimmed(r.status) && OneLine(r.status) && !IsFileName(r.status)
    && Trimmed(r.revisitWhen) && OneLine(r.revisitWhen)
  }

  /** The title and, in the log, the trigger each keep to one cell. */
  predicate OneCell(kind: Kind, r: Record) {
    '|' !in r.title && (kind == Log ==> '|' !in r.revisitWhen)
  }

  /** The title does not begin with a blank. */
  predicate Flush(r: Record) {
    r.title != [] ==> !IsSpace(r.title[0])
  }

  /** Characters that paths are made of. */
  predicate IsPathChar(c: char) {
    IsNameChar(c) || c == '/'
  }

  lemma PathsArePlain(r: Record)
    requires Loaded(r)
    ensures r.Path() != [] && forall i :: 0 <= i < |r.Path()| ==> IsPathChar(r.Path()[i])
    ensures r.LogPath() != [] && forall i :: 0 <= i < |r.LogPath()| ==> IsPathChar(r.LogPath()[i])
    ensures r.Path()[0] != '.' && r.LogPath()[0] == '.'
  {
    hide OneLine, Trimmed, IsFileName;
    var prefix := "superseded/";
    assert forall i :: 0 <= i < |prefix| ==> IsPathChar(prefix[i]);
    var up := "../../adr/";
    assert forall i :: 0 <= i < |up| ==> IsPathChar(up[i]);
  }

  lemma PlainFits(path: string)
    requires path != [] && forall i :: 0 <= i < |path| ==> IsPathChar(path[i])
    ensures ')' !in path && '(' !in path && '|' !in path && OneLine(path) && path[0] != '`'
  {
  }

  // ----- one record, one row

  lemma {:induction false} UnspacedIsTrimmed(t: string)
    requires t != [] ==> !IsSpace(t[0]) && !IsSpace(t[|t| - 1])
    ensures Trimmed(t)
  {
    StripNothing(t);
  }

  /** A link or code cell fits in a row. */
  lemma LinkFits(text: string, target: string)
    requires '|' !in target && OneLine(text) && OneLine(target)
    ensures '|' in Link(text, target) <==> '|' in text
    ensures Trimmed(Link(text, target)) && OneLine(Link(text, target))
  {
    UnspacedIsTrimmed(Link(text, target));
    var link := Link(text, target);
    assert forall i :: 0 <= i < |text| ==> link[i + 1] == text[i];
  }

  lemma CodeFits(text: string)
    requires '|' !in text && OneLine(text)
    ensures '|' !in Code(text) && Trimmed(Code(text)) && OneLine(Code(text))
  {
    UnspacedIsTrimmed(Code(text));
  }

  lemma DigitsFit(t: string)
    requires forall i :: 0 <= i < |t| ==> IsDigit(t[i])
    ensures '|' !in t && Trimmed(t) && OneLine(t)
  {
    UnspacedIsTrimmed(t);
  }

  lemma SuccessorFits(number: string)
    requires |number| == 4 && forall i :: 0 <= i < |number| ==> IsDigit(number[i])
    ensures '|' !in "ADR " + number && Trimmed("ADR " + number) && OneLine("ADR " + number) && !IsFileName("ADR " + number)
  {
    UnspacedIsTrimmed("ADR " + number);
    assert ("ADR " + number)[5..] == number[1..];
  }

  /** The record belongs in tables of this kind. */
  predicate Belongs(kind: Kind, r: Record) {
    kind == Dead ==> r.superseded
  }

  /** Every cell is one line, and only a title that begins with a blank is not trimmed. */
  lemma CellsAreLines(kind: Kind, r: Record)
    requires Loaded(r) && Belongs(kind, r)
    ensures forall i :: 0 <= i < |Cells(kind, r)| ==> OneLine(Cells(kind, r)[i])
    ensures NoPipes(Cells(kind, r)) <==> OneCell(kind, r)
    ensures Flush(r) ==> forall i :: 0 <= i < |Cells(kind, r)| ==> Trimmed(Cells(kind, r)[i])
  {
    hide Link, Code, Trimmed, OneLine, IsPathChar, IsDigit, IsNameChar, IsFileName, IsSpace;
    PathsArePlain(r);
    PlainFits(r.Path());
    PlainFits(r.LogPath());
    DigitsFit(r.number);
    LinkFits(r.title, r.Path());
    CodeFits(r.Path());
    CodeFits(r.LogPath());
    LinkFits(Code(r.LogPath()), r.LogPath());
    if Flush(r) {
      UnspacedIsTrimmed(r.title);
    }
    if kind == Dead {
      SuccessorFits(r.supersededBy);
    }
    CellsHoldPipes(kind, r);
  }

  /** Given that paths, numbers and status hold no pipe. */
  lemma CellsHoldPipes(kind: Kind, r: Record)
    requires '|' !in r.number && '|' !in r.status && '|' !in Code(r.Path())
    requires '|' !in Link(Code(r.LogPath()), r.LogPath()) && (kind == Dead ==> '|' !in "ADR " + r.supersededBy)
    requires '|' in Link(r.title, r.Path()) <==> '|' in r.title
    ensures NoPipes(Cells(kind, r)) <==> OneCell(kind, r)
  {
    hide Link, Code;
    var cells := Cells(kind, r);
    if NoPipes(cells) {
      assert '|' !in cells[1];
      if kind == Log {
        assert '|' !in cells[3];
      }
    }
  }

  lemma CellsFit(kind: Kind, r: Record)
    requires Loaded(r) && Belongs(kind, r) && OneCell(kind, r) && Flush(r)
    ensures Clean(Cells(kind, r))
  {
    hide Cells, Trimmed, Loaded;
    CellsAreLines(kind, r);
  }

  /** A record's own row reads back as the record. */
  lemma RowReadsBack(kind: Kind, r: Record)
    requires Loaded(r) && Belongs(kind, r) && OneCell(kind, r) && Flush(r)
    ensures var cells := ParseRow(PrintRow(Cells(kind, r)));
            |cells| == |Columns(kind)| && Decode(kind, cells) == Expected(kind, r)
  {
    hide Link, Code, Unlink, Uncode, ParseRow, PrintRow, Clean, IsPathChar, IsFileName, IsDigit, IsNameChar, OneLine;
    CellsFit(kind, r);
    RowReadsExactly(Cells(kind, r));
    PathsArePlain(r);
    PlainFits(r.Path());
    PlainFits(r.LogPath());
    LinkReads(r.title, r.Path());
    CodeReads(r.Path());
    CodeReads(r.LogPath());
    CodeIsText(r.LogPath());
    LinkReads(Code(r.LogPath()), r.LogPath());
    PlainReads(r.LogPath());
  }

  lemma CodeIsText(t: string)
    ensures Code(t) != []
  {
  }
}
