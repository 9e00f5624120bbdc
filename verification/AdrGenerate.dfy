/** Rewriting and reading whole index files (scripts/ci/adr-index.py). */
module AdrGenerate {
  import opened Results
  import opened PyText
  import opened AdrRows
  import opened AdrTables
  import opened AdrCompare
  import opened AdrIndex

  datatype AdrError = NoTable | WrongTables | BadRow | NoRegion

  // ----- rows

  function RowLines(kind: Kind, records: seq<Record>): (r: seq<string>)
    ensures |r| == |records| && forall i :: 0 <= i < |r| ==> r[i] == PrintRow(Cells(kind, records[i]))
  {
    seq(|records|, i requires 0 <= i < |records| => PrintRow(Cells(kind, records[i])))
  }

  ghost predicate Fits(kind: Kind, records: seq<Record>) {
    forall i :: 0 <= i < |records| ==> Loaded(records[i]) && Belongs(kind, records[i])
  }

  ghost function Headers(kinds: set<Kind>): (r: set<string>) {
    set k | k in kinds :: Header(k)
  }

  lemma ColumnsAreClean(kind: Kind)
    ensures Clean(Columns(kind)) && Columns(kind)[0] == "ADR"
  {
    forall i | 0 <= i < |Columns(kind)|
      ensures '|' !in Columns(kind)[i] && Trimmed(Columns(kind)[i])
    {
      UnspacedIsTrimmed(Columns(kind)[i]);
    }
  }

  lemma PrintedRow(cells: seq<string>)
    requires cells != []
    ensures StartsWithPipe(PrintRow(cells)) && IsRow(PrintRow(cells)) && Strip(PrintRow(cells)) == PrintRow(cells)
  {
    hide Strip, StripPipes;
    InsideEnds(cells);
    RowIsStripped(Inside(cells));
  }

  lemma RecordRowIsNoHeader(kind: Kind, r: Record, k: Kind)
    requires Loaded(r) && Belongs(kind, r)
    ensures PrintRow(Cells(kind, r)) != Header(k)
  {
    hide PrintRow, Columns, Cells;
    CellsBegin(kind, r, k);
    RowBegins(Cells(kind, r));
    RowBegins(Columns(k));
    assert IsDigit(r.number[0]) && !IsDigit('A');
  }

  lemma CellsBegin(kind: Kind, r: Record, k: Kind)
    ensures Cells(kind, r)[0] == r.number && Columns(k)[0] == "ADR"
  {
  }

  lemma RowBegins(cells: seq<string>)
    requires cells != [] && cells[0] != []
    ensures |PrintRow(cells)| > 2 && PrintRow(cells)[2] == cells[0][0]
  {
    assert Inside(cells)[1] == cells[0][0];
  }

  lemma RowsAreFresh(kind: Kind, records: seq<Record>, kinds: set<Kind>)
    requires Fits(kind, records)
    ensures Fresh(RowLines(kind, records), Headers(kinds))
  {
    hide PrintRow, Strip, IsRow, Cells, Loaded, StartsWithPipe, Header;
    var rows := RowLines(kind, records);
    forall i | 0 <= i < |rows|
      ensures StartsWithPipe(rows[i]) && IsRow(rows[i]) && Strip(rows[i]) !in Headers(kinds)
    {
      PrintedRow(Cells(kind, records[i]));
      forall k | k in kinds
        ensures Strip(rows[i]) != Header(k)
      {
        RecordRowIsNoHeader(kind, records[i], k);
      }
    }
  }

  ghost predicate AllLines(lines: seq<string>) {
    forall i :: 0 <= i < |lines| ==> OneLine(lines[i])
  }

  lemma {:induction false} InsideIsLine(cells: seq<string>)
    requires cells != [] && AllLines(cells)
    ensures OneLine(Inside(cells))
    decreases |cells|
  {
    if |cells| > 1 {
      InsideIsLine(cells[1..]);
    }
  }

  lemma RowsAreLines(kind: Kind, records: seq<Record>)
    requires Fits(kind, records)
    ensures AllLines(RowLines(kind, records))
  {
    hide Inside, Cells, Loaded;
    var rows := RowLines(kind, records);
    forall i | 0 <= i < |rows|
      ensures OneLine(rows[i])
    {
      CellsAreLines(kind, records[i]);
      InsideIsLine(Cells(kind, records[i]));
    }
  }

  // ----- rewriting a file's table

  function Rewritten(text: string, header: string, which: nat, rows: seq<string>): (r: Result<string, AdrError>) {
    var lines := SplitLines(text);
    var next := Replaced(lines, header, which, rows);
    if next.None? then Err(NoTable) else Ok(if next.value == lines then text else JoinLines(next.value + [""]))
  }

  lemma {:induction false} SplitIntoLines(text: string)
    ensures AllLines(SplitLines(text))
    decreases |text|
  {
    hide IsBreak;
    if text != [] && FirstBreak(text) < |text| {
      var e := FirstBreak(text);
      SplitIntoLines(text[e + BreakWidth(text, e)..]);
    }
  }

  lemma {:induction false} RestOfLines(lines: seq<string>)
    requires AllLines(lines)
    ensures AllLines(Rest(lines))
    decreases |lines|
  {
    hide OneLine;
    if lines != [] && StartsWithPipe(lines[0]) {
      RestOfLines(lines[1..]);
    }
  }

  lemma {:induction false} ReplacedIsLines(lines: seq<string>, header: string, which: nat, rows: seq<string>)
    requires AllLines(lines) && AllLines(rows) && Replaced(lines, header, which, rows).Some?
    ensures AllLines(Replaced(lines, header, which, rows).value)
    decreases |lines|
  {
    hide OneLine, Strip, Rest;
    if Strip(lines[0]) == header && which == 0 {
      RestOfLines(Below(lines));
    } else {
      ReplacedIsLines(lines[1..], header, if Strip(lines[0]) == header then which - 1 else which, rows);
    }
  }

  /** The rewritten file's lines are the replaced lines. */
  lemma RewrittenLines(text: string, header: string, which: nat, rows: seq<string>)
    requires AllLines(rows) && Rewritten(text, header, which, rows).Ok?
    ensures Some(SplitLines(Rewritten(text, header, which, rows).value)) == Replaced(SplitLines(text), header, which, rows)
  {
    hide SplitLines, Replaced, JoinLines;
    SplitIntoLines(text);
    ReplacedIsLines(SplitLines(text), header, which, rows);
    JoinedLinesSplit(Replaced(SplitLines(text), header, which, rows).value);
  }

  // ----- reading a file's table

  /** Every row has a cell for each column. */
  predicate RowsComplete(kind: Kind, rows: seq<string>) {
    forall i :: 0 <= i < |rows| ==> |ParseRow(rows[i])| == |Columns(kind)|
  }

  function DecodeAll(kind: Kind, rows: seq<string>): (r: seq<Entry>)
    requires RowsComplete(kind, rows)
    ensures |r| == |rows| && forall i :: 0 <= i < |rows| ==> r[i] == Decode(kind, ParseRow(rows[i]))
  {
    seq(|rows|, i requires 0 <= i < |rows| => Decode(kind, ParseRow(rows[i])))
  }

  function ReadTable(text: string, kind: Kind, which: nat, total: nat): (r: Result<seq<Entry>, AdrError>)
    requires which < total
  {
    var tables := Tables(SplitLines(text), Header(kind));
    if |tables| != total then Err(WrongTables) else
      if RowsComplete(kind, tables[which]) then Ok(DecodeAll(kind, tables[which])) else Err(BadRow)
  }

  function ExpectedAll(kind: Kind, records: seq<Record>): (r: seq<Entry>)
    ensures |r| == |records| && forall i :: 0 <= i < |r| ==> r[i] == Expected(kind, records[i])
  {
    seq(|records|, i requires 0 <= i < |records| => Expected(kind, records[i]))
  }

  /** A table of records reads exactly when every title and trigger in it keeps to one cell. */
  lemma RowsCompleteExactly(kind: Kind, records: seq<Record>)
    requires Fits(kind, records)
    ensures RowsComplete(kind, RowLines(kind, records)) <==> forall i :: 0 <= i < |records| ==> OneCell(kind, records[i])
  {
    hide PrintRow, ParseRow, Cells, OneCell, Loaded, NoPipes;
    var rows := RowLines(kind, records);
    forall i | 0 <= i < |records|
      ensures |ParseRow(rows[i])| == |Columns(kind)| <==> OneCell(kind, records[i])
    {
      CellsAreLines(kind, records[i]);
      RowParsesExactly(Cells(kind, records[i]));
    }
  }

  lemma RowsReadBack(kind: Kind, records: seq<Record>)
    requires Fits(kind, records) && forall i :: 0 <= i < |records| ==> OneCell(kind, records[i]) && Flush(records[i])
    ensures RowsComplete(kind, RowLines(kind, records))
    ensures DecodeAll(kind, RowLines(kind, records)) == ExpectedAll(kind, records)
  {
    hide PrintRow, ParseRow, Decode, Cells, Expected, Loaded, OneCell, Flush;
    var rows := RowLines(kind, records);
    forall i | 0 <= i < |rows|
      ensures |ParseRow(rows[i])| == |Columns(kind)| && Decode(kind, ParseRow(rows[i])) == Expected(kind, records[i])
    {
      RowReadsBack(kind, records[i]);
    }
  }
}
