/** Generated indexes satisfy the check, and exactly when (scripts/ci/adr-index.py). */
module AdrRoundTrip {
  import opened Results
  import opened PyText
  import opened AdrRows
  import opened AdrTables
  import opened AdrCompare
  import opened AdrIndex
  import opened AdrGenerate

  // ----- one table job

  /** A job rewrites its own table, leaves every other one alone and keeps the file well formed. */
  lemma JobDone(text: string, kinds: set<Kind>, kind: Kind, which: nat, records: seq<Record>, g: Kind)
    requires WellFormed(SplitLines(text), Headers(kinds)) && kind in kinds && g in kinds && Fits(kind, records)
    requires which < |Tables(SplitLines(text), Header(kind))|
    ensures Rewritten(text, Header(kind), which, RowLines(kind, records)).Ok?
    ensures var next := SplitLines(Rewritten(text, Header(kind), which, RowLines(kind, records)).value);
            var tables := Tables(SplitLines(text), Header(g));
            && WellFormed(next, Headers(kinds))
            && Tables(next, Header(g)) == if g == kind then tables[which := RowLines(kind, records)] else tables
  {
    hide SplitLines, Tables, Replaced, WellFormed, Header, JoinLines, Fresh, Loaded, PrintRow, Cells;
    var lines, rows := SplitLines(text), RowLines(kind, records);
    RowsAreFresh(kind, records, kinds);
    RowsAreLines(kind, records);
    ReplacingChangesOneTable(lines, Headers(kinds), Header(kind), which, rows, Header(g));
    RewrittenLines(text, Header(kind), which, rows);
    HeadersDiffer(kind, g);
  }

  lemma HeadersDiffer(a: Kind, b: Kind)
    ensures Header(a) == Header(b) <==> a == b
  {
    hide PrintRow, ParseRow, Clean;
    ColumnsAreClean(a);
    ColumnsAreClean(b);
    RowReadsExactly(Columns(a));
    RowReadsExactly(Columns(b));
  }

  /** A job whose rows are already there changes nothing. */
  lemma JobIdle(text: string, kinds: set<Kind>, kind: Kind, which: nat, records: seq<Record>)
    requires WellFormed(SplitLines(text), Headers(kinds)) && kind in kinds && Fits(kind, records)
    requires var tables := Tables(SplitLines(text), Header(kind));
             which < |tables| && tables[which] == RowLines(kind, records)
    ensures Rewritten(text, Header(kind), which, RowLines(kind, records)) == Ok(text)
  {
    hide SplitLines, Tables, Replaced, WellFormed, Header, JoinLines, Fresh, Loaded, PrintRow, Cells;
    RowsAreFresh(kind, records, kinds);
    ReplacingChangesOneTable(SplitLines(text), Headers(kinds), Header(kind), which, RowLines(kind, records), Header(kind));
  }

  // ----- what the check makes of a table

  /** No two records share a number. */
  ghost predicate Distinct(records: seq<Record>) {
    forall i, j :: 0 <= i < j < |records| ==> records[i].number != records[j].number
  }

  ghost predicate DistinctEntries(rows: seq<Entry>) {
    forall i, j :: 0 <= i < j < |rows| ==> rows[i].number != rows[j].number
  }

  lemma {:induction false} DistinctAgree(rows: seq<Entry>)
    requires DistinctEntries(rows)
    ensures FirstEntries(rows) == LastEntries(rows)
    ensures forall k :: 0 <= k < |rows| ==> rows[k].number in FirstEntries(rows) && FirstEntries(rows)[rows[k].number] == rows[k].fields
    decreases |rows|
  {
    if rows != [] {
      var n := |rows| - 1;
      var init := rows[..n];
      DistinctAgree(init);
      FirstListed(init, rows[n].number);
      assert forall k :: 0 <= k < n ==> init[k] == rows[k];
    }
  }

  /** Every file name among the fields of a table's records is on disk. */
  ghost predicate NamesExist(kind: Kind, records: seq<Record>, onDisk: set<string>) {
    forall i, t :: 0 <= i < |records| && t in Expected(kind, records[i]).fields && IsFileName(t) ==> t in onDisk
  }

  /** A table that lists exactly its records passes exactly when every file name in it exists. */
  lemma ListedAgreesExactly(kind: Kind, records: seq<Record>, onDisk: set<string>)
    requires Distinct(records)
    ensures var rows := ExpectedAll(kind, records);
            Agrees(rows, rows, onDisk) <==> NamesExist(kind, records, onDisk)
  {
    hide FirstEntries, LastEntries, IsFileName, Expected;
    var rows := ExpectedAll(kind, records);
    NumbersKept(kind, records);
    DistinctAgree(rows);
    assert forall n :: !Repeats(rows, n);
    var m := FirstEntries(rows);
    if NamesExist(kind, records, onDisk) {
      forall n, t | n in m && t in m[n] && IsFileName(t)
        ensures t in onDisk
      {
        FirstListed(rows, n);
        var k :| 0 <= k < |rows| && rows[k].number == n;
        assert t in Expected(kind, records[k]).fields;
      }
    }
    if Agrees(rows, rows, onDisk) {
      forall i, t | 0 <= i < |records| && t in Expected(kind, records[i]).fields && IsFileName(t)
        ensures t in onDisk
      {
        assert rows[i].number in m && t in m[rows[i].number];
      }
    }
  }

  lemma NumbersKept(kind: Kind, records: seq<Record>)
    requires Distinct(records)
    ensures DistinctEntries(ExpectedAll(kind, records))
  {
  }

  // ----- a title that begins with a blank

  /** What the log's row of a record reads as. */
  lemma LogRowReads(r: Record)
    requires Loaded(r) && OneCell(Log, r)
    ensures var cells := ParseRow(PrintRow(Cells(Log, r)));
            |cells| == |Columns(Log)| && Decode(Log, cells).number == r.number && Decode(Log, cells).fields[0] == Strip(r.title)
  {
    hide PrintRow, ParseRow, Link, Code, Unlink, Uncode, Loaded, NoPipes, Strip, IsDigit;
    CellsAreLines(Log, r);
    RowParsesExactly(Cells(Log, r));
    NumberIsTrimmed(r);
    var cells := Cells(Log, r);
    assert cells[0] == r.number && cells[1] == r.title;
  }

  lemma NumberIsTrimmed(r: Record)
    requires Loaded(r)
    ensures Strip(r.number) == r.number
  {
    hide OneLine, IsFileName, Strip, IsNameChar;
    DigitsFit(r.number);
  }

  lemma BlankIsStripped(r: Record)
    requires Loaded(r) && !Flush(r)
    ensures Strip(r.title) != r.title
  {
    hide OneLine, IsFileName, IsNameChar, IsDigit;
  }

  /** In the log, a title that begins with a blank reads back without it, so its table does not pass. */
  lemma BlankTitleDiffers(records: seq<Record>, k: nat, onDisk: set<string>)
    requires Fits(Log, records) && Distinct(records) && k < |records| && !Flush(records[k])
    requires forall i :: 0 <= i < |records| ==> OneCell(Log, records[i])
    ensures RowsComplete(Log, RowLines(Log, records))
    ensures !Agrees(DecodeAll(Log, RowLines(Log, records)), ExpectedAll(Log, records), onDisk)
  {
    hide PrintRow, ParseRow, Cells, Decode, OneCell, Loaded, Flush, Strip, FirstEntries, LastEntries, RowsComplete, IsFileName;
    RowsCompleteExactly(Log, records);
    var rows, expected := DecodeAll(Log, RowLines(Log, records)), ExpectedAll(Log, records);
    forall i | 0 <= i < |records|
      ensures rows[i].number == records[i].number
    {
      LogRowReads(records[i]);
    }
    DistinctAgree(rows);
    NumbersKept(Log, records);
    DistinctAgree(expected);
    LogRowReads(records[k]);
    BlankIsStripped(records[k]);
    assert rows[k].fields != expected[k].fields;
    assert rows[k].number == expected[k].number;
  }
}
