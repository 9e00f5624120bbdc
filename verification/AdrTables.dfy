/** Finding, reading and rewriting tables in a Markdown file's lines (scripts/ci/adr-index.py). */
module AdrTables {
  import opened Results
  import opened PyText

  predicate StartsWithPipe(t: string) {
    t != [] && t[0] == '|'
  }

  /** The reader takes indented rows too. */
  predicate IsRow(line: string) {
    StartsWithPipe(Strip(line))
  }

  /** The rows at the front, as the reader finds them. */
  function Rows(lines: seq<string>): (r: seq<string>) {
    if lines != [] && IsRow(lines[0]) then [lines[0]] + Rows(lines[1..]) else []
  }

  /** What is left behind the rows at the front, as the writer finds them. */
  function Rest(lines: seq<string>): (r: seq<string>) {
    if lines != [] && StartsWithPipe(lines[0]) then Rest(lines[1..]) else lines
  }

  /** Behind a header and its separator. */
  function Below(lines: seq<string>): (r: seq<string>) {
    if |lines| < 2 then [] else lines[2..]
  }

  /** The rows of every table under `header`. */
  function Tables(lines: seq<string>, header: string): (r: seq<seq<string>>) {
    if lines == [] then []
    else (if Strip(lines[0]) == header then [Rows(Below(lines))] else []) + Tables(lines[1..], header)
  }

  /** The lines with the rows of the `which`-th table under `header` replaced, if there is such a table. */
  function Replaced(lines: seq<string>, header: string, which: nat, rows: seq<string>): (r: Option<seq<string>>) {
    if lines == [] then None
    else if Strip(lines[0]) == header && which == 0 then
      Some(lines[..if |lines| < 2 then |lines| else 2] + rows + Rest(Below(lines)))
    else
      var rest := Replaced(lines[1..], header, if Strip(lines[0]) == header then which - 1 else which, rows);
      if rest.None? then None else Some([lines[0]] + rest.value)
  }

  // ----- well-formed files

  /** The rows at the front are not indented and are no header. */
  predicate SoundRows(lines: seq<string>, headers: set<string>) {
    lines != [] && IsRow(lines[0]) ==>
      StartsWithPipe(lines[0]) && Strip(lines[0]) !in headers && SoundRows(lines[1..], headers)
  }

  /** Every table has its separator and sound rows. */
  predicate WellFormed(lines: seq<string>, headers: set<string>) {
    lines != [] ==>
      && WellFormed(lines[1..], headers)
      && (Strip(lines[0]) in headers ==> |lines| >= 2 && Strip(lines[1]) !in headers && SoundRows(lines[2..], headers))
  }

  /** New rows that a reader will find again and not mistake for a header. */
  ghost predicate Fresh(rows: seq<string>, headers: set<string>) {
    forall i :: 0 <= i < |rows| ==> StartsWithPipe(rows[i]) && IsRow(rows[i]) && Strip(rows[i]) !in headers
  }

  lemma RestIsNoRow(lines: seq<string>, headers: set<string>)
    requires SoundRows(lines, headers)
    ensures lines == Rows(lines) + Rest(lines)
    ensures Rest(lines) != [] ==> !IsRow(Rest(lines)[0])
  {
    hide Strip;
    if lines != [] && IsRow(lines[0]) {
      RestIsNoRow(lines[1..], headers);
      assert lines == [lines[0]] + lines[1..];
    } else if lines != [] && StartsWithPipe(lines[0]) {
      PipeIsRow(lines[0]);
    }
  }

  lemma {:induction false} PipeIsRow(t: string)
    requires StartsWithPipe(t)
    ensures IsRow(t)
    decreases |t|
  {
    if IsSpace(t[|t| - 1]) {
      PipeIsRow(t[..|t| - 1]);
    }
  }

  lemma {:induction false} RowsInFront(rows: seq<string>, rest: seq<string>, headers: set<string>)
    requires Fresh(rows, headers) && (rest != [] ==> !IsRow(rest[0]))
    ensures Rows(rows + rest) == rows && SoundRows(rows + rest, headers)
    ensures Rest(rows + rest) == Rest(rest)
    decreases |rows|
  {
    hide Strip, IsRow;
    if rows == [] {
      assert rows + rest == rest;
    } else {
      assert (rows + rest)[1..] == rows[1..] + rest;
      RowsInFront(rows[1..], rest, headers);
    }
  }

  /** Behind a table's rows nothing changes, and rows are no headers. */
  lemma {:induction false} TablesBehind(rows: seq<string>, rest: seq<string>, header: string)
    requires forall i :: 0 <= i < |rows| ==> Strip(rows[i]) != header
    ensures Tables(rows + rest, header) == Tables(rest, header)
    decreases |rows|
  {
    hide Strip, Rows;
    if rows == [] {
      assert rows + rest == rest;
    } else {
      assert (rows + rest)[1..] == rows[1..] + rest;
      TablesBehind(rows[1..], rest, header);
    }
  }

  lemma {:induction false} WellFormedBehind(rows: seq<string>, rest: seq<string>, headers: set<string>)
    requires forall i :: 0 <= i < |rows| ==> Strip(rows[i]) !in headers
    ensures WellFormed(rows + rest, headers) <==> WellFormed(rest, headers)
    decreases |rows|
  {
    hide Strip, SoundRows;
    if rows == [] {
      assert rows + rest == rest;
    } else {
      assert (rows + rest)[1..] == rows[1..] + rest;
      WellFormedBehind(rows[1..], rest, headers);
    }
  }

  lemma {:induction false} SoundRowsAreNoHeaders(lines: seq<string>, headers: set<string>)
    requires SoundRows(lines, headers)
    ensures forall i :: 0 <= i < |Rows(lines)| ==> Strip(Rows(lines)[i]) !in headers
    decreases |lines|
  {
    hide Strip;
    if lines != [] && IsRow(lines[0]) {
      SoundRowsAreNoHeaders(lines[1..], headers);
    }
  }

  // ----- what replacing changes

  /** Rows in front of a header survive a replacement behind them. */
  lemma {:induction false} ReplacementIsBehind(lines: seq<string>, headers: set<string>, header: string, which: nat, rows: seq<string>)
    requires header in headers && SoundRows(lines, headers) && Replaced(lines, header, which, rows).Some?
    ensures var next := Replaced(lines, header, which, rows).value;
            Rows(next) == Rows(lines) && SoundRows(next, headers) && next != [] && next[0] == lines[0]
    decreases |lines|
  {
    hide Strip, Rest;
    if IsRow(lines[0]) {
      ReplacementIsBehind(lines[1..], headers, header, which, rows);
      var next, behind := Replaced(lines, header, which, rows).value, Replaced(lines[1..], header, which, rows).value;
      assert next == [lines[0]] + behind && next[1..] == behind;
    }
  }

  lemma SeparatorAndRows(separator: string, rows: seq<string>, headers: set<string>)
    requires Strip(separator) !in headers && Fresh(rows, headers)
    ensures forall i :: 0 <= i < |[separator] + rows| ==> Strip(([separator] + rows)[i]) !in headers
  {
    hide Strip, IsRow, StartsWithPipe;
  }

  lemma FrontParts(head: string, separator: string, rows: seq<string>, rest: seq<string>)
    ensures var lines := [head, separator] + rows + rest;
            |lines| >= 2 && lines[0] == head && lines[1] == separator
            && Below(lines) == rows + rest && lines[1..] == ([separator] + rows) + rest
  {
  }

  /** The tables of a header, its separator, rows and what follows. */
  lemma TablesOfFront(head: string, separator: string, rows: seq<string>, rest: seq<string>, headers: set<string>, g: string)
    requires g in headers && Strip(head) in headers && Strip(separator) !in headers
    requires Fresh(rows, headers) && (rest != [] ==> !IsRow(rest[0]))
    ensures Tables([head, separator] + rows + rest, g)
         == (if Strip(head) == g then [rows] else []) + Tables(rest, g)
    ensures WellFormed([head, separator] + rows + rest, headers) <==> WellFormed(rest, headers)
  {
    hide Strip, Rows, SoundRows, Tables, WellFormed, IsRow, Fresh, Below;
    var lines := [head, separator] + rows + rest;
    FrontParts(head, separator, rows, rest);
    SeparatorAndRows(separator, rows, headers);
    RowsInFront(rows, rest, headers);
    TablesBehind([separator] + rows, rest, g);
    WellFormedBehind([separator] + rows, rest, headers);
    FrontStep(lines, headers, g);
  }

  lemma FrontStep(lines: seq<string>, headers: set<string>, g: string)
    requires lines != []
    ensures Tables(lines, g) == (if Strip(lines[0]) == g then [Rows(Below(lines))] else []) + Tables(lines[1..], g)
    ensures WellFormed(lines, headers) <==>
            WellFormed(lines[1..], headers)
            && (Strip(lines[0]) in headers ==> |lines| >= 2 && Strip(lines[1]) !in headers && SoundRows(Below(lines), headers))
  {
    hide Strip, Rows, SoundRows;
  }

  lemma OldRowsAreFresh(lines: seq<string>, headers: set<string>)
    requires SoundRows(lines, headers)
    ensures Fresh(Rows(lines), headers)
    decreases |lines|
  {
    hide Strip;
    if lines != [] && IsRow(lines[0]) {
      OldRowsAreFresh(lines[1..], headers);
    }
  }

  /** Replacing the rows of the table at the very front. */
  lemma FrontReplaced(lines: seq<string>, headers: set<string>, header: string, rows: seq<string>, g: string)
    requires WellFormed(lines, headers) && header in headers && g in headers && Fresh(rows, headers)
    requires lines != [] && Strip(lines[0]) == header
    ensures Replaced(lines, header, 0, rows).Some?
    ensures var next := Replaced(lines, header, 0, rows).value;
            && WellFormed(next, headers)
            && (rows == Rows(Below(lines)) ==> next == lines)
            && Tables(next, g) == if g == header then [rows] + Tables(lines, g)[1..] else Tables(lines, g)
    ensures g == header ==> Tables(lines, g) != [] && Tables(lines, g)[0] == Rows(Below(lines))
  {
    hide Strip, Rows, SoundRows, Tables, Fresh, Rest, IsRow, WellFormed;
    FrontStep(lines, headers, g);
    var was, rest := Rows(lines[2..]), Rest(lines[2..]);
    RestIsNoRow(lines[2..], headers);
    OldRowsAreFresh(lines[2..], headers);
    var next := lines[..2] + rows + rest;
    assert lines[..2] == [lines[0], lines[1]];
    assert lines == [lines[0], lines[1]] + was + rest;
    TablesOfFront(lines[0], lines[1], was, rest, headers, g);
    TablesOfFront(lines[0], lines[1], rows, rest, headers, g);
    assert Replaced(lines, header, 0, rows) == Some(next);
  }

  /** A table exists exactly when its rows can be replaced. */
  lemma {:induction false} ReplaceableExactly(lines: seq<string>, header: string, which: nat, rows: seq<string>)
    ensures Replaced(lines, header, which, rows).Some? <==> which < |Tables(lines, header)|
    decreases |lines|
  {
    hide Strip, Rows, Rest;
    if lines != [] && !(Strip(lines[0]) == header && which == 0) {
      ReplaceableExactly(lines[1..], header, if Strip(lines[0]) == header then which - 1 else which, rows);
    }
  }

  /** Replacing one table's rows changes that table and no other, under any header, and keeps the file well formed. */
  lemma {:induction false} ReplacingChangesOneTable(
      lines: seq<string>, headers: set<string>, header: string, which: nat, rows: seq<string>, g: string)
    requires WellFormed(lines, headers) && header in headers && g in headers && Fresh(rows, headers)
    requires which < |Tables(lines, header)|
    ensures Replaced(lines, header, which, rows).Some?
    ensures var next := Replaced(lines, header, which, rows).value;
            && WellFormed(next, headers)
            && (rows == Tables(lines, header)[which] ==> next == lines)
            && Tables(next, g) == if g == header then Tables(lines, g)[which := rows] else Tables(lines, g)
    decreases |lines|
  {
    hide Strip, Rows, SoundRows, Tables, WellFormed, Fresh, Rest, IsRow;
    ReplaceableExactly(lines, header, which, rows);
    FrontStep(lines, headers, g);
    FrontStep(lines, headers, header);
    if Strip(lines[0]) == header && which == 0 {
      FrontReplaced(lines, headers, header, rows, g);
      FrontReplaced(lines, headers, header, rows, header);
      if g == header {
        assert Tables(lines, g)[0 := rows] == [rows] + Tables(lines, g)[1..];
      }
    } else {
      var w := if Strip(lines[0]) == header then which - 1 else which;
      ReplacingChangesOneTable(lines[1..], headers, header, w, rows, g);
      var behind := Replaced(lines[1..], header, w, rows).value;
      var next := [lines[0]] + behind;
      assert next[1..] == behind;
      BelowSurvives(lines, headers, header, w, rows);
      FrontStep(next, headers, g);
      assert lines == [lines[0]] + lines[1..];
    }
  }

  /** A header in front of the replaced table keeps its separator and rows. */
  lemma BelowSurvives(lines: seq<string>, headers: set<string>, header: string, w: nat, rows: seq<string>)
    requires lines != [] && WellFormed(lines, headers) && header in headers
    requires Replaced(lines[1..], header, w, rows).Some?
    ensures var next := [lines[0]] + Replaced(lines[1..], header, w, rows).value;
            Strip(lines[0]) in headers ==>
              |next| >= 2 && next[1] == lines[1] && Rows(Below(next)) == Rows(Below(lines)) && SoundRows(Below(next), headers)
  {
    hide Strip, Rows, SoundRows, Rest;
    if Strip(lines[0]) in headers {
      assert lines[1..][1..] == lines[2..];
      var behind := Replaced(lines[2..], header, w, rows);
      assert Replaced(lines[1..], header, w, rows) == Some([lines[1]] + behind.value);
      ReplacementIsBehind(lines[2..], headers, header, w, rows);
      assert Below([lines[0]] + ([lines[1]] + behind.value)) == behind.value;
    }
  }
}
