/** Rows of the Markdown tables that index architecture decisions (scripts/ci/adr-index.py). */
module AdrRows {
  import opened Results
  import opened PyText

  // ----- printing and parsing a row

  /** The inside of a row: each cell between blanks, pipes between cells. */
  function Inside(cells: seq<string>): (r: string)
    requires cells != []
  {
    if |cells| == 1 then " " + cells[0] + " " else " " + cells[0] + " " + "|" + Inside(cells[1..])
  }

  function PrintRow(cells: seq<string>): (r: string)
    requires cells != []
  {
    "|" + Inside(cells) + "|"
  }

  /** `t.strip("|")`. */
  function StripPipes(t: string): (r: string)
    decreases |t|
  {
    if t != [] && t[0] == '|' then StripPipes(t[1..])
    else if t != [] && t[|t| - 1] == '|' then StripPipes(t[..|t| - 1])
    else t
  }

  function StripAll(fields: seq<string>): (r: seq<string>)
    ensures |r| == |fields| && forall i :: 0 <= i < |r| ==> r[i] == Strip(fields[i])
  {
    seq(|fields|, i requires 0 <= i < |fields| => Strip(fields[i]))
  }

  function ParseRow(line: string): (r: seq<string>)
    ensures |r| >= 1
  {
    StripAll(Split(StripPipes(Strip(line)), '|'))
  }

  predicate Trimmed(t: string) {
    Strip(t) == t
  }

  ghost predicate Clean(cells: seq<string>) {
    forall i :: 0 <= i < |cells| ==> '|' !in cells[i] && Trimmed(cells[i])
  }

  function Count(t: string, c: char): (r: nat)
    ensures r == 0 <==> c !in t
  {
    if t == [] then 0 else (if t[0] == c then 1 else 0) + Count(t[1..], c)
  }

  lemma {:induction false} CountConcat(a: string, b: string, c: char)
    ensures Count(a + b, c) == Count(a, c) + Count(b, c)
  {
    if a == [] {
      assert a + b == b;
    } else {
      assert (a + b)[1..] == a[1..] + b;
      CountConcat(a[1..], b, c);
    }
  }

  /** Splitting yields one field more than there are separators. */
  lemma {:induction false} SplitCounts(t: string, c: char)
    ensures |Split(t, c)| == 1 + Count(t, c)
    decreases |t|
  {
    var e := FirstOf(t, c);
    assert t == t[..e] + t[e..];
    CountConcat(t[..e], t[e..], c);
    assert c !in t[..e];
    if e < |t| {
      SplitCounts(t[e + 1..], c);
      assert t[e..][1..] == t[e + 1..];
    }
  }

  lemma {:induction false} PipesInside(cells: seq<string>)
    requires cells != []
    ensures Count(Inside(cells), '|') >= |cells| - 1
    ensures Count(Inside(cells), '|') == |cells| - 1 ==> forall i :: 0 <= i < |cells| ==> '|' !in cells[i]
    decreases |cells|
  {
    var first := " " + cells[0] + " ";
    CountConcat(" ", cells[0], '|');
    CountConcat(" " + cells[0], " ", '|');
    if |cells| > 1 {
      PipesInside(cells[1..]);
      CountConcat(first, "|", '|');
      CountConcat(first + "|", Inside(cells[1..]), '|');
      forall i | 0 <= i < |cells| && Count(Inside(cells), '|') == |cells| - 1
        ensures '|' !in cells[i]
      {
        assert i > 0 ==> cells[i] == cells[1..][i - 1];
      }
    }
  }

  /** The cells between blanks. */
  function Padded(cells: seq<string>): (r: seq<string>)
    ensures |r| == |cells| && forall i :: 0 <= i < |r| ==> r[i] == " " + cells[i] + " "
  {
    seq(|cells|, i requires 0 <= i < |cells| => " " + cells[i] + " ")
  }

  lemma {:induction false} SplitInside(cells: seq<string>)
    requires cells != [] && forall i :: 0 <= i < |cells| ==> '|' !in cells[i]
    ensures Split(Inside(cells), '|') == Padded(cells)
    decreases |cells|
  {
    hide Split;
    var first := " " + cells[0] + " ";
    assert '|' !in first;
    if |cells| == 1 {
      SplitOne(first, '|');
    } else {
      SplitFirst(first, '|', Inside(cells[1..]));
      assert first + ['|'] + Inside(cells[1..]) == Inside(cells);
      SplitInside(cells[1..]);
      assert Padded(cells) == [first] + Padded(cells[1..]);
    }
  }

  lemma {:induction false} StripRight(t: string)
    ensures Strip(t + " ") == Strip(t)
    decreases |t|
  {
    if t == [] {
      assert t + " " == " ";
    } else if IsSpace(t[0]) {
      assert (t + " ")[1..] == t[1..] + " ";
      StripRight(t[1..]);
    } else {
      assert (t + " ")[..|t|] == t;
    }
  }

  lemma StripPadding(t: string)
    ensures Strip(" " + t + " ") == Strip(t)
  {
    assert (" " + t + " ")[1..] == t + " ";
    StripRight(t);
  }

  lemma InsideEnds(cells: seq<string>)
    requires cells != []
    ensures var t := Inside(cells); t != [] && t[0] == ' ' && t[|t| - 1] == ' '
  {
  }

  lemma RowIsStripped(t: string)
    requires t != [] && t[0] == ' ' && t[|t| - 1] == ' '
    ensures Strip("|" + t + "|") == "|" + t + "|"
    ensures StripPipes("|" + t + "|") == t
  {
    assert ("|" + t + "|")[1..] == t + "|";
    var u := t + "|";
    assert u[..|u| - 1] == t;
    assert StripPipes(t) == t && StripPipes(u) == StripPipes(u[..|u| - 1]);
  }

  ghost predicate NoPipes(cells: seq<string>) {
    forall i :: 0 <= i < |cells| ==> '|' !in cells[i]
  }

  /** A printed row parses to as many cells exactly when they hold no pipe, and then to its cells, trimmed. */
  lemma RowParsesExactly(cells: seq<string>)
    requires cells != []
    ensures |ParseRow(PrintRow(cells))| == |cells| <==> NoPipes(cells)
    ensures NoPipes(cells) ==> ParseRow(PrintRow(cells)) == StripAll(cells)
  {
    hide Split, Strip, StripPipes, Inside;
    var t := Inside(cells);
    InsideEnds(cells);
    RowIsStripped(t);
    SplitCounts(t, '|');
    PipesInside(cells);
    if NoPipes(cells) {
      SplitInside(cells);
      forall i | 0 <= i < |cells|
        ensures Strip(Padded(cells)[i]) == Strip(cells[i])
      {
        StripPadding(cells[i]);
      }
    }
  }

  /** A printed row parses back to its cells exactly when they are trimmed and hold no pipe. */
  lemma RowReadsExactly(cells: seq<string>)
    requires cells != []
    ensures ParseRow(PrintRow(cells)) == cells <==> Clean(cells)
  {
    hide ParseRow, PrintRow, Strip;
    RowParsesExactly(cells);
  }

  // ----- links and code

  /** `cell` is `[text](target)` with the text ending at `i`. */
  predicate LinkAt(cell: string, i: nat) {
    && 2 <= i && i + 3 < |cell| && cell[0] == '[' && cell[|cell| - 1] == ')'
    && cell[i] == ']' && cell[i + 1] == '(' && ')' !in cell[i + 2..|cell| - 1]
  }

  /** The longest text before `i` wins. */
  function FindLink(cell: string, i: nat): (r: Option<nat>)
    ensures r.Some? ==> r.value < i && LinkAt(cell, r.value) && forall j :: r.value < j < i ==> !LinkAt(cell, j)
    ensures r.None? ==> forall j :: 0 <= j < i ==> !LinkAt(cell, j)
  {
    if i == 0 then None else if LinkAt(cell, i - 1) then Some(i - 1) else FindLink(cell, i - 1)
  }

  function Unlink(cell: string): (r: (string, Option<string>)) {
    var i := FindLink(cell, |cell|);
    if i.None? then (cell, None) else (cell[1..i.value], Some(cell[i.value + 2..|cell| - 1]))
  }

  function Uncode(cell: string): (r: string) {
    if |cell| >= 3 && cell[0] == '`' && cell[|cell| - 1] == '`' then cell[1..|cell| - 1] else cell
  }

  function Link(text: string, target: string): (r: string) {
    "[" + text + "](" + target + ")"
  }

  function Code(text: string): (r: string) {
    "`" + text + "`"
  }

  /** A link comes apart again, whatever its text holds. */
  lemma LinkReads(text: string, target: string)
    requires text != [] && target != [] && ')' !in target && '(' !in target
    ensures Unlink(Link(text, target)) == (text, Some(target))
  {
    var cell, i := Link(text, target), |text| + 1;
    assert cell[1..i] == text;
    assert cell[i + 2..|cell| - 1] == target;
    assert LinkAt(cell, i);
    forall j | i < j < |cell|
      ensures !LinkAt(cell, j)
    {
      if j + 3 < |cell| {
        assert cell[j + 1] == target[j - i - 1];
      }
    }
  }

  lemma CodeReads(text: string)
    requires text != []
    ensures Uncode(Code(text)) == text
  {
  }

  lemma PlainReads(text: string)
    requires text != [] && text[0] != '`'
    ensures Uncode(text) == text
  {
  }
}
