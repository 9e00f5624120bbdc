/** Generating and checking at concrete files and records (scripts/ci/adr-index.py). */
module AdrTemplates {
  import opened Results
  import opened PyText
  import opened AdrRows
  import opened AdrTables
  import opened AdrRegions
  import opened AdrIndex
  import opened AdrGenerate
  import AdrRoundTrip
  import opened AdrSite
  import opened AdrMarkers

  function FileOf(lines: seq<string>): (r: string) {
    JoinLines(lines + [""])
  }

  const RULE := "|-|"

  /** Two tables without rows. */
  function TwoTables(a: Kind, b: Kind): (r: seq<string>) {
    [Header(a), RULE, "", Header(b), RULE]
  }

  function EmptyRegion(): (r: seq<string>) {
    [MARKERS.begin, MARKERS.end]
  }

  /** Files with empty tables and regions. */
  const TEMPLATE := Site(FileOf(EmptyRegion()), FileOf(EmptyRegion()), FileOf(TwoTables(Live, Dead)), FileOf(TwoTables(Log, Log)))

  // ----- the regions

  lemma PiecesAreLines()
    ensures OneLine("BEGIN") && OneLine("END") && OneLine(" generated ") && OneLine("ADR records") && OneLine(" \U{2014} ")
    ensures OneLine("scripts/ci/") && OneLine("adr-index.py") && OneLine(" generate")
  {
  }

  lemma MarkersAreLines()
    ensures OneLine(MARKERS.begin) && OneLine(MARKERS.end)
  {
    hide IsBreak;
    PiecesAreLines();
  }

  lemma PiecesHoldNoE()
    ensures 'E' !in " generated " && 'E' !in "ADR records" && 'E' !in " \U{2014} "
    ensures 'E' !in "scripts/ci/" && 'E' !in "adr-index.py" && 'E' !in " generate"
  {
  }

  predicate OneE(t: string) {
    |t| >= 3 && t[..3] == "BEG" && forall k :: 2 <= k < |t| ==> t[k] != 'E'
  }

  lemma StillOneE(a: string, b: string)
    requires OneE(a) && 'E' !in b
    ensures OneE(a + b)
  {
    assert (a + b)[..3] == a[..3];
  }

  lemma BeginHasOneE()
    ensures OneE(MARKERS.begin)
  {
    hide OneE;
    PiecesHoldNoE();
    BeginWord();
    StillOneE("BEGIN", GENERATED);
    var a := "BEGIN" + GENERATED;
    StillOneE(a, " \U{2014} ");
    StillOneE(a + " \U{2014} ", "scripts/ci/");
    StillOneE(a + " \U{2014} " + "scripts/ci/", "adr-index.py");
    StillOneE(a + " \U{2014} " + "scripts/ci/" + "adr-index.py", " generate");
  }

  lemma BeginWord()
    ensures OneE("BEGIN")
  {
    assert "BEGIN"[..3] == "BEG";
  }

  lemma NotInOneE(t: string, m: string)
    requires OneE(t) && |m| >= 2 && m[..2] == "EN"
    ensures !Contains(t, m)
  {
    hide Contains;
    assert m[0] == m[..2][0] == 'E' && m[1] == m[..2][1] == 'N';
    assert t[0] == t[..3][0] == 'B' && t[2] == t[..3][2] == 'G';
    if Contains(t, m) {
      var i := FoundAt(t, m);
    }
  }

  lemma EndIsNotInBegin()
    ensures !Contains(MARKERS.begin, MARKERS.end)
  {
    hide Contains, OneE;
    BeginHasOneE();
    assert MARKERS.end[..2] == "EN";
    NotInOneE(MARKERS.begin, MARKERS.end);
  }

  lemma BeginIsNotInEnd()
    ensures !Contains(MARKERS.end, MARKERS.begin)
  {
    hide Contains;
    if Contains(MARKERS.end, MARKERS.begin) {
      var i := FoundAt(MARKERS.end, MARKERS.begin);
    }
  }

  lemma EmptyRegionReady()
    ensures MarkersApart(MARKERS, FileOf(EmptyRegion()))
  {
    hide Contains, JoinLines, SplitLines, Region, OneLine;
    var lines := EmptyRegion();
    MarkersAreLines();
    JoinedLinesSplit(lines);
    ContainsAt(MARKERS.begin, MARKERS.begin, 0);
    ContainsAt(MARKERS.end, MARKERS.end, 0);
    EndIsNotInBegin();
    BeginIsNotInEnd();
    RegionExactly(lines, MARKERS, 0, 1);
  }

  // ----- the tables

  lemma ColumnsAreLines(kind: Kind)
    ensures AllLines(Columns(kind))
  {
    hide IsBreak;
    assert OneLine("ADR") && OneLine("Title") && OneLine("File") && OneLine("Status") && OneLine("Path") by {
      ShortWords();
    }
    assert OneLine("Superseded by") && OneLine("Revisit when") by {
      LongWords();
    }
  }

  lemma ShortWords()
    ensures OneLine("ADR") && OneLine("Title") && OneLine("File") && OneLine("Status") && OneLine("Path")
  {
  }

  lemma LongWords()
    ensures OneLine("Superseded by") && OneLine("Revisit when")
  {
  }

  lemma HeaderIsLine(kind: Kind)
    ensures OneLine(Header(kind)) && Strip(Header(kind)) == Header(kind)
  {
    hide Inside, Columns, Strip;
    ColumnsAreLines(kind);
    InsideIsLine(Columns(kind));
    PrintedRow(Columns(kind));
  }

  lemma RuleIsNoHeader(kinds: set<Kind>)
    ensures OneLine(RULE) && OneLine("") && Strip(RULE) == RULE && Strip("") == ""
    ensures RULE !in Headers(kinds) && "" !in Headers(kinds) && !IsRow("")
  {
    hide Inside, Columns;
    StripNothing(RULE);
    forall k | k in kinds
      ensures Header(k) != RULE && Header(k) != ""
    {
      HeaderBegins(k);
    }
  }

  lemma HeaderBegins(kind: Kind)
    ensures |Header(kind)| >= 2 && Header(kind)[0] == '|' && Header(kind)[1] == ' '
  {
  }

  lemma TwoTablesReady(a: Kind, b: Kind, kinds: set<Kind>, g: Kind)
    requires a in kinds && b in kinds && g in kinds
    ensures var lines := SplitLines(FileOf(TwoTables(a, b)));
            && WellFormed(lines, Headers(kinds))
            && Tables(lines, Header(g)) == (if Header(a) == Header(g) then [[]] else []) + (if Header(b) == Header(g) then [[]] else [])
  {
    hide JoinLines, SplitLines, OneLine, Strip, Header, Tables, WellFormed, IsRow;
    var lines, headers := TwoTables(a, b), Headers(kinds);
    HeaderIsLine(a);
    HeaderIsLine(b);
    RuleIsNoHeader(kinds);
    JoinedLinesSplit(lines);
    var rest := ["", Header(b), RULE];
    assert lines == [Header(a), RULE] + [] + rest;
    TablesOfFront(Header(a), RULE, [], rest, headers, Header(g));
    FrontStep(rest, headers, Header(g));
    assert rest[1..] == [Header(b), RULE] + [] + [];
    TablesOfFront(Header(b), RULE, [], [], headers, Header(g));
    NoLines(headers, Header(g));
  }

  lemma NoLines(headers: set<string>, g: string)
    ensures Tables([], g) == [] && WellFormed([], headers)
  {
  }

  lemma TemplateReady()
    ensures SiteReady(MARKERS, TEMPLATE) && MarkersApart(MARKERS, TEMPLATE.sync) && MarkersApart(MARKERS, TEMPLATE.sidebar)
  {
    hide FileOf, SplitLines, Header, Tables, WellFormed, Region;
    EmptyRegionReady();
    TwoTablesReady(Live, Dead, {Live, Dead}, Live);
    TwoTablesReady(Live, Dead, {Live, Dead}, Dead);
    TwoTablesReady(Log, Log, {Log}, Log);
    AdrRoundTrip.HeadersDiffer(Live, Dead);
  }

  // ----- records

  function Titled(title: string): (r: Record) {
    Record("0001", "0001-a.md", title, "Accepted", false, "", "b")
  }

  predicate Titling(t: string) {
    t != [] && !IsSpace(t[|t| - 1]) && OneLine(t)
  }

  lemma TitledIsReady(title: string)
    requires Titling(title)
    ensures RecordsReady([Titled(title)])
  {
    hide IsBreak;
    PlainIsTrimmed();
  }

  lemma PlainIsTrimmed()
    ensures Trimmed("Accepted") && Trimmed("b") && OneLine("Accepted") && OneLine("b") && '|' !in "Accepted"
  {
    UnspacedIsTrimmed("Accepted");
    UnspacedIsTrimmed("b");
  }

  /** What generating at the template does with one title, as far as the regions go. */
  lemma TitleGenerates(title: string)
    requires Titling(title)
    ensures var records := [Titled(title)];
            && SiteReady(MARKERS, TEMPLATE) && RecordsReady(records) && Generated(MARKERS, TEMPLATE, records).Ok?
            && (RegionsLast(MARKERS, TEMPLATE, records) <==> !Contains(title, MARKERS.begin) && !Contains(title, MARKERS.end))
  {
    hide SiteReady, RecordsReady, RegionsLast, Generated, Healthy, Checkable, MarkersApart, Contains, Distinctive, Titling,
         NoCellBreaks, AllFlush, NoStrayFileNames;
    var records := [Titled(title)];
    TitledIsReady(title);
    TemplateReady();
    MarkersAreDistinctive();
    RegionsLastExactly(MARKERS, TEMPLATE, records);
    assert records[0] in records && records[0].title == title;
    GenerateThenCheckExactly(MARKERS, TEMPLATE, records);
  }

  /** A title without capitals holds no marker. */
  lemma SmallTitleLasts(title: string)
    requires NoCapital(title)
    ensures !Contains(title, MARKERS.begin) && !Contains(title, MARKERS.end)
  {
    hide Contains;
    MarkersAreDistinctive();
    StartsElsewhere(title, MARKERS.begin);
    StartsElsewhere(title, MARKERS.end);
  }

  ghost predicate ReadyToGenerate(records: seq<Record>) {
    SiteReady(MARKERS, TEMPLATE) && RecordsReady(records) && Generated(MARKERS, TEMPLATE, records).Ok?
  }

  /** A title that ends in `.md` fails the check on freshly generated indexes. */
  lemma FileNameTitleFails()
    ensures var records := [Titled("a.md")];
            && ReadyToGenerate(records)
            && var next := Generated(MARKERS, TEMPLATE, records).value;
            && Generated(MARKERS, next, records) == Ok(next) && Checkable(MARKERS, next) && !Healthy(MARKERS, next, records)
  {
    hide SiteReady, RecordsReady, RegionsLast, Generated, Healthy, Checkable, Contains;
    TitleGenerates("a.md");
    SmallTitleLasts("a.md");
    assert "a.md"[1..] == ".md";
    GenerateThenCheckExactly(MARKERS, TEMPLATE, [Titled("a.md")]);
  }

  /** After a title with a pipe has been generated, the check cannot be carried out. */
  lemma PipeTitleFails()
    ensures var records := [Titled("a|b")];
            && ReadyToGenerate(records)
            && var next := Generated(MARKERS, TEMPLATE, records).value;
            && Generated(MARKERS, next, records) == Ok(next) && !Checkable(MARKERS, next)
  {
    hide SiteReady, RecordsReady, RegionsLast, Generated, Healthy, Checkable, Contains, NoStrayFileNames;
    TitleGenerates("a|b");
    SmallTitleLasts("a|b");
    var r := Titled("a|b");
    assert r in [r] && r.title[1] == '|';
    GenerateThenCheckExactly(MARKERS, TEMPLATE, [r]);
  }

  /** A title that begins with a blank fails the check on freshly generated indexes. */
  lemma BlankTitleFails()
    ensures var records := [Titled(" a")];
            && ReadyToGenerate(records)
            && var next := Generated(MARKERS, TEMPLATE, records).value;
            && Generated(MARKERS, next, records) == Ok(next) && Checkable(MARKERS, next) && !Healthy(MARKERS, next, records)
  {
    hide SiteReady, RecordsReady, RegionsLast, Generated, Healthy, Checkable, Contains, NoStrayFileNames;
    TitleGenerates(" a");
    SmallTitleLasts(" a");
    var r := Titled(" a");
    assert r in [r];
    GenerateThenCheckExactly(MARKERS, TEMPLATE, [r]);
  }

  /** A title with a marker in it is generated once; after that neither generating nor checking can be carried out. */
  lemma MarkerTitleFails()
    ensures var records := [Titled(MARKERS.end)];
            && ReadyToGenerate(records)
            && var next := Generated(MARKERS, TEMPLATE, records).value;
            && Generated(MARKERS, next, records).Err? && !Checkable(MARKERS, next)
  {
    hide SiteReady, RecordsReady, RegionsLast, Generated, Healthy, Checkable, Contains, NoStrayFileNames, Titling, NoCellBreaks, AllFlush;
    EndIsTitle();
    TitleGenerates(MARKERS.end);
    ContainsAt(MARKERS.end, MARKERS.end, 0);
    GenerateThenCheckExactly(MARKERS, TEMPLATE, [Titled(MARKERS.end)]);
  }

  lemma EndIsTitle()
    ensures Titling(MARKERS.end)
  {
    hide OneLine;
    MarkersAreLines();
  }
}
