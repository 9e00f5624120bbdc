/** What the generated regions list, as a reader of their JavaScript sees it (scripts/ci/adr-index.py). */
module AdrListings {
  import opened Results
  import opened PyText
  import opened AdrRows
  import opened AdrRegions
  import opened AdrIndex
  import opened AdrGenerate
  import opened AdrSite

  // ----- reading JavaScript lines

  /** A single-quoted string at the front, with its escapes undone, and what follows it. */
  function ReadQuoted(t: string): (r: Option<(string, string)>) {
    if t == [] || t[0] != '\'' then None else ReadInside(t[1..])
  }

  function ReadInside(t: string): (r: Option<(string, string)>)
    decreases |t|
  {
    if t == [] then None
    else if t[0] == '\'' then Some(([], t[1..]))
    else if t[0] != '\\' then Before(t[0], ReadInside(t[1..]))
    else if |t| == 1 then None
    else Before(t[1], ReadInside(t[2..]))
  }

  function Before(c: char, r: Option<(string, string)>): (q: Option<(string, string)>) {
    if r.None? then None else Some(([c] + r.value.0, r.value.1))
  }

  /** What follows `part` at the front. */
  function Behind(t: string, part: string): (r: Option<string>) {
    if part <= t then Some(t[|part|..]) else None
  }

  /** A string between two fixed pieces, and what follows. */
  function ReadField(t: string, before: string, behind: string): (r: Option<(string, string)>) {
    var u := Behind(t, before);
    if u.None? then None else
      var s := ReadQuoted(u.value);
      if s.None? then None else
        var rest := Behind(s.value.1, behind);
        if rest.None? then None else Some((s.value.0, rest.value))
  }

  /** A line that is one string between two fixed pieces. */
  function ReadLine(t: string, before: string, behind: string): (r: Option<string>) {
    var s := ReadField(t, before, behind);
    if s.None? || s.value.1 != [] then None else Some(s.value.0)
  }

  /** The pages of a publication list, one quoted string a line. */
  function ReadPages(lines: seq<string>): (r: Option<seq<string>>) {
    if lines == [] then Some([]) else
      var init, last := ReadPages(lines[..|lines| - 1]), ReadLine(lines[|lines| - 1], "  ", ",");
      if init.None? || last.None? then None else Some(init.value + [last.value])
  }

  datatype Page = Page(name: string, slug: string)

  const INDENT := "                "

  /** An entry on one line. */
  function ReadShort(t: string): (r: Option<Page>) {
    var name := ReadField(t, INDENT + "{ label: ", ", slug: ");
    if name.None? then None else
      var slug := ReadLine(name.value.1, "", " },");
      if slug.None? then None else Some(Page(name.value.0, slug.value))
  }

  /** An entry on four lines. */
  function ReadLong(a: string, b: string, c: string, d: string): (r: Option<Page>) {
    if a != INDENT + "{" || d != INDENT + "}," then None else
      var name, slug := ReadLine(b, INDENT + "  label: ", ","), ReadLine(c, INDENT + "  slug: ", ",");
      if name.None? || slug.None? then None else Some(Page(name.value, slug.value))
  }

  /** The pages of a sidebar, in order. */
  function ReadSidebar(lines: seq<string>): (r: Option<seq<Page>>)
    decreases |lines|
  {
    if lines == [] then Some([]) else
      var short := ReadShort(lines[0]);
      if short.Some? then Onto(short.value, ReadSidebar(lines[1..]))
      else if |lines| < 4 || ReadLong(lines[0], lines[1], lines[2], lines[3]).None? then None
      else Onto(ReadLong(lines[0], lines[1], lines[2], lines[3]).value, ReadSidebar(lines[4..]))
  }

  function Onto(p: Page, r: Option<seq<Page>>): (q: Option<seq<Page>>) {
    if r.None? then None else Some([p] + r.value)
  }

  // ----- what should be listed

  function PublishedAs(r: Record): (t: string) {
    "adr/" + r.filename
  }

  /** Number, dash and title; and the page's path without its `.md`. */
  ghost predicate IsPageOf(p: Page, r: Record) {
    p.name == r.number + " \U{2014} " + r.title && p.slug + ".md" == "adr/" + r.filename
  }

  /** The lines between the markers. */
  function Body(mk: Markers, text: string): (r: Option<seq<string>>) {
    var lines := SplitLines(text);
    var region := Region(lines, mk);
    if region.None? || region.value.1 <= region.value.0 then None else
      RegionBounds(lines, mk);
      Some(lines[region.value.0 + 1..region.value.1])
  }

  /** The records that are or are not superseded, in their order. */
  ghost predicate AreThose(records: seq<Record>, superseded: bool, listed: seq<Record>) {
    exists at: seq<nat> :: Picks(records, superseded, listed, at)
  }

  /** `at` are their positions. */
  ghost predicate Picks(records: seq<Record>, superseded: bool, listed: seq<Record>, at: seq<nat>) {
    && |at| == |listed| && (forall i :: 0 <= i < |at| ==> at[i] < |records| && records[at[i]] == listed[i])
    && (forall i, j :: 0 <= i < j < |at| ==> at[i] < at[j])
    && (forall k :: 0 <= k < |records| ==> (k in at <==> records[k].superseded == superseded))
  }

  /** Publication list and sidebar list exactly the active records, in order. */
  ghost predicate Lists(mk: Markers, site: Site, records: seq<Record>) {
    exists listed :: AreThose(records, false, listed) && ListsThese(mk, site, listed)
  }

  ghost predicate ListsThese(mk: Markers, site: Site, listed: seq<Record>) {
    var sync, sidebar := Body(mk, site.sync), Body(mk, site.sidebar);
    && sync.Some? && sidebar.Some? && ReadPages(sync.value).Some? && ReadSidebar(sidebar.value).Some?
    && PagesOf(ReadPages(sync.value).value, listed) && EntriesOf(ReadSidebar(sidebar.value).value, listed)
  }

  ghost predicate PagesOf(pages: seq<string>, listed: seq<Record>) {
    |pages| == |listed| && forall k :: 0 <= k < |listed| ==> pages[k] == PublishedAs(listed[k])
  }

  ghost predicate EntriesOf(pages: seq<Page>, listed: seq<Record>) {
    |pages| == |listed| && forall k :: 0 <= k < |listed| ==> IsPageOf(pages[k], listed[k])
  }

  // ----- reading back what is written

  lemma {:induction false} InsideReads(t: string, rest: string)
    ensures ReadInside(JsEscape(t) + "'" + rest) == Some((t, rest))
    decreases |t|
  {
    var text := JsEscape(t) + "'" + rest;
    if t == [] {
      assert text == "'" + rest && text[1..] == rest;
    } else {
      InsideReads(t[1..], rest);
      var behind := JsEscape(t[1..]) + "'" + rest;
      assert t == [t[0]] + t[1..];
      if t[0] == '\\' || t[0] == '\'' {
        assert text == ['\\', t[0]] + behind && text[2..] == behind;
      } else {
        assert text == [t[0]] + behind && text[1..] == behind;
      }
    }
  }

  lemma QuotedReads(t: string, rest: string)
    ensures ReadQuoted(JsString(t) + rest) == Some((t, rest))
  {
    hide ReadInside, JsEscape;
    InsideReads(t, rest);
    assert (JsString(t) + rest)[1..] == JsEscape(t) + "'" + rest;
  }

  lemma FieldReads(before: string, t: string, behind: string, rest: string)
    ensures ReadField(before + JsString(t) + behind + rest, before, behind) == Some((t, rest))
  {
    hide ReadQuoted, JsString;
    var text := before + JsString(t) + behind + rest;
    assert text[|before|..] == JsString(t) + (behind + rest);
    QuotedReads(t, behind + rest);
    assert (behind + rest)[|behind|..] == rest;
  }

  lemma LineReads(before: string, t: string, behind: string)
    ensures ReadLine(before + JsString(t) + behind, before, behind) == Some(t)
  {
    hide ReadField, JsString;
    FieldReads(before, t, behind, "");
    assert before + JsString(t) + behind + "" == before + JsString(t) + behind;
  }

  lemma SpacesAre()
    ensures Spaces(2) == "  " && Spaces(16) == INDENT
  {
  }

  lemma {:induction false} SyncReads(listed: seq<Record>)
    ensures ReadPages(SyncRegion(listed)).Some? && PagesOf(ReadPages(SyncRegion(listed)).value, listed)
    decreases |listed|
  {
    hide JsString, ReadLine, Spaces;
    if listed != [] {
      var init, last := listed[..|listed| - 1], listed[|listed| - 1];
      SyncReads(init);
      SpacesAre();
      LineReads("  ", PublishedAs(last), ",");
      var lines := SyncRegion(listed);
      assert lines[..|lines| - 1] == SyncRegion(init);
    }
  }

  lemma StemIs(r: Record)
    requires Loaded(r)
    ensures |r.filename| >= 3 && r.filename[..|r.filename| - 3] + ".md" == r.filename
  {
    assert r.filename == r.filename[..|r.filename| - 3] + r.filename[|r.filename| - 3..];
  }

  /** The page an entry is for. */
  function PageOf(r: Record): (p: Page)
    requires |r.filename| >= 3
  {
    Page(r.number + " \U{2014} " + r.title, "adr/" + r.filename[..|r.filename| - 3])
  }

  lemma PageIsOf(r: Record)
    requires Loaded(r)
    ensures |r.filename| >= 3 && IsPageOf(PageOf(r), r)
  {
    StemIs(r);
    var stem := r.filename[..|r.filename| - 3];
    assert "adr/" + stem + ".md" == "adr/" + (stem + ".md");
  }

  lemma ShortReads(p: Page)
    ensures ReadShort(INDENT + "{ label: " + JsString(p.name) + ", slug: " + JsString(p.slug) + " },") == Some(p)
  {
    hide ReadField, ReadLine, JsString;
    var rest := JsString(p.slug) + " },";
    FieldReads(INDENT + "{ label: ", p.name, ", slug: ", rest);
    LineReads("", p.slug, " },");
    assert "" + JsString(p.slug) + " }," == rest;
    assert INDENT + "{ label: " + JsString(p.name) + ", slug: " + JsString(p.slug) + " },"
        == INDENT + "{ label: " + JsString(p.name) + ", slug: " + rest;
  }

  lemma LongReads(p: Page)
    ensures ReadLong(INDENT + "{", INDENT + "  label: " + JsString(p.name) + ",",
                     INDENT + "  slug: " + JsString(p.slug) + ",", INDENT + "},") == Some(p)
  {
    hide ReadLine, JsString;
    LineReads(INDENT + "  label: ", p.name, ",");
    LineReads(INDENT + "  slug: ", p.slug, ",");
  }

  lemma BraceIsNoEntry()
    ensures ReadShort(INDENT + "{").None?
  {
    hide ReadQuoted, ReadLine;
    assert |INDENT + "{ label: "| > |INDENT + "{"|;
  }

  /** The entry's lines in front of more lines. */
  lemma EntryReads(r: Record, more: seq<string>)
    requires Loaded(r) && ReadSidebar(more).Some?
    ensures |r.filename| >= 3 && ReadSidebar(SidebarEntry(r) + more) == Some([PageOf(r)] + ReadSidebar(more).value)
  {
    hide ReadShort, ReadLong, JsString, Spaces, Loaded;
    PageIsOf(r);
    SpacesAre();
    var p, entry := PageOf(r), SidebarEntry(r);
    var all := entry + more;
    ShortReads(p);
    LongReads(p);
    BraceIsNoEntry();
    if |entry| == 1 {
      assert all[1..] == more;
    } else {
      assert all[4..] == more;
    }
  }

  lemma {:induction false} SidebarReads(listed: seq<Record>, more: seq<string>)
    requires (forall r :: r in listed ==> Loaded(r)) && ReadSidebar(more).Some?
    ensures ReadSidebar(SidebarRegion(listed) + more).Some?
    ensures var pages := ReadSidebar(SidebarRegion(listed) + more).value;
            |pages| == |listed| + |ReadSidebar(more).value| && pages[|listed|..] == ReadSidebar(more).value
            && EntriesOf(pages[..|listed|], listed)
    decreases |listed|
  {
    hide ReadSidebar, SidebarEntry, Loaded, IsPageOf;
    if listed == [] {
      assert [] + more == more;
    } else {
      var init, last := listed[..|listed| - 1], listed[|listed| - 1];
      EntryReads(last, more);
      PageIsOf(last);
      SidebarReads(init, SidebarEntry(last) + more);
      assert SidebarRegion(listed) + more == SidebarRegion(init) + (SidebarEntry(last) + more);
      var pages := ReadSidebar(SidebarRegion(listed) + more).value;
      assert pages[|init|..] == [PageOf(last)] + ReadSidebar(more).value;
      assert pages[|init|] == pages[|init|..][0] && pages[|listed|..] == pages[|init|..][1..];
      forall k | 0 <= k < |listed|
        ensures IsPageOf(pages[..|listed|][k], listed[k])
      {
        if k < |init| {
          assert IsPageOf(pages[..|init|][k], init[k]);
        }
      }
    }
  }

  // ----- which records

  /** Selecting keeps exactly the records asked for, once each and in their order. */
  lemma {:induction false} SelectedInOrder(records: seq<Record>, superseded: bool)
    ensures AreThose(records, superseded, Selected(records, superseded))
    decreases |records|
  {
    if records == [] {
      assert Picks(records, superseded, [], []);
    } else {
      var n := |records| - 1;
      SelectedInOrder(records[..n], superseded);
      var listed := Selected(records[..n], superseded);
      var at :| Picks(records[..n], superseded, listed, at);
      if records[n].superseded == superseded {
        PickMore(records, superseded, listed, at);
      } else {
        assert listed + [] == listed;
        PickSame(records, superseded, listed, at);
      }
    }
  }

  lemma PickSame(records: seq<Record>, superseded: bool, listed: seq<Record>, at: seq<nat>)
    requires records != [] && Picks(records[..|records| - 1], superseded, listed, at)
    requires records[|records| - 1].superseded != superseded
    ensures Picks(records, superseded, listed, at)
  {
    var n := |records| - 1;
    assert forall k :: 0 <= k < n ==> records[..n][k] == records[k];
    assert forall i :: 0 <= i < |at| ==> at[i] < n;
  }

  lemma PickMore(records: seq<Record>, superseded: bool, listed: seq<Record>, at: seq<nat>)
    requires records != [] && Picks(records[..|records| - 1], superseded, listed, at)
    requires records[|records| - 1].superseded == superseded
    ensures Picks(records, superseded, listed + [records[|records| - 1]], at + [|records| - 1])
  {
    var n := |records| - 1;
    var now, all := at + [n], listed + [records[n]];
    assert forall k :: 0 <= k < n ==> records[..n][k] == records[k];
    forall i | 0 <= i < |now|
      ensures now[i] < |records| && records[now[i]] == all[i]
    {
      assert i < |at| ==> now[i] == at[i] && all[i] == listed[i];
    }
    forall k | 0 <= k < |records|
      ensures k in now <==> records[k].superseded == superseded
    {
      assert k in now <==> k in at || k == n;
      assert k < n ==> (k in at <==> records[..n][k].superseded == superseded);
    }
  }

  // ----- files

  /** A file whose rendering changes nothing holds the body between its markers. */
  lemma RenderedHoldsBody(mk: Markers, text: string, body: seq<string>)
    requires AllLines(body) && Render(mk, text, body) == Some(text)
    ensures Body(mk, text) == Some(body)
  {
    hide SplitLines, JoinLines, Region, OneLine;
    var lines := SplitLines(text);
    RegionBounds(lines, mk);
    var b, e := Region(lines, mk).value.0, Region(lines, mk).value.1;
    var next := Refilled(lines, b, e, body);
    SplitIntoLines(text);
    JoinedLinesSplit(next);
    assert next == lines;
    assert next[b + 1..b + 1 + |body|] == body;
    assert |next| == b + 1 + |body| + |lines| - e;
  }

  lemma FreshSiteLists(mk: Markers, site: Site, records: seq<Record>)
    requires RecordsReady(records)
    requires Render(mk, site.sync, SyncRegion(Active(records))) == Some(site.sync)
    requires Render(mk, site.sidebar, SidebarRegion(Active(records))) == Some(site.sidebar)
    ensures Lists(mk, site, records)
  {
    hide Render, Body, SyncRegion, SidebarRegion, ReadPages, ReadSidebar, PagesOf, EntriesOf, AreThose, Loaded;
    var listed := Active(records);
    ActiveLines(records);
    SelectedInOrder(records, false);
    RenderedHoldsBody(mk, site.sync, SyncRegion(listed));
    RenderedHoldsBody(mk, site.sidebar, SidebarRegion(listed));
    SyncReads(listed);
    NothingReads();
    SidebarReads(listed, []);
    assert SidebarRegion(listed) + [] == SidebarRegion(listed);
    var pages := ReadSidebar(SidebarRegion(listed)).value;
    assert pages[..|listed|] == pages;
    assert ListsThese(mk, site, listed);
  }

  lemma NothingReads()
    ensures ReadSidebar([]) == Some([])
  {
  }

  /** Where the check passes, both regions list exactly the active records, in order. */
  lemma HealthySiteLists(mk: Markers, site: Site, records: seq<Record>)
    requires RecordsReady(records) && Healthy(mk, site, records)
    ensures Lists(mk, site, records)
  {
    hide Render, Lists, RecordsReady, SyncRegion, SidebarRegion, TablePasses;
    FreshSiteLists(mk, site, records);
  }

  /** What generating leaves lists exactly the active records, in order, whenever the regions last. */
  lemma GeneratedSiteLists(mk: Markers, site: Site, records: seq<Record>)
    requires SiteReady(mk, site) && RecordsReady(records) && RegionsLast(mk, site, records)
    ensures Generated(mk, site, records).Ok? && Lists(mk, Generated(mk, site, records).value, records)
  {
    hide Render, Lists, RecordsReady, SyncRegion, SidebarRegion, RegionsLast, SiteReady, GeneratedReadme, GeneratedLog, Healthy,
         Checkable, NoCellBreaks, AllFlush, NoStrayFileNames;
    GenerateThenCheckExactly(mk, site, records);
    FreshSiteLists(mk, Generated(mk, site, records).value, records);
  }

  // ----- how long an entry is

  /** An entry takes one line exactly when that line has at most a hundred characters. */
  lemma EntryIsShortExactly(r: Record)
    ensures var name, stem := r.number + " \U{2014} " + r.title, if |r.filename| < 3 then "" else r.filename[..|r.filename| - 3];
            |SidebarEntry(r)| == 1 <==> |JsEscape(name)| + |JsEscape("adr/" + stem)| <= 60
  {
    hide JsEscape;
  }

  // ----- the text of rows and headers

  function Cell(t: string): (r: string) {
    " " + t + " |"
  }

  function CellTexts(cells: seq<string>): (r: string) {
    if cells == [] then "" else CellTexts(cells[..|cells| - 1]) + Cell(cells[|cells| - 1])
  }

  lemma {:induction false} InsideIsCells(cells: seq<string>)
    requires cells != []
    ensures Inside(cells) + "|" == CellTexts(cells)
    decreases |cells|
  {
    if |cells| == 1 {
      assert cells[..0] == [] && "" + Cell(cells[0]) == Cell(cells[0]);
    } else {
      InsideIsCells(cells[1..]);
      CellsInFront(cells);
      assert Inside(cells) + "|" == Cell(cells[0]) + (Inside(cells[1..]) + "|");
    }
  }

  lemma {:induction false} CellsInFront(cells: seq<string>)
    requires cells != []
    ensures CellTexts(cells) == Cell(cells[0]) + CellTexts(cells[1..])
    decreases |cells|
  {
    hide Cell;
    var n := |cells| - 1;
    if n == 0 {
      assert cells[..0] == [] && cells[1..] == [];
      assert "" + Cell(cells[0]) == Cell(cells[0]) + "";
    } else {
      CellsInFront(cells[..n]);
      assert cells[..n][1..] == cells[1..][..n - 1] && cells[1..][n - 1] == cells[n];
      assert CellTexts(cells[1..]) == CellTexts(cells[1..][..n - 1]) + Cell(cells[n]);
    }
  }

  lemma RowIsCells(cells: seq<string>)
    requires cells != []
    ensures PrintRow(cells) == "|" + CellTexts(cells)
  {
    hide Inside, CellTexts;
    InsideIsCells(cells);
  }

  lemma CellsText3(a: string, b: string, c: string)
    ensures CellTexts([a, b, c]) == Cell(a) + Cell(b) + Cell(c)
  {
    hide Cell;
    assert [a, b, c][..2] == [a, b] && [a, b][..1] == [a] && [a][..0] == [];
    assert CellTexts([a]) == "" + Cell(a) == Cell(a);
    assert CellTexts([a, b]) == CellTexts([a]) + Cell(b);
  }

  lemma CellsText4(a: string, b: string, c: string, d: string)
    ensures CellTexts([a, b, c, d]) == Cell(a) + Cell(b) + Cell(c) + Cell(d)
  {
    hide Cell;
    CellsText3(a, b, c);
    assert [a, b, c, d][..3] == [a, b, c];
  }

  lemma CellsText5(a: string, b: string, c: string, d: string, e: string)
    ensures CellTexts([a, b, c, d, e]) == Cell(a) + Cell(b) + Cell(c) + Cell(d) + Cell(e)
  {
    hide Cell;
    CellsText4(a, b, c, d);
    assert [a, b, c, d, e][..4] == [a, b, c, d];
  }

  /** The headers as they stand in the files. */
  lemma HeaderTexts()
    ensures Header(Live) == "|" + (Cell("ADR") + Cell("Title") + Cell("File"))
    ensures Header(Dead) == "|" + (Cell("ADR") + Cell("Title") + Cell("Superseded by") + Cell("File"))
    ensures Header(Log) == "|" + (Cell("ADR") + Cell("Title") + Cell("Status") + Cell("Revisit when") + Cell("Path"))
  {
    hide PrintRow, Cell, CellTexts;
    RowIsCells(Columns(Live));
    RowIsCells(Columns(Dead));
    RowIsCells(Columns(Log));
    CellsText3("ADR", "Title", "File");
    CellsText4("ADR", "Title", "Superseded by", "File");
    CellsText5("ADR", "Title", "Status", "Revisit when", "Path");
  }

  function Place(r: Record): (t: string) {
    (if r.superseded then "superseded/" else "") + r.filename
  }

  /** The rows as they stand in the files. */
  lemma RowTexts(r: Record)
    ensures var p, n := Place(r), Cell(r.number);
            var titled, coded := Cell("[" + r.title + "](" + p + ")"), Cell("`" + p + "`");
            && PrintRow(Cells(Live, r)) == "|" + (n + titled + coded)
            && PrintRow(Cells(Dead, r)) == "|" + (n + titled + Cell("ADR " + r.supersededBy) + coded)
  {
    hide PrintRow, Cell, CellTexts;
    assert r.Path() == Place(r);
    var link, code := "[" + r.title + "](" + Place(r) + ")", "`" + Place(r) + "`";
    RowIsCells(Cells(Live, r));
    RowIsCells(Cells(Dead, r));
    CellsText3(r.number, link, code);
    CellsText4(r.number, link, "ADR " + r.supersededBy, code);
  }

  lemma LogRowText(r: Record)
    ensures var p := "../../adr/" + Place(r);
            PrintRow(Cells(Log, r))
            == "|" + (Cell(r.number) + Cell(r.title) + Cell(r.status) + Cell(r.revisitWhen) + Cell("[" + ("`" + p + "`") + "](" + p + ")"))
  {
    hide PrintRow, Cell, CellTexts;
    assert r.Path() == Place(r);
    var p := "../../adr/" + Place(r);
    RowIsCells(Cells(Log, r));
    CellsText5(r.number, r.title, r.status, r.revisitWhen, "[" + ("`" + p + "`") + "](" + p + ")");
  }
}
