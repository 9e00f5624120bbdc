/** The four generated indexes together: generate, then check (scripts/ci/adr-index.py). */
module AdrSite {
  import opened Results
  import opened PyText
  import opened AdrRows
  import opened AdrTables
  import opened AdrCompare
  import opened AdrRegions
  import opened AdrIndex
  import opened AdrGenerate
  import opened AdrRoundTrip

  /** The texts of the publication list, the sidebar, the primary index and the engineering log. */
  datatype Site = Site(sync: string, sidebar: string, readme: string, log: string)

  function Selected(records: seq<Record>, superseded: bool): (r: seq<Record>)
    ensures forall x :: x in r <==> x in records && x.superseded == superseded
  {
    if records == [] then [] else
      var last := records[|records| - 1];
      Selected(records[..|records| - 1], superseded) + if last.superseded == superseded then [last] else []
  }

  function Active(records: seq<Record>): (r: seq<Record>) {
    Selected(records, false)
  }

  function Retired(records: seq<Record>): (r: seq<Record>) {
    Selected(records, true)
  }

  // ----- regions

  function JsEscape(t: string): (r: string) {
    if t == [] then [] else (if t[0] == '\\' || t[0] == '\'' then ['\\', t[0]] else [t[0]]) + JsEscape(t[1..])
  }

  function JsString(t: string): (r: string) {
    "'" + JsEscape(t) + "'"
  }

  function Spaces(n: nat): (r: string) {
    seq(n, _ => ' ')
  }

  function SyncRegion(records: seq<Record>): (r: seq<string>) {
    if records == [] then [] else
      SyncRegion(records[..|records| - 1]) + [Spaces(2) + JsString("adr/" + records[|records| - 1].filename) + ","]
  }

  /** One sidebar entry, on one line when it fits in a hundred columns. */
  function SidebarEntry(r: Record): (lines: seq<string>)
  {
    var name := JsString(r.number + " \U{2014} " + r.title);
    var stem := if |r.filename| < 3 then "" else r.filename[..|r.filename| - 3];
    var slug := JsString("adr/" + stem);
    var single := Spaces(16) + "{ label: " + name + ", slug: " + slug + " },";
    if |single| <= 100 then [single]
    else [Spaces(16) + "{", Spaces(16) + "  label: " + name + ",", Spaces(16) + "  slug: " + slug + ",", Spaces(16) + "},"]
  }

  function SidebarRegion(records: seq<Record>): (r: seq<string>) {
    if records == [] then [] else SidebarRegion(records[..|records| - 1]) + SidebarEntry(records[|records| - 1])
  }

  // ----- generate

  function GeneratedReadme(text: string, records: seq<Record>): (r: Result<string, AdrError>) {
    var first := Rewritten(text, Header(Live), 0, RowLines(Live, Active(records)));
    if first.Err? then first else Rewritten(first.value, Header(Dead), 0, RowLines(Dead, Retired(records)))
  }

  function GeneratedLog(text: string, records: seq<Record>): (r: Result<string, AdrError>) {
    var first := Rewritten(text, Header(Log), 0, RowLines(Log, Active(records)));
    if first.Err? then first else Rewritten(first.value, Header(Log), 1, RowLines(Log, Retired(records)))
  }

  function Generated(mk: Markers, site: Site, records: seq<Record>): (r: Result<Site, AdrError>) {
    var sync := Render(mk, site.sync, SyncRegion(Active(records)));
    var sidebar := Render(mk, site.sidebar, SidebarRegion(Active(records)));
    if sync.None? || sidebar.None? then Err(NoRegion) else
      var readme := GeneratedReadme(site.readme, records);
      if readme.Err? then Err(readme.error) else
        var log := GeneratedLog(site.log, records);
        if log.Err? then Err(log.error) else Ok(Site(sync.value, sidebar.value, readme.value, log.value))
  }

  // ----- check

  ghost function OnDisk(kind: Kind, records: seq<Record>): (r: set<string>) {
    set r | r in records :: if kind == Log then r.LogPath() else r.Path()
  }

  /** The table reads, and agrees with its records. */
  ghost predicate TablePasses(text: string, kind: Kind, which: nat, total: nat, listed: seq<Record>, records: seq<Record>)
    requires which < total
  {
    var rows := ReadTable(text, kind, which, total);
    rows.Ok? && Agrees(rows.value, ExpectedAll(kind, listed), OnDisk(kind, records))
  }

  ghost predicate TablesRead(site: Site) {
    && ReadTable(site.readme, Live, 0, 1).Ok? && ReadTable(site.readme, Dead, 0, 1).Ok?
    && ReadTable(site.log, Log, 0, 2).Ok? && ReadTable(site.log, Log, 1, 2).Ok?
  }

  /** All four tables and both regions are as the records say. */
  ghost predicate Healthy(mk: Markers, site: Site, records: seq<Record>) {
    && TablePasses(site.readme, Live, 0, 1, Active(records), records)
    && TablePasses(site.readme, Dead, 0, 1, Retired(records), records)
    && TablePasses(site.log, Log, 0, 2, Active(records), records)
    && TablePasses(site.log, Log, 1, 2, Retired(records), records)
    && Render(mk, site.sync, SyncRegion(Active(records))) == Some(site.sync)
    && Render(mk, site.sidebar, SidebarRegion(Active(records))) == Some(site.sidebar)
  }

  // ----- templates that can be filled

  ghost predicate ReadmeReady(text: string) {
    var lines := SplitLines(text);
    && WellFormed(lines, Headers({Live, Dead}))
    && |Tables(lines, Header(Live))| == 1 && |Tables(lines, Header(Dead))| == 1
  }

  ghost predicate LogReady(text: string) {
    WellFormed(SplitLines(text), Headers({Log})) && |Tables(SplitLines(text), Header(Log))| == 2
  }

  ghost predicate RegionReady(mk: Markers, text: string) {
    Region(SplitLines(text), mk).Some?
  }

  /** Both regions are marked, and every table is there and well formed. */
  ghost predicate SiteReady(mk: Markers, site: Site) {
    RegionReady(mk, site.sync) && RegionReady(mk, site.sidebar) && ReadmeReady(site.readme) && LogReady(site.log)
  }

  /** The markers are on two lines, and the new body holds neither. */
  ghost predicate RegionLasts(mk: Markers, text: string, body: seq<string>) {
    var region := Region(SplitLines(text), mk);
    region.Some? && region.value.0 < region.value.1 && MarkerFree(body, mk)
  }

  ghost predicate RegionsLast(mk: Markers, site: Site, records: seq<Record>) {
    && RegionLasts(mk, site.sync, SyncRegion(Active(records)))
    && RegionLasts(mk, site.sidebar, SidebarRegion(Active(records)))
  }

  ghost predicate RecordsReady(records: seq<Record>) {
    Distinct(records) && forall r :: r in records ==> Loaded(r)
  }

  // ----- after generating

  lemma SelectedFits(kind: Kind, records: seq<Record>, superseded: bool)
    requires RecordsReady(records) && (kind == Dead ==> superseded)
    ensures Fits(kind, Selected(records, superseded)) && Distinct(Selected(records, superseded))
  {
    hide Loaded;
    SelectedDistinct(records, superseded);
    var some := Selected(records, superseded);
    assert forall i :: 0 <= i < |some| ==> some[i] in some;
  }

  lemma {:induction false} SelectedDistinct(records: seq<Record>, superseded: bool)
    requires Distinct(records)
    ensures Distinct(Selected(records, superseded))
    decreases |records|
  {
    if records != [] {
      var n := |records| - 1;
      var some := Selected(records[..n], superseded);
      SelectedDistinct(records[..n], superseded);
      forall i | 0 <= i < |some|
        ensures some[i].number != records[n].number
      {
        assert some[i] in records[..n];
      }
    }
  }

  lemma ReadmeGenerated(text: string, records: seq<Record>)
    requires ReadmeReady(text) && RecordsReady(records)
    ensures GeneratedReadme(text, records).Ok?
    ensures var next := GeneratedReadme(text, records).value;
            && ReadmeReady(next) && GeneratedReadme(next, records) == Ok(next)
            && Tables(SplitLines(next), Header(Live)) == [RowLines(Live, Active(records))]
            && Tables(SplitLines(next), Header(Dead)) == [RowLines(Dead, Retired(records))]
  {
    hide SplitLines, Tables, WellFormed, Header, Rewritten, RecordsReady, Selected, Fits, Headers, RowLines;
    SelectedFits(Live, records, false);
    SelectedFits(Dead, records, true);
    var live, dead := Active(records), Retired(records);
    JobDone(text, {Live, Dead}, Live, 0, live, Live);
    JobDone(text, {Live, Dead}, Live, 0, live, Dead);
    var first := Rewritten(text, Header(Live), 0, RowLines(Live, live)).value;
    JobDone(first, {Live, Dead}, Dead, 0, dead, Live);
    JobDone(first, {Live, Dead}, Dead, 0, dead, Dead);
    var next := Rewritten(first, Header(Dead), 0, RowLines(Dead, dead)).value;
    JobIdle(next, {Live, Dead}, Live, 0, live);
    JobIdle(next, {Live, Dead}, Dead, 0, dead);
  }

  lemma LogGenerated(text: string, records: seq<Record>)
    requires LogReady(text) && RecordsReady(records)
    ensures GeneratedLog(text, records).Ok?
    ensures var next := GeneratedLog(text, records).value;
            && LogReady(next) && GeneratedLog(next, records) == Ok(next)
            && Tables(SplitLines(next), Header(Log)) == [RowLines(Log, Active(records)), RowLines(Log, Retired(records))]
  {
    hide SplitLines, Tables, WellFormed, Header, Rewritten, RecordsReady, Selected, Fits, Headers, RowLines;
    SelectedFits(Log, records, false);
    SelectedFits(Log, records, true);
    var live, dead := Active(records), Retired(records);
    JobDone(text, {Log}, Log, 0, live, Log);
    var first := Rewritten(text, Header(Log), 0, RowLines(Log, live)).value;
    JobDone(first, {Log}, Log, 1, dead, Log);
    var next := Rewritten(first, Header(Log), 1, RowLines(Log, dead)).value;
    JobIdle(next, {Log}, Log, 0, live);
    JobIdle(next, {Log}, Log, 1, dead);
  }

  /** A rendered region can be rendered again exactly when it lasts, and then nothing changes. */
  lemma RegionRendered(mk: Markers, text: string, body: seq<string>)
    requires RegionReady(mk, text) && AllLines(body)
    ensures Render(mk, text, body).Some?
    ensures var next := Render(mk, text, body).value;
            && (RegionReady(mk, next) <==> RegionLasts(mk, text, body))
            && (RegionReady(mk, next) ==> RegionLasts(mk, next, body) && Render(mk, next, body) == Some(next))
  {
    hide SplitLines, JoinLines, Region, MarkerFree, OneLine;
    var lines := SplitLines(text);
    RegionBounds(lines, mk);
    var b, e := Region(lines, mk).value.0, Region(lines, mk).value.1;
    RefilledRegionExactly(lines, mk, b, e, body);
    SplitIntoLines(text);
    JoinedLinesSplit(Refilled(lines, b, e, body));
  }

  lemma RenderExactly(mk: Markers, text: string, body: seq<string>)
    ensures Render(mk, text, body).Some? <==> RegionReady(mk, text)
  {
    hide SplitLines, JoinLines, Region, Refilled;
  }

  lemma {:induction false} EscapeIsLine(t: string)
    requires OneLine(t)
    ensures OneLine(JsEscape(t))
  {
    if t != [] {
      EscapeIsLine(t[1..]);
    }
  }

  lemma StringIsLine(t: string)
    requires OneLine(t)
    ensures OneLine(JsString(t))
  {
    EscapeIsLine(t);
  }

  lemma NameIsLine(name: string)
    requires forall i :: 0 <= i < |name| ==> IsNameChar(name[i])
    ensures OneLine("adr/" + name)
  {
  }

  lemma LabelIsLine(number: string, title: string)
    requires (forall i :: 0 <= i < |number| ==> IsDigit(number[i])) && OneLine(title)
    ensures OneLine(number + " \U{2014} " + title)
  {
  }

  lemma EntryIsLines(name: string, slug: string)
    requires OneLine(name) && OneLine(slug)
    ensures OneLine(Spaces(16) + "{ label: " + name + ", slug: " + slug + " },")
    ensures OneLine(Spaces(16) + "{") && OneLine(Spaces(16) + "},")
    ensures OneLine(Spaces(16) + "  label: " + name + ",") && OneLine(Spaces(16) + "  slug: " + slug + ",")
  {
  }

  lemma SidebarEntryIsLines(r: Record)
    requires Loaded(r)
    ensures AllLines(SidebarEntry(r))
  {
    hide OneLine, JsString, IsNameChar, IsDigit, Spaces, Trimmed;
    var stem := if |r.filename| < 3 then "" else r.filename[..|r.filename| - 3];
    NameIsLine(stem);
    LabelIsLine(r.number, r.title);
    StringIsLine("adr/" + stem);
    StringIsLine(r.number + " \U{2014} " + r.title);
    EntryIsLines(JsString(r.number + " \U{2014} " + r.title), JsString("adr/" + stem));
  }

  lemma {:induction false} RegionsAreLines(records: seq<Record>)
    requires forall r :: r in records ==> Loaded(r)
    ensures AllLines(SyncRegion(records)) && AllLines(SidebarRegion(records))
    decreases |records|
  {
    hide Loaded, OneLine, JsString, SidebarEntry, Spaces;
    if records != [] {
      var last := records[|records| - 1];
      RegionsAreLines(records[..|records| - 1]);
      SidebarEntryIsLines(last);
      SyncEntryIsLine(last);
    }
  }

  lemma SyncEntryIsLine(r: Record)
    requires Loaded(r)
    ensures OneLine(Spaces(2) + JsString("adr/" + r.filename) + ",")
  {
    hide IsNameChar, IsDigit, JsString, Trimmed, IsFileName;
    NameIsLine(r.filename);
    StringIsLine("adr/" + r.filename);
  }

  ghost predicate HasTable(text: string, kind: Kind, which: nat, total: nat, rows: seq<string>) {
    var tables := Tables(SplitLines(text), Header(kind));
    which < total == |tables| && tables[which] == rows
  }

  /** The table reads exactly when every title and trigger in it keeps to one cell. */
  lemma GeneratedTableReads(text: string, kind: Kind, which: nat, total: nat, listed: seq<Record>)
    requires Fits(kind, listed) && HasTable(text, kind, which, total, RowLines(kind, listed))
    ensures ReadTable(text, kind, which, total).Ok? <==> forall i :: 0 <= i < |listed| ==> OneCell(kind, listed[i])
  {
    hide SplitLines, Tables, Header, Fits, RowsComplete, RowLines, OneCell;
    RowsCompleteExactly(kind, listed);
  }

  /** A table of tidy titles reads back as its records, and passes exactly when every file name in it exists. */
  lemma GeneratedTablePasses(text: string, kind: Kind, which: nat, total: nat, listed: seq<Record>, records: seq<Record>)
    requires Fits(kind, listed) && Distinct(listed) && HasTable(text, kind, which, total, RowLines(kind, listed))
    requires forall i :: 0 <= i < |listed| ==> OneCell(kind, listed[i]) && Flush(listed[i])
    ensures TablePasses(text, kind, which, total, listed, records) <==> NamesExist(kind, listed, OnDisk(kind, records))
  {
    hide SplitLines, Tables, Header, Fits, Agrees, NamesExist, RowsComplete, RowLines, OneCell, Flush;
    RowsReadBack(kind, listed);
    ListedAgreesExactly(kind, listed, OnDisk(kind, records));
  }

  /** A title that begins with a blank keeps the log's table from passing. */
  lemma BlankTitleFailsTable(text: string, which: nat, total: nat, listed: seq<Record>, k: nat, records: seq<Record>)
    requires Fits(Log, listed) && Distinct(listed) && HasTable(text, Log, which, total, RowLines(Log, listed))
    requires k < |listed| && !Flush(listed[k])
    ensures !TablePasses(text, Log, which, total, listed, records)
  {
    hide SplitLines, Tables, Header, Fits, Agrees, RowsComplete, RowLines, OneCell, Flush, OnDisk;
    GeneratedTableReads(text, Log, which, total, listed);
    if forall i :: 0 <= i < |listed| ==> OneCell(Log, listed[i]) {
      BlankTitleDiffers(listed, k, OnDisk(Log, records));
    }
  }

  /** No title looks like a Markdown file, and triggers only like one that exists. */
  ghost predicate NoStrayFileNames(records: seq<Record>) {
    forall r :: r in records ==>
      !IsFileName(r.title) && (IsFileName(r.revisitWhen) ==> exists q :: q in records && r.revisitWhen == q.LogPath())
  }

  lemma PathExists(kind: Kind, records: seq<Record>, r: Record)
    requires r in records
    ensures kind == Log ==> r.LogPath() in OnDisk(kind, records)
    ensures kind != Log ==> r.Path() in OnDisk(kind, records)
  {
  }

  /** A title cannot be a path in both indexes. */
  lemma PathsApart(kind: Kind, records: seq<Record>, t: string)
    requires RecordsReady(records) && t in OnDisk(kind, records)
    ensures t != [] && (kind == Log <==> t[0] == '.')
  {
    hide Loaded;
    var r :| r in records && t == if kind == Log then r.LogPath() else r.Path();
    PathsArePlain(r);
  }

  lemma LogNames(records: seq<Record>, r: Record)
    requires RecordsReady(records) && r in records
    ensures (forall t :: t in Expected(Log, r).fields && IsFileName(t) ==> t in OnDisk(Log, records))
       <==> (IsFileName(r.title) ==> r.title in OnDisk(Log, records))
            && (IsFileName(r.revisitWhen) ==> r.revisitWhen in OnDisk(Log, records))
  {
    hide IsFileName, OnDisk, Trimmed, OneLine, IsNameChar, IsDigit;
    PathExists(Log, records, r);
    assert Loaded(r);
    var fields := Expected(Log, r).fields;
    assert fields[0] == r.title && fields[2] == r.revisitWhen;
  }

  lemma IndexNames(kind: Kind, records: seq<Record>, r: Record)
    requires RecordsReady(records) && r in records && kind != Log && Belongs(kind, r)
    ensures (forall t :: t in Expected(kind, r).fields && IsFileName(t) ==> t in OnDisk(kind, records))
       <==> (IsFileName(r.title) ==> r.title in OnDisk(kind, records))
  {
    hide IsFileName, OnDisk, Trimmed, OneLine, IsNameChar, IsDigit;
    PathExists(kind, records, r);
    assert Loaded(r);
    if kind == Dead {
      SuccessorFits(r.supersededBy);
    }
    var fields := Expected(kind, r).fields;
    assert fields[0] == r.title;
  }

  /** Taken over all four tables, the file names all exist exactly when no title or trigger strays. */
  lemma NamesExistExactly(records: seq<Record>)
    requires RecordsReady(records)
    ensures NoStrayFileNames(records) <==>
            && NamesExist(Live, Active(records), OnDisk(Live, records)) && NamesExist(Dead, Retired(records), OnDisk(Dead, records))
            && NamesExist(Log, Active(records), OnDisk(Log, records)) && NamesExist(Log, Retired(records), OnDisk(Log, records))
  {
    hide Expected, IsFileName, OnDisk, RecordsReady, Selected;
    forall r | r in records
      ensures var kind := if r.superseded then Dead else Live;
              (forall t :: t in Expected(kind, r).fields && IsFileName(t) ==> t in OnDisk(kind, records))
              && (forall t :: t in Expected(Log, r).fields && IsFileName(t) ==> t in OnDisk(Log, records))
              <==> !IsFileName(r.title) && (IsFileName(r.revisitWhen) ==> exists q :: q in records && r.revisitWhen == q.LogPath())
    {
      OneRecordNames(records, r);
    }
    NamesInSelection(Live, records, false);
    NamesInSelection(Dead, records, true);
    NamesInSelection(Log, records, false);
    NamesInSelection(Log, records, true);
  }

  lemma NamesInSelection(kind: Kind, records: seq<Record>, superseded: bool)
    ensures NamesExist(kind, Selected(records, superseded), OnDisk(kind, records)) <==>
            forall r, t :: r in records && r.superseded == superseded && t in Expected(kind, r).fields && IsFileName(t) ==>
              t in OnDisk(kind, records)
  {
    hide Expected, IsFileName, OnDisk;
    var some := Selected(records, superseded);
    assert forall r :: r in some <==> exists i :: 0 <= i < |some| && some[i] == r;
  }

  lemma OneRecordNames(records: seq<Record>, r: Record)
    requires RecordsReady(records) && r in records
    ensures var kind := if r.superseded then Dead else Live;
            (forall t :: t in Expected(kind, r).fields && IsFileName(t) ==> t in OnDisk(kind, records))
            && (forall t :: t in Expected(Log, r).fields && IsFileName(t) ==> t in OnDisk(Log, records))
            <==> !IsFileName(r.title) && (IsFileName(r.revisitWhen) ==> exists q :: q in records && r.revisitWhen == q.LogPath())
  {
    hide Expected, IsFileName, RecordsReady;
    var kind := if r.superseded then Dead else Live;
    LogNames(records, r);
    IndexNames(kind, records, r);
    if r.title in OnDisk(kind, records) {
      PathsApart(kind, records, r.title);
    }
    if r.title in OnDisk(Log, records) {
      PathsApart(Log, records, r.title);
    }
  }

  /** The check can be carried out: every table and both regions can be found. */
  ghost predicate Checkable(mk: Markers, site: Site) {
    TablesRead(site) && RegionReady(mk, site.sync) && RegionReady(mk, site.sidebar)
  }

  /** No title or trigger holds a pipe. */
  predicate NoCellBreaks(records: seq<Record>) {
    forall r :: r in records ==> OneCell(Log, r)
  }

  /** No title begins with a blank. */
  predicate AllFlush(records: seq<Record>) {
    forall r :: r in records ==> Flush(r)
  }

  /**
   * Generating fills every index. A second run can then be carried out exactly when the regions last,
   * and changes nothing; a check, exactly when moreover no title or trigger holds a pipe. The check passes
   * exactly when also no title begins with a blank or looks like a Markdown file, and no trigger names
   * one that is not there.
   */
  lemma GenerateThenCheckExactly(mk: Markers, site: Site, records: seq<Record>)
    requires SiteReady(mk, site) && RecordsReady(records)
    ensures Generated(mk, site, records).Ok?
    ensures var next := Generated(mk, site, records).value;
            && (Generated(mk, next, records).Ok? <==> RegionsLast(mk, site, records))
            && (RegionsLast(mk, site, records) ==>
                  SiteReady(mk, next) && RegionsLast(mk, next, records) && Generated(mk, next, records) == Ok(next))
            && (Checkable(mk, next) <==> RegionsLast(mk, site, records) && NoCellBreaks(records))
            && (Healthy(mk, next, records) <==>
                  RegionsLast(mk, site, records) && NoCellBreaks(records) && AllFlush(records) && NoStrayFileNames(records))
  {
    hide RegionReady, RegionLasts, ReadmeReady, LogReady, RecordsReady, GeneratedReadme, GeneratedLog, Render, TablePasses,
         TablesRead, SyncRegion, SidebarRegion, NoStrayFileNames, NoCellBreaks, AllFlush, Selected;
    ActiveLines(records);
    var sync, sidebar := SyncRegion(Active(records)), SidebarRegion(Active(records));
    RegionRendered(mk, site.sync, sync);
    RegionRendered(mk, site.sidebar, sidebar);
    ReadmeGenerated(site.readme, records);
    LogGenerated(site.log, records);
    var next := Generated(mk, site, records).value;
    RenderExactly(mk, next.sync, sync);
    RenderExactly(mk, next.sidebar, sidebar);
    GeneratedTablesPass(site, next, records);
  }

  ghost predicate AllTablesPass(site: Site, records: seq<Record>) {
    && TablePasses(site.readme, Live, 0, 1, Active(records), records)
    && TablePasses(site.readme, Dead, 0, 1, Retired(records), records)
    && TablePasses(site.log, Log, 0, 2, Active(records), records)
    && TablePasses(site.log, Log, 1, 2, Retired(records), records)
  }

  /** The files hold the rows of the records. */
  ghost predicate Filled(site: Site, records: seq<Record>) {
    && HasTable(site.readme, Live, 0, 1, RowLines(Live, Active(records)))
    && HasTable(site.readme, Dead, 0, 1, RowLines(Dead, Retired(records)))
    && HasTable(site.log, Log, 0, 2, RowLines(Log, Active(records)))
    && HasTable(site.log, Log, 1, 2, RowLines(Log, Retired(records)))
  }

  lemma AllFit(records: seq<Record>)
    requires RecordsReady(records)
    ensures var live, dead := Active(records), Retired(records);
            && Fits(Live, live) && Fits(Dead, dead) && Fits(Log, live) && Fits(Log, dead) && Distinct(live) && Distinct(dead)
  {
    hide Fits, Distinct, RecordsReady, Selected;
    SelectedFits(Live, records, false);
    SelectedFits(Dead, records, true);
    SelectedFits(Log, records, false);
    SelectedFits(Log, records, true);
  }

  /** The tables of filled files read exactly when nothing breaks a cell. */
  lemma FilledTablesRead(site: Site, records: seq<Record>)
    requires Filled(site, records) && RecordsReady(records)
    ensures TablesRead(site) <==> NoCellBreaks(records)
  {
    hide HasTable, Fits, RecordsReady, Distinct, RowLines, ReadTable, Selected;
    AllFit(records);
    var live, dead := Active(records), Retired(records);
    GeneratedTableReads(site.readme, Live, 0, 1, live);
    GeneratedTableReads(site.readme, Dead, 0, 1, dead);
    GeneratedTableReads(site.log, Log, 0, 2, live);
    GeneratedTableReads(site.log, Log, 1, 2, dead);
    assert forall i :: 0 <= i < |live| ==> live[i] in live;
    assert forall i :: 0 <= i < |dead| ==> dead[i] in dead;
    if TablesRead(site) {
      forall r | r in records
        ensures OneCell(Log, r)
      {
        assert r in live || r in dead;
      }
    }
  }

  lemma TidyTablesPass(site: Site, records: seq<Record>)
    requires Filled(site, records) && RecordsReady(records) && NoCellBreaks(records) && AllFlush(records)
    ensures AllTablesPass(site, records) <==> NoStrayFileNames(records)
  {
    hide HasTable, Fits, RecordsReady, Distinct, RowLines, TablePasses, NoStrayFileNames, NamesExist, OnDisk, Flush, Selected;
    AllFit(records);
    var live, dead := Active(records), Retired(records);
    assert forall i :: 0 <= i < |live| ==> live[i] in live;
    assert forall i :: 0 <= i < |dead| ==> dead[i] in dead;
    GeneratedTablePasses(site.readme, Live, 0, 1, live, records);
    GeneratedTablePasses(site.readme, Dead, 0, 1, dead, records);
    GeneratedTablePasses(site.log, Log, 0, 2, live, records);
    GeneratedTablePasses(site.log, Log, 1, 2, dead, records);
    NamesExistExactly(records);
  }

  lemma BlankTitleFailsAll(site: Site, records: seq<Record>)
    requires Filled(site, records) && RecordsReady(records) && !AllFlush(records)
    ensures !AllTablesPass(site, records)
  {
    hide HasTable, Fits, RecordsReady, Distinct, RowLines, TablePasses, Flush, Selected;
    AllFit(records);
    var live, dead := Active(records), Retired(records);
    var r :| r in records && !Flush(r);
    if r in live {
      var k :| 0 <= k < |live| && live[k] == r;
      BlankTitleFailsTable(site.log, 0, 2, live, k, records);
    } else {
      assert r in dead;
      var k :| 0 <= k < |dead| && dead[k] == r;
      BlankTitleFailsTable(site.log, 1, 2, dead, k, records);
    }
  }

  lemma PassingTablesRead(site: Site, records: seq<Record>)
    requires AllTablesPass(site, records)
    ensures TablesRead(site)
  {
    hide ReadTable, Agrees, Selected;
  }

  /** When the generated tables read and pass. */
  lemma GeneratedTablesPass(site: Site, next: Site, records: seq<Record>)
    requires ReadmeReady(site.readme) && LogReady(site.log) && RecordsReady(records)
    requires GeneratedReadme(site.readme, records) == Ok(next.readme) && GeneratedLog(site.log, records) == Ok(next.log)
    ensures TablesRead(next) <==> NoCellBreaks(records)
    ensures AllTablesPass(next, records) <==> NoCellBreaks(records) && AllFlush(records) && NoStrayFileNames(records)
  {
    hide ReadmeReady, LogReady, RecordsReady, GeneratedReadme, GeneratedLog, TablesRead, AllTablesPass, NoStrayFileNames,
         NoCellBreaks, AllFlush, Selected, Tables, SplitLines, Header, RowLines;
    ReadmeGenerated(site.readme, records);
    LogGenerated(site.log, records);
    FilledTablesRead(next, records);
    if NoCellBreaks(records) && AllFlush(records) {
      TidyTablesPass(next, records);
    }
    if !AllFlush(records) {
      BlankTitleFailsAll(next, records);
    }
    if AllTablesPass(next, records) {
      PassingTablesRead(next, records);
    }
  }

  lemma ActiveLines(records: seq<Record>)
    requires RecordsReady(records)
    ensures AllLines(SyncRegion(Active(records))) && AllLines(SidebarRegion(Active(records)))
  {
    hide Loaded, SyncRegion, SidebarRegion;
    RegionsAreLines(Active(records));
  }
}
