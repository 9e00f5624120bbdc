/** The loops that rewrite and check the index files (scripts/ci/adr-index.py). */
module AdrRuns {
  import opened Results
  import opened PyText
  import opened AdrRows
  import opened AdrTables
  import opened AdrCompare
  import opened AdrRegions
  import opened AdrIndex
  import opened AdrGenerate
  import opened AdrSite
  import L = AdrListings

  // ----- rewriting one table

  function Behind(front: seq<string>, rest: Option<seq<string>>): (r: Option<seq<string>>) {
    if rest.None? then None else Some(front + rest.value)
  }

  lemma BehindOne(lines: seq<string>, header: string, which: nat, rows: seq<string>, index: nat, left: nat)
    requires index < |lines| && !(Strip(lines[index]) == header && left == 0)
    requires Replaced(lines, header, which, rows) == Behind(lines[..index], Replaced(lines[index..], header, left, rows))
    ensures Replaced(lines, header, which, rows) ==
            Behind(lines[..index + 1], Replaced(lines[index + 1..], header, if Strip(lines[index]) == header then left - 1 else left, rows))
  {
    hide Strip, Rest;
    var next := if Strip(lines[index]) == header then left - 1 else left;
    assert lines[index..][1..] == lines[index + 1..];
    var rest := Replaced(lines[index + 1..], header, next, rows);
    if rest.Some? {
      assert lines[..index] + ([lines[index]] + rest.value) == lines[..index + 1] + rest.value;
    }
  }

  /** Where the rows that start at `start` end. */
  method RowsEnd(lines: seq<string>, start: nat) returns (end: nat)
    requires start <= |lines|
    ensures start <= end <= |lines| && lines[end..] == Rest(lines[start..])
  {
    end := start;
    while end < |lines| && StartsWithPipe(lines[end])
      invariant start <= end <= |lines| && Rest(lines[end..]) == Rest(lines[start..])
    {
      assert lines[end..][1..] == lines[end + 1..];
      end := end + 1;
    }
  }

  method ReplaceTableBody(text: string, header: string, which: nat, rows: seq<string>)
    returns (r: Result<string, AdrError>, changed: bool)
    ensures r == Rewritten(text, header, which, rows)
    ensures changed <==> r.Ok? && Replaced(SplitLines(text), header, which, rows) != Some(SplitLines(text))
  {
    hide Strip, SplitLines, Replaced, Rest, JoinLines;
    var lines := SplitLines(text);
    var left := which;
    var index := 0;
    assert lines[..0] == [] && lines[0..] == lines;
    Unprefixed(Replaced(lines, header, which, rows));
    while index < |lines|
      invariant index <= |lines|
      invariant Replaced(lines, header, which, rows) == Behind(lines[..index], Replaced(lines[index..], header, left, rows))
    {
      if Strip(lines[index]) == header && left == 0 {
        var start := if index + 2 <= |lines| then index + 2 else |lines|;
        var end := RowsEnd(lines, start);
        FoundTable(lines, header, rows, index, start, end);
        var next := lines[..start] + rows + lines[end..];
        changed := lines[start..end] != rows;
        SameBody(lines, start, end, rows);
        r := Ok(if changed then JoinLines(next + [""]) else text);
        return;
      }
      BehindOne(lines, header, which, rows, index, left);
      if Strip(lines[index]) == header {
        left := left - 1;
      }
      index := index + 1;
    }
    NoneLeft(lines[index..], header, left, rows);
    return Err(NoTable), false;
  }

  lemma Unprefixed(r: Option<seq<string>>)
    ensures Behind([], r) == r
  {
    assert r.Some? ==> [] + r.value == r.value;
  }

  lemma NoneLeft(lines: seq<string>, header: string, which: nat, rows: seq<string>)
    requires lines == []
    ensures Replaced(lines, header, which, rows).None?
  {
  }

  lemma FoundTable(lines: seq<string>, header: string, rows: seq<string>, index: nat, start: nat, end: nat)
    requires index < |lines| && Strip(lines[index]) == header
    requires start == if index + 2 <= |lines| then index + 2 else |lines|
    requires start <= end <= |lines| && lines[end..] == Rest(lines[start..])
    ensures Behind(lines[..index], Replaced(lines[index..], header, 0, rows)) == Some(lines[..start] + rows + lines[end..])
  {
    hide Strip, Rest;
    var here := lines[index..];
    assert Below(here) == lines[start..];
    var k := if |here| < 2 then |here| else 2;
    assert lines[..index] + (here[..k] + rows + lines[end..]) == lines[..start] + rows + lines[end..];
  }

  lemma SameBody(lines: seq<string>, start: nat, end: nat, rows: seq<string>)
    requires start <= end <= |lines|
    ensures lines[..start] + rows + lines[end..] == lines <==> lines[start..end] == rows
  {
    var next := lines[..start] + rows + lines[end..];
    if next == lines {
      assert next[start..start + |rows|] == rows;
    }
    if lines[start..end] == rows {
      assert lines == lines[..start] + lines[start..end] + lines[end..];
    }
  }

  // ----- generating

  function InReadme(site: Site, text: Result<string, AdrError>): (r: Result<Site, AdrError>) {
    if text.Err? then Err(text.error) else Ok(site.(readme := text.value))
  }

  function InLog(site: Site, text: Result<string, AdrError>): (r: Result<Site, AdrError>) {
    if text.Err? then Err(text.error) else Ok(site.(log := text.value))
  }

  /** The files after the `n`-th of the six writes. */
  function Written(mk: Markers, site: Site, records: seq<Record>, n: nat): (r: Result<Site, AdrError>)
    requires n < 6
  {
    if n == 0 then
      var sync := Render(mk, site.sync, SyncRegion(Active(records)));
      if sync.None? then Err(NoRegion) else Ok(site.(sync := sync.value))
    else if n == 1 then
      var sidebar := Render(mk, site.sidebar, SidebarRegion(Active(records)));
      if sidebar.None? then Err(NoRegion) else Ok(site.(sidebar := sidebar.value))
    else if n == 2 then InReadme(site, Rewritten(site.readme, Header(Live), 0, RowLines(Live, Active(records))))
    else if n == 3 then InReadme(site, Rewritten(site.readme, Header(Dead), 0, RowLines(Dead, Retired(records))))
    else if n == 4 then InLog(site, Rewritten(site.log, Header(Log), 0, RowLines(Log, Active(records))))
    else InLog(site, Rewritten(site.log, Header(Log), 1, RowLines(Log, Retired(records))))
  }

  /** The files after the first `n` writes, if none of them is refused. */
  function After(mk: Markers, site: Site, records: seq<Record>, n: nat): (r: Result<Site, AdrError>)
    requires n <= 6
  {
    if n == 0 then Ok(site) else
      var before := After(mk, site, records, n - 1);
      if before.Err? then before else Written(mk, before.value, records, n - 1)
  }

  /** A run that stopped behind `n` writes: at the end, or where the next one is refused. */
  ghost predicate Stopped(mk: Markers, site: Site, records: seq<Record>, n: nat, after: Site, error: Option<AdrError>) {
    && n <= 6 && After(mk, site, records, n) == Ok(after) && (error.None? <==> n == 6)
    && (error.Some? ==> Written(mk, after, records, n) == Err(error.value))
  }

  /** The order of the writes is the order of the files, so a run that stopped left the later files alone. */
  lemma LaterFilesUntouched(mk: Markers, site: Site, records: seq<Record>, n: nat)
    requires n <= 6 && After(mk, site, records, n).Ok?
    ensures var after := After(mk, site, records, n).value;
            && (n == 0 ==> after.sync == site.sync) && (n <= 1 ==> after.sidebar == site.sidebar)
            && (n <= 2 ==> after.readme == site.readme) && (n <= 4 ==> after.log == site.log)
            && (n >= 1 ==> Render(mk, site.sync, SyncRegion(Active(records))) == Some(after.sync))
            && (n >= 2 ==> Render(mk, site.sidebar, SidebarRegion(Active(records))) == Some(after.sidebar))
            && (n >= 4 ==> GeneratedReadme(site.readme, records) == Ok(after.readme))
            && (n >= 6 ==> GeneratedLog(site.log, records) == Ok(after.log))
    decreases n
  {
    hide Render, Rewritten, Header, RowLines, Selected, SyncRegion, SidebarRegion;
    if n > 0 {
      LaterFilesUntouched(mk, site, records, n - 1);
      if n == 4 || n == 6 {
        LaterFilesUntouched(mk, site, records, n - 2);
      }
    }
  }

  /** A refused write is refused wherever the run began, and the whole run is refused with it. */
  lemma {:induction false} StoppedIsRefused(mk: Markers, site: Site, records: seq<Record>, n: nat, error: AdrError, m: nat)
    requires n < m <= 6 && After(mk, site, records, n).Ok? && Written(mk, After(mk, site, records, n).value, records, n) == Err(error)
    ensures After(mk, site, records, m) == Err(error)
    decreases m
  {
    hide Written;
    if m > n + 1 {
      StoppedIsRefused(mk, site, records, n, error, m - 1);
    }
  }

  /** Six writes in a row are the generated files. */
  lemma SixWritesGenerate(mk: Markers, site: Site, records: seq<Record>)
    ensures After(mk, site, records, 6) == Generated(mk, site, records)
  {
    hide Render, Rewritten, Header, RowLines, Selected, SyncRegion, SidebarRegion;
    var one, two := After(mk, site, records, 1), After(mk, site, records, 2);
    var three, four := After(mk, site, records, 3), After(mk, site, records, 4);
    var five := After(mk, site, records, 5);
    assert After(mk, site, records, 0) == Ok(site);
    assert one == Written(mk, site, records, 0);
    assert two == if one.Err? then one else Written(mk, one.value, records, 1);
    assert three == if two.Err? then two else Written(mk, two.value, records, 2);
    assert four == if three.Err? then three else Written(mk, three.value, records, 3);
    assert five == if four.Err? then four else Written(mk, four.value, records, 4);
    assert After(mk, site, records, 6) == if five.Err? then five else Written(mk, five.value, records, 5);
  }

  /** Writes the files one by one, and stops at the first that cannot be written. */
  method Generate(mk: Markers, site: Site, records: seq<Record>) returns (after: Site, error: Option<AdrError>)
    ensures Generated(mk, site, records) == if error.None? then Ok(after) else Err(error.value)
    ensures exists n: nat :: Stopped(mk, site, records, n, after, error)
    ensures SiteReady(mk, site) && RecordsReady(records) ==> error.None?
    ensures SiteReady(mk, site) && RecordsReady(records) && RegionsLast(mk, site, records) ==> L.Lists(mk, after, records)
  {
    hide Written, Generated, SiteReady, RecordsReady, RegionsLast, L.Lists, Checkable, Healthy, NoCellBreaks, AllFlush, NoStrayFileNames;
    if SiteReady(mk, site) && RecordsReady(records) {
      GenerateThenCheckExactly(mk, site, records);
      if RegionsLast(mk, site, records) {
        L.GeneratedSiteLists(mk, site, records);
      }
    }
    after, error := site, None;
    SixWritesGenerate(mk, site, records);
    for n := 0 to 6
      invariant error.None? && After(mk, site, records, n) == Ok(after)
    {
      var next := Write(mk, after, records, n);
      if next.Err? {
        error := Some(next.error);
        StoppedIsRefused(mk, site, records, n, next.error, 6);
        assert Stopped(mk, site, records, n, after, error);
        return;
      }
      after := next.value;
    }
    assert Stopped(mk, site, records, 6, after, error);
  }

  /** One write. */
  method Write(mk: Markers, site: Site, records: seq<Record>, n: nat) returns (r: Result<Site, AdrError>)
    requires n < 6
    ensures r == Written(mk, site, records, n)
  {
    hide Render, Rewritten, Header, RowLines, Selected, SyncRegion, SidebarRegion, Replaced, SplitLines;
    var listed := if n == 3 || n == 5 then Retired(records) else Active(records);
    if n <= 1 {
      var text := if n == 0 then Render(mk, site.sync, SyncRegion(listed)) else Render(mk, site.sidebar, SidebarRegion(listed));
      if text.None? {
        return Err(NoRegion);
      }
      r := Ok(if n == 0 then site.(sync := text.value) else site.(sidebar := text.value));
    } else if n <= 3 {
      var kind := if n == 2 then Live else Dead;
      var text, _ := ReplaceTableBody(site.readme, Header(kind), 0, RowLines(kind, listed));
      r := InReadme(site, text);
    } else {
      var text, _ := ReplaceTableBody(site.log, Header(Log), n - 4, RowLines(Log, listed));
      r := InLog(site, text);
    }
  }

  // ----- reading tables

  /** The rows from `start` on. */
  method TakeRows(lines: seq<string>, start: nat) returns (rows: seq<string>)
    requires start <= |lines|
    ensures rows == Rows(lines[start..])
  {
    hide IsRow;
    rows := [];
    var k := start;
    while k < |lines|
      invariant start <= k <= |lines| && Rows(lines[start..]) == rows + Rows(lines[k..])
    {
      if !IsRow(lines[k]) {
        return;
      }
      assert lines[k..][1..] == lines[k + 1..];
      rows := rows + [lines[k]];
      k := k + 1;
    }
  }

  lemma TablesStep(lines: seq<string>, header: string, index: nat, start: nat)
    requires index < |lines| && start == if index + 2 <= |lines| then index + 2 else |lines|
    ensures Tables(lines[index..], header)
         == (if Strip(lines[index]) == header then [Rows(lines[start..])] else []) + Tables(lines[index + 1..], header)
  {
    hide Rows, Strip;
    assert lines[index..][1..] == lines[index + 1..];
    assert lines[start..] == Below(lines[index..]);
  }

  method ReadTables(lines: seq<string>, header: string) returns (tables: seq<seq<string>>)
    ensures tables == Tables(lines, header)
  {
    hide Rows, Strip, Tables;
    tables := [];
    assert lines[0..] == lines;
    for index := 0 to |lines|
      invariant Tables(lines, header) == tables + Tables(lines[index..], header)
    {
      var start := if index + 2 <= |lines| then index + 2 else |lines|;
      TablesStep(lines, header, index, start);
      if Strip(lines[index]) == header {
        var rows := TakeRows(lines, start);
        tables := tables + [rows];
      }
    }
    NoTables(lines[|lines|..], header);
  }

  lemma NoTables(lines: seq<string>, header: string)
    requires lines == []
    ensures Tables(lines, header) == []
  {
  }

  // ----- checking

  /** A problem in one of the four tables, or a stale region. */
  datatype Finding = Listing(table: Listed, problem: Problem) | StaleSync | StaleSidebar

  datatype Listed = LiveIndex | DeadIndex | LiveLog | DeadLog
  {
    function Kind(): (r: Kind) {
      match this
      case LiveIndex => Live
      case DeadIndex => Dead
      case LiveLog => Log
      case DeadLog => Log
    }

    function Which(): (r: nat) {
      if this == DeadLog then 1 else 0
    }

    function Total(): (r: nat)
      ensures Which() < r
    {
      if Kind() == Log then 2 else 1
    }

    function Records(records: seq<Record>): (r: seq<Record>) {
      Selected(records, this == DeadIndex || this == DeadLog)
    }

    function Text(site: Site): (r: string) {
      if Kind() == Log then site.log else site.readme
    }
  }

  /** What the rows of a table read as. */
  ghost function RowsOf(site: Site, table: Listed): (r: Result<seq<Entry>, AdrError>) {
    ReadTable(table.Text(site), table.Kind(), table.Which(), table.Total())
  }

  /** The problem is in the table. */
  ghost predicate Misread(site: Site, records: seq<Record>, table: Listed, p: Problem)
    requires RowsOf(site, table).Ok?
  {
    Real(RowsOf(site, table).value, ExpectedAll(table.Kind(), table.Records(records)), OnDisk(table.Kind(), records), p)
  }

  /** What the check should find. */
  ghost predicate Amiss(mk: Markers, site: Site, records: seq<Record>, f: Finding)
    requires TablesRead(site)
  {
    match f
    case Listing(table, p) => Misread(site, records, table, p)
    case StaleSync => Render(mk, site.sync, SyncRegion(Active(records))) != Some(site.sync)
    case StaleSidebar => Render(mk, site.sidebar, SidebarRegion(Active(records))) != Some(site.sidebar)
  }

  method OneTable(text: string, kind: Kind, which: nat, total: nat) returns (r: Result<seq<Entry>, AdrError>)
    requires which < total
    ensures r == ReadTable(text, kind, which, total)
    ensures r.Ok? ==> Uniform(r.value, |Columns(kind)|)
  {
    hide Tables, SplitLines, ParseRow;
    var tables := ReadTables(SplitLines(text), Header(kind));
    if |tables| != total {
      return Err(WrongTables);
    }
    if RowsComplete(kind, tables[which]) {
      r := Ok(DecodeAll(kind, tables[which]));
    } else {
      r := Err(BadRow);
    }
  }

  lemma ExpectedUniform(kind: Kind, records: seq<Record>)
    ensures Uniform(ExpectedAll(kind, records), |Columns(kind)|)
  {
  }

  method PathsOnDisk(kind: Kind, records: seq<Record>) returns (paths: set<string>)
    ensures paths == OnDisk(kind, records)
  {
    paths := set r | r in records :: if kind == Log then r.LogPath() else r.Path();
  }

  /** One table's rows against its records. */
  method CheckTable(text: string, kind: Kind, which: nat, total: nat, listed: seq<Record>, records: seq<Record>)
    returns (r: Result<seq<Problem>, AdrError>)
    requires which < total
    ensures r.Ok? <==> ReadTable(text, kind, which, total).Ok?
    ensures r.Err? ==> r.error == ReadTable(text, kind, which, total).error
    ensures r.Ok? ==> forall p :: p in r.value <==>
              Real(ReadTable(text, kind, which, total).value, ExpectedAll(kind, listed), OnDisk(kind, records), p)
    ensures r.Ok? ==> (r.value == [] <==> TablePasses(text, kind, which, total, listed, records))
  {
    hide ReadTable, Real, OnDisk, Agrees, Expected, Uniform;
    var rows := OneTable(text, kind, which, total);
    if rows.Err? {
      return Err(rows.error);
    }
    ExpectedUniform(kind, listed);
    var expected := ExpectedAll(kind, listed);
    var paths := PathsOnDisk(kind, records);
    var problems := Compare(rows.value, expected, paths, |Columns(kind)|);
    NoProblemExactly(rows.value, expected, paths, |Columns(kind)|);
    assert problems == [] <==> forall p :: p !in problems by {
      assert problems != [] ==> problems[0] in problems;
    }
    r := Ok(problems);
  }

  function Listings(table: Listed, problems: seq<Problem>): (r: seq<Finding>)
    ensures |r| == |problems|
    ensures forall f :: f in r <==> f.Listing? && f.table == table && f.problem in problems
  {
    var r := seq(|problems|, i requires 0 <= i < |problems| => Listing(table, problems[i]));
    assert forall i :: 0 <= i < |problems| ==> r[i] == Listing(table, problems[i]);
    r
  }

  /** One table: its findings are exactly its problems. */
  method CheckListed(site: Site, records: seq<Record>, table: Listed) returns (r: Result<seq<Finding>, AdrError>)
    ensures r.Ok? <==> RowsOf(site, table).Ok?
    ensures r.Ok? ==> forall f :: f in r.value <==> f.Listing? && f.table == table && Misread(site, records, table, f.problem)
    ensures r.Ok? ==> (r.value == [] <==>
              TablePasses(table.Text(site), table.Kind(), table.Which(), table.Total(), table.Records(records), records))
  {
    hide ReadTable, Real, TablePasses, Selected;
    var problems := CheckTable(table.Text(site), table.Kind(), table.Which(), table.Total(), table.Records(records), records);
    if problems.Err? {
      return Err(problems.error);
    }
    r := Ok(Listings(table, problems.value));
  }

  /** The check: it finds exactly what is amiss, and nothing exactly when every index is as the records say. */
  method Check(mk: Markers, site: Site, records: seq<Record>) returns (r: Result<seq<Finding>, AdrError>)
    ensures r.Ok? <==> Checkable(mk, site)
    ensures r.Ok? ==> forall f :: f in r.value <==> Amiss(mk, site, records, f)
    ensures r.Ok? ==> (r.value == [] <==> Healthy(mk, site, records))
    ensures r == Ok([]) && RecordsReady(records) ==> L.Lists(mk, site, records)
  {
    hide ReadTable, Misread, TablePasses, Selected, SyncRegion, SidebarRegion, Region, SplitLines, JoinLines, Refilled,
         L.Lists, RecordsReady;
    var live := CheckListed(site, records, LiveIndex);
    if live.Err? {
      return Err(live.error);
    }
    var dead := CheckListed(site, records, DeadIndex);
    if dead.Err? {
      return Err(dead.error);
    }
    var log := CheckListed(site, records, LiveLog);
    if log.Err? {
      return Err(log.error);
    }
    var past := CheckListed(site, records, DeadLog);
    if past.Err? {
      return Err(past.error);
    }
    var sync := Render(mk, site.sync, SyncRegion(Active(records)));
    var sidebar := Render(mk, site.sidebar, SidebarRegion(Active(records)));
    if sync.None? || sidebar.None? {
      return Err(NoRegion);
    }
    var findings := live.value + dead.value + log.value + past.value;
    var stale := (if sync.value != site.sync then [StaleSync] else [])
              + (if sidebar.value != site.sidebar then [StaleSidebar] else []);
    r := Ok(findings + stale);
    if r.value == [] && RecordsReady(records) {
      L.HealthySiteLists(mk, site, records);
    }
  }
}
