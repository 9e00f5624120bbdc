/** What LCOV reports say when written out, read back and joined (scripts/coverage_rust_ledger.py). */
module LcovRoundTrip {
  import opened Results
  import opened Orders
  import opened IntegerSets
  import opened PyText
  import opened CoverageMerge
  import opened Lcov

  // ----- joining reports

  lemma {:induction false} ReadOn(roots: Roots, ctx: Context, a: seq<string>, b: seq<string>)
    ensures ContextAfter(roots, ctx, a + b) == ContextAfter(roots, ContextAfter(roots, ctx, a), b)
    ensures Contributions(roots, ctx, a + b)
         == Then(Contributions(roots, ctx, a), Contributions(roots, ContextAfter(roots, ctx, a), b))
    decreases |b|
  {
    hide Said, After;
    if b == [] {
      assert a + b == a;
      var said := Contributions(roots, ctx, a);
      assert said.Ok? ==> said.value + [] == said.value;
    } else {
      var n := |b| - 1;
      assert (a + b)[..|a + b| - 1] == a + b[..n];
      ReadOn(roots, ctx, a, b[..n]);
      ThenAssociates(Contributions(roots, ctx, a), Contributions(roots, ContextAfter(roots, ctx, a), b[..n]),
                     Said(roots, ContextAfter(roots, ctx, a + b[..n]), b[n]));
    }
  }

  lemma ThenAssociates(a: Result<seq<Records>, LcovError>, b: Result<seq<Records>, LcovError>, c: Result<seq<Records>, LcovError>)
    ensures Then(Then(a, b), c) == Then(a, Then(b, c))
  {
    if a.Ok? && b.Ok? && c.Ok? {
      assert a.value + b.value + c.value == a.value + (b.value + c.value);
    }
  }

  /** A report that reads well on its own says the same behind another. */
  lemma {:induction false} ContextIsForgotten(roots: Roots, ctx: Context, b: seq<string>)
    requires Contributions(roots, START, b).Ok?
    ensures Contributions(roots, ctx, b) == Contributions(roots, START, b)
    ensures if ContextAfter(roots, START, b).saw then ContextAfter(roots, ctx, b) == ContextAfter(roots, START, b)
            else ContextAfter(roots, START, b) == START && ContextAfter(roots, ctx, b) == ctx
    decreases |b|
  {
    hide Split, ReadInt;
    if b != [] {
      ContextIsForgotten(roots, ctx, b[..|b| - 1]);
    }
  }

  /** Reading two reports one after the other gives the merge of what each says. */
  lemma ConcatenationMerges(roots: Roots, a: string, b: string, x: Records, y: Records, m: Records)
    requires a != [] && a[|a| - 1] == '\n'
    requires IsParse(roots, a, Ok(x)) && IsParse(roots, b, Ok(y)) && IsMerge([x, y], m)
    ensures IsParse(roots, a + b, Ok(m))
  {
    hide Contributions, ContextAfter, IsMerge, SplitLines, Measures;
    SplitLinesConcat(a, b);
    var p, q := SplitLines(a), SplitLines(b);
    ReadOn(roots, START, p, q);
    ContextIsForgotten(roots, ContextAfter(roots, START, p), q);
    var u, v := Contributions(roots, START, p).value, Contributions(roots, START, q).value;
    MergeBoth(u, x, v, y, m);
    LineInEither(u, v);
  }

  lemma LineInEither(u: seq<Records>, v: seq<Records>)
    requires SomeLine(u)
    ensures SomeLine(u + v)
  {
    hide Says;
    var s, l :| Measures(u, s, l);
    var g :| Says(u, s, l, g);
    SaysConcat(u, v, s, l, g);
    assert Measures(u + v, s, l);
  }

  lemma MergeBoth(u: seq<Records>, x: Records, v: seq<Records>, y: Records, m: Records)
    requires IsMerge(u, x) && IsMerge(v, y) && IsMerge([x, y], m)
    ensures IsMerge(u + v, m)
  {
    hide IsMerge;
    assert [x, y] == [x] + [y];
    MergeOfMerge(u, x, [y], m);
    MergeReordered(u + [y], [y] + u, m);
    MergeOfMerge(v, y, u, m);
    MergeReordered(v + u, u + v, m);
  }

  // ----- writing a report

  function LineEntry(l: int, h: int): (r: string) {
    "DA:" + Show(l) + "," + Show(h)
  }

  /** The entries of the first lines of a file, in order. */
  function LineEntries(lines: Lines, order: seq<int>): (r: seq<string>)
    requires forall l :: l in order ==> l in lines
  {
    if order == [] then [] else
      var l := order[|order| - 1];
      LineEntries(lines, order[..|order| - 1]) + [LineEntry(l, lines[l])]
  }

  function FileEntry(root: string, source: string, lines: Lines): (r: seq<string>) {
    ["SF:" + root + "/" + source] + LineEntries(lines, Ascending(lines.Keys)) + ["end_of_record"]
  }

  /** The report's lines for the named files, with a blank line after each file but the last. */
  function Report(root: string, records: Records, names: seq<string>): (r: seq<string>)
    requires forall s :: s in names ==> s in records
  {
    if names == [] then [] else
      var s := names[|names| - 1];
      Report(root, records, names[..|names| - 1]) + (if |names| > 1 then [""] else []) + FileEntry(root, s, records[s])
  }

  function Written(root: string, records: Records): (r: string) {
    if records.Keys == {} then "" else JoinLines(Report(root, records, Sorted(records.Keys)) + [""])
  }

  lemma EntriesStep(lines: Lines, order: seq<int>, j: nat)
    requires j < |order| && forall l :: l in order ==> l in lines
    ensures LineEntries(lines, order[..j + 1]) == LineEntries(lines, order[..j]) + [LineEntry(order[j], lines[order[j]])]
  {
    assert order[..j + 1][..j] == order[..j];
  }

  lemma ReportStep(root: string, records: Records, names: seq<string>, i: nat)
    requires i < |names| && forall s :: s in names ==> s in records
    ensures Report(root, records, names[..i + 1])
         == Report(root, records, names[..i]) + (if i > 0 then [""] else []) + FileEntry(root, names[i], records[names[i]])
  {
    assert names[..i + 1][..i] == names[..i];
  }

  method WriteFile(output: seq<string>, root: string, source: string, lines: Lines) returns (out: seq<string>)
    ensures out == output + FileEntry(root, source, lines) + [""]
  {
    hide LineEntries, Ascending;
    var order := Ascending(lines.Keys);
    var entries: seq<string> := [];
    NoEntries(lines, order[..0]);
    for j := 0 to |order|
      invariant entries == LineEntries(lines, order[..j])
    {
      EntriesStep(lines, order, j);
      entries := entries + ["DA:" + Show(order[j]) + "," + Show(lines[order[j]])];
    }
    assert order[..|order|] == order;
    out := output + ["SF:" + root + "/" + source] + entries + ["end_of_record", ""];
  }

  lemma NoEntries(lines: Lines, order: seq<int>)
    requires order == []
    ensures LineEntries(lines, order) == []
  {
  }

  method WriteLcov(root: string, records: Records) returns (text: string)
    ensures text == Written(root, records)
  {
    hide FileEntry, Report, StrictlySorted, Sorted;
    var names := Sorted(records.Keys);
    var output: seq<string> := [];
    for i := 0 to |names|
      invariant output == if i == 0 then [] else Report(root, records, names[..i]) + [""]
    {
      ReportStep(root, records, names, i);
      NoReport(root, records, names[..0]);
      output := WriteFile(output, root, names[i], records[names[i]]);
    }
    assert names[..|names|] == names;
    NamesOfNothing(records);
    text := JoinLines(output);
  }

  lemma NoReport(root: string, records: Records, names: seq<string>)
    requires names == []
    ensures Report(root, records, names) == []
  {
  }

  lemma NamesOfNothing(records: Records)
    ensures Sorted(records.Keys) == [] <==> records.Keys == {}
  {
    hide StrictlySorted;
    if s :| s in records.Keys {
      assert s in Sorted(records.Keys);
    }
  }

  // ----- reading a written report

  /** What the entries of a file say, one line at a time. */
  ghost function Singles(s: string, lines: Lines, order: seq<int>): (r: seq<Records>)
    requires forall l :: l in order ==> l in lines
  {
    if order == [] then [] else
      var l := order[|order| - 1];
      Singles(s, lines, order[..|order| - 1]) + [map[s := map[l := lines[l]]]]
  }

  ghost function FileReports(s: string, lines: Lines): (r: seq<Records>) {
    [map[s := map[]]] + Singles(s, lines, Ascending(lines.Keys))
  }

  ghost function AllReports(records: Records, names: seq<string>): (r: seq<Records>)
    requires forall s :: s in names ==> s in records
  {
    if names == [] then [] else
      var s := names[|names| - 1];
      AllReports(records, names[..|names| - 1]) + FileReports(s, records[s])
  }

  lemma EntrySays(roots: Roots, s: string, l: int, h: int)
    ensures var ctx := Context(true, Some(s));
            && After(roots, ctx, LineEntry(l, h)) == ctx
            && Said(roots, ctx, LineEntry(l, h)) == Ok([map[s := map[l := h]]])
  {
    hide Split, ReadInt;
    var raw := LineEntry(l, h);
    assert raw[..3] == "DA:" && raw[0] == 'D';
    assert raw[3..] == Show(l) + [','] + Show(h);
    SplitFirst(Show(l), ',', Show(h));
    SplitOne(Show(h), ',');
    ShownIntReads(l);
    ShownIntReads(h);
  }

  lemma {:induction false} EntriesSay(roots: Roots, s: string, lines: Lines, order: seq<int>)
    requires forall l :: l in order ==> l in lines
    ensures var ctx := Context(true, Some(s));
            && ContextAfter(roots, ctx, LineEntries(lines, order)) == ctx
            && Contributions(roots, ctx, LineEntries(lines, order)) == Ok(Singles(s, lines, order))
    decreases |order|
  {
    hide Said, After, LineEntry;
    if order != [] {
      var n := |order| - 1;
      EntriesSay(roots, s, lines, order[..n]);
      EntrySays(roots, s, order[n], lines[order[n]]);
      var entries := LineEntries(lines, order);
      assert entries[..|entries| - 1] == LineEntries(lines, order[..n]);
    }
  }

  lemma OneSays(roots: Roots, ctx: Context, raw: string)
    ensures ContextAfter(roots, ctx, [raw]) == After(roots, ctx, raw)
    ensures Contributions(roots, ctx, [raw]) == Said(roots, ctx, raw)
  {
    hide Said, After;
    assert [raw][..0] == [];
    var said := Said(roots, ctx, raw);
    assert said.Ok? ==> [] + said.value == said.value;
  }

  lemma SourceSays(roots: Roots, ctx: Context, root: string, s: string)
    requires Normalize(roots, root + "/" + s) == Some(s)
    ensures After(roots, ctx, "SF:" + root + "/" + s) == Context(true, Some(s))
    ensures Said(roots, ctx, "SF:" + root + "/" + s) == Ok([map[s := map[]]])
  {
    var raw := "SF:" + root + "/" + s;
    assert raw[..3] == "SF:";
    assert raw[3..] == root + "/" + s;
  }

  lemma QuietLine(roots: Roots, ctx: Context, raw: string)
    requires raw == "" || raw == "end_of_record"
    ensures After(roots, ctx, raw) == ctx && Said(roots, ctx, raw) == Ok([])
  {
    assert raw != "" ==> raw[0] == 'e';
  }

  lemma FileSays(roots: Roots, ctx: Context, root: string, s: string, lines: Lines)
    requires Normalize(roots, root + "/" + s) == Some(s)
    ensures ContextAfter(roots, ctx, FileEntry(root, s, lines)) == Context(true, Some(s))
    ensures Contributions(roots, ctx, FileEntry(root, s, lines)) == Ok(FileReports(s, lines))
  {
    hide Said, After, Contributions, ContextAfter, LineEntries, Singles, Ascending;
    var first, order := "SF:" + root + "/" + s, Ascending(lines.Keys);
    var entries := LineEntries(lines, order);
    SourceSays(roots, ctx, root, s);
    OneSays(roots, ctx, first);
    EntriesSay(roots, s, lines, order);
    ReadOn(roots, ctx, [first], entries);
    QuietLine(roots, Context(true, Some(s)), "end_of_record");
    OneSays(roots, Context(true, Some(s)), "end_of_record");
    ReadOn(roots, ctx, [first] + entries, ["end_of_record"]);
    assert FileReports(s, lines) == [map[s := map[]]] + Singles(s, lines, order) + [];
  }

  /** The root and every source resolve back to the source. */
  ghost predicate Normalized(roots: Roots, root: string, records: Records) {
    forall s :: s in records ==> Normalize(roots, root + "/" + s) == Some(s)
  }

  lemma {:induction false} ReportSays(roots: Roots, root: string, records: Records, names: seq<string>)
    requires Normalized(roots, root, records) && forall s :: s in names ==> s in records
    ensures Contributions(roots, START, Report(root, records, names)) == Ok(AllReports(records, names))
    decreases |names|
  {
    hide Said, After, Contributions, ContextAfter, FileEntry, FileReports;
    if names == [] {
      NothingSaid(roots, START, Report(root, records, names));
    } else {
      var n := |names| - 1;
      var s, before := names[n], Report(root, records, names[..n]);
      ReportSays(roots, root, records, names[..n]);
      var gap := if |names| > 1 then [""] else [];
      GapSays(roots, START, before, gap);
      FileSays(roots, ContextAfter(roots, START, before + gap), root, s, records[s]);
      ReadOn(roots, START, before + gap, FileEntry(root, s, records[s]));
    }
  }

  lemma GapSays(roots: Roots, ctx: Context, before: seq<string>, gap: seq<string>)
    requires gap == [] || gap == [""]
    requires Contributions(roots, ctx, before).Ok?
    ensures Contributions(roots, ctx, before + gap) == Contributions(roots, ctx, before)
  {
    hide Said, After, Contributions, ContextAfter;
    if gap == [] {
      assert before + gap == before;
    } else {
      ReadOn(roots, ctx, before, gap);
      var next := ContextAfter(roots, ctx, before);
      QuietLine(roots, next, "");
      OneSays(roots, next, "");
      var said := Contributions(roots, ctx, before);
      assert said.value + [] == said.value;
    }
  }

  lemma {:induction false} SinglesSay(f: string, lines: Lines, order: seq<int>, s: string, l: int, h: int)
    requires forall x :: x in order ==> x in lines
    ensures Says(Singles(f, lines, order), s, l, h) <==> s == f && l in order && lines[l] == h
    ensures Lists(Singles(f, lines, order), s) <==> s == f && order != []
    decreases |order|
  {
    hide Says, Lists;
    if order == [] {
      NothingSays(s, l, h);
    } else {
      var n := |order| - 1;
      var x := order[n];
      var one := map[f := map[x := lines[x]]];
      SinglesSay(f, lines, order[..n], s, l, h);
      SaysConcat(Singles(f, lines, order[..n]), [one], s, l, h);
      ListsConcat(Singles(f, lines, order[..n]), [one], s);
      SaysOne(one, s, l, h);
      ListsOne(one, s);
      assert l in order <==> l in order[..n] || l == x;
    }
  }

  lemma NothingSays(s: string, l: int, h: int)
    ensures !Says([], s, l, h) && !Lists([], s)
  {
  }

  lemma FileReportsSay(f: string, lines: Lines, s: string, l: int, h: int)
    ensures Says(FileReports(f, lines), s, l, h) <==> s == f && l in lines && lines[l] == h
    ensures Lists(FileReports(f, lines), s) <==> s == f
  {
    hide Says, Lists, Singles;
    var order := Ascending(lines.Keys);
    var named: Records := map[f := map[]];
    SinglesSay(f, lines, order, s, l, h);
    SaysConcat([named], Singles(f, lines, order), s, l, h);
    ListsConcat([named], Singles(f, lines, order), s);
    SaysOne(named, s, l, h);
    ListsOne(named, s);
  }

  lemma {:induction false} AllReportsSay(records: Records, names: seq<string>, s: string, l: int, h: int)
    requires forall f :: f in names ==> f in records
    ensures Says(AllReports(records, names), s, l, h) <==> s in names && Has(records, s, l, h)
    ensures Lists(AllReports(records, names), s) <==> s in names
    decreases |names|
  {
    hide Says, Lists, FileReports;
    if names == [] {
      NothingSays(s, l, h);
    } else {
      var n := |names| - 1;
      var f := names[n];
      AllReportsSay(records, names[..n], s, l, h);
      FileReportsSay(f, records[f], s, l, h);
      SaysConcat(AllReports(records, names[..n]), FileReports(f, records[f]), s, l, h);
      ListsConcat(AllReports(records, names[..n]), FileReports(f, records[f]), s);
      assert s in names <==> s in names[..n] || s == f;
    }
  }

  /** A written report says exactly what the records say. */
  lemma ReportsAlike(records: Records, names: seq<string>)
    requires forall s :: s in names <==> s in records
    ensures Alike(AllReports(records, names), [records])
  {
    hide AllReports, Lists, Says;
    var all := AllReports(records, names);
    forall s
      ensures Lists(all, s) <==> Lists([records], s)
    {
      AllReportsSay(records, names, s, 0, 0);
      ListsOne(records, s);
    }
    forall s, l, h
      ensures Says(all, s, l, h) <==> Says([records], s, l, h)
    {
      AllReportsSay(records, names, s, l, h);
      SaysOne(records, s, l, h);
    }
  }

  lemma {:induction false} EntriesAreLines(lines: Lines, order: seq<int>)
    requires forall l :: l in order ==> l in lines
    ensures forall k :: 0 <= k < |LineEntries(lines, order)| ==> OneLine(LineEntries(lines, order)[k])
    decreases |order|
  {
    hide LineEntry, OneLine;
    if order != [] {
      var l := order[|order| - 1];
      EntriesAreLines(lines, order[..|order| - 1]);
      EntryIsLine(l, lines[l]);
    }
  }

  lemma EntryIsLine(l: int, h: int)
    ensures OneLine(LineEntry(l, h))
  {
    hide Show;
  }

  /** No line break in the root or in a source path. */
  ghost predicate Printable(root: string, records: Records) {
    OneLine(root) && forall s :: s in records ==> OneLine(s)
  }

  lemma FileIsLines(root: string, s: string, lines: Lines)
    requires OneLine(root) && OneLine(s)
    ensures forall k :: 0 <= k < |FileEntry(root, s, lines)| ==> OneLine(FileEntry(root, s, lines)[k])
  {
    hide LineEntries, Ascending;
    EntriesAreLines(lines, Ascending(lines.Keys));
  }

  lemma {:induction false} ReportIsLines(root: string, records: Records, names: seq<string>)
    requires Printable(root, records) && forall s :: s in names ==> s in records
    ensures forall k :: 0 <= k < |Report(root, records, names)| ==> OneLine(Report(root, records, names)[k])
    decreases |names|
  {
    hide FileEntry;
    if names != [] {
      ReportIsLines(root, records, names[..|names| - 1]);
      FileIsLines(root, names[|names| - 1], records[names[|names| - 1]]);
    }
  }

  /**
   * Reading a written report gives back the records exactly when some line is measured and no
   * count is negative.
   */
  lemma WrittenReportReads(roots: Roots, root: string, records: Records, r: Result<Records, LcovError>)
    requires Normalized(roots, root, records) && Printable(root, records)
    requires IsParse(roots, Written(root, records), r)
    ensures r == Ok(records) <==> NonNegative(records) && exists s, l, h :: Has(records, s, l, h)
  {
    hide Contributions, AllReports, Report, SplitLines, JoinLines, IsMerge, NonNegative, Normalized, Printable, Sorted, StrictlySorted;
    if records.Keys != {} {
      var names := Sorted(records.Keys);
      var report, all := Report(root, records, names), AllReports(records, names);
      ReportIsLines(root, records, names);
      JoinedLinesSplit(report);
      ReportSpeaks(root, records, names);
      SplitLinesStep([]);
      ReportSays(roots, root, records, names);
      ReportsAlike(records, names);
      AlikeMerge(all, [records], records);
      MergeOfOne(records);
      MeasuredAlike(records, all);
      if r.Ok? && NonNegative(records) {
        MergeIsDetermined(all, all, records, r.value);
      }
    }
  }

  lemma ReportSpeaks(root: string, records: Records, names: seq<string>)
    requires forall s :: s in names <==> s in records
    requires records.Keys != {}
    ensures Report(root, records, names) != []
  {
    var s :| s in records.Keys;
    assert s in names;
  }

  lemma MeasuredAlike(records: Records, all: seq<Records>)
    requires Alike(all, [records])
    ensures SomeLine(all) <==> exists s, l, h :: Has(records, s, l, h)
  {
    hide Has, Says, Lists, IsPeak;
    forall s, l, h
      ensures Says([records], s, l, h) <==> Has(records, s, l, h)
    {
      SaysOne(records, s, l, h);
    }
    if s, l :| Measures(all, s, l) {
      assert Measures([records], s, l);
      var h :| Says([records], s, l, h);
      assert Has(records, s, l, h);
    }
    if s, l, h :| Has(records, s, l, h) {
      assert Measures([records], s, l);
      assert Measures(all, s, l);
    }
  }
}
