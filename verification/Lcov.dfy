/** Reading and writing LCOV reports (scripts/coverage_rust_ledger.py). */
module Lcov {
  import opened Results
  import opened IntegerSets
  import opened PyText
  import opened CoverageMerge

  /** Source paths as reports spell them, to repository paths; paths outside the repository are absent. */
  type Roots = map<string, string>

  datatype LcovError = EmptyReport | OrphanLine | MalformedLine(raw: string) | NoLines

  /** Where a reader stands: whether a source line was seen, and the current file if it counts. */
  datatype Context = Context(saw: bool, source: Option<string>)

  const START := Context(false, None)

  function Normalize(roots: Roots, raw: string): (r: Option<string>) {
    if raw in roots then Some(roots[raw]) else None
  }

  function After(roots: Roots, ctx: Context, raw: string): (r: Context) {
    if "SF:" <= raw then Context(true, Normalize(roots, raw[3..])) else ctx
  }

  /** What one raw line says: at most one report, naming a file or giving one line's hits. */
  function Said(roots: Roots, ctx: Context, raw: string): (r: Result<seq<Records>, LcovError>) {
    if "SF:" <= raw then
      var source := Normalize(roots, raw[3..]);
      Ok(if source.Some? then [map[source.value := map[]]] else [])
    else if "DA:" <= raw then
      if !ctx.saw then Err(OrphanLine)
      else if ctx.source.None? then Ok([])
      else
        var fields := Split(raw[3..], ',');
        if |fields| < 2 || ReadInt(fields[0]).None? || ReadInt(fields[1]).None? then Err(MalformedLine(raw))
        else Ok([map[ctx.source.value := map[ReadInt(fields[0]).value := ReadInt(fields[1]).value]]])
    else Ok([])
  }

  function ContextAfter(roots: Roots, ctx: Context, lines: seq<string>): (r: Context) {
    if lines == [] then ctx else After(roots, ContextAfter(roots, ctx, lines[..|lines| - 1]), lines[|lines| - 1])
  }

  /** Two results in a row. */
  function Then(a: Result<seq<Records>, LcovError>, b: Result<seq<Records>, LcovError>): (r: Result<seq<Records>, LcovError>) {
    if a.Err? then a else if b.Err? then b else Ok(a.value + b.value)
  }

  /** Everything a reader that starts in `ctx` is told, or the first error. */
  function Contributions(roots: Roots, ctx: Context, lines: seq<string>): (r: Result<seq<Records>, LcovError>) {
    if lines == [] then Ok([]) else
      var before := lines[..|lines| - 1];
      Then(Contributions(roots, ctx, before), Said(roots, ContextAfter(roots, ctx, before), lines[|lines| - 1]))
  }

  ghost predicate SomeLine(reports: seq<Records>) {
    exists s, l :: Measures(reports, s, l)
  }

  /** `r` is what reading `text` comes to: the merge of everything it says. */
  ghost predicate IsParse(roots: Roots, text: string, r: Result<Records, LcovError>) {
    if text == [] then r == Err(EmptyReport) else
      var said := Contributions(roots, START, SplitLines(text));
      if said.Err? then r == Err(said.error)
      else if SomeLine(said.value) then r.Ok? && IsMerge(said.value, r.value)
      else r == Err(NoLines)
  }

  // ----- the reader's loop

  lemma AbsorbSource(m: Records, s: string)
    ensures Absorb(m, map[s := map[]]) == if s in m then m else m[s := map[]]
  {
    var n := Absorb(m, map[s := map[]]);
    assert s in m ==> n[s] == m[s];
  }

  lemma AbsorbHits(m: Records, s: string, l: int, h: int)
    requires s in m
    ensures Absorb(m, map[s := map[l := h]]) == m[s := m[s][l := Max(if l in m[s] then m[s][l] else 0, h)]]
  {
    var n := Absorb(m, map[s := map[l := h]]);
    assert n[s] == m[s][l := Max(if l in m[s] then m[s][l] else 0, h)];
  }

  /** One raw line taken into the records. */
  method TakeLine(roots: Roots, ctx: Context, records: Records, raw: string)
    returns (r: Result<Records, LcovError>, next: Context)
    requires ctx.source.Some? ==> ctx.source.value in records
    ensures next == After(roots, ctx, raw)
    ensures r.Err? <==> Said(roots, ctx, raw).Err?
    ensures r.Err? ==> r.error == Said(roots, ctx, raw).error
    ensures r.Ok? ==> var said := Said(roots, ctx, raw).value;
                      r.value == if said == [] then records else Absorb(records, said[0])
    ensures r.Ok? && next.source.Some? ==> next.source.value in r.value
  {
    hide Split, ReadInt, Absorb;
    next := ctx;
    if "SF:" <= raw {
      next := Context(true, Normalize(roots, raw[3..]));
      if next.source.Some? && next.source.value !in records {
        r := Ok(records[next.source.value := map[]]);
      } else {
        r := Ok(records);
      }
      if next.source.Some? {
        AbsorbSource(records, next.source.value);
      }
    } else if "DA:" <= raw {
      if !ctx.saw {
        return Err(OrphanLine), next;
      }
      if ctx.source.None? {
        return Ok(records), next;
      }
      var fields := Split(raw[3..], ',');
      if |fields| < 2 {
        return Err(MalformedLine(raw)), next;
      }
      var line, hits := ReadInt(fields[0]), ReadInt(fields[1]);
      if line.None? || hits.None? {
        return Err(MalformedLine(raw)), next;
      }
      var lines := records[ctx.source.value];
      AbsorbHits(records, ctx.source.value, line.value, hits.value);
      var most := Max(if line.value in lines then lines[line.value] else 0, hits.value);
      r := Ok(records[ctx.source.value := lines[line.value := most]]);
    } else {
      r := Ok(records);
    }
  }

  lemma {:induction false} ErrorStays(roots: Roots, ctx: Context, lines: seq<string>, k: nat)
    requires k <= |lines| && Contributions(roots, ctx, lines[..k]).Err?
    ensures Contributions(roots, ctx, lines) == Contributions(roots, ctx, lines[..k])
    decreases |lines|
  {
    hide Said;
    if k == |lines| {
      assert lines[..k] == lines;
    } else {
      assert lines[..|lines| - 1][..k] == lines[..k];
      ErrorStays(roots, ctx, lines[..|lines| - 1], k);
    }
  }

  /** The merge has a line exactly when something said one. */
  lemma LinesSurvive(reports: seq<Records>, m: Records)
    requires IsMerge(reports, m)
    ensures SomeLine(reports) <==> exists s :: s in m && m[s] != map[]
  {
    hide Says, Lists;
    if s, l :| Measures(reports, s, l) {
      assert s in m && l in m[s];
    }
    if s :| s in m && m[s] != map[] {
      var l := Pick(m[s].Keys);
      assert Has(m, s, l, m[s][l]);
    }
  }

  lemma NothingSaid(roots: Roots, ctx: Context, lines: seq<string>)
    requires lines == []
    ensures Contributions(roots, ctx, lines) == Ok([]) && ContextAfter(roots, ctx, lines) == ctx
  {
  }

  lemma OneMore(roots: Roots, ctx: Context, lines: seq<string>, i: nat)
    requires i < |lines|
    ensures ContextAfter(roots, ctx, lines[..i + 1]) == After(roots, ContextAfter(roots, ctx, lines[..i]), lines[i])
    ensures Contributions(roots, ctx, lines[..i + 1])
         == Then(Contributions(roots, ctx, lines[..i]), Said(roots, ContextAfter(roots, ctx, lines[..i]), lines[i]))
  {
    assert lines[..i + 1][..i] == lines[..i];
  }

  lemma AtMostOne(roots: Roots, ctx: Context, raw: string)
    ensures Said(roots, ctx, raw).Ok? ==> var said := Said(roots, ctx, raw).value; said == [] || said == [said[0]]
  {
  }
}
