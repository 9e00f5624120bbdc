/** What a report says, line by line (scripts/coverage_rust_ledger.py). */
module LcovLines {
  import opened Results
  import opened PyText
  import opened CoverageMerge
  import opened Lcov

  predicate IsSource(raw: string) {
    |raw| >= 3 && raw[0] == 'S' && raw[1] == 'F' && raw[2] == ':'
  }

  predicate IsData(raw: string) {
    |raw| >= 3 && raw[0] == 'D' && raw[1] == 'A' && raw[2] == ':'
  }

  /** Line `j` is the last that names a file before line `i`. */
  ghost predicate Heads(lines: seq<string>, j: nat, i: nat) {
    j < i <= |lines| && IsSource(lines[j]) && forall k :: j < k < i ==> !IsSource(lines[k])
  }

  /** The line names the file. */
  predicate Names(roots: Roots, raw: string, s: string) {
    IsSource(raw) && raw[3..] in roots && roots[raw[3..]] == s
  }

  /** Line `i` stands in a section of the file. */
  ghost predicate InFile(roots: Roots, lines: seq<string>, i: nat, s: string) {
    exists j: nat :: Heads(lines, j, i) && Names(roots, lines[j], s)
  }

  /** The first two fields of a data line are the numbers `l` and `h`. */
  ghost predicate Reads(raw: string, l: int, h: int) {
    && IsData(raw)
    && var fields := Split(raw[3..], ',');
    |fields| >= 2 && ReadInt(fields[0]) == Some(l) && ReadInt(fields[1]) == Some(h)
  }

  /** Line `i` gives line `l` of the file the count `h`. */
  ghost predicate Gives(roots: Roots, lines: seq<string>, i: nat, s: string, l: int, h: int) {
    i < |lines| && InFile(roots, lines, i, s) && Reads(lines[i], l, h)
  }

  ghost predicate Given(roots: Roots, lines: seq<string>, s: string, l: int, h: int) {
    exists i: nat :: Gives(roots, lines, i, s, l, h)
  }

  ghost predicate GivenSome(roots: Roots, lines: seq<string>, s: string, l: int) {
    exists h :: Given(roots, lines, s, l, h)
  }

  predicate Counted(records: Records, s: string, l: int) {
    s in records && l in records[s]
  }

  /** Line `i` cannot be taken: data before any file, or data of a counted file that are no two numbers. */
  ghost predicate Refused(roots: Roots, lines: seq<string>, i: nat, e: LcovError) {
    && i < |lines| && IsData(lines[i])
    && match e
       case OrphanLine => forall j :: 0 <= j < i ==> !IsSource(lines[j])
       case MalformedLine(raw) =>
         raw == lines[i] && (exists s :: InFile(roots, lines, i, s)) && !(exists l, h :: Reads(lines[i], l, h))
       case EmptyReport => false
       case NoLines => false
  }

  ghost predicate FirstRefused(roots: Roots, lines: seq<string>, i: nat, e: LcovError) {
    Refused(roots, lines, i, e) && forall j: nat, f :: j < i ==> !Refused(roots, lines, j, f)
  }

  /** `r` is what reading a report comes to, line by line. */
  ghost predicate ReadsAs(roots: Roots, text: string, r: Result<Records, LcovError>) {
    var lines := SplitLines(text);
    match r
    case Ok(records) =>
      && text != [] && (forall i: nat, e :: !Refused(roots, lines, i, e))
      && (forall s :: s in records <==> exists j :: 0 <= j < |lines| && Names(roots, lines[j], s))
      && (forall s, l :: Counted(records, s, l) <==> GivenSome(roots, lines, s, l))
      && (forall s, l :: Counted(records, s, l) ==> IsHighest(roots, lines, s, l, records[s][l]))
    case Err(EmptyReport) => text == []
    case Err(NoLines) =>
      text != [] && (forall i: nat, e :: !Refused(roots, lines, i, e)) && forall s, l, h :: !Given(roots, lines, s, l, h)
    case Err(e) => text != [] && exists i: nat :: FirstRefused(roots, lines, i, e)
  }

  /** The highest count given, but not less than zero. */
  ghost predicate IsHighest(roots: Roots, lines: seq<string>, s: string, l: int, c: int) {
    c >= 0 && (forall h :: Given(roots, lines, s, l, h) ==> h <= c) && (c == 0 || Given(roots, lines, s, l, c))
  }

  // ----- prefixes

  lemma PrefixIs(raw: string)
    ensures "SF:" <= raw <==> IsSource(raw)
    ensures "DA:" <= raw <==> IsData(raw)
  {
    if "SF:" <= raw {
      assert raw[..3] == "SF:" && raw[0] == raw[..3][0] && raw[1] == raw[..3][1] && raw[2] == raw[..3][2];
    }
    if "DA:" <= raw {
      assert raw[..3] == "DA:" && raw[0] == raw[..3][0] && raw[1] == raw[..3][1] && raw[2] == raw[..3][2];
    }
    if IsSource(raw) {
      assert raw[..3] == "SF:";
    }
    if IsData(raw) {
      assert raw[..3] == "DA:";
    }
  }

  // ----- where the reader stands

  ghost predicate SawSource(lines: seq<string>, i: nat) {
    exists j :: 0 <= j < i && j < |lines| && IsSource(lines[j])
  }

  lemma {:induction false} ContextIs(roots: Roots, lines: seq<string>, i: nat)
    requires i <= |lines|
    ensures var ctx := ContextAfter(roots, START, lines[..i]);
            && (ctx.saw <==> SawSource(lines, i))
            && (forall s :: ctx.source == Some(s) <==> InFile(roots, lines, i, s))
    decreases i
  {
    hide ContextAfter;
    if i == 0 {
      NothingSaid(roots, START, lines[..0]);
    } else {
      ContextIs(roots, lines, i - 1);
      OneMore(roots, START, lines, i - 1);
      PrefixIs(lines[i - 1]);
      var before, now := ContextAfter(roots, START, lines[..i - 1]), ContextAfter(roots, START, lines[..i]);
      SawStep(lines, i - 1);
      forall s
        ensures now.source == Some(s) <==> InFile(roots, lines, i, s)
      {
        InFileStep(roots, lines, i - 1, s);
      }
    }
  }

  lemma SawStep(lines: seq<string>, i: nat)
    requires i < |lines|
    ensures SawSource(lines, i + 1) <==> SawSource(lines, i) || IsSource(lines[i])
  {
  }

  lemma InFileStep(roots: Roots, lines: seq<string>, i: nat, s: string)
    requires i < |lines|
    ensures InFile(roots, lines, i + 1, s) <==> if IsSource(lines[i]) then Names(roots, lines[i], s) else InFile(roots, lines, i, s)
  {
    hide Names, IsSource;
    if IsSource(lines[i]) {
      assert Heads(lines, i, i + 1);
      if InFile(roots, lines, i + 1, s) {
        var j: nat :| Heads(lines, j, i + 1) && Names(roots, lines[j], s);
        assert j == i;
      }
    } else {
      forall j: nat
        ensures Heads(lines, j, i + 1) <==> Heads(lines, j, i)
      {
        HeadsStep(lines, j, i);
      }
    }
  }

  lemma HeadsStep(lines: seq<string>, j: nat, i: nat)
    requires i < |lines| && !IsSource(lines[i])
    ensures Heads(lines, j, i + 1) <==> Heads(lines, j, i)
  {
    hide IsSource;
  }

  /** A section has one file. */
  lemma OneFile(roots: Roots, lines: seq<string>, i: nat, s: string, t: string)
    requires InFile(roots, lines, i, s) && InFile(roots, lines, i, t)
    ensures s == t
  {
    hide IsSource;
    var j: nat :| Heads(lines, j, i) && Names(roots, lines[j], s);
    var k: nat :| Heads(lines, k, i) && Names(roots, lines[k], t);
    assert j == k;
  }

  // ----- what one line says

  /** The line is refused, names a file, gives a count, or says nothing. */
  lemma SaidIs(roots: Roots, lines: seq<string>, i: nat)
    requires i < |lines|
    ensures var said := Said(roots, ContextAfter(roots, START, lines[..i]), lines[i]);
            && (forall e :: said == Err(e) <==> Refused(roots, lines, i, e))
            && (said.Ok? ==> forall s :: Lists(said.value, s) <==>
                               Names(roots, lines[i], s) || exists l, h :: Gives(roots, lines, i, s, l, h))
            && (said.Ok? ==> forall s, l, h :: Says(said.value, s, l, h) <==> Gives(roots, lines, i, s, l, h))
  {
    hide ContextAfter, Split, ReadInt, InFile;
    var ctx := ContextAfter(roots, START, lines[..i]);
    var raw := lines[i];
    ContextIs(roots, lines, i);
    PrefixIs(raw);
    SaidBy(roots, ctx, raw);
    if IsData(raw) {
      DataIs(roots, lines, i, ctx);
    } else {
      hide Said;
      forall e
        ensures !Refused(roots, lines, i, e)
      {
      }
    }
  }

  /** The same, given the context. */
  lemma SaidBy(roots: Roots, ctx: Context, raw: string)
    ensures var said := Said(roots, ctx, raw);
            && (IsSource(raw) ==> said.Ok? && (forall s :: Lists(said.value, s) <==> Names(roots, raw, s))
                                  && forall s, l, h :: !Says(said.value, s, l, h))
            && (!IsSource(raw) && !IsData(raw) ==> said == Ok([]))
  {
    hide Split, ReadInt;
    PrefixIs(raw);
    var said := Said(roots, ctx, raw);
    if IsSource(raw) && said.value != [] {
      assert said.value[0] in said.value;
    }
  }

  lemma DataIs(roots: Roots, lines: seq<string>, i: nat, ctx: Context)
    requires i < |lines| && IsData(lines[i]) && ctx == ContextAfter(roots, START, lines[..i])
    requires ctx.saw <==> SawSource(lines, i)
    requires forall s :: ctx.source == Some(s) <==> InFile(roots, lines, i, s)
    requires !("SF:" <= lines[i]) && "DA:" <= lines[i]
    ensures var said := Said(roots, ctx, lines[i]);
            && (forall e :: said == Err(e) <==> Refused(roots, lines, i, e))
            && (said.Ok? ==> forall s :: Lists(said.value, s) <==>
                               Names(roots, lines[i], s) || exists l, h :: Gives(roots, lines, i, s, l, h))
            && (said.Ok? ==> forall s, l, h :: Says(said.value, s, l, h) <==> Gives(roots, lines, i, s, l, h))
  {
    hide ContextAfter, Split, ReadInt, InFile;
    var raw := lines[i];
    var said := Said(roots, ctx, raw);
    var fields := Split(raw[3..], ',');
    NoSourceBefore(roots, lines, i);
    if ctx.saw && ctx.source.Some? {
      var s := ctx.source.value;
      assert InFile(roots, lines, i, s);
      if said.Ok? {
        var l, h := ReadInt(fields[0]).value, ReadInt(fields[1]).value;
        assert Reads(raw, l, h) && Gives(roots, lines, i, s, l, h);
        var one: Records := map[s := map[l := h]];
        assert said.value == [one] && one in said.value && Has(one, s, l, h);
        assert forall r :: r in said.value ==> r == one;
      }
    }
  }

  lemma NoSourceBefore(roots: Roots, lines: seq<string>, i: nat)
    ensures !SawSource(lines, i) ==> forall s :: !InFile(roots, lines, i, s)
  {
  }

  // ----- what all lines say

  lemma ListsConcat(u: seq<Records>, v: seq<Records>, s: string)
    ensures Lists(u + v, s) <==> Lists(u, s) || Lists(v, s)
  {
  }

  lemma SaysBoth(u: seq<Records>, v: seq<Records>, s: string, l: int, h: int)
    ensures Says(u + v, s, l, h) <==> Says(u, s, l, h) || Says(v, s, l, h)
  {
    hide Has;
  }

  ghost predicate NamedBefore(roots: Roots, lines: seq<string>, n: nat, s: string) {
    exists j :: 0 <= j < n && j < |lines| && Names(roots, lines[j], s)
  }

  ghost predicate GivenBefore(roots: Roots, lines: seq<string>, n: nat, s: string, l: int, h: int) {
    exists i: nat :: i < n && Gives(roots, lines, i, s, l, h)
  }

  /** A file in whose section a line stands has been named. */
  lemma GivenIsNamed(roots: Roots, lines: seq<string>, i: nat, s: string)
    requires InFile(roots, lines, i, s)
    ensures NamedBefore(roots, lines, i, s)
  {
    hide Names;
    var j: nat :| Heads(lines, j, i) && Names(roots, lines[j], s);
  }

  lemma {:induction false} ContributionsAre(roots: Roots, lines: seq<string>, n: nat)
    requires n <= |lines|
    ensures var all := Contributions(roots, START, lines[..n]);
            && (all.Err? ==> exists i: nat :: i < n && FirstRefused(roots, lines, i, all.error))
            && (all.Ok? ==> forall i: nat, e :: i < n ==> !Refused(roots, lines, i, e))
            && (all.Ok? ==> forall s :: Lists(all.value, s) <==> NamedBefore(roots, lines, n, s))
            && (all.Ok? ==> forall s, l, h :: Says(all.value, s, l, h) <==> GivenBefore(roots, lines, n, s, l, h))
    decreases n
  {
    hide Contributions, ContextAfter, Said, Refused, Gives, Names;
    if n == 0 {
      NothingSaid(roots, START, lines[..0]);
      NothingListed();
    } else {
      var i := n - 1;
      ContributionsAre(roots, lines, i);
      OneMore(roots, START, lines, i);
      SaidIs(roots, lines, i);
      var before, said := Contributions(roots, START, lines[..i]), Said(roots, ContextAfter(roots, START, lines[..i]), lines[i]);
      if before.Ok? && said.Err? {
        assert FirstRefused(roots, lines, i, said.error);
      } else if before.Ok? {
        forall s
          ensures Lists(before.value + said.value, s) <==> NamedBefore(roots, lines, n, s)
        {
          ListsConcat(before.value, said.value, s);
          NamedStep(roots, lines, i, s);
        }
        forall s, l, h
          ensures Says(before.value + said.value, s, l, h) <==> GivenBefore(roots, lines, n, s, l, h)
        {
          SaysBoth(before.value, said.value, s, l, h);
          GivenStep(roots, lines, i, s, l, h);
        }
      }
    }
  }

  lemma NothingListed()
    ensures forall s :: !Lists([], s)
    ensures forall s, l, h :: !Says([], s, l, h)
  {
  }

  lemma NamedStep(roots: Roots, lines: seq<string>, i: nat, s: string)
    requires i < |lines|
    ensures NamedBefore(roots, lines, i + 1, s) <==>
            NamedBefore(roots, lines, i, s) || Names(roots, lines[i], s) || exists l, h :: Gives(roots, lines, i, s, l, h)
  {
    hide Names, Reads;
    if l, h :| Gives(roots, lines, i, s, l, h) {
      GivenIsNamed(roots, lines, i, s);
    }
  }

  lemma GivenStep(roots: Roots, lines: seq<string>, i: nat, s: string, l: int, h: int)
    ensures GivenBefore(roots, lines, i + 1, s, l, h) <==> GivenBefore(roots, lines, i, s, l, h) || Gives(roots, lines, i, s, l, h)
  {
    hide Gives;
  }

  lemma GivenBeforeEnd(roots: Roots, lines: seq<string>, s: string, l: int, h: int)
    ensures GivenBefore(roots, lines, |lines|, s, l, h) <==> Given(roots, lines, s, l, h)
  {
    hide InFile, Reads;
  }

  lemma NotRefusedBeyond(roots: Roots, lines: seq<string>, i: nat, e: LcovError)
    requires i >= |lines|
    ensures !Refused(roots, lines, i, e)
  {
  }

  /** What reading a report comes to is what its lines say, one by one. */
  lemma ParseReadsAs(roots: Roots, text: string, r: Result<Records, LcovError>)
    requires IsParse(roots, text, r)
    ensures ReadsAs(roots, text, r)
  {
    hide SplitLines, Contributions, Refused, Names, Given, GivenBefore, NamedBefore, Says, Lists, Has;
    if text != [] {
      var lines := SplitLines(text);
      assert lines[..|lines|] == lines;
      ContributionsAre(roots, lines, |lines|);
      var said := Contributions(roots, START, lines);
      if said.Ok? {
        forall i: nat, e
          ensures !Refused(roots, lines, i, e)
        {
          if i >= |lines| {
            NotRefusedBeyond(roots, lines, i, e);
          }
        }
        forall s, l, h
          ensures Says(said.value, s, l, h) <==> Given(roots, lines, s, l, h)
        {
          GivenBeforeEnd(roots, lines, s, l, h);
        }
        if r.Ok? {
          MergedReads(roots, lines, said.value, r.value);
        } else {
          NothingGiven(roots, lines, said.value);
        }
      } else {
        NoOtherError(roots, lines, said.error);
      }
    }
  }

  lemma NoOtherError(roots: Roots, lines: seq<string>, e: LcovError)
    requires exists i: nat :: i < |lines| && FirstRefused(roots, lines, i, e)
    ensures e.OrphanLine? || e.MalformedLine?
  {
    hide InFile, Reads;
  }

  lemma NothingGiven(roots: Roots, lines: seq<string>, said: seq<Records>)
    requires !SomeLine(said) && forall s, l, h :: Says(said, s, l, h) <==> Given(roots, lines, s, l, h)
    ensures forall s, l, h :: !Given(roots, lines, s, l, h)
  {
    hide Says, Given;
    forall s, l, h
      ensures !Given(roots, lines, s, l, h)
    {
      assert !Measures(said, s, l);
    }
  }

  lemma MergedReads(roots: Roots, lines: seq<string>, said: seq<Records>, m: Records)
    requires IsMerge(said, m)
    requires forall s :: Lists(said, s) <==> NamedBefore(roots, lines, |lines|, s)
    requires forall s, l, h :: Says(said, s, l, h) <==> Given(roots, lines, s, l, h)
    ensures forall s :: s in m <==> exists j :: 0 <= j < |lines| && Names(roots, lines[j], s)
    ensures forall s, l :: Counted(m, s, l) <==> GivenSome(roots, lines, s, l)
    ensures forall s, l :: Counted(m, s, l) ==> IsHighest(roots, lines, s, l, m[s][l])
  {
    hide Says, Given, Names, Lists;
    forall s, l
      ensures Counted(m, s, l) <==> GivenSome(roots, lines, s, l)
      ensures Counted(m, s, l) ==> IsHighest(roots, lines, s, l, m[s][l])
    {
      assert Measures(said, s, l) <==> GivenSome(roots, lines, s, l);
      if s in m && l in m[s] {
        assert Has(m, s, l, m[s][l]);
      }
    }
  }

  // ----- a data line as the writer prints it

  /** `DA:`, a line, a comma and a count give that line that count. */
  lemma EntryReads(l: int, h: int, a: int, b: int)
    ensures Reads("DA:" + Show(l) + "," + Show(h), a, b) <==> a == l && b == h
  {
    hide Show, ReadInt, Split;
    var raw := "DA:" + Show(l) + "," + Show(h);
    assert raw[3..] == Show(l) + [','] + Show(h);
    NoComma(l);
    NoComma(h);
    SplitFirst(Show(l), ',', Show(h));
    SplitOne(Show(h), ',');
    ShownIntReads(l);
    ShownIntReads(h);
  }

  lemma NoComma(n: int)
    ensures ',' !in Show(n)
  {
  }

  // ----- the reader's loop

  method ParseLcov(roots: Roots, text: string) returns (r: Result<Records, LcovError>)
    ensures IsParse(roots, text, r) && ReadsAs(roots, text, r)
  {
    hide Said, After, Absorb, IsMerge, Contributions, ContextAfter, SomeLine, ReadsAs;
    if text == [] {
      r := Err(EmptyReport);
      ParseReadsAs(roots, text, r);
      return;
    }
    var lines := SplitLines(text);
    var records: Records := map[];
    var ctx := START;
    ghost var said: seq<Records> := [];
    NothingMerges();
    NothingSaid(roots, START, lines[..0]);
    for i := 0 to |lines|
      invariant Contributions(roots, START, lines[..i]) == Ok(said)
      invariant ctx == ContextAfter(roots, START, lines[..i])
      invariant IsMerge(said, records)
      invariant ctx.source.Some? ==> ctx.source.value in records
    {
      OneMore(roots, START, lines, i);
      var next, after := TakeLine(roots, ctx, records, lines[i]);
      if next.Err? {
        ErrorStays(roots, START, lines, i + 1);
        r := Err(next.error);
        ParseReadsAs(roots, text, r);
        return;
      }
      ghost var more := Said(roots, ctx, lines[i]).value;
      if more != [] {
        AbsorbMerges(said, records, more[0]);
        AtMostOne(roots, ctx, lines[i]);
      } else {
        assert said + more == said;
      }
      said := said + more;
      records := next.value;
      ctx := after;
    }
    assert lines[..|lines|] == lines;
    LinesSurvive(said, records);
    if s :| s in records && records[s] != map[] {
      r := Ok(records);
    } else {
      r := Err(NoLines);
    }
    ParseReadsAs(roots, text, r);
  }
}
