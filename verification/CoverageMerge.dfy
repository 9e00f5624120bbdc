/** Coverage records and their pointwise-maximum merge (scripts/coverage_rust_ledger.py). */
module CoverageMerge {
  import opened IntegerSets

  type Lines = map<int, int>

  /** Hits by line, by source file. */
  type Records = map<string, Lines>

  function Max(a: int, b: int): (r: int) {
    if a < b then b else a
  }

  ghost predicate Has(r: Records, s: string, l: int, h: int) {
    s in r && l in r[s] && r[s][l] == h
  }

  ghost predicate NonNegative(r: Records) {
    forall s, l, h :: Has(r, s, l, h) ==> h >= 0
  }

  ghost predicate Covered(r: Records, s: string, l: int) {
    exists h :: Has(r, s, l, h) && h > 0
  }

  // ----- what a merge is, without saying how it is computed

  ghost predicate Lists(reports: seq<Records>, s: string) {
    exists r :: r in reports && s in r
  }

  ghost predicate Says(reports: seq<Records>, s: string, l: int, h: int) {
    exists r :: r in reports && Has(r, s, l, h)
  }

  /** `h` is the highest hit count the reports have for the line, but not less than zero. */
  ghost predicate IsPeak(reports: seq<Records>, s: string, l: int, h: int) {
    && h >= 0
    && (forall g :: Says(reports, s, l, g) ==> g <= h)
    && (h == 0 || Says(reports, s, l, h))
  }

  ghost predicate Measures(reports: seq<Records>, s: string, l: int) {
    exists g :: Says(reports, s, l, g)
  }

  ghost predicate IsMerge(reports: seq<Records>, m: Records) {
    && (forall s :: s in m <==> Lists(reports, s))
    && (forall s, l, h :: Has(m, s, l, h) <==> Measures(reports, s, l) && IsPeak(reports, s, l, h))
    && (forall s, l :: Measures(reports, s, l) ==> s in m && l in m[s])
  }

  // ----- laws

  lemma SameCells(m: Records, n: Records)
    requires m.Keys == n.Keys
    requires forall s, l, h :: Has(m, s, l, h) <==> Has(n, s, l, h)
    ensures m == n
  {
    forall s | s in m
      ensures m[s] == n[s]
    {
      forall l
        ensures l in m[s] <==> l in n[s]
        ensures l in m[s] ==> l in n[s] && m[s][l] == n[s][l]
      {
        if l in m[s] {
          assert Has(m, s, l, m[s][l]);
        }
        if l in n[s] {
          assert Has(n, s, l, n[s][l]);
        }
      }
    }
  }

  /** A merge depends only on which reports there are: not on their order, not on repetition. */
  lemma MergeIsDetermined(a: seq<Records>, b: seq<Records>, m: Records, n: Records)
    requires forall r :: r in a <==> r in b
    requires IsMerge(a, m) && IsMerge(b, n)
    ensures m == n
  {
    hide Has, IsPeak, Measures, Lists;
    MergeReordered(a, b, m);
    SameCells(m, n);
  }

  /** Both lists have the same merges. */
  ghost predicate Alike(a: seq<Records>, b: seq<Records>) {
    && (forall s :: Lists(a, s) <==> Lists(b, s))
    && (forall s, l :: Measures(a, s, l) <==> Measures(b, s, l))
    && (forall s, l, h :: Measures(a, s, l) ==> (IsPeak(a, s, l, h) <==> IsPeak(b, s, l, h)))
  }

  lemma AlikeMerge(a: seq<Records>, b: seq<Records>, x: Records)
    requires Alike(a, b)
    ensures IsMerge(a, x) <==> IsMerge(b, x)
  {
    hide Has, Says, Lists, IsPeak, Measures;
  }

  /** Merging a merge with more reports merges them all. */
  lemma MergeOfMerge(a: seq<Records>, m: Records, rest: seq<Records>, x: Records)
    requires IsMerge(a, m)
    ensures IsMerge([m] + rest, x) <==> IsMerge(a + rest, x)
  {
    hide Has, Lists, Says, Measures, IsPeak;
    forall s
      ensures Lists([m] + rest, s) <==> Lists(a + rest, s)
    {
      ListsConcat([m], rest, s);
      ListsConcat(a, rest, s);
      ListsOne(m, s);
    }
    forall s, l
      ensures Measures([m] + rest, s, l) <==> Measures(a + rest, s, l)
    {
      PeakThroughMerge(a, m, rest, s, l, 0);
    }
    forall s, l, h | Measures(a + rest, s, l)
      ensures IsPeak([m] + rest, s, l, h) <==> IsPeak(a + rest, s, l, h)
    {
      PeakThroughMerge(a, m, rest, s, l, h);
    }
    AlikeMerge([m] + rest, a + rest, x);
  }

  /** A merge leaves a report alone exactly when it holds no negative count. */
  lemma MergeOfOne(r: Records)
    ensures IsMerge([r], r) <==> NonNegative(r)
  {
    hide Says, Lists;
    forall s
      ensures Lists([r], s) <==> s in r
    {
      ListsOne(r, s);
    }
    forall s, l, h
      ensures Says([r], s, l, h) <==> Has(r, s, l, h)
    {
      SaysOne(r, s, l, h);
    }
  }

  /** A line is covered in the merge exactly when some report covers it. */
  lemma CoveredInMerge(reports: seq<Records>, m: Records, s: string, l: int)
    requires IsMerge(reports, m)
    ensures Covered(m, s, l) <==> exists r :: r in reports && Covered(r, s, l)
  {
    if h :| Has(m, s, l, h) && h > 0 {
      assert Says(reports, s, l, h);
    }
    if r :| r in reports && Covered(r, s, l) {
      var g :| Has(r, s, l, g) && g > 0;
      assert Says(reports, s, l, g);
      assert Has(m, s, l, m[s][l]);
    }
  }

  /** Merging is commutative and associative, and idempotent exactly on non-negative counts. */
  lemma MergeLaws(a: Records, b: Records, c: Records, aa: Records, ab: Records, ba: Records, bc: Records, x: Records, y: Records)
    requires IsMerge([a, a], aa) && IsMerge([a, b], ab) && IsMerge([b, a], ba) && IsMerge([b, c], bc)
    requires IsMerge([ab, c], x) && IsMerge([a, bc], y)
    ensures ab == ba && x == y
    ensures aa == a <==> NonNegative(a)
  {
    hide IsMerge, NonNegative;
    MergeIsDetermined([a, b], [b, a], ab, ba);
    MergeOfMerge([a, b], ab, [c], x);
    assert [ab] + [c] == [ab, c] && [a, b] + [c] == [a, b, c];
    MergeReordered([a, bc], [bc, a], y);
    MergeOfMerge([b, c], bc, [a], y);
    assert [bc] + [a] == [bc, a] && [b, c] + [a] == [b, c, a];
    MergeIsDetermined([a, b, c], [b, c, a], x, y);
    MergeReordered([a, a], [a], aa);
    MergeOfOne(a);
    if NonNegative(a) {
      MergeIsDetermined([a], [a], a, aa);
    }
  }

  lemma MergeReordered(a: seq<Records>, b: seq<Records>, m: Records)
    requires forall r :: r in a <==> r in b
    ensures IsMerge(a, m) <==> IsMerge(b, m)
  {
    hide Has;
    assert forall s :: Lists(a, s) <==> Lists(b, s);
    assert forall s, l, h :: Says(a, s, l, h) <==> Says(b, s, l, h);
    hide Says;
    assert forall s, l :: Measures(a, s, l) <==> Measures(b, s, l);
    assert forall s, l, h :: IsPeak(a, s, l, h) <==> IsPeak(b, s, l, h);
    AlikeMerge(a, b, m);
  }

  lemma ListsOne(m: Records, s: string)
    ensures Lists([m], s) <==> s in m
  {
    assert m in [m];
  }

  lemma ListsConcat(a: seq<Records>, b: seq<Records>, s: string)
    ensures Lists(a + b, s) <==> Lists(a, s) || Lists(b, s)
  {
  }

  lemma SaysConcat(a: seq<Records>, b: seq<Records>, s: string, l: int, h: int)
    ensures Says(a + b, s, l, h) <==> Says(a, s, l, h) || Says(b, s, l, h)
  {
  }

  lemma PeakThroughMerge(a: seq<Records>, m: Records, rest: seq<Records>, s: string, l: int, h: int)
    requires IsMerge(a, m)
    ensures Measures([m] + rest, s, l) <==> Measures(a + rest, s, l)
    ensures Measures(a + rest, s, l) ==> (IsPeak([m] + rest, s, l, h) <==> IsPeak(a + rest, s, l, h))
  {
    hide Says, Lists;
    forall g
      ensures Says([m] + rest, s, l, g) <==> Has(m, s, l, g) || Says(rest, s, l, g)
      ensures Says(a + rest, s, l, g) <==> Says(a, s, l, g) || Says(rest, s, l, g)
    {
      SaysConcat([m], rest, s, l, g);
      SaysConcat(a, rest, s, l, g);
      SaysOne(m, s, l, g);
    }
    if Measures(a, s, l) {
      assert Has(m, s, l, m[s][l]);
    }
  }

  lemma SaysOne(m: Records, s: string, l: int, h: int)
    ensures Says([m], s, l, h) <==> Has(m, s, l, h)
  {
    hide Has;
    assert m in [m];
  }

  // ----- the loops

  /** One report's lines for a file, taken into those gathered so far. */
  function AbsorbLines(d: Lines, x: Lines): (r: Lines) {
    map l | l in d.Keys + x.Keys :: if l in x then Max(if l in d then d[l] else 0, x[l]) else d[l]
  }

  function Absorb(m: Records, r: Records): (n: Records) {
    map s | s in m.Keys + r.Keys ::
      if s in r then AbsorbLines(if s in m then m[s] else map[], r[s]) else m[s]
  }

  lemma AbsorbStep(m: Records, report: Records, todo: set<string>, s: string)
    requires s in todo && todo <= report.Keys
    ensures var n, left := Absorb(m, report - todo), todo - {s};
            Absorb(m, report - left) == n[s := AbsorbLines(if s in n then n[s] else map[], report[s])]
  {
    hide AbsorbLines;
  }

  method TakeLines(d: Lines, x: Lines) returns (r: Lines)
    ensures r == AbsorbLines(d, x)
  {
    r := d;
    var todo := x.Keys;
    while todo != {}
      invariant todo <= x.Keys && r == AbsorbLines(d, x - todo)
    {
      ghost var some := Pick(todo);
      assert some in todo;
      var l :| l in todo;
      r := r[l := Max(if l in r then r[l] else 0, x[l])];
      todo := todo - {l};
    }
    assert x - todo == x;
  }

  lemma AbsorbNothing(m: Records, report: Records)
    ensures Absorb(m, report - report.Keys) == m
  {
  }

  method TakeReport(m: Records, report: Records) returns (n: Records)
    ensures n == Absorb(m, report)
  {
    hide AbsorbLines, Absorb;
    n := m;
    AbsorbNothing(m, report);
    var todo := report.Keys;
    while todo != {}
      invariant todo <= report.Keys && n == Absorb(m, report - todo)
    {
      var s :| s in todo;
      var lines := TakeLines(if s in n then n[s] else map[], report[s]);
      AbsorbStep(m, report, todo, s);
      n := n[s := lines];
      todo := todo - {s};
    }
    assert report - todo == report;
  }

  lemma AbsorbedCells(m: Records, r: Records, s: string, l: int, h: int)
    ensures Has(Absorb(m, r), s, l, h) <==>
            if s in r && l in r[s] then h == Max(if s in m && l in m[s] then m[s][l] else 0, r[s][l]) else Has(m, s, l, h)
  {
  }

  lemma AbsorbMerges(reports: seq<Records>, m: Records, r: Records)
    requires IsMerge(reports, m)
    ensures IsMerge(reports + [r], Absorb(m, r))
  {
    hide Says, Lists, Measures, IsPeak, AbsorbLines;
    var n := Absorb(m, r);
    forall s
      ensures s in n <==> Lists(reports + [r], s)
    {
      ListsConcat(reports, [r], s);
      ListsOne(r, s);
    }
    forall s, l, h
      ensures Has(n, s, l, h) <==> Measures(reports + [r], s, l) && IsPeak(reports + [r], s, l, h)
    {
      AbsorbedPeak(reports, m, r, s, l, h);
    }
    forall s, l | Measures(reports + [r], s, l)
      ensures s in n && l in n[s]
    {
      AbsorbedPeak(reports, m, r, s, l, 0);
    }
  }

  lemma AbsorbedPeak(reports: seq<Records>, m: Records, r: Records, s: string, l: int, h: int)
    requires IsMerge(reports, m)
    ensures var n := Absorb(m, r);
            && (Has(n, s, l, h) <==> Measures(reports + [r], s, l) && IsPeak(reports + [r], s, l, h))
            && (Measures(reports + [r], s, l) ==> s in n && l in n[s])
  {
    hide Says, Lists;
    forall g
      ensures Says(reports + [r], s, l, g) <==> Says(reports, s, l, g) || Has(r, s, l, g)
    {
      SaysConcat(reports, [r], s, l, g);
      SaysOne(r, s, l, g);
    }
    AbsorbedCells(m, r, s, l, h);
    var known := s in m && l in m[s];
    assert known <==> Measures(reports, s, l) by {
      assert known ==> Has(m, s, l, m[s][l]);
    }
    if s in r && l in r[s] {
      assert Has(r, s, l, r[s][l]) && Says(reports + [r], s, l, r[s][l]);
      var top := Max(if known then m[s][l] else 0, r[s][l]);
      assert known ==> Has(m, s, l, m[s][l]) && IsPeak(reports, s, l, m[s][l]);
      assert IsPeak(reports + [r], s, l, top);
      if IsPeak(reports + [r], s, l, h) {
        OnePeak(reports + [r], s, l, top, h);
      }
    }
  }

  lemma OnePeak(reports: seq<Records>, s: string, l: int, g: int, h: int)
    requires IsPeak(reports, s, l, g) && IsPeak(reports, s, l, h)
    ensures g == h
  {
    hide Says;
  }

  method MergeRecords(reports: seq<Records>) returns (m: Records)
    ensures IsMerge(reports, m)
  {
    hide Absorb, IsMerge;
    m := map[];
    NothingMerges();
    for k := 0 to |reports|
      invariant IsMerge(reports[..k], m)
    {
      AbsorbMerges(reports[..k], m, reports[k]);
      assert reports[..k] + [reports[k]] == reports[..k + 1];
      m := TakeReport(m, reports[k]);
    }
    assert reports[..|reports|] == reports;
  }

  lemma NothingMerges()
    ensures IsMerge([], map[])
  {
  }
}
