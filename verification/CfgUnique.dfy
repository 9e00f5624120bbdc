/** An attribute covers only one thing, and a scan has only one result (scripts/coverage_rust_ledger.py). */
module CfgUnique {
  import opened Results
  import opened CfgSpans
  import opened CfgOutcome
  import opened CfgScan
  import opened CfgSafety

  lemma StopIsUnique(y: seq<Symbol>, from: nat, a: nat, b: nat)
    requires FirstStop(y, from, a)
    ensures FirstStop(y, from, b) ==> a == b
    ensures !NeverStops(y, from)
  {
    hide Stops;
  }

  lemma ModuleIsUnique(s: Stream, p: nat, b: nat, k: nat, l: nat, r: Result<Span, Fault>, q: Result<Span, Fault>)
    requires b <= |s.y| && ModuleResult(s, p, b, k, r) && ModuleResult(s, p, b, l, q)
    ensures r == q && !NoMod(s.y, p + 7, b)
  {
    assert k == l;
  }

  lemma ItemIsUnique(s: Stream, p: nat, r: Result<Span, Fault>, q: Result<Span, Fault>)
    requires Valid(s) && ItemOutcome(s, p, r) && ItemOutcome(s, p, q)
    ensures r == q
  {
    hide Paired, Placed, Indexed, Stops, NeverStops, NoMod, ModuleResult;
    if b: nat :| ItemStops(s, p, b, r) {
      StopIsUnique(s.y, p + 7, b, b);
      var c: nat :| ItemStops(s, p, c, q);
      StopIsUnique(s.y, p + 7, b, c);
      SameStop(s, p, b, r, q);
    } else if c: nat :| ItemStops(s, p, c, q) {
      StopIsUnique(s.y, p + 7, c, c);
    }
  }

  lemma SameStop(s: Stream, p: nat, b: nat, r: Result<Span, Fault>, q: Result<Span, Fault>)
    requires Valid(s) && p + 7 <= b < |s.y| && ItemResult(s, p, b, r) && ItemResult(s, p, b, q)
    ensures r == q
  {
    hide Valid, NoMod, ModuleResult;
    if s.y[b] != OpenBrace && !NoMod(s.y, p + 7, b) {
      var k: nat :| ModuleResult(s, p, b, k, r);
      var l: nat :| ModuleResult(s, p, b, l, q);
      ModuleIsUnique(s, p, b, k, l, r, q);
    }
  }

  lemma MemberIsUnique(s: Stream, p: nat, from: nat, r: Result<Span, Fault>, q: Result<Span, Fault>)
    requires MemberOutcome(s, p, from, r) && MemberOutcome(s, p, from, q)
    ensures r == q
  {
    hide EndsAt, MemberResult;
    if s.Container(p).Some? {
      var a: nat :| MemberEnds(s, p, from, a, r);
      var b: nat :| MemberEnds(s, p, from, b, q);
      EndIsUnique(s, s.Container(p).value, true, from, Limit(s, p), a, b);
    }
  }

  lemma ElementIsUnique(s: Stream, p: nat, r: Result<Span, Fault>, q: Result<Span, Fault>)
    requires ElementOutcome(s, p, r) && ElementOutcome(s, p, q)
    ensures r == q
  {
    hide EndsAt, ElementResult;
    var a: nat :| ElementEnds(s, p, a, r);
    var b: nat :| ElementEnds(s, p, b, q);
    EndIsUnique(s, s.Container(p).value, false, p + 7, Limit(s, p), a, b);
  }

  /** What an attribute comes to is determined. */
  lemma OutcomeIsUnique(s: Stream, p: nat, r: Result<Span, Fault>, q: Result<Span, Fault>)
    requires Valid(s) && Attribute(s.y, p) && Outcome(s, p, r) && Outcome(s, p, q)
    ensures r == q
  {
    hide Valid, Attribute, MemberOutcome, ElementOutcome, ItemOutcome, NamePosition;
    if Named(s, p) {
      MemberIsUnique(s, p, NamePosition(s, p + 7) + 2, r, q);
    } else if InList(s, p) {
      ElementIsUnique(s, p, r, q);
    } else {
      ItemIsUnique(s, p, r, q);
    }
  }

  /** Where the search for the next attribute resumes after `k` spans. */
  function Resume(spans: seq<Span>, k: nat): (r: nat)
    requires k <= |spans|
  {
    if k == 0 then 0 else spans[k - 1].last + 1
  }

  /** No attribute lies between the spans. */
  lemma {:induction false} NothingBetween(s: Stream, spans: seq<Span>, i: nat, k: nat)
    requires Valid(s) && Scanned(s, spans, i) && k <= |spans|
    ensures Gap(s, Resume(spans, k), if k < |spans| then spans[k].start else i)
    decreases |spans|
  {
    hide Paired, Placed, Indexed, Attribute, Outcome, Gap;
    if k < |spans| {
      var n := |spans| - 1;
      NothingBetween(s, spans[..n], spans[n].start, k);
    }
  }

  lemma FirstInGap(s: Stream, from: nat, a: nat, b: nat)
    requires Gap(s, from, a) && Gap(s, from, b) && Attribute(s.y, a) && Attribute(s.y, b) && from <= a && from <= b
    ensures a == b
  {
    hide Attribute;
  }

  /** Two scans agree as far as both go. */
  lemma {:induction false} SamePrefix(s: Stream, a: seq<Span>, i: nat, b: seq<Span>, j: nat, k: nat)
    requires Valid(s) && Scanned(s, a, i) && Scanned(s, b, j) && k <= |a| && k <= |b|
    ensures a[..k] == b[..k] && Resume(a, k) == Resume(b, k)
    decreases k
  {
    hide Paired, Placed, Indexed, Attribute, Outcome, Gap, Scanned;
    if k > 0 {
      var n := k - 1;
      SamePrefix(s, a, i, b, j, n);
      NothingBetween(s, a, i, n);
      NothingBetween(s, b, j, n);
      SpansAreOrdered(s, a, i);
      SpansAreOrdered(s, b, j);
      FirstInGap(s, Resume(a, n), a[n].start, b[n].start);
      OutcomeIsUnique(s, a[n].start, Ok(a[n]), Ok(b[n]));
      assert a[..k] == a[..n] + [a[n]] && b[..k] == b[..n] + [b[n]];
    }
  }

  /** A scan that goes further has at least the spans of the other. */
  lemma NoLonger(s: Stream, a: seq<Span>, i: nat, b: seq<Span>, j: nat)
    requires Valid(s) && Scanned(s, a, i) && Scanned(s, b, j) && j <= i
    ensures |b| <= |a|
  {
    hide Paired, Placed, Indexed, Attribute, Outcome, Scanned;
    var n := |a|;
    if n < |b| {
      SamePrefix(s, a, i, b, j, n);
      SpansAreOrdered(s, b, j);
      assert Attribute(s.y, b[n].start) && Resume(b, n) <= b[n].start < i;
      NothingBetween(s, a, i, n);
    }
  }

  /** A position is reached by only one sequence of spans. */
  lemma ScannedIsUnique(s: Stream, a: seq<Span>, b: seq<Span>, i: nat)
    requires Valid(s) && Scanned(s, a, i) && Scanned(s, b, i)
    ensures a == b
  {
    hide Valid, Scanned;
    NoLonger(s, a, i, b, i);
    NoLonger(s, b, i, a, i);
    SamePrefix(s, a, i, b, i, |a|);
    assert a[..|a|] == a && b[..|a|] == b;
  }

  /** Behind an attribute without a definite span there is no scan. */
  lemma FaultBlocks(s: Stream, before: seq<Span>, p: nat, fault: Fault, all: seq<Span>)
    requires Valid(s) && Scanned(s, before, p) && Attribute(s.y, p) && Outcome(s, p, Err(fault))
    ensures !Scanned(s, all, |s.y|)
  {
    hide Paired, Placed, Indexed, Attribute, Outcome, Scanned, Gap;
    AttributeSymbols(s.y, p);
    if Scanned(s, all, |s.y|) {
      var n := |before|;
      NoLonger(s, all, |s.y|, before, p);
      SamePrefix(s, all, |s.y|, before, p, n);
      NothingBetween(s, before, p, n);
      NothingBetween(s, all, |s.y|, n);
      SpansAreOrdered(s, before, p);
      SpansAreOrdered(s, all, |s.y|);
      NextIsThere(s, all, n, p);
      OutcomeIsUnique(s, p, Ok(all[n]), Err(fault));
    }
  }

  /** The next attribute starts the next span. */
  lemma NextIsThere(s: Stream, all: seq<Span>, n: nat, p: nat)
    requires n <= |all| && Resume(all, n) <= p < |s.y| && Attribute(s.y, p) && Gap(s, Resume(all, n), p)
    requires Gap(s, Resume(all, n), if n < |all| then all[n].start else |s.y|)
    requires n < |all| ==> Attribute(s.y, all[n].start) && Resume(all, n) <= all[n].start
    ensures n < |all| && all[n].start == p
  {
    hide Attribute;
  }
}
