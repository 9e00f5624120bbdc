/** What the `#[cfg(test)]` scan keeps and what it takes (scripts/coverage_rust_ledger.py). */
module CfgSafety {
  import opened Results
  import opened DelimiterTable
  import opened CfgSpans
  import opened CfgOutcome
  import opened CfgScan

  /** Token `q` belongs to the span. */
  predicate Holds(x: Span, q: nat) {
    x.start <= q <= x.last
  }

  // ----- one span and the lines it shares

  /** A member or element takes a line only when it owns every token on it. */
  lemma SharedLinesAreKept(s: Stream, x: Span, q: nat)
    requires Valid(s) && x.start < |s.y| && x.last < |s.y| && q < |s.y|
    requires x.kind != ItemSpan && Excludes(s, x, s.line[q])
    ensures Holds(x, q)
  {
    hide Paired, Placed;
    assert OnLine(s.table.lines, s.line[q], q);
  }

  /** The span takes no line away from a token outside it. */
  ghost predicate KeepsOutsiders(s: Stream, x: Span)
    requires x.start < |s.line| && x.last < |s.line|
  {
    forall q :: 0 <= q < |s.line| && !Holds(x, q) ==> !Excludes(s, x, s.line[q])
  }

  /** The span's first token opens its line and its last token ends its line. */
  predicate OwnsItsLines(s: Stream, x: Span)
    requires x.start < |s.line| && x.last < |s.line|
  {
    && (x.start > 0 ==> s.line[x.start - 1] < s.line[x.start])
    && (x.last + 1 < |s.line| ==> s.line[x.last] < s.line[x.last + 1])
  }

  /** An item keeps all outsiders exactly when it shares neither its first nor its last line. */
  lemma ItemKeepsOutsidersExactly(s: Stream, x: Span)
    requires Valid(s) && x.start <= x.last < |s.y| && x.kind == ItemSpan
    ensures KeepsOutsiders(s, x) <==> OwnsItsLines(s, x)
  {
    hide Paired, Placed;
    if OwnsItsLines(s, x) {
      forall q | 0 <= q < |s.line| && !Holds(x, q)
        ensures !Excludes(s, x, s.line[q])
      {
        if q < x.start {
          assert s.line[q] <= s.line[x.start - 1];
        } else {
          assert s.line[x.last + 1] <= s.line[q];
        }
      }
    } else if x.start > 0 && s.line[x.start - 1] == s.line[x.start] {
      assert !Holds(x, x.start - 1) && Excludes(s, x, s.line[x.start - 1]);
    } else if x.last + 1 < |s.line| {
      assert !Holds(x, x.last + 1) && Excludes(s, x, s.line[x.last + 1]);
    }
  }

  // ----- all spans

  lemma {:induction false} SpansAreOrdered(s: Stream, spans: seq<Span>, i: nat)
    requires Valid(s) && Scanned(s, spans, i)
    ensures forall k :: 0 <= k < |spans| ==>
              Attribute(s.y, spans[k].start) && Outcome(s, spans[k].start, Ok(spans[k]))
              && spans[k].start < spans[k].last < i && spans[k].last < |s.y|
    ensures forall j, k :: 0 <= j < k < |spans| ==> spans[j].last < spans[k].start
    decreases |spans|
  {
    hide Paired, Placed, Indexed, Attribute, Outcome;
    if spans != [] {
      var x := spans[|spans| - 1];
      SpansAreOrdered(s, spans[..|spans| - 1], x.start);
      OutcomeBounds(s, x.start, x);
    }
  }

  /** No attribute escapes: each starts a span or lies inside one. */
  lemma {:induction false} EveryAttributeIsCovered(s: Stream, spans: seq<Span>, i: nat, q: nat)
    requires Valid(s) && Scanned(s, spans, i) && Attribute(s.y, q) && q < i
    ensures exists k :: 0 <= k < |spans| && Holds(spans[k], q)
    decreases |spans|
  {
    hide Paired, Placed, Indexed, Attribute, Outcome;
    var n := |spans| - 1;
    if spans == [] {
    } else if q < spans[n].start {
      EveryAttributeIsCovered(s, spans[..n], spans[n].start, q);
      var k :| 0 <= k < n && Holds(spans[..n][k], q);
      assert Holds(spans[k], q);
    } else {
      assert Holds(spans[n], q);
    }
  }

  /** `q` shares a line with the item's first or last token, from outside. */
  predicate SharesEdge(s: Stream, x: Span, q: nat)
    requires x.start < |s.line| && x.last < |s.line| && q < |s.line|
  {
    (q < x.start && s.line[q] == s.line[x.start]) || (q > x.last && s.line[q] == s.line[x.last])
  }

  lemma OutsiderLost(s: Stream, x: Span, q: nat)
    requires Valid(s) && x.start <= x.last < |s.y| && q < |s.y| && !Holds(x, q)
    ensures Excludes(s, x, s.line[q]) <==> x.kind == ItemSpan && SharesEdge(s, x, q)
  {
    hide Paired, Placed;
    if x.kind != ItemSpan {
      assert OnLine(s.table.lines, s.line[q], q);
    } else if q < x.start {
      assert s.line[q] <= s.line[x.start] <= s.line[x.last];
    } else {
      assert s.line[x.start] <= s.line[x.last] <= s.line[q];
    }
  }

  /**
   * The line of a production token is lost exactly when an item's first or last token stands on
   * the same physical line; fields, parameters, arguments and elements never cost one.
   */
  lemma ProductionLineLostExactly(s: Stream, spans: seq<Span>, q: nat)
    requires Valid(s) && Scanned(s, spans, |s.y|) && InRange(s, spans) && q < |s.y|
    requires forall k :: 0 <= k < |spans| ==> !Holds(spans[k], q)
    ensures s.line[q] in AllExcluded(s, spans)
       <==> exists k :: 0 <= k < |spans| && spans[k].kind == ItemSpan && SharesEdge(s, spans[k], q)
  {
    hide Paired, Placed, Indexed, Attribute, Outcome;
    SpansAreOrdered(s, spans, |s.y|);
    hide Scanned;
    forall k | 0 <= k < |spans|
      ensures Excludes(s, spans[k], s.line[q]) <==> spans[k].kind == ItemSpan && SharesEdge(s, spans[k], q)
    {
      OutsiderLost(s, spans[k], q);
    }
  }
}
