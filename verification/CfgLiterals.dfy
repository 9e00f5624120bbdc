/** Which lines of production literals the `#[cfg(test)]` scan takes (scripts/coverage_rust_ledger.py). */
module CfgLiterals {
  import opened RustLexemes
  import opened RustTokenizer
  import opened DelimiterTable
  import opened CfgSpans
  import opened CfgOutcome
  import opened CfgScan
  import opened CfgSafety

  // ----- lexemes between tokens

  /** Lexemes lie in the source. */
  ghost predicate Bounded(source: string, lx: seq<Lexeme>) {
    forall k :: 0 <= k < |lx| ==> lx[k].start <= lx[k].end <= |source|
  }

  lemma {:induction false} LexemesInOrder(cls: Classes, source: string, i: nat, lx: seq<Lexeme>)
    requires IsLexing(cls, source, i, lx)
    ensures Bounded(source, lx) && forall k :: 0 <= k < |lx| ==> i <= lx[k].start
    ensures forall j, k :: 0 <= j < k < |lx| ==> lx[j].end <= lx[k].start
    decreases |lx|
  {
    hide LexemeAt;
    if lx != [] {
      LexemesInOrder(cls, source, lx[0].end, lx[1..]);
      assert forall k :: 1 <= k < |lx| ==> lx[k] == lx[1..][k - 1];
    }
  }

  /** How many tokens stand before lexeme `k`. */
  ghost function TokensBefore(source: string, lx: seq<Lexeme>, k: nat): (r: nat)
    requires Bounded(source, lx) && k <= |lx|
  {
    |TokensOf(source, lx[..k])|
  }

  lemma TokensStep(source: string, lx: seq<Lexeme>, m: nat)
    requires Bounded(source, lx) && m < |lx|
    ensures TokensOf(source, lx[..m + 1]) == TokensOf(source, lx[..m])
            + if IsToken(lx[m]) then [Token(source[lx[m].start..lx[m].end], LineOf(source, lx[m].start))] else []
  {
    assert lx[..m + 1][..m] == lx[..m];
  }

  /** Tokens of earlier lexemes stand on no later line. */
  lemma {:induction false} LinesBefore(source: string, lx: seq<Lexeme>, m: nat, i: nat)
    requires Bounded(source, lx) && m <= |lx| && i <= |source| && forall k :: 0 <= k < m ==> lx[k].end <= i
    ensures var ts := TokensOf(source, lx[..m]); forall p :: 0 <= p < |ts| ==> ts[p].line <= LineOf(source, i)
    decreases m
  {
    hide LineOf;
    if m > 0 {
      LinesBefore(source, lx, m - 1, i);
      TokensStep(source, lx, m - 1);
      NewlinesGrow(source, lx[m - 1].start, i);
    }
  }

  /** Tokens of later lexemes come after those of earlier ones and stand on no earlier line. */
  lemma {:induction false} LinesAfter(source: string, lx: seq<Lexeme>, k: nat, m: nat, i: nat)
    requires Bounded(source, lx) && k < m <= |lx| && i <= |source| && !IsToken(lx[k])
    requires forall j :: k < j < |lx| ==> i <= lx[j].start
    ensures var n, ts := TokensBefore(source, lx, k), TokensOf(source, lx[..m]);
            && n <= |ts| && ts[..n] == TokensOf(source, lx[..k])
            && forall p :: n <= p < |ts| ==> LineOf(source, i) <= ts[p].line
    decreases m
  {
    hide LineOf;
    TokensStep(source, lx, m - 1);
    if m - 1 > k {
      LinesAfter(source, lx, k, m - 1, i);
      NewlinesGrow(source, i, lx[m - 1].start);
    }
  }

  /** A lexeme without a token parts the tokens into those on no later and those on no earlier line. */
  lemma LinesAround(cls: Classes, source: string, lx: seq<Lexeme>, k: nat, i: nat)
    requires IsLexing(cls, source, 0, lx) && Bounded(source, lx) && k < |lx| && !IsToken(lx[k])
    requires lx[k].start <= i < lx[k].end
    ensures var n, ts := TokensBefore(source, lx, k), TokensOf(source, lx);
            && n <= |ts| && (forall p :: 0 <= p < n ==> ts[p].line <= LineOf(source, i))
            && (forall p :: n <= p < |ts| ==> LineOf(source, i) <= ts[p].line)
  {
    hide LineOf, TokensOf, IsLexing;
    LexemesInOrder(cls, source, 0, lx);
    LinesBefore(source, lx, k, i);
    LinesAfter(source, lx, k, |lx|, i);
    assert lx[..|lx|] == lx;
    var n, ts := TokensBefore(source, lx, k), TokensOf(source, lx);
    assert forall p :: 0 <= p < n ==> ts[p] == ts[..n][p];
  }

  // ----- what a span takes

  /** The span holds every word and mark on the line. */
  ghost predicate OwnsLine(s: Stream, x: Span, l: nat) {
    forall q :: 0 <= q < |s.line| && s.line[q] == l ==> CfgSafety.Holds(x, q)
  }

  /** The span begins or ends on the line and takes it: an item always, anything else when it owns every token there. */
  ghost predicate TakesEdge(s: Stream, x: Span, l: nat)
    requires x.start < |s.line| && x.last < |s.line|
  {
    (l == s.line[x.start] || l == s.line[x.last]) && (x.kind == ItemSpan || OwnsLine(s, x, l))
  }

  /** A place with `n` tokens before it lies outside the span. */
  predicate OutsideAt(x: Span, n: nat) {
    n <= x.start || x.last < n
  }

  lemma ExtentIsOwned(s: Stream, x: Span, l: nat)
    requires Valid(s) && l in s.table.lines
    ensures OwnsLine(s, x, l) <==> s.table.lines[l].first >= x.start && s.table.lines[l].last <= x.last
  {
    hide Paired, Placed;
    var e := s.table.lines[l];
    assert s.line[e.first] == l && s.line[e.last] == l;
    forall q | 0 <= q < |s.line| && s.line[q] == l
      ensures e.first <= q <= e.last
    {
      assert OnLine(s.table.lines, s.line[q], q);
    }
  }

  lemma TakenExactly(s: Stream, x: Span, n: nat, l: nat)
    requires Valid(s) && x.start <= x.last < |s.line| && OutsideAt(x, n)
    requires forall p :: 0 <= p < n && p < |s.line| ==> s.line[p] <= l
    requires forall p :: n <= p < |s.line| ==> l <= s.line[p]
    ensures Excludes(s, x, l) <==> TakesEdge(s, x, l)
  {
    hide Paired, Placed, OwnsLine;
    assert s.line[x.start] <= s.line[x.last];
    assert OnLine(s.table.lines, s.line[x.start], x.start);
    assert OnLine(s.table.lines, s.line[x.last], x.last);
    if l in s.table.lines {
      ExtentIsOwned(s, x, l);
    }
  }

  /** The lexeme stands, at least in part, on the line. */
  ghost predicate StandsOn(source: string, x: Lexeme, l: nat)
    requires x.end <= |source|
  {
    exists i :: x.start <= i < x.end && LineOf(source, i) == l
  }

  /**
   * A production literal outside every span loses a line exactly when an item begins or ends on
   * it, or a member or element begins or ends there that holds every word and mark of the line.
   */
  lemma LiteralLineLostExactly(cls: Classes, source: string, lx: seq<Lexeme>, table: Table, spans: seq<Span>, k: nat, l: nat)
    requires IsLexing(cls, source, 0, lx) && Bounded(source, lx) && k < |lx| && !IsToken(lx[k]) && StandsOn(source, lx[k], l)
    requires Valid(View(cls, TokensOf(source, lx), table))
    requires var s := View(cls, TokensOf(source, lx), table); Scanned(s, spans, |s.y|) && InRange(s, spans)
    requires forall m :: 0 <= m < |spans| ==> OutsideAt(spans[m], TokensBefore(source, lx, k))
    ensures var s := View(cls, TokensOf(source, lx), table);
            l in AllExcluded(s, spans) <==> exists m :: 0 <= m < |spans| && TakesEdge(s, spans[m], l)
  {
    hide Paired, Placed, Indexed, Attribute, Outcome, IsLexing, LineOf, TokensOf, SymbolOf, IsName, Scanned, TakesEdge, Excludes;
    var tokens := TokensOf(source, lx);
    var s := View(cls, tokens, table);
    var i :| lx[k].start <= i < lx[k].end && LineOf(source, i) == l;
    LinesAround(cls, source, lx, k, i);
    SpansAreOrdered(s, spans, |s.y|);
    forall m | 0 <= m < |spans|
      ensures Excludes(s, spans[m], l) <==> TakesEdge(s, spans[m], l)
    {
      TakenExactly(s, spans[m], TokensBefore(source, lx, k), l);
    }
  }
}
