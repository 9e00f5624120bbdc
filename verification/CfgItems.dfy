/** When an attributed item stays inside its container (scripts/coverage_rust_ledger.py). */
module CfgItems {
  import opened Results
  import opened DelimiterTable
  import opened CfgSpans
  import opened CfgOutcome
  import opened CfgScan

  // ----- counting openers and closers

  lemma {:induction false} BalanceSplits(y: seq<Symbol>, o: Symbol, a: nat, b: nat, e: nat)
    requires a <= b <= e <= |y|
    ensures Balance(y, o, Partner(o), a, e) == Balance(y, o, Partner(o), a, b) + Balance(y, o, Partner(o), b, e)
    decreases e
  {
    if b < e {
      BalanceSplits(y, o, a, b, e - 1);
    }
  }

  lemma BalanceEmpty(y: seq<Symbol>, o: Symbol, a: nat, b: nat)
    requires a <= b <= |y|
    ensures a == b ==> Balance(y, o, Partner(o), a, b) == 0
  {
  }

  function Step(y: Symbol, o: Symbol): (r: int) {
    if y == o then 1 else if y == Partner(o) then -1 else 0
  }

  lemma BalanceOne(y: seq<Symbol>, o: Symbol, a: nat, e: nat)
    requires a < e <= |y|
    ensures Balance(y, o, Partner(o), a, e) == Step(y[a], o) + Balance(y, o, Partner(o), a + 1, e)
  {
    BalanceSplits(y, o, a, a + 1, e);
    assert Balance(y, o, Partner(o), a, a) == 0;
  }

  /** No closer between `a` and `b` belongs to an opener before `a`. */
  ghost predicate NoStrayCloser(s: Stream, a: nat, b: nat)
    requires b <= |s.y|
  {
    forall k :: a <= k < b && IsCloser(s.y[k]) ==> k in s.table.enclosing && a <= s.table.enclosing[k]
  }

  /** No opener between `a` and `b` is still open at `b`. */
  ghost predicate NoOpenGroup(s: Stream, a: nat, b: nat) {
    forall k :: a <= k < b && k in s.table.close ==> s.table.close[k] < b
  }

  lemma CloserFacts(s: Stream, k: nat)
    requires Valid(s) && k < |s.y| && IsCloser(s.y[k])
    ensures k in s.table.enclosing && s.table.enclosing[k] in s.table.close
    ensures s.table.close[s.table.enclosing[k]] == k && s.table.enclosing[k] < k
    ensures IsOpener(s.y[s.table.enclosing[k]])
  {
    hide Indexed;
  }

  lemma PairFacts(s: Stream, a: nat, b: nat)
    requires Valid(s) && a in s.table.close && b in s.table.close
    ensures a < s.table.close[a] < |s.y| && !IsOpener(s.y[s.table.close[a]]) && IsOpener(s.y[a])
    ensures a < b ==> s.table.close[a] < b || s.table.close[b] < s.table.close[a]
  {
    hide Placed, Indexed;
  }

  lemma InnerRegion(s: Stream, a: nat, b: nat)
    requires Valid(s) && a < b <= |s.y| && a in s.table.close && NoStrayCloser(s, a, b)
    ensures NoStrayCloser(s, a + 1, if s.table.close[a] < b then s.table.close[a] else b)
    ensures NoOpenGroup(s, a + 1, s.table.close[a])
  {
    hide Paired, Placed, Indexed;
    var close, enclosing := s.table.close, s.table.enclosing;
    var e := if close[a] < b then close[a] else b;
    forall k | a + 1 <= k < e && IsCloser(s.y[k])
      ensures k in enclosing && a + 1 <= enclosing[k]
    {
      CloserFacts(s, k);
    }
    forall k | a + 1 <= k < close[a] && k in close
      ensures close[k] < close[a]
    {
      PairFacts(s, a, k);
    }
  }

  lemma LaterRegion(s: Stream, a: nat, b: nat)
    requires Valid(s) && a < b <= |s.y| && a in s.table.close && s.table.close[a] < b && NoStrayCloser(s, a, b)
    ensures NoStrayCloser(s, s.table.close[a] + 1, b)
  {
    hide Paired, Placed, Indexed;
    forall k | s.table.close[a] + 1 <= k < b && IsCloser(s.y[k])
      ensures k in s.table.enclosing && s.table.close[a] + 1 <= s.table.enclosing[k]
    {
      CloserFacts(s, k);
      PairFacts(s, a, s.table.enclosing[k]);
    }
  }

  /** A stretch that closes what it opens, and nothing else, is balanced. */
  lemma {:induction false} RegionIsBalanced(s: Stream, o: Symbol, a: nat, b: nat)
    requires Valid(s) && a <= b <= |s.y| && IsOpener(o) && NoStrayCloser(s, a, b) && NoOpenGroup(s, a, b)
    ensures Balance(s.y, o, Partner(o), a, b) == 0
    decreases b - a
  {
    hide Paired, Placed, Indexed, Balance;
    BalanceEmpty(s.y, o, a, b);
    if a < b {
      BalanceOne(s.y, o, a, b);
      if IsOpener(s.y[a]) {
        OpenerCloses(s, a);
        var e := s.table.close[a];
        InnerRegion(s, a, b);
        RegionIsBalanced(s, o, a + 1, e);
        LaterRegion(s, a, b);
        RegionIsBalanced(s, o, e + 1, b);
        BalanceSplits(s.y, o, a + 1, e, b);
        BalanceOne(s.y, o, e, b);
        PartnersCancel(s, o, a);
      } else {
        NotACloser(s, a, b);
        RegionIsBalanced(s, o, a + 1, b);
      }
    }
  }

  lemma PartnersCancel(s: Stream, o: Symbol, a: nat)
    requires Valid(s) && IsOpener(o) && a in s.table.close
    ensures a < |s.y| && s.table.close[a] < |s.y| && Step(s.y[a], o) + Step(s.y[s.table.close[a]], o) == 0
  {
    hide Placed, Indexed;
  }

  /** Where nothing stray can close, an ordinary start can be dropped. */
  lemma NotACloser(s: Stream, a: nat, b: nat)
    requires Valid(s) && a < b <= |s.y| && !IsOpener(s.y[a]) && NoStrayCloser(s, a, b)
    ensures !IsCloser(s.y[a]) && NoStrayCloser(s, a + 1, b)
  {
    hide Paired, Placed, Indexed;
    if IsCloser(s.y[a]) {
      CloserFacts(s, a);
    }
    forall k | a + 1 <= k < b && IsCloser(s.y[k])
      ensures k in s.table.enclosing && a + 1 <= s.table.enclosing[k]
    {
      CloserFacts(s, k);
    }
  }

  /** Without stray closers a count never goes negative, and an open group keeps it positive. */
  lemma {:induction false} OpenGroupCounts(s: Stream, o: Symbol, a: nat, b: nat, g: nat)
    requires Valid(s) && a <= b <= |s.y| && IsOpener(o) && NoStrayCloser(s, a, b)
    ensures Balance(s.y, o, Partner(o), a, b) >= 0
    ensures a <= g < b && s.y[g] == o && g in s.table.close && s.table.close[g] >= b ==>
              Balance(s.y, o, Partner(o), a, b) >= 1
    decreases b - a
  {
    hide Paired, Placed, Indexed, Balance;
    BalanceEmpty(s.y, o, a, b);
    if a < b {
      BalanceOne(s.y, o, a, b);
      if !IsOpener(s.y[a]) {
        NotACloser(s, a, b);
        OpenGroupCounts(s, o, a + 1, b, g);
        OpenersDiffer(s.y[a], o);
      } else {
        OpenerCloses(s, a);
        var e := s.table.close[a];
        InnerRegion(s, a, b);
        if e < b {
          RegionIsBalanced(s, o, a + 1, e);
          LaterRegion(s, a, b);
          OpenGroupCounts(s, o, e + 1, b, g);
          BalanceSplits(s.y, o, a + 1, e, b);
          BalanceOne(s.y, o, e, b);
          PartnersCancel(s, o, a);
        } else {
          OpenGroupCounts(s, o, a + 1, b, g);
          assert Step(s.y[a], o) >= 0;
        }
      }
    }
  }

  lemma OpenersDiffer(y: Symbol, o: Symbol)
    requires IsOpener(o) && !IsOpener(y) && !IsCloser(y)
    ensures Step(y, o) == 0
  {
  }

  // ----- inside the container of an attribute

  /** Between the attribute and a token beside it, groups open and close completely. */
  lemma BesideRegion(s: Stream, p: nat, from: nat, q: nat)
    requires Valid(s) && p < |s.y| && s.Container(p).Some? && p < from && Beside(s, p, from) && Beside(s, p, q)
    requires from <= q && q < |s.y|
    ensures NoStrayCloser(s, from, q) && NoOpenGroup(s, from, q)
  {
    ContainerFacts(s, p);
    forall k | from <= k < q && k in s.table.close
      ensures s.table.close[k] < q
    {
      StillOpenCovers(s, k, q);
    }
    hide Paired, Placed, Indexed;
    StrayFree(s, p, from, q);
  }

  lemma StillOpenCovers(s: Stream, k: nat, q: nat)
    requires Valid(s) && k in s.table.close && k < q < |s.y|
    ensures q <= s.table.close[k] ==> s.Container(q).Some? && k <= s.Container(q).value
  {
    hide Indexed, Paired;
    if q <= s.table.close[k] {
      assert Covers(s.table.close, k, q);
    }
  }

  /** Up to the end of the container every closer belongs to an opener behind the attribute. */
  lemma StrayFree(s: Stream, p: nat, from: nat, q: nat)
    requires Valid(s) && p < |s.y| && s.Container(p).Some? && p < from && Beside(s, p, from)
    requires from <= q && Within(s, p) && q <= Limit(s, p) < |s.y|
    ensures NoStrayCloser(s, from, q)
  {
    hide Paired, Placed, Indexed;
    ContainerFacts(s, p);
    var c := s.Container(p).value;
    forall k | from <= k < q && IsCloser(s.y[k])
      ensures k in s.table.enclosing && from <= s.table.enclosing[k]
    {
      CloserFacts(s, k);
      var x := s.table.enclosing[k];
      StillOpenCovers(s, c, k);
      if x < from {
        StillOpenCovers(s, x, from);
      }
    }
  }

  /** A token that is not directly in the container lies in a group that is. */
  lemma {:induction false} OutermostGroup(s: Stream, p: nat, from: nat, b: nat) returns (g: nat)
    requires Valid(s) && p < |s.y| && s.Container(p).Some? && p < from && Beside(s, p, from)
    requires Within(s, p) && from <= b < Limit(s, p) < |s.y| && !IsCloser(s.y[b]) && s.Container(b) != s.Container(p)
    ensures from <= g < b && s.Container(g) == s.Container(p) && IsOpener(s.y[g])
    ensures g in s.table.close && b <= s.table.close[g]
    decreases b
  {
    hide Paired, Placed, Indexed;
    ContainerFacts(s, p);
    var c := s.Container(p).value;
    StillOpenCovers(s, c, b);
    var x := s.Container(b).value;
    ContainerFacts(s, b);
    if x < from {
      StillOpenCovers(s, x, from);
    }
    PairFacts(s, x, x);
    if s.Container(x) == s.Container(p) {
      g := x;
    } else {
      OpenersDoNotClose(s.y[x]);
      g := OutermostGroup(s, p, from, x);
      PairFacts(s, g, x);
    }
  }

  lemma OpenersDoNotClose(y: Symbol)
    ensures IsOpener(y) ==> !IsCloser(y)
  {
  }

  /** A `{` or `;` directly in the attribute's container, behind the attribute: the item's own or a sibling's. */
  ghost predicate DirectStop(s: Stream, p: nat, q: nat)
    requires Within(s, p) && Limit(s, p) <= |s.y|
  {
    p + 7 <= q < Limit(s, p) && s.Container(q) == s.Container(p) && (s.y[q] == OpenBrace || s.y[q] == Semicolon)
  }

  ghost predicate HasDirectStop(s: Stream, p: nat)
    requires Within(s, p) && Limit(s, p) <= |s.y|
  {
    exists q: nat :: DirectStop(s, p, q)
  }

  lemma DirectStopStops(s: Stream, p: nat, q: nat)
    requires Valid(s) && Attribute(s.y, p) && Within(s, p) && Limit(s, p) < |s.y| && DirectStop(s, p, q)
    ensures Stops(s.y, p + 7, q)
  {
    hide Paired, Placed, Indexed, Attribute, Balance;
    BesideAttribute(s, p);
    ContainerFacts(s, q);
    BesideRegion(s, p, p + 7, q);
    RegionIsBalanced(s, OpenParen, p + 7, q);
    RegionIsBalanced(s, OpenBracket, p + 7, q);
  }

  /** A first stop inside the container is directly in it. */
  lemma StopIsDirect(s: Stream, p: nat, b: nat)
    requires Valid(s) && Attribute(s.y, p) && Within(s, p)
    requires FirstStop(s.y, p + 7, b) && b < Limit(s, p) < |s.y|
    ensures DirectStop(s, p, b)
  {
    hide Paired, Placed, Indexed, Attribute, Balance;
    if s.Container(b) != s.Container(p) {
      BesideAttribute(s, p);
      ContainerFacts(s, p);
      var g := OutermostGroup(s, p, p + 7, b);
      StrayFree(s, p, p + 7, b);
      OpenGroupCounts(s, OpenParen, p + 7, b, g);
      OpenGroupCounts(s, OpenBracket, p + 7, b, g);
      DirectStopStops(s, p, g);
    }
  }

  /** The first stop is the first one directly in the container, or lies behind it. */
  lemma FirstStopIs(s: Stream, p: nat, b: nat)
    requires Valid(s) && Attribute(s.y, p) && Within(s, p) && Limit(s, p) < |s.y| && FirstStop(s.y, p + 7, b)
    ensures b < Limit(s, p) ==> DirectStop(s, p, b)
    ensures forall q: nat :: DirectStop(s, p, q) ==> b <= q
  {
    hide Valid, Attribute, Stops, DirectStop;
    if b < Limit(s, p) {
      StopIsDirect(s, p, b);
    }
    forall q: nat | DirectStop(s, p, q)
      ensures b <= q
    {
      DirectStopStops(s, p, q);
      StopBounds(s, p, q);
    }
  }

  lemma StopBounds(s: Stream, p: nat, q: nat)
    requires Within(s, p) && Limit(s, p) <= |s.y| && DirectStop(s, p, q)
    ensures p + 7 <= q < Limit(s, p)
  {
  }

  /**
   * An item's span stays inside its container exactly when some `{` or `;` stands directly in the
   * container behind the attribute, whether it is the item's own or a sibling's.
   */
  lemma ItemStaysInsideExactly(s: Stream, p: nat, x: Span)
    requires Valid(s) && Attribute(s.y, p) && Within(s, p) && Limit(s, p) < |s.y|
    requires Outcome(s, p, Ok(x)) && x.kind == ItemSpan
    ensures x.last < Limit(s, p) <==> HasDirectStop(s, p)
  {
    hide Paired, Placed, Indexed, Attribute, Balance, NamePosition, MemberResult, ElementResult;
    var b := StopOf(s, p, x);
    ItemBounds(s, p, b, x);
    FirstStopIs(s, p, b);
    if HasDirectStop(s, p) {
      ContainerFacts(s, p);
      if s.y[b] == OpenBrace {
        OpenerCloses(s, b);
        PairFacts(s, s.Container(p).value, b);
      }
    }
  }

  // ----- siblings

  ghost predicate DirectComma(s: Stream, p: nat, q: nat)
    requires Within(s, p) && Limit(s, p) <= |s.y|
  {
    p + 7 <= q < Limit(s, p) && s.Container(q) == s.Container(p) && s.y[q] == Comma
  }

  /** The attributed thing ends at a comma: one precedes every `{` and `;` directly in the container. */
  ghost predicate EndsAtComma(s: Stream, p: nat)
    requires Within(s, p) && Limit(s, p) <= |s.y|
  {
    exists q: nat :: DirectComma(s, p, q) && forall k: nat :: DirectStop(s, p, k) ==> q < k
  }

  /** The span holds a comma directly in the container, and so something of what follows it. */
  ghost predicate PassesComma(s: Stream, p: nat, x: Span)
    requires Within(s, p) && Limit(s, p) <= |s.y|
  {
    exists q: nat :: DirectComma(s, p, q) && q < x.last
  }

  lemma CommaBeforeStop(s: Stream, p: nat, b: nat, x: Span, q: nat)
    requires Valid(s) && Attribute(s.y, p) && Within(s, p) && Limit(s, p) < |s.y|
    requires DirectStop(s, p, b) && ItemStops(s, p, b, Ok(x)) && DirectComma(s, p, q) && q < x.last
    ensures q < b
  {
    hide Paired, Placed, Indexed, Attribute, Stops;
    ItemBounds(s, p, b, x);
    ContainerFacts(s, p);
    if b < q {
      OpenerCloses(s, b);
      InsideGroup(s, s.Container(p).value, b, q);
    }
  }

  /** An item's span passes a comma directly in its container exactly when the attributed thing ends at one. */
  lemma ItemPassesCommaExactly(s: Stream, p: nat, x: Span)
    requires Valid(s) && Attribute(s.y, p) && Within(s, p) && Limit(s, p) < |s.y|
    requires Outcome(s, p, Ok(x)) && x.kind == ItemSpan
    ensures PassesComma(s, p, x) <==> EndsAtComma(s, p)
  {
    hide Valid, Attribute, Stops, NamePosition, MemberResult, ElementResult, ItemResult, DirectStop;
    var b := StopOf(s, p, x);
    ItemBounds(s, p, b, x);
    FirstStopIs(s, p, b);
    if q: nat :| DirectComma(s, p, q) && q < x.last {
      if b < Limit(s, p) {
        CommaBeforeStop(s, p, b, x, q);
      }
      assert q < b;
      assert EndsAtComma(s, p);
    }
    if q: nat :| DirectComma(s, p, q) && forall k: nat :: DirectStop(s, p, k) ==> q < k {
      assert q < b;
    }
  }

  lemma StopOf(s: Stream, p: nat, x: Span) returns (b: nat)
    requires Valid(s) && Attribute(s.y, p) && Outcome(s, p, Ok(x)) && x.kind == ItemSpan
    ensures ItemStops(s, p, b, Ok(x))
  {
    hide Valid, Attribute, NamePosition, EndsAt, ItemStops;
    assert ItemOutcome(s, p, Ok(x));
    b :| ItemStops(s, p, b, Ok(x));
  }
}
