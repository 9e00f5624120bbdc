/** Streams on which the `#[cfg(test)]` scan takes production code with it (scripts/coverage_rust_ledger.py). */
module CfgWitnesses {
  import opened Results
  import opened DelimiterTable
  import opened CfgSpans
  import opened CfgOutcome
  import opened CfgScan
  import opened CfgSafety
  import opened CfgItems
  import opened CfgLiterals

  /** An attribute right behind the opener `o` of the group that closes at `e`. */
  lemma GroupAround(s: Stream, o: nat, e: nat)
    requires Valid(s) && Attribute(s.y, o + 1) && o + 8 <= e < |s.y| && IsOpener(s.y[o]) && IsCloser(s.y[e])
    requires forall k :: 0 <= k < o ==> !IsOpener(s.y[k])
    requires forall k :: o + 8 <= k < e && IsOpener(s.y[k]) ==> k in s.table.close && s.table.close[k] < e
    ensures o in s.table.close && s.table.close[o] == e && s.Container(o + 1) == Some(o)
  {
    hide Valid, Attribute, IsOpener, IsCloser;
    GroupCloses(s, o, e);
    GroupHolds(s, o);
  }

  lemma GroupHolds(s: Stream, o: nat)
    requires Valid(s) && Attribute(s.y, o + 1) && o in s.table.close && o + 1 <= s.table.close[o]
    requires forall k :: 0 <= k < o ==> !IsOpener(s.y[k])
    ensures Within(s, o + 1) && s.Container(o + 1) == Some(o)
  {
    hide Valid, Attribute, IsOpener, IsCloser;
    AttributeSymbols(s.y, o + 1);
    StillOpenCovers(s, o, o + 1);
    ContainerFacts(s, o + 1);
  }

  lemma GroupCloses(s: Stream, o: nat, e: nat)
    requires Valid(s) && Attribute(s.y, o + 1) && o + 8 <= e < |s.y| && IsOpener(s.y[o]) && IsCloser(s.y[e])
    requires forall k :: 0 <= k < o ==> !IsOpener(s.y[k])
    requires forall k :: o + 8 <= k < e && IsOpener(s.y[k]) ==> k in s.table.close && s.table.close[k] < e
    ensures o in s.table.close && s.table.close[o] == e
  {
    hide Valid, Attribute, IsOpener, IsCloser;
    CloserFacts(s, e);
    var k := s.table.enclosing[e];
    OpenersInside(s, o, k);
    AttributeCloses(s, o + 1);
    AttributeArguments(s, o + 1);
    assert k == o;
  }

  /** Where an opener can stand: on `o`, on one of the attribute's two openers, or behind the attribute. */
  lemma OpenersInside(s: Stream, o: nat, k: nat)
    requires Valid(s) && Attribute(s.y, o + 1) && k < |s.y| && IsOpener(s.y[k])
    requires forall k :: 0 <= k < o ==> !IsOpener(s.y[k])
    ensures k == o || k == o + 2 || k == o + 4 || o + 8 <= k
  {
    hide Paired, Placed, Indexed, Attribute;
    AttributeSymbols(s.y, o + 1);
  }

  lemma AttributeArguments(s: Stream, p: nat)
    requires Valid(s) && Attribute(s.y, p)
    ensures p + 3 in s.table.close && s.table.close[p + 3] == p + 5
  {
    hide Paired, Placed, Indexed, Attribute;
    AttributeSymbols(s.y, p);
    ShortPair(s, p + 3);
  }

  lemma NotNamed(s: Stream, p: nat)
    requires Valid(s) && p + 8 < |s.y| && s.y[p + 7] == Other && s.y[p + 8] != Colon
    ensures !Named(s, p)
  {
    hide Valid;
    assert NamePosition(s, p + 7) == p + 7;
  }

  // ----- `[`, then `#[cfg(test)] a, "..."` on line 2, then `]`

  ghost predicate ArrayShape(s: Stream) {
    && |s.y| == |s.line| == 11
    && s.y[0] == OpenBracket && Attribute(s.y, 1) && s.y[8] == Other && s.y[9] == Comma && s.y[10] == CloseBracket
    && s.line[0] == 1 && (forall q :: 1 <= q <= 9 ==> s.line[q] == 2) && s.line[10] == 3
  }

  const ELEMENT := Span(ElementSpan, 1, 9, None)

  lemma ElementOfArray(s: Stream)
    requires Valid(s) && ArrayShape(s)
    ensures Outcome(s, 1, Ok(ELEMENT))
  {
    hide Valid, Attribute, Named, NamePosition;
    GroupAround(s, 0, 10);
    BesideAttribute(s, 1);
    BesideNext(s, 1, 8);
    NotNamed(s, 1);
    assert Angle(s, 0, false, 8, 8) == 0 && Angle(s, 0, false, 8, 9) == 0;
    assert EndsAt(s, 0, false, 8, 10, 9);
    assert ElementEnds(s, 1, 9, Ok(ELEMENT));
  }

  lemma LineOfElement(s: Stream)
    requires Valid(s) && ArrayShape(s)
    ensures OwnsLine(s, ELEMENT, 2) && TakesEdge(s, ELEMENT, 2) && Excludes(s, ELEMENT, 2)
  {
    hide Paired, Placed, Attribute;
    assert OnLine(s.table.lines, s.line[1], 1);
    ExtentIsOwned(s, ELEMENT, 2);
  }

  // ----- `enum E {`, `#[cfg(test)]`, `A`, `}`, `use x;` on a line each

  ghost predicate VariantShape(s: Stream) {
    && |s.y| == |s.line| == 15
    && s.y[0] == Other && s.y[1] == Other && s.y[2] == OpenBrace && Attribute(s.y, 3) && s.y[10] == Other
    && s.y[11] == CloseBrace && s.y[12] == Other && s.y[13] == Other && s.y[14] == Semicolon
    && s.line[3] == 2 && s.line[12] == 5 && s.line[13] == 5 && s.line[14] == 5
  }

  const VARIANT := Span(ItemSpan, 3, 14, None)

  lemma PlainStop(y: seq<Symbol>, from: nat, b: nat)
    requires from <= b < |y| && (y[b] == OpenBrace || y[b] == Semicolon)
    requires forall k :: from <= k < b ==> y[k] in {Other, Comma, CloseBrace}
    ensures FirstStop(y, from, b) && NoMod(y, from, b)
  {
    hide Balance;
    NoParens(y, from, b);
  }

  lemma {:induction false} NoParens(y: seq<Symbol>, from: nat, b: nat)
    requires from <= b <= |y| && forall k :: from <= k < b ==> y[k] in {Other, Comma, CloseBrace}
    ensures Balance(y, OpenParen, CloseParen, from, b) == 0 && Balance(y, OpenBracket, CloseBracket, from, b) == 0
    decreases b
  {
    if from < b {
      NoParens(y, from, b - 1);
    }
  }

  /** The item at `p` ends past its container and takes the lines up to its end with it. */
  ghost predicate Escapes(s: Stream, p: nat, x: Span) {
    && Valid(s) && Attribute(s.y, p) && Outcome(s, p, Ok(x)) && x.start == p && x.last < |s.line|
    && Within(s, p) && Limit(s, p) < x.last && Excludes(s, x, s.line[x.last])
  }

  lemma VariantEscapes(s: Stream)
    requires Valid(s) && VariantShape(s)
    ensures Escapes(s, 3, VARIANT) && Excludes(s, VARIANT, s.line[12])
  {
    hide Valid, Attribute, Named, NamePosition, FirstStop, NoMod;
    AttributeSymbols(s.y, 3);
    GroupAround(s, 2, 11);
    NotNamed(s, 3);
    PlainStop(s.y, 10, 14);
    assert ItemStops(s, 3, 14, Ok(VARIANT));
  }

  // ----- `enum E {`, `#[cfg(test)]`, `A,`, `B {}`, `}` on a line each

  ghost predicate SiblingShape(s: Stream) {
    && |s.y| == |s.line| == 16
    && s.y[0] == Other && s.y[1] == Other && s.y[2] == OpenBrace && Attribute(s.y, 3) && s.y[10] == Other && s.y[11] == Comma
    && s.y[12] == Other && s.y[13] == OpenBrace && s.y[14] == CloseBrace && s.y[15] == CloseBrace
  }

  const SIBLINGS := Span(ItemSpan, 3, 14, None)

  lemma BodyCloses(s: Stream)
    requires Valid(s) && SiblingShape(s)
    ensures 13 in s.table.close && s.table.close[13] == 14
  {
    hide Paired, Placed, Indexed, Attribute;
    OpenerCloses(s, 13);
    ClosedBy(s, 13, 14);
  }

  /** The span stays inside the braces, and yet passes the comma and takes the next variant with it. */
  lemma SiblingTaken(s: Stream)
    requires Valid(s) && SiblingShape(s)
    ensures Attribute(s.y, 3) && Outcome(s, 3, Ok(SIBLINGS))
    ensures Within(s, 3) && SIBLINGS.last < Limit(s, 3) < |s.y| && HasDirectStop(s, 3)
    ensures PassesComma(s, 3, SIBLINGS) && CfgSafety.Holds(SIBLINGS, 12)
  {
    hide Valid, Attribute, Named, NamePosition, FirstStop, NoMod, ItemResult;
    AttributeSymbols(s.y, 3);
    BodyCloses(s);
    GroupAround(s, 2, 15);
    NotNamed(s, 3);
    PlainStop(s.y, 10, 13);
    SiblingResult(s);
    assert ItemStops(s, 3, 13, Ok(SIBLINGS));
    BesideAttribute(s, 3);
    BesideNext(s, 3, 10);
    assert DirectComma(s, 3, 11);
    ItemStaysInsideExactly(s, 3, SIBLINGS);
  }

  lemma SiblingResult(s: Stream)
    requires Valid(s) && SiblingShape(s) && 13 in s.table.close && s.table.close[13] == 14
    ensures ItemResult(s, 3, 13, Ok(SIBLINGS))
  {
    hide Paired, Placed, Indexed, Attribute;
  }

  // ----- `#[cfg(test)] use a; use c;` on one line

  ghost predicate LineShape(s: Stream) {
    && |s.y| == |s.line| == 13
    && Attribute(s.y, 0) && s.y[7] == Other && s.y[8] == Other && s.y[9] == Semicolon
    && forall q :: 0 <= q < 13 ==> s.line[q] == 1
  }

  const FIRST := Span(ItemSpan, 0, 9, None)

  lemma NeighbourTaken(s: Stream)
    requires Valid(s) && LineShape(s)
    ensures Attribute(s.y, 0) && Outcome(s, 0, Ok(FIRST)) && SharesEdge(s, FIRST, 10) && Excludes(s, FIRST, s.line[10])
  {
    hide Valid, Attribute, Named, NamePosition, FirstStop, NoMod;
    if s.Container(0).Some? {
      ContainerFacts(s, 0);
    }
    NotNamed(s, 0);
    PlainStop(s.y, 7, 9);
    assert ItemStops(s, 0, 9, Ok(FIRST));
  }
}
