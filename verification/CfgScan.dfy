/** The scan for `#[cfg(test)]` spans (scripts/coverage_rust_ledger.py). */
module CfgScan {
  import opened Results
  import opened DelimiterTable
  import opened CfgSpans
  import opened CfgOutcome

  // ----- staying in the attribute's container

  /** `m` is directly in the same container as `p`, or just past the last token. */
  ghost predicate Beside(s: Stream, p: nat, m: nat) {
    && m <= |s.y|
    && (m < |s.y| ==> s.Container(m) == s.Container(p))
    && (s.Container(p).Some? ==> Within(s, p) && m <= Limit(s, p))
  }

  lemma BesideItself(s: Stream, p: nat)
    requires Valid(s) && p < |s.y|
    ensures Beside(s, p, p)
    ensures s.Container(p).Some? ==> Limit(s, p) < |s.y|
  {
    if s.Container(p).Some? {
      assert Covers(s.table.close, s.table.enclosing[p], p);
    }
  }

  lemma BesideNext(s: Stream, p: nat, m: nat)
    requires Valid(s) && Beside(s, p, m) && m < |s.y| && !IsCloser(s.y[m])
    ensures Beside(s, p, Next(s, m)) && m < Next(s, m)
  {
    hide Paired, Placed, Indexed, IsOpener, IsCloser;
    NextKeepsContainer(s, m);
  }

  lemma BeforeLimitNoCloser(s: Stream, p: nat, m: nat)
    requires Valid(s) && Beside(s, p, m) && s.Container(p).Some? && m < Limit(s, p)
    ensures m < |s.y| && !IsCloser(s.y[m])
  {
  }

  lemma AttributeSymbols(y: seq<Symbol>, p: nat)
    requires Attribute(y, p)
    ensures p + 6 < |y| && y[p] == Hash && y[p + 1] == OpenBracket && y[p + 2] == CfgWord && y[p + 3] == OpenParen
    ensures y[p + 4] == TestWord && y[p + 5] == CloseParen && y[p + 6] == CloseBracket
  {
    var a := y[p..p + 7];
    assert y[p] == a[0] && y[p + 1] == a[1] && y[p + 2] == a[2] && y[p + 3] == a[3];
    assert y[p + 4] == a[4] && y[p + 5] == a[5] && y[p + 6] == a[6];
  }

  /** A closer's opener is the last opener before it that is still open. */
  lemma ClosedBy(s: Stream, o: nat, e: nat)
    requires Valid(s) && e < |s.y| && IsCloser(s.y[e]) && Covers(s.table.close, o, e)
    requires forall k :: o < k < e && k in s.table.close ==> s.table.close[k] < e
    ensures s.table.close[o] == e
  {
    hide Indexed, Paired;
    var x := Innermost(s, o, e);
  }

  lemma Innermost(s: Stream, o: nat, e: nat) returns (x: nat)
    requires Placed(s.y, s.table.close, s.table.enclosing)
    requires e < |s.y| && IsCloser(s.y[e]) && Covers(s.table.close, o, e)
    ensures o <= x < e && x in s.table.close && s.table.close[x] == e
  {
    x := s.table.enclosing[e];
    assert Covers(s.table.close, x, e);
  }

  /** An opener, one ordinary token and a closer. */
  lemma ShortPair(s: Stream, o: nat)
    requires Valid(s) && o + 2 < |s.y| && IsOpener(s.y[o]) && IsCloser(s.y[o + 2])
    requires !IsOpener(s.y[o + 1]) && !IsCloser(s.y[o + 1])
    ensures o in s.table.close && s.table.close[o] == o + 2
  {
    hide Indexed, Placed;
    assert s.table.close[o] != o + 1;
    ClosedBy(s, o, o + 2);
  }

  /** An opener, one ordinary token, a short pair and a closer. */
  lemma LongPair(s: Stream, o: nat)
    requires Valid(s) && o + 5 < |s.y| && IsOpener(s.y[o]) && IsCloser(s.y[o + 5])
    requires !IsOpener(s.y[o + 1]) && !IsCloser(s.y[o + 1]) && IsOpener(s.y[o + 2]) && IsCloser(s.y[o + 4])
    requires !IsOpener(s.y[o + 3]) && !IsCloser(s.y[o + 3]) && !IsOpener(s.y[o + 4])
    ensures o in s.table.close && s.table.close[o] == o + 5
  {
    hide Indexed, Placed, Paired, IsOpener, IsCloser;
    ShortPair(s, o + 2);
    OnlyOpener(s, o);
    StaysOpen(s, o);
    ClosedBy(s, o, o + 5);
  }

  /** The short pair's opener is the only one inside. */
  lemma OnlyOpener(s: Stream, o: nat)
    requires Valid(s) && o + 5 < |s.y|
    requires !IsOpener(s.y[o + 1]) && !IsOpener(s.y[o + 3]) && !IsOpener(s.y[o + 4])
    ensures forall k :: o < k < o + 5 && k in s.table.close ==> k == o + 2
  {
    hide Indexed, Placed, IsOpener, IsCloser;
    forall k | o < k < o + 5 && k in s.table.close
      ensures k == o + 2
    {
      assert IsOpener(s.y[k]);
    }
  }

  /** Around the short pair, nothing closes the opener before it. */
  lemma StaysOpen(s: Stream, o: nat)
    requires Valid(s) && o + 5 < |s.y| && IsOpener(s.y[o])
    requires !IsCloser(s.y[o + 1]) && o + 2 in s.table.close && s.table.close[o + 2] == o + 4
    ensures Covers(s.table.close, o, o + 5)
  {
    hide Indexed, Placed, IsOpener, IsCloser;
    assert s.table.close[o] != o + 1 && s.table.close[o] != o + 2 by {
      assert IsOpener(s.y[o + 2]) && !IsCloser(s.y[o + 2]) by {
        OpensOnly(s, o + 2);
      }
    }
    assert s.table.close[o] < o + 2 || o + 4 < s.table.close[o];
  }

  lemma OpensOnly(s: Stream, o: nat)
    requires Valid(s) && o in s.table.close
    ensures IsOpener(s.y[o]) && !IsCloser(s.y[o])
  {
    hide Indexed, Placed;
  }

  lemma AttributeCloses(s: Stream, p: nat)
    requires Valid(s) && Attribute(s.y, p)
    ensures p + 1 in s.table.close && s.table.close[p + 1] == p + 6
  {
    hide Indexed, Placed, Paired;
    AttributeSymbols(s.y, p);
    LongPair(s, p + 1);
  }

  lemma BesideAttribute(s: Stream, p: nat)
    requires Valid(s) && Attribute(s.y, p)
    ensures Beside(s, p, p + 7)
  {
    hide Paired, Placed, Indexed, Attribute;
    AttributeSymbols(s.y, p);
    AttributeCloses(s, p);
    BesideItself(s, p);
    BesideNext(s, p, p);
    BesideNext(s, p, p + 1);
  }

  lemma {:induction false} BesideAttributes(s: Stream, p: nat, m: nat)
    requires Valid(s) && Beside(s, p, m)
    ensures Beside(s, p, SkipAttributes(s, m))
    decreases |s.y| - m
  {
    hide Placed, Indexed;
    if m + 1 < |s.y| && s.y[m] == Hash && s.y[m + 1] == OpenBracket {
      BesideNext(s, p, m);
      BesideNext(s, p, m + 1);
      BesideAttributes(s, p, Next(s, m + 1));
    }
  }

  lemma BesideName(s: Stream, p: nat, m: nat)
    requires Valid(s) && Beside(s, p, m)
    ensures Beside(s, p, NamePosition(s, m))
  {
    hide Paired, Placed, Indexed, Beside, SkipAttributes;
    BesideAttributes(s, p, m);
    var a := SkipAttributes(s, m);
    if a < |s.y| && s.y[a] == PubWord {
      BesideNext(s, p, a);
      if a + 1 < |s.y| && s.y[a + 1] == OpenParen {
        BesideNext(s, p, a + 1);
      }
    }
    var v := SkipVisibility(s, a);
    if v < |s.y| && s.y[v] == MutWord {
      BesideNext(s, p, v);
    }
  }

  lemma BesideBody(s: Stream, p: nat)
    requires Valid(s) && Attribute(s.y, p) && Named(s, p)
    ensures Beside(s, p, NamePosition(s, p + 7) + 2)
  {
    hide Paired, Placed, Indexed, Attribute;
    var m := NamePosition(s, p + 7);
    BesideAttribute(s, p);
    BesideName(s, p, p + 7);
    BesideNext(s, p, m);
    BesideNext(s, p, m + 1);
  }

  // ----- groups do not matter to the top level

  lemma InsideGroup(s: Stream, c: nat, q: nat, k: nat)
    requires Valid(s) && q in s.table.close && q < k <= s.table.close[q] && c < q
    ensures k < |s.y| && s.Container(k) != Some(c)
  {
    assert Covers(s.table.close, q, k);
  }

  lemma {:induction false} AngleOverGroup(s: Stream, c: nat, types: bool, from: nat, q: nat, k: nat)
    requires Valid(s) && q in s.table.close && from <= q < k <= s.table.close[q] + 1 && c < q && k <= |s.y|
    ensures Angle(s, c, types, from, k) == Angle(s, c, types, from, q)
  {
    hide Paired, Placed, Indexed;
    if k == q + 1 {
      OpenedBy(s, q);
    } else {
      AngleOverGroup(s, c, types, from, q, k - 1);
      InsideGroup(s, c, q, k - 1);
    }
  }

  lemma OpenedBy(s: Stream, q: nat)
    requires Valid(s) && q in s.table.close
    ensures q < |s.y| && IsOpener(s.y[q])
  {
    hide Placed, Indexed;
  }

  ghost predicate NoneBefore(s: Stream, c: nat, types: bool, from: nat, q: nat)
    requires q <= |s.y|
  {
    forall k :: from <= k < q ==> !Separates(s, c, types, from, k)
  }

  lemma OpenerCloses(s: Stream, q: nat)
    requires Valid(s) && q < |s.y| && IsOpener(s.y[q])
    ensures q in s.table.close && q < s.table.close[q] < |s.y|
  {
    hide Placed, Indexed;
  }

  /** Skipping a whole group misses no separator and changes no angle depth. */
  lemma GroupStep(s: Stream, c: nat, types: bool, from: nat, q: nat)
    requires Valid(s) && from <= q < |s.y| && c < q && IsOpener(s.y[q])
    requires NoneBefore(s, c, types, from, q)
    ensures q in s.table.close && q < s.table.close[q] < |s.y|
    ensures NoneBefore(s, c, types, from, s.table.close[q] + 1)
    ensures Angle(s, c, types, from, s.table.close[q] + 1) == Angle(s, c, types, from, q)
    ensures !Compares(s, c, from, q) ==> !Compares(s, c, from, s.table.close[q] + 1)
  {
    hide Paired, Placed, Indexed, Angle;
    OpenerCloses(s, q);
    var e := s.table.close[q];
    AngleOverGroup(s, c, types, from, q, e + 1);
    forall k | q <= k < e + 1
      ensures !Separates(s, c, types, from, k)
      ensures s.Container(k) == Some(c) ==> s.y[k] != Less
    {
      if k > q {
        InsideGroup(s, c, q, k);
      }
    }
  }

  /** Passing one ordinary token. */
  lemma TokenStep(s: Stream, c: nat, types: bool, from: nat, q: nat)
    requires from <= q < |s.y| && s.Container(q) == Some(c) && NoneBefore(s, c, types, from, q)
    ensures var depth := Angle(s, c, types, from, q);
            && Angle(s, c, types, from, q + 1)
               == (if s.y[q] == Less && OpensAngle(s, types, q, depth) then depth + 1
                   else if s.y[q] == Greater && depth > 0 then depth - 1 else depth)
            && (Separates(s, c, types, from, q) <==> s.y[q] == Comma && depth == 0)
            && (!Separates(s, c, types, from, q) ==> NoneBefore(s, c, types, from, q + 1))
    ensures !Compares(s, c, from, q) && s.y[q] != Less ==> !Compares(s, c, from, q + 1)
  {
  }

  lemma {:induction false} EndExists(s: Stream, c: nat, types: bool, from: nat, q: nat, limit: nat)
    requires from <= q <= limit < |s.y| && NoneBefore(s, c, types, from, q)
    ensures exists e: nat :: q <= e && EndsAt(s, c, types, from, limit, e)
    decreases limit - q
  {
    if q == limit || Separates(s, c, types, from, q) {
      assert EndsAt(s, c, types, from, limit, q);
    } else {
      EndExists(s, c, types, from, q + 1, limit);
    }
  }

  // ----- members

  method FindName(s: Stream, start: nat) returns (m: nat)
    requires Valid(s)
    ensures m == NamePosition(s, start)
  {
    hide Valid;
    m := start;
    while m + 1 < |s.y| && s.y[m] == Hash && s.y[m + 1] == OpenBracket
      invariant SkipAttributes(s, m) == SkipAttributes(s, start)
      decreases |s.y| - m
    {
      OpenerCloses(s, m + 1);
      m := s.table.close[m + 1] + 1;
    }
    if m < |s.y| && s.y[m] == PubWord {
      m := m + 1;
      if m < |s.y| && s.y[m] == OpenParen {
        OpenerCloses(s, m);
        m := s.table.close[m] + 1;
      }
    }
    if m < |s.y| && s.y[m] == MutWord {
      m := m + 1;
    }
  }

  method IsTyped(s: Stream, c: nat) returns (typed: bool)
    requires c < |s.y|
    ensures typed <==> Typed(s, c)
  {
    typed := s.y[c] == OpenParen;
    if s.y[c] == OpenBrace {
      var k := c;
      while k > 0 && s.y[k - 1] !in {OpenBrace, CloseBrace, Semicolon}
        invariant k <= c && !typed
        invariant forall j :: k <= j < c ==> s.y[j] !in {OpenBrace, CloseBrace, Semicolon} && s.y[j] != StructWord
      {
        if s.y[k - 1] == StructWord {
          assert StructAt(s, c, k - 1);
          return true;
        }
        k := k - 1;
      }
      assert forall j: nat :: !StructAt(s, c, j);
    }
  }

  /** From the colon of a member to its own comma or the end of its container. */
  method ScanMember(s: Stream, p: nat, from: nat) returns (r: Result<Span, Fault>)
    requires Valid(s) && p < |s.y| && p < from && Beside(s, p, from)
    ensures MemberOutcome(s, p, from, r)
  {
    hide Paired, Placed, Indexed, Angle, Separates, NoneBefore, Compares, Typed, EndsAt;
    if s.Container(p).None? {
      return Err(AmbiguousMember);
    }
    ContainerFacts(s, p);
    var c := s.Container(p).value;
    var limit := s.table.close[c];
    var typed := IsTyped(s, c);
    var cursor, angle := from, 0;
    NothingYet(s, c, true, from);
    while cursor < limit
      invariant from <= cursor <= limit < |s.y| && Beside(s, p, cursor)
      invariant NoneBefore(s, c, true, from, cursor)
      invariant angle == Angle(s, c, true, from, cursor)
      invariant !typed ==> !Compares(s, c, from, cursor)
      decreases limit - cursor
    {
      BeforeLimitNoCloser(s, p, cursor);
      BesideNext(s, p, cursor);
      var y := s.y[cursor];
      if IsOpener(y) {
        GroupStep(s, c, true, from, cursor);
        cursor := s.table.close[cursor] + 1;
        continue;
      }
      TokenStep(s, c, true, from, cursor);
      if y == Less {
        if !typed {
          ComparisonFound(s, p, c, from, cursor);
          return Err(AmbiguousInitializer);
        }
        angle := angle + 1;
      } else if y == Greater && angle > 0 {
        angle := angle - 1;
      } else if y == Comma && angle == 0 {
        break;
      }
      cursor := cursor + 1;
    }
    EndFound(s, c, true, from, limit, cursor);
    MemberDone(s, p, c, from, cursor);
    if angle > 0 {
      return Err(AmbiguousMember);
    }
    r := Ok(Span(MemberSpan, p, if cursor < limit then cursor else cursor - 1, None));
  }

  lemma NothingYet(s: Stream, c: nat, types: bool, from: nat)
    requires from <= |s.y|
    ensures NoneBefore(s, c, types, from, from) && Angle(s, c, types, from, from) == 0 && !Compares(s, c, from, from)
  {
  }

  lemma EndFound(s: Stream, c: nat, types: bool, from: nat, limit: nat, e: nat)
    requires from <= e <= limit < |s.y| && NoneBefore(s, c, types, from, e)
    requires e < limit ==> Separates(s, c, types, from, e)
    ensures EndsAt(s, c, types, from, limit, e)
  {
  }

  lemma ComparisonFound(s: Stream, p: nat, c: nat, from: nat, q: nat)
    requires Valid(s) && s.Container(p) == Some(c) && Within(s, p) && c < |s.y| && !Typed(s, c)
    requires 0 < from
    requires from <= q < Limit(s, p) < |s.y| && s.Container(q) == Some(c) && s.y[q] == Less
    requires NoneBefore(s, c, true, from, q)
    ensures MemberOutcome(s, p, from, Err(AmbiguousInitializer))
  {
    hide Paired, Placed, Indexed, Typed;
    EndExists(s, c, true, from, q, Limit(s, p));
    var e: nat :| q <= e && EndsAt(s, c, true, from, Limit(s, p), e);
    assert !Separates(s, c, true, from, q);
    assert Compares(s, c, from, e);
    MemberDone(s, p, c, from, e);
  }

  lemma MemberDone(s: Stream, p: nat, c: nat, from: nat, e: nat)
    requires Valid(s) && s.Container(p) == Some(c) && Within(s, p) && c < |s.y| && Limit(s, p) < |s.y|
    requires 0 < from <= e <= Limit(s, p) && EndsAt(s, c, true, from, Limit(s, p), e)
    ensures MemberOutcome(s, p, from, MemberResult(s, p, c, from, e))
  {
    hide Valid, EndsAt, MemberResult;
    assert MemberEnds(s, p, from, e, MemberResult(s, p, c, from, e));
  }

  lemma ContainerFacts(s: Stream, p: nat)
    requires Valid(s) && s.Container(p).Some?
    ensures Within(s, p) && s.Container(p).value < p <= Limit(s, p) < |s.y|
    ensures IsOpener(s.y[s.Container(p).value])
  {
    assert Covers(s.table.close, s.Container(p).value, p);
  }

  // ----- arguments and elements

  method ScanElement(s: Stream, p: nat) returns (r: Result<Span, Fault>)
    requires Valid(s) && Attribute(s.y, p) && s.Container(p).Some?
    ensures ElementOutcome(s, p, r)
  {
    hide Paired, Placed, Indexed, Attribute, Angle, Separates, NoneBefore, Compares, EndsAt;
    BesideAttribute(s, p);
    ContainerFacts(s, p);
    var c, from := s.Container(p).value, p + 7;
    var limit := s.table.close[c];
    var cursor, angle := from, 0;
    NothingYet(s, c, false, from);
    while cursor < limit
      invariant from <= cursor <= limit < |s.y| && Beside(s, p, cursor)
      invariant NoneBefore(s, c, false, from, cursor)
      invariant angle == Angle(s, c, false, from, cursor)
      decreases limit - cursor
    {
      BeforeLimitNoCloser(s, p, cursor);
      BesideNext(s, p, cursor);
      var y := s.y[cursor];
      if IsOpener(y) {
        GroupStep(s, c, false, from, cursor);
        cursor := s.table.close[cursor] + 1;
        continue;
      }
      TokenStep(s, c, false, from, cursor);
      if y == Less && (angle > 0 || (cursor >= 2 && s.y[cursor - 1] == Colon && s.y[cursor - 2] == Colon)) {
        angle := angle + 1;
      } else if y == Greater && angle > 0 {
        angle := angle - 1;
      } else if y == Comma && angle == 0 {
        break;
      }
      cursor := cursor + 1;
    }
    EndFound(s, c, false, from, limit, cursor);
    ElementDone(s, p, c, cursor);
    if angle > 0 {
      return Err(AmbiguousExpression);
    }
    if cursor - 1 < p + 7 {
      return Err(AmbiguousExpression);
    }
    r := Ok(Span(ElementSpan, p, if cursor < limit then cursor else limit, None));
  }

  lemma ElementDone(s: Stream, p: nat, c: nat, e: nat)
    requires s.Container(p) == Some(c) && Within(s, p) && c < |s.y| && Limit(s, p) < |s.y|
    requires p + 7 <= e <= Limit(s, p) && EndsAt(s, c, false, p + 7, Limit(s, p), e)
    ensures ElementOutcome(s, p, ElementResult(s, p, c, e))
  {
    hide EndsAt, ElementResult;
    assert ElementEnds(s, p, e, ElementResult(s, p, c, e));
  }

  // ----- items

  /** The first `{` or `;` outside parentheses and brackets, or the end. */
  method FindStop(y: seq<Symbol>, from: nat) returns (b: nat)
    requires from <= |y|
    ensures b <= |y|
    ensures b < |y| ==> FirstStop(y, from, b)
    ensures b == |y| ==> NeverStops(y, from)
  {
    b := from;
    var parens, brackets := 0, 0;
    while b < |y|
      invariant from <= b <= |y|
      invariant parens == Balance(y, OpenParen, CloseParen, from, b)
      invariant brackets == Balance(y, OpenBracket, CloseBracket, from, b)
      invariant forall q :: from <= q < b ==> !Stops(y, from, q)
    {
      if y[b] == OpenParen {
        parens := parens + 1;
      } else if y[b] == CloseParen {
        parens := parens - 1;
      } else if y[b] == OpenBracket {
        brackets := brackets + 1;
      } else if y[b] == CloseBracket {
        brackets := brackets - 1;
      } else if parens == 0 && brackets == 0 && (y[b] == OpenBrace || y[b] == Semicolon) {
        break;
      }
      b := b + 1;
    }
  }

  method ScanItem(s: Stream, p: nat) returns (r: Result<Span, Fault>)
    requires Valid(s) && p + 7 <= |s.y|
    ensures ItemOutcome(s, p, r)
  {
    hide Valid, NeverStops, Stops, ItemResult;
    var b := FindStop(s.y, p + 7);
    if b == |s.y| {
      return Err(AmbiguousItem);
    }
    r := FinishItem(s, p, b);
    assert ItemStops(s, p, b, r);
  }

  method FinishItem(s: Stream, p: nat, b: nat) returns (r: Result<Span, Fault>)
    requires Valid(s) && p + 7 <= b < |s.y|
    ensures ItemResult(s, p, b, r)
  {
    hide Placed, Indexed;
    if s.y[b] == OpenBrace {
      return Ok(Span(ItemSpan, p, s.table.close[b], None));
    }
    var k := p + 7;
    while k < b && s.y[k] != ModWord
      invariant p + 7 <= k <= b
      invariant forall j :: p + 7 <= j < k ==> s.y[j] != ModWord
    {
      k := k + 1;
    }
    if k == b {
      return Ok(Span(ItemSpan, p, b, None));
    }
    r := if k + 1 >= b then Err(AmbiguousModule) else Ok(Span(ItemSpan, p, b, Some(k + 1)));
    assert ModuleResult(s, p, b, k, r);
  }

  // ----- one attribute, and all of them

  method ScanAttribute(s: Stream, p: nat) returns (r: Result<Span, Fault>)
    requires Valid(s) && Attribute(s.y, p)
    ensures Outcome(s, p, r)
  {
    hide Paired, Placed, Indexed, Attribute, NamePosition, MemberOutcome, ElementOutcome, ItemOutcome, Beside;
    AttributeSymbols(s.y, p);
    BesideAttribute(s, p);
    var m := FindName(s, p + 7);
    if m + 2 < |s.y| && s.name[m] && s.y[m + 1] == Colon && s.y[m + 2] != Colon {
      BesideBody(s, p);
      r := ScanMember(s, p, m + 2);
      return;
    }
    if s.Container(p).Some? {
      ContainerFacts(s, p);
      var c := s.Container(p).value;
      if s.y[c] == OpenParen || s.y[c] == OpenBracket {
        r := ScanElement(s, p);
        return;
      }
    }
    r := ScanItem(s, p);
  }

  lemma ItemBounds(s: Stream, p: nat, b: nat, x: Span)
    requires Valid(s) && ItemStops(s, p, b, Ok(x))
    ensures x.kind == ItemSpan && x.start == p && p + 7 <= b <= x.last < |s.y|
    ensures x.declares.Some? ==> x.declares.value < |s.y|
    ensures x.last == if s.y[b] == OpenBrace then s.table.close[b] else b
  {
    if s.y[b] == OpenBrace {
      OpenerCloses(s, b);
    } else if !NoMod(s.y, p + 7, b) {
      hide Valid;
      var k: nat :| ModuleResult(s, p, b, k, Ok(x));
    }
  }

  /** Where a span can end. */
  lemma OutcomeBounds(s: Stream, p: nat, x: Span)
    requires Valid(s) && Attribute(s.y, p) && Outcome(s, p, Ok(x))
    ensures x.start == p && p + 7 <= x.last < |s.y|
    ensures x.declares.Some? ==> x.declares.value < |s.y|
    ensures x.kind == MemberSpan ==> Within(s, p) && x.last < Limit(s, p)
    ensures x.kind == ElementSpan ==> Within(s, p) && x.last <= Limit(s, p)
  {
    hide Paired, Placed, Indexed, Attribute, Angle, Separates, Typed, Compares, NamePosition, ItemStops;
    if Named(s, p) {
      var from := NamePosition(s, p + 7) + 2;
      var e: nat :| MemberEnds(s, p, from, e, Ok(x));
    } else if InList(s, p) {
      var e: nat :| ElementEnds(s, p, e, Ok(x));
    } else {
      var b: nat :| ItemStops(s, p, b, Ok(x));
      ItemBounds(s, p, b, x);
    }
  }

  datatype ScanError = ScanError(fault: Fault, line: nat)

  datatype Analysis = Analysis(excluded: set<nat>, modules: set<nat>)

  /** The spans lie in the stream. */
  ghost predicate InRange(s: Stream, spans: seq<Span>) {
    forall k :: 0 <= k < |spans| ==> spans[k].start < |s.line| && spans[k].last < |s.line|
  }

  ghost function AllExcluded(s: Stream, spans: seq<Span>): (r: set<nat>)
    requires InRange(s, spans)
    ensures forall l :: l in r <==> exists k :: 0 <= k < |spans| && Excludes(s, spans[k], l)
  {
    if spans == [] then {} else AllExcluded(s, spans[..|spans| - 1]) + ExcludedLines(s, spans[|spans| - 1])
  }

  ghost function AllDeclared(spans: seq<Span>): (r: set<nat>) {
    if spans == [] then {} else
      AllDeclared(spans[..|spans| - 1])
      + if spans[|spans| - 1].declares.Some? then {spans[|spans| - 1].declares.value} else {}
  }

  /** The scan: every attribute not yet covered opens a span, and the search goes on behind it. */
  method Scan(s: Stream) returns (r: Result<Analysis, ScanError>, ghost spans: seq<Span>)
    requires Valid(s)
    ensures r.Ok? ==> Scanned(s, spans, |s.y|) && InRange(s, spans)
    ensures r.Ok? ==> r.value == Analysis(AllExcluded(s, spans), AllDeclared(spans))
    ensures r.Err? ==> exists p: nat :: Attribute(s.y, p) && p < |s.line| && Scanned(s, spans, p)
                                        && r.error.line == s.line[p] && Outcome(s, p, Err(r.error.fault))
  {
    hide Paired, Placed, Indexed, Attribute, Outcome, AllExcluded, AllDeclared, Excludes, Scanned;
    var position := 0;
    var excluded, modules := {}, {};
    spans := [];
    NothingScanned(s);
    while position + 6 < |s.y|
      invariant position <= |s.y|
      invariant Scanned(s, spans, position) && InRange(s, spans)
      invariant excluded == AllExcluded(s, spans) && modules == AllDeclared(spans)
      decreases |s.y| - position
    {
      if !Attribute(s.y, position) {
        GapGrows(s, spans, position, position + 1);
        position := position + 1;
        continue;
      }
      var next := ScanAttribute(s, position);
      if next.Err? {
        return Err(ScanError(next.error, s.line[position])), spans;
      }
      var x := next.value;
      OutcomeBounds(s, position, x);
      excluded := excluded + ExcludedLines(s, x);
      if x.declares.Some? {
        modules := modules + {x.declares.value};
      }
      OneSpanMore(s, spans, position, x);
      position := x.last + 1;
      spans := spans + [x];
    }
    NoRoomLeft(s, position);
    GapGrows(s, spans, position, |s.y|);
    return Ok(Analysis(excluded, modules)), spans;
  }

  lemma NothingScanned(s: Stream)
    requires Valid(s)
    ensures Scanned(s, [], 0) && AllExcluded(s, []) == {} && AllDeclared([]) == {}
  {
    hide Valid, Attribute;
  }

  lemma OneSpanMore(s: Stream, spans: seq<Span>, p: nat, x: Span)
    requires Valid(s) && Scanned(s, spans, p) && InRange(s, spans) && Attribute(s.y, p) && Outcome(s, p, Ok(x))
    requires x.start == p && p < x.last < |s.line|
    ensures Scanned(s, spans + [x], x.last + 1) && InRange(s, spans + [x])
    ensures AllExcluded(s, spans + [x]) == AllExcluded(s, spans) + ExcludedLines(s, x)
    ensures AllDeclared(spans + [x]) == AllDeclared(spans) + if x.declares.Some? then {x.declares.value} else {}
  {
    hide Valid, Attribute, Outcome, Excludes;
    assert (spans + [x])[..|spans|] == spans;
  }

  lemma NoRoomLeft(s: Stream, p: nat)
    requires p + 6 >= |s.y|
    ensures Gap(s, p, |s.y|)
  {
  }

  lemma GapGrows(s: Stream, spans: seq<Span>, a: nat, b: nat)
    requires Valid(s) && Scanned(s, spans, a) && a <= b && Gap(s, a, b)
    ensures Scanned(s, spans, b)
  {
    hide Valid, Attribute, Outcome;
  }
}
