/** The account over symbols and the account over texts are one (scripts/coverage_rust_ledger.py). */
module CfgTextsAgree {
  import opened Results
  import opened RustLexemes
  import opened RustTokenizer
  import opened DelimiterTable
  import opened CfgSpans
  import opened CfgOutcome
  import opened CfgScan
  import opened CfgTexts

  /** The stream is what the scan sees of the tokens. */
  ghost predicate Sees(cls: Classes, tokens: seq<Token>, s: Stream) {
    && Valid(s) && |s.name| == |s.line| == |s.y| == |tokens| && Marks(tokens, s.y) && Signs(tokens, s.y) && Words(tokens, s.y)
    && (forall p :: 0 <= p < |tokens| ==> s.name[p] == IsName(cls, tokens[p].text) && s.line[p] == tokens[p].line)
  }

  lemma AttributeSymbolAt(tokens: seq<Token>, y: seq<Symbol>, q: nat)
    requires Marks(tokens, y) && Words(tokens, y) && q < |y|
    ensures (y[q] == Hash <==> Says(tokens, q, "#")) && (y[q] == OpenBracket <==> Says(tokens, q, "["))
    ensures (y[q] == CfgWord <==> Says(tokens, q, "cfg")) && (y[q] == OpenParen <==> Says(tokens, q, "("))
    ensures (y[q] == TestWord <==> Says(tokens, q, "test")) && (y[q] == CloseParen <==> Says(tokens, q, ")"))
    ensures y[q] == CloseBracket <==> Says(tokens, q, "]")
  {
    hide Says;
  }

  lemma AttributesAgree(tokens: seq<Token>, y: seq<Symbol>, p: nat)
    requires Marks(tokens, y) && Words(tokens, y) && |y| == |tokens|
    ensures Attribute(y, p) <==> AttributeHere(tokens, p)
  {
    hide Says, Marks, Words;
    OutOfRange(tokens, p + 6, "]");
    if p + 6 < |y| {
      AttributeSymbolAt(tokens, y, p);
      AttributeSymbolAt(tokens, y, p + 1);
      AttributeSymbolAt(tokens, y, p + 2);
      AttributeSymbolAt(tokens, y, p + 3);
      AttributeSymbolAt(tokens, y, p + 4);
      AttributeSymbolAt(tokens, y, p + 5);
      AttributeSymbolAt(tokens, y, p + 6);
      SevenSymbols(y, p);
    }
  }

  lemma SevenSymbols(y: seq<Symbol>, p: nat)
    requires p + 6 < |y|
    ensures Attribute(y, p) <==>
            y[p] == Hash && y[p + 1] == OpenBracket && y[p + 2] == CfgWord && y[p + 3] == OpenParen
            && y[p + 4] == TestWord && y[p + 5] == CloseParen && y[p + 6] == CloseBracket
  {
    if Attribute(y, p) {
      AttributeSymbols(y, p);
    }
  }

  lemma OutOfRange(tokens: seq<Token>, p: int, t: string)
    ensures Says(tokens, p, t) ==> 0 <= p < |tokens|
  {
  }

  // ----- names

  lemma {:induction false} FurtherAttributesAgree(cls: Classes, tokens: seq<Token>, s: Stream, m: nat, n: nat)
    requires Sees(cls, tokens, s)
    ensures AttributesEnd(tokens, s.table.close, m, n) <==> n == SkipAttributes(s, m)
    decreases |tokens| - m
  {
    hide Sees, Says, Valid;
    SeesValid(cls, tokens, s);
    BracketAgrees(cls, tokens, s, m);
    if Says(tokens, m, "#") && Says(tokens, m + 1, "[") {
      FurtherAttributesAgree(cls, tokens, s, s.table.close[m + 1] + 1, n);
    }
  }

  lemma BracketAgrees(cls: Classes, tokens: seq<Token>, s: Stream, m: nat)
    requires Sees(cls, tokens, s)
    ensures Says(tokens, m, "#") && Says(tokens, m + 1, "[") <==> m + 1 < |s.y| && s.y[m] == Hash && s.y[m + 1] == OpenBracket
    ensures m + 1 < |s.y| && s.y[m + 1] == OpenBracket ==> m + 1 in s.table.close && m < s.table.close[m + 1] < |tokens|
  {
    hide Placed, Indexed, Signs, Words;
  }

  lemma VisibilityAgrees(cls: Classes, tokens: seq<Token>, s: Stream, m: nat, n: nat)
    requires Sees(cls, tokens, s)
    ensures VisibilityEnds(tokens, s.table.close, m, n) <==> n == SkipVisibility(s, m)
  {
    hide Says, Placed, Indexed, Signs;
    OutOfRange(tokens, m, "pub");
    OutOfRange(tokens, m + 1, "(");
    if m < |s.y| {
      assert s.y[m] == PubWord <==> Says(tokens, m, "pub");
    }
    if m + 1 < |s.y| {
      assert s.y[m + 1] == OpenParen <==> Says(tokens, m + 1, "(");
    }
  }

  lemma NamePositionAgrees(cls: Classes, tokens: seq<Token>, s: Stream, from: nat, m: nat)
    requires Sees(cls, tokens, s)
    ensures LeadsSomehow(tokens, s.table.close, from, m) <==> m == NamePosition(s, from)
  {
    hide Says, Valid, Marks, Signs, Words, AttributesEnd, VisibilityEnds, SkipAttributes, SkipVisibility;
    var a := SkipAttributes(s, from);
    var v := SkipVisibility(s, a);
    FurtherAttributesAgree(cls, tokens, s, from, a);
    VisibilityAgrees(cls, tokens, s, a, v);
    MutAgrees(cls, tokens, s, v);
    if LeadsSomehow(tokens, s.table.close, from, m) {
      var b: nat, w: nat :| LeadsTo(tokens, s.table.close, from, b, w, m);
      FurtherAttributesAgree(cls, tokens, s, from, b);
      VisibilityAgrees(cls, tokens, s, b, w);
    }
    if m == NamePosition(s, from) {
      assert LeadsTo(tokens, s.table.close, from, a, v, m);
    }
  }

  lemma MutAgrees(cls: Classes, tokens: seq<Token>, s: Stream, v: nat)
    requires Sees(cls, tokens, s)
    ensures (v < |s.y| && s.y[v] == MutWord) <==> Says(tokens, v, "mut")
  {
    hide Valid, Marks, Signs;
    OutOfRange(tokens, v, "mut");
  }

  lemma ColonAgrees(cls: Classes, tokens: seq<Token>, s: Stream, q: nat)
    requires Sees(cls, tokens, s) && q < |s.y|
    ensures s.y[q] == Colon <==> Says(tokens, q, ":")
    ensures s.name[q] == IsName(cls, tokens[q].text)
  {
    hide Valid, Marks, Words, IsName;
  }

  lemma NamedAgrees(cls: Classes, tokens: seq<Token>, s: Stream, p: nat, m: nat)
    requires Sees(cls, tokens, s) && Valid(s)
    ensures NamedAt(cls, tokens, s.table.close, p, m) <==> Named(s, p) && m == NamePosition(s, p + 7)
  {
    hide Sees, Valid, IsName, NamePosition, LeadsSomehow, Says;
    SeesValid(cls, tokens, s);
    NamePositionAgrees(cls, tokens, s, p + 7, m);
    if m + 2 < |tokens| {
      ColonAgrees(cls, tokens, s, m);
      ColonAgrees(cls, tokens, s, m + 1);
      ColonAgrees(cls, tokens, s, m + 2);
    }
  }

  lemma TypesAgree(cls: Classes, tokens: seq<Token>, s: Stream, c: nat)
    requires Sees(cls, tokens, s) && c < |s.y|
    ensures HoldsTypes(tokens, c) <==> Typed(s, c)
  {
    hide Says, Valid, Signs;
    forall k: nat
      ensures BelongsToStruct(tokens, c, k) <==> StructAt(s, c, k)
    {
      StructsAgree(cls, tokens, s, c, k);
    }
  }

  lemma StructsAgree(cls: Classes, tokens: seq<Token>, s: Stream, c: nat, k: nat)
    requires Sees(cls, tokens, s) && c < |s.y|
    ensures BelongsToStruct(tokens, c, k) <==> StructAt(s, c, k)
  {
    hide Says, Valid, Signs;
    if k < c {
      assert s.y[k] == StructWord <==> Says(tokens, k, "struct");
      forall j | k < j < c
        ensures s.y[j] !in {OpenBrace, CloseBrace, Semicolon} <==>
                !Says(tokens, j, "{") && !Says(tokens, j, "}") && !Says(tokens, j, ";")
      {
        assert s.y[j] == OpenBrace <==> Says(tokens, j, "{");
      }
    }
  }

  // ----- commas

  lemma DirectlyAgrees(s: Stream, c: nat, q: nat)
    ensures Directly(s.table.enclosing, c, q) <==> s.Container(q) == Some(c)
  {
  }

  lemma {:induction false} AnglesAgree(cls: Classes, tokens: seq<Token>, s: Stream, c: nat, types: bool, from: nat, q: nat)
    requires Sees(cls, tokens, s) && from <= q <= |s.y|
    ensures Angles(tokens, s.table.enclosing, c, types, from, q) == Angle(s, c, types, from, q)
    decreases q
  {
    hide Says, Valid, Marks, Words;
    if q > from {
      AnglesAgree(cls, tokens, s, c, types, from, q - 1);
      DirectlyAgrees(s, c, q - 1);
      assert s.y[q - 1] == Less <==> Says(tokens, q - 1, "<");
      OutOfRange(tokens, q - 2, ":");
      OutOfRange(tokens, q - 3, ":");
      if q >= 3 {
        assert s.y[q - 2] == Colon <==> Says(tokens, q - 2, ":");
        assert s.y[q - 3] == Colon <==> Says(tokens, q - 3, ":");
      }
    }
  }

  lemma CommasAgree(cls: Classes, tokens: seq<Token>, s: Stream, c: nat, types: bool, from: nat, q: nat)
    requires Sees(cls, tokens, s) && from <= q < |s.y|
    ensures CommaAt(tokens, s.table.enclosing, c, types, from, q) <==> Separates(s, c, types, from, q)
  {
    hide Says, Valid, Marks, Words, Angles, Angle;
    AnglesAgree(cls, tokens, s, c, types, from, q);
    DirectlyAgrees(s, c, q);
    assert s.y[q] == Comma <==> Says(tokens, q, ",");
  }

  lemma EndsAgree(cls: Classes, tokens: seq<Token>, s: Stream, c: nat, types: bool, from: nat, limit: nat, e: nat)
    requires Sees(cls, tokens, s) && limit < |s.y|
    ensures ListedUpTo(tokens, s.table.enclosing, c, types, from, limit, e) <==> EndsAt(s, c, types, from, limit, e)
  {
    hide Sees, CommaAt, Separates;
    forall q | from <= q < |s.y|
      ensures CommaAt(tokens, s.table.enclosing, c, types, from, q) <==> Separates(s, c, types, from, q)
    {
      CommasAgree(cls, tokens, s, c, types, from, q);
    }
  }

  lemma LessAgrees(cls: Classes, tokens: seq<Token>, s: Stream, c: nat, from: nat, e: nat)
    requires Sees(cls, tokens, s) && e <= |s.y|
    ensures LessBefore(tokens, s.table.enclosing, c, from, e) <==> Compares(s, c, from, e)
  {
    hide Valid, Marks, Words, Directly;
    forall k | from <= k < e
      ensures Directly(s.table.enclosing, c, k) && Says(tokens, k, "<") <==> s.Container(k) == Some(c) && s.y[k] == Less
    {
      DirectlyAgrees(s, c, k);
    }
    if LessBefore(tokens, s.table.enclosing, c, from, e) {
      var k: nat :| from <= k < e && Directly(s.table.enclosing, c, k) && Says(tokens, k, "<");
      assert s.Container(k) == Some(c) && s.y[k] == Less;
    }
    if Compares(s, c, from, e) {
      var k :| from <= k < e && s.Container(k) == Some(c) && s.y[k] == Less;
      assert Directly(s.table.enclosing, c, k) && Says(tokens, k, "<");
    }
  }

  // ----- members and elements

  /** Inside a container the table says where it closes. */
  lemma ContainerStands(s: Stream, p: nat)
    requires Valid(s) && p in s.table.enclosing
    ensures p < |s.y| && s.table.enclosing[p] in s.table.close
    ensures s.table.enclosing[p] < p <= s.table.close[s.table.enclosing[p]] < |s.y|
  {
    assert Covers(s.table.close, s.table.enclosing[p], p);
  }

  lemma MembersAgree(cls: Classes, tokens: seq<Token>, s: Stream, p: nat, from: nat, e: nat, r: Cover)
    requires Sees(cls, tokens, s) && p < |s.y| && p in s.table.enclosing
    ensures MemberTo(tokens, s.table, p, from, e, r) <==> MemberEnds(s, p, from, e, r)
  {
    hide Sees, Valid, Angles, Angle, Typed, HoldsTypes, LessBefore, Compares, EndsAt, ListedUpTo;
    SeesValid(cls, tokens, s);
    ContainerStands(s, p);
    var c := s.table.enclosing[p];
    EndsAgree(cls, tokens, s, c, true, from, s.table.close[c], e);
    TypesAgree(cls, tokens, s, c);
    if EndsAt(s, c, true, from, s.table.close[c], e) {
      EndsInside(s, c, true, from, s.table.close[c], e);
      AnglesAgree(cls, tokens, s, c, true, from, e);
      LessAgrees(cls, tokens, s, c, from, e);
    }
  }

  lemma SeesValid(cls: Classes, tokens: seq<Token>, s: Stream)
    requires Sees(cls, tokens, s)
    ensures Valid(s) && |s.y| == |tokens| == |s.line| == |s.name|
  {
  }

  lemma EndsInside(s: Stream, c: nat, types: bool, from: nat, limit: nat, e: nat)
    requires limit < |s.y| && EndsAt(s, c, types, from, limit, e)
    ensures from <= e <= limit
  {
  }

  lemma ElementsAgree(cls: Classes, tokens: seq<Token>, s: Stream, p: nat, e: nat, r: Cover)
    requires Sees(cls, tokens, s) && p < |s.y| && p in s.table.enclosing
    ensures ElementTo(tokens, s.table, p, e, r) <==> ElementEnds(s, p, e, r)
  {
    hide Sees, Valid, Angles, Angle, EndsAt, ListedUpTo;
    SeesValid(cls, tokens, s);
    ContainerStands(s, p);
    var c := s.table.enclosing[p];
    EndsAgree(cls, tokens, s, c, false, p + 7, s.table.close[c], e);
    if EndsAt(s, c, false, p + 7, s.table.close[c], e) {
      EndsInside(s, c, false, p + 7, s.table.close[c], e);
      AnglesAgree(cls, tokens, s, c, false, p + 7, e);
    }
  }

  lemma BracketsAgree(cls: Classes, tokens: seq<Token>, s: Stream, p: nat)
    requires Sees(cls, tokens, s)
    ensures InBrackets(tokens, s.table, p) <==> InList(s, p)
  {
    hide Valid, Signs, Words;
  }

  // ----- items

  lemma {:induction false} ExcessAgrees(cls: Classes, tokens: seq<Token>, s: Stream, round: bool, from: nat, q: nat)
    requires Sees(cls, tokens, s) && from <= q <= |s.y|
    ensures round ==> Excess(tokens, "(", ")", from, q) == Balance(s.y, OpenParen, CloseParen, from, q)
    ensures !round ==> Excess(tokens, "[", "]", from, q) == Balance(s.y, OpenBracket, CloseBracket, from, q)
    decreases q
  {
    hide Says, Valid, Signs, Words;
    if q > from {
      ExcessAgrees(cls, tokens, s, round, from, q - 1);
      assert s.y[q - 1] == OpenParen <==> Says(tokens, q - 1, "(");
    }
  }

  lemma StopsAgree(cls: Classes, tokens: seq<Token>, s: Stream, from: nat, q: nat)
    requires Sees(cls, tokens, s) && from <= q < |s.y|
    ensures StopAt(tokens, from, q) <==> Stops(s.y, from, q)
  {
    hide Says, Valid, Signs, Words, Excess, Balance;
    ExcessAgrees(cls, tokens, s, true, from, q);
    ExcessAgrees(cls, tokens, s, false, from, q);
    assert s.y[q] == OpenBrace <==> Says(tokens, q, "{");
  }

  lemma FirstStopsAgree(cls: Classes, tokens: seq<Token>, s: Stream, from: nat, b: nat)
    requires Sees(cls, tokens, s)
    ensures FirstStopAt(tokens, from, b) <==> FirstStop(s.y, from, b)
    ensures NoStop(tokens, from) <==> NeverStops(s.y, from)
  {
    hide Sees, Valid, StopAt, Stops;
    SeesValid(cls, tokens, s);
    forall q | from <= q < |s.y|
      ensures StopAt(tokens, from, q) <==> Stops(s.y, from, q)
    {
      StopsAgree(cls, tokens, s, from, q);
    }
  }

  lemma ModulesAgree(cls: Classes, tokens: seq<Token>, s: Stream, from: nat, b: nat, k: nat)
    requires Sees(cls, tokens, s) && b <= |s.y|
    ensures ModAt(tokens, from, b, k) <==> FirstMod(s.y, from, b, k)
    ensures (forall j :: from <= j < b ==> !Says(tokens, j, "mod")) <==> NoMod(s.y, from, b)
  {
    hide Says, Valid, Signs, Marks;
    forall j | from <= j < b
      ensures s.y[j] == ModWord <==> Says(tokens, j, "mod")
    {
    }
  }

  lemma ModuleResultsAgree(cls: Classes, tokens: seq<Token>, s: Stream, p: nat, b: nat, k: nat, r: Cover)
    requires Sees(cls, tokens, s) && b <= |s.y|
    ensures ModuleTo(tokens, p, b, k, r) <==> ModuleResult(s, p, b, k, r)
  {
    hide Sees, ModAt, FirstMod;
    ModulesAgree(cls, tokens, s, p + 7, b, k);
  }

  lemma ItemsAgree(cls: Classes, tokens: seq<Token>, s: Stream, p: nat, b: nat, r: Cover)
    requires Sees(cls, tokens, s) && Valid(s)
    ensures ItemTo(tokens, s.table, p, b, r) <==> ItemStops(s, p, b, r)
  {
    hide Sees, Valid, FirstStop, FirstStopAt, ModuleTo, ModuleResult, NoMod, Says;
    FirstStopsAgree(cls, tokens, s, p + 7, b);
    if FirstStop(s.y, p + 7, b) {
      StopBounds(s.y, p + 7, b);
      BraceAgrees(cls, tokens, s, b);
      ModulesAgree(cls, tokens, s, p + 7, b, 0);
      forall k: nat
        ensures ModuleTo(tokens, p, b, k, r) <==> ModuleResult(s, p, b, k, r)
      {
        ModuleResultsAgree(cls, tokens, s, p, b, k, r);
      }
    }
  }

  lemma BraceAgrees(cls: Classes, tokens: seq<Token>, s: Stream, b: nat)
    requires Sees(cls, tokens, s) && b < |s.y|
    ensures s.y[b] == OpenBrace <==> Says(tokens, b, "{")
    ensures s.y[b] == OpenBrace ==> b in s.table.close
  {
  }

  // ----- the attribute

  /** What an attribute covers is the same in both accounts. */
  lemma CoversAgree(cls: Classes, tokens: seq<Token>, s: Stream, p: nat, r: Cover)
    requires Sees(cls, tokens, s) && Valid(s) && Attribute(s.y, p) && p < |s.y|
    ensures Covered(cls, tokens, s.table, p, r) <==> Outcome(s, p, r)
  {
    hide Sees, Attribute, NamedAt, Named, NamePosition, MemberHere, MemberOutcome, ElementTo, ElementOutcome, ItemHere, ItemOutcome,
         InList, InBrackets, Valid;
    var m := NamePosition(s, p + 7);
    forall n: nat
      ensures NamedAt(cls, tokens, s.table.close, p, n) <==> Named(s, p) && n == m
    {
      NamedAgrees(cls, tokens, s, p, n);
    }
    assert Named(s, p) ==> NamedAt(cls, tokens, s.table.close, p, m);
    MembersAgreeHere(cls, tokens, s, p, m + 2, r);
    BracketsAgree(cls, tokens, s, p);
    if InList(s, p) {
      ElementsAgreeHere(cls, tokens, s, p, r);
    }
    ItemsAgreeHere(cls, tokens, s, p, r);
  }

  lemma MembersAgreeHere(cls: Classes, tokens: seq<Token>, s: Stream, p: nat, from: nat, r: Cover)
    requires Sees(cls, tokens, s) && p < |s.y|
    ensures MemberHere(tokens, s.table, p, from, r) <==> MemberOutcome(s, p, from, r)
  {
    hide Sees, MemberTo, MemberEnds;
    if p in s.table.enclosing {
      forall e: nat
        ensures MemberTo(tokens, s.table, p, from, e, r) <==> MemberEnds(s, p, from, e, r)
      {
        MembersAgree(cls, tokens, s, p, from, e, r);
      }
    }
  }

  lemma ElementsAgreeHere(cls: Classes, tokens: seq<Token>, s: Stream, p: nat, r: Cover)
    requires Sees(cls, tokens, s) && Valid(s) && p < |s.y| && InList(s, p)
    ensures (exists e: nat :: ElementTo(tokens, s.table, p, e, r)) <==> ElementOutcome(s, p, r)
  {
    hide Sees, Valid, ElementTo, ElementEnds;
    forall e: nat
      ensures ElementTo(tokens, s.table, p, e, r) <==> ElementEnds(s, p, e, r)
    {
      ElementsAgree(cls, tokens, s, p, e, r);
    }
  }

  lemma ItemsAgreeHere(cls: Classes, tokens: seq<Token>, s: Stream, p: nat, r: Cover)
    requires Sees(cls, tokens, s) && Valid(s)
    ensures ItemHere(tokens, s.table, p, r) <==> ItemOutcome(s, p, r)
  {
    hide Sees, Valid, ItemTo, ItemStops, NoStop, NeverStops;
    FirstStopsAgree(cls, tokens, s, p + 7, 0);
    forall b: nat
      ensures ItemTo(tokens, s.table, p, b, r) <==> ItemStops(s, p, b, r)
    {
      ItemsAgree(cls, tokens, s, p, b, r);
    }
  }

  /** So is the whole scan. */
  lemma {:induction false} ScansAgree(cls: Classes, tokens: seq<Token>, s: Stream, spans: seq<Span>, i: nat)
    requires Sees(cls, tokens, s) && Valid(s)
    ensures CoveredBefore(cls, tokens, s.table, spans, i) <==> Scanned(s, spans, i)
    decreases |spans|
  {
    hide Sees, Valid, Attribute, AttributeHere, Covered, Outcome;
    forall q: nat
      ensures Attribute(s.y, q) <==> AttributeHere(tokens, q)
    {
      AttributesAgreeIn(cls, tokens, s, q);
    }
    if spans != [] {
      var x := spans[|spans| - 1];
      ScansAgree(cls, tokens, s, spans[..|spans| - 1], x.start);
      if Attribute(s.y, x.start) {
        AttributeInside(s.y, x.start);
        CoversAgree(cls, tokens, s, x.start, Ok(x));
      }
    }
  }

  lemma AttributeInside(y: seq<Symbol>, p: nat)
    requires Attribute(y, p)
    ensures p < |y|
  {
  }

  lemma AttributesAgreeIn(cls: Classes, tokens: seq<Token>, s: Stream, p: nat)
    requires Sees(cls, tokens, s)
    ensures Attribute(s.y, p) <==> AttributeHere(tokens, p)
  {
    hide Valid, Marks, Words, Signs, Attribute, AttributeHere;
    AttributesAgree(tokens, s.y, p);
  }

  // ----- findings

  lemma LinesAgree(cls: Classes, tokens: seq<Token>, s: Stream, x: Span, l: nat)
    requires Sees(cls, tokens, s) && x.start < |s.line| && x.last < |s.line|
    ensures TakesLine(tokens, x, l) <==> Excludes(s, x, l)
  {
    hide Paired, Placed, Marks, Signs, Words, IsName;
    if l in s.table.lines {
      var first, last := s.table.lines[l].first, s.table.lines[l].last;
      assert tokens[first].line == l == tokens[last].line;
      forall q | 0 <= q < |tokens| && tokens[q].line == l
        ensures first <= q <= last
      {
        assert OnLine(s.table.lines, s.line[q], q);
      }
    } else {
      forall q | 0 <= q < |tokens|
        ensures tokens[q].line != l
      {
        assert OnLine(s.table.lines, s.line[q], q);
      }
    }
  }

  /** What an item declares is its first module name. */
  lemma DeclaresAgree(cls: Classes, tokens: seq<Token>, s: Stream, x: Span)
    requires Sees(cls, tokens, s) && Valid(s) && Attribute(s.y, x.start) && x.start < |s.y| && Outcome(s, x.start, Ok(x))
    ensures forall k: nat :: DeclaresModule(tokens, x, k) <==> x.declares == Some(k + 1)
    ensures x.declares.Some? ==> x.declares.value > 0
  {
    hide Sees, Attribute, NamePosition, Named, InList, EndsAt, ModAt, FirstMod, FirstStop, Stops, NoMod, Valid;
    if x.kind == ItemSpan {
      assert ItemOutcome(s, x.start, Ok(x));
      var b: nat :| ItemStops(s, x.start, b, Ok(x));
      ItemDeclares(cls, tokens, s, x, b);
    }
  }

  lemma StopBounds(y: seq<Symbol>, from: nat, b: nat)
    requires FirstStop(y, from, b)
    ensures from <= b < |y| && (y[b] == OpenBrace || y[b] == Semicolon)
  {
  }

  lemma ItemDeclares(cls: Classes, tokens: seq<Token>, s: Stream, x: Span, b: nat)
    requires Sees(cls, tokens, s) && Valid(s) && ItemStops(s, x.start, b, Ok(x)) && x.kind == ItemSpan
    ensures forall k: nat :: DeclaresModule(tokens, x, k) <==> x.declares == Some(k + 1)
    ensures x.declares.Some? ==> x.declares.value > 0
  {
    hide Sees, Valid, ModAt, FirstMod, FirstStop, NoMod, Says;
    StopBounds(s.y, x.start + 7, b);
    SeesValid(cls, tokens, s);
    EndSays(cls, tokens, s, x, b);
    if s.y[b] == Semicolon {
      assert x.last == b;
      forall k: nat
        ensures DeclaresModule(tokens, x, k) <==> x.declares == Some(k + 1)
      {
        ModulesAgree(cls, tokens, s, x.start + 7, b, k);
        if x.declares.Some? {
          var j: nat :| ModuleResult(s, x.start, b, j, Ok(x));
          OneMod(s.y, x.start + 7, b, j, k);
        } else {
          NoModAt(s.y, x.start + 7, b, k);
        }
      }
    }
  }

  lemma OneMod(y: seq<Symbol>, from: nat, b: nat, j: nat, k: nat)
    requires b <= |y| && FirstMod(y, from, b, j)
    ensures FirstMod(y, from, b, k) <==> j == k
  {
  }

  lemma NoModAt(y: seq<Symbol>, from: nat, b: nat, k: nat)
    requires b <= |y|
    ensures NoMod(y, from, b) ==> !FirstMod(y, from, b, k)
  {
  }

  lemma EndSays(cls: Classes, tokens: seq<Token>, s: Stream, x: Span, b: nat)
    requires Sees(cls, tokens, s) && Valid(s) && ItemStops(s, x.start, b, Ok(x)) && b < |s.y|
    ensures Says(tokens, x.last, ";") <==> s.y[b] == Semicolon
  {
    hide Placed, Indexed, Signs, Words, FirstStop, NoMod, FirstMod;
    StopBounds(s.y, x.start + 7, b);
    if s.y[b] == OpenBrace {
      assert s.y[s.table.close[b]] == CloseBrace;
      assert x.last == s.table.close[b];
    } else {
      assert x.last == b;
    }
  }

  lemma {:induction false} ScannedParts(s: Stream, spans: seq<Span>, i: nat)
    requires Valid(s) && Scanned(s, spans, i)
    ensures forall k :: 0 <= k < |spans| ==>
              Attribute(s.y, spans[k].start) && spans[k].start < |s.y| && Outcome(s, spans[k].start, Ok(spans[k]))
    decreases |spans|
  {
    hide Valid, Attribute, Outcome;
    if spans != [] {
      var n := |spans| - 1;
      ScannedParts(s, spans[..n], spans[n].start);
      AttributeInside(s.y, spans[n].start);
      assert forall k :: 0 <= k < n ==> spans[..n][k] == spans[k];
    }
  }

  lemma {:induction false} DeclaredIs(spans: seq<Span>, p: nat)
    ensures p in AllDeclared(spans) <==> exists i :: 0 <= i < |spans| && spans[i].declares == Some(p)
    decreases |spans|
  {
    if spans != [] {
      var n := |spans| - 1;
      DeclaredIs(spans[..n], p);
      if i :| 0 <= i < |spans| && spans[i].declares == Some(p) {
        assert i < n ==> spans[..n][i] == spans[i];
      }
      if i :| 0 <= i < n && spans[..n][i].declares == Some(p) {
        assert spans[i] == spans[..n][i];
      }
    }
  }

  /** The findings of the scan, over texts and lines. */
  lemma FindingsAgree(cls: Classes, tokens: seq<Token>, s: Stream, spans: seq<Span>, excluded: set<nat>, modules: set<string>)
    requires Sees(cls, tokens, s) && Valid(s) && Scanned(s, spans, |s.y|) && InRange(s, spans)
    requires excluded == AllExcluded(s, spans) && forall p :: p in AllDeclared(spans) ==> p < |tokens|
    requires modules == set p | p in AllDeclared(spans) :: tokens[p].text
    ensures Finds(cls, tokens, s.table, spans, excluded, modules)
  {
    hide Sees, Valid, Scanned, CoveredBefore, TakesLine, Excludes, DeclaresModule, Outcome, Attribute, AllDeclared, AllExcluded;
    SeesValid(cls, tokens, s);
    ScansAgree(cls, tokens, s, spans, |s.y|);
    ScannedParts(s, spans, |s.y|);
    forall l: nat
      ensures l in excluded <==> LineTaken(tokens, spans, l)
    {
      forall k | 0 <= k < |spans|
        ensures TakesLine(tokens, spans[k], l) <==> Excludes(s, spans[k], l)
      {
        LinesAgree(cls, tokens, s, spans[k], l);
      }
    }
    forall i | 0 <= i < |spans|
      ensures forall k: nat :: DeclaresModule(tokens, spans[i], k) <==> spans[i].declares == Some(k + 1)
      ensures spans[i].declares.Some? ==> spans[i].declares.value > 0
    {
      DeclaresAgree(cls, tokens, s, spans[i]);
    }
    forall name
      ensures name in modules <==> ModuleDeclared(tokens, spans, name)
    {
      NamesAgree(tokens, spans, modules, name);
    }
  }

  lemma NamesAgree(tokens: seq<Token>, spans: seq<Span>, modules: set<string>, name: string)
    requires forall p :: p in AllDeclared(spans) ==> p < |tokens|
    requires modules == set p | p in AllDeclared(spans) :: tokens[p].text
    requires forall i :: 0 <= i < |spans| ==> forall k: nat :: DeclaresModule(tokens, spans[i], k) <==> spans[i].declares == Some(k + 1)
    requires forall i :: 0 <= i < |spans| && spans[i].declares.Some? ==> spans[i].declares.value > 0
    ensures name in modules <==> ModuleDeclared(tokens, spans, name)
  {
    hide AllDeclared;
    if name in modules {
      var p :| p in AllDeclared(spans) && tokens[p].text == name;
      DeclaredIs(spans, p);
      var i :| 0 <= i < |spans| && spans[i].declares == Some(p);
      assert spans[i].declares == Some(p - 1 + 1);
      assert DeclaresModule(tokens, spans[i], p - 1);
    }
    if ModuleDeclared(tokens, spans, name) {
      var i, k: nat :| 0 <= i < |spans| && DeclaresModule(tokens, spans[i], k) && tokens[k + 1].text == name;
      assert spans[i].declares == Some(k + 1);
      DeclaredIs(spans, k + 1);
    }
  }
}
