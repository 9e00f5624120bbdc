/** Enums and items whose test code takes its production neighbours with it (scripts/coverage_rust_ledger.py). */
module CfgEnumSources {
  import opened Results
  import opened RustLexemes
  import opened RustTokenizer
  import opened RustPieces
  import opened Delimiters
  import opened DelimiterTable
  import opened CfgSpans
  import opened CfgOutcome
  import opened CfgScan
  import opened CfgSafety
  import opened CfgItems
  import opened CfgAnalysis
  import opened CfgWitnesses
  import opened CfgSources

  // ----- `enum E {`, `#[cfg(test)]` and what follows

  function EnumFront(rest: Pieces): (r: Pieces) {
    More(Name("enum"), More(Blank(' '), More(Name("E"), More(Blank(' '), More(Sign('{'), More(Blank('\n'), Attributed(rest)))))))
  }

  function FrontTokens(): (r: seq<Token>)
    ensures |r| == 3
  {
    [Token("enum", 1), Token("E", 1), Token("{", 1)]
  }

  lemma AddFront(cls: Classes, rest: Pieces)
    requires Ordinary(cls) && Readable(cls, rest)
    ensures Readable(cls, EnumFront(rest))
    ensures Tokens(EnumFront(rest), 1) == FrontTokens() + AttributeTokens(2) + Tokens(rest, 2)
  {
    hide Readable, Tokens, Ordinary, IsPlain, Attributed, AttributeTokens;
    AddAttribute(cls, rest, 2);
    var a := More(Blank('\n'), Attributed(rest));
    AddBlank(cls, '\n', Attributed(rest), 1);
    var b := More(Sign('{'), a);
    AddSign(cls, '{', a, 1);
    var c := More(Blank(' '), b);
    AddBlank(cls, ' ', b, 1);
    var d := More(Name("E"), c);
    LettersArePlain(cls, "E");
    AddName(cls, "E", c, 1);
    var e := More(Blank(' '), d);
    AddBlank(cls, ' ', d, 1);
    LettersArePlain(cls, "enum");
    AddName(cls, "enum", e, 1);
  }

  // ----- a bare variant, and an item behind the enum

  function Bare(): (r: Pieces) {
    More(Blank('\n'), More(Name("A"), More(Blank('\n'), More(Sign('}'), More(Blank('\n'),
      More(Name("use"), More(Blank(' '), More(Name("x"), More(Sign(';'), Done)))))))))
  }

  function BareTail(): (r: seq<Token>)
    ensures |r| == 5
  {
    [Token("A", 3), Token("}", 4), Token("use", 5), Token("x", 5), Token(";", 5)]
  }

  lemma BareReads(cls: Classes)
    requires Ordinary(cls)
    ensures Readable(cls, Bare()) && Tokens(Bare(), 2) == BareTail()
  {
    hide Readable, Tokens, Ordinary, IsPlain;
    AddNothing(cls, 5);
    var a := More(Sign(';'), Done);
    AddSign(cls, ';', Done, 5);
    var b := More(Name("x"), a);
    LettersArePlain(cls, "x");
    AddName(cls, "x", a, 5);
    var c := More(Blank(' '), b);
    AddBlank(cls, ' ', b, 5);
    var d := More(Name("use"), c);
    LettersArePlain(cls, "use");
    AddName(cls, "use", c, 5);
    var e := More(Blank('\n'), d);
    AddBlank(cls, '\n', d, 4);
    var f := More(Sign('}'), e);
    AddSign(cls, '}', e, 4);
    var g := More(Blank('\n'), f);
    AddBlank(cls, '\n', f, 3);
    var h := More(Name("A"), g);
    LettersArePlain(cls, "A");
    AddName(cls, "A", g, 3);
    AddBlank(cls, '\n', h, 2);
  }

  function BareTokens(): (r: seq<Token>)
    ensures |r| == 15 && r[0] == Token("enum", 1) && r[1] == Token("E", 1) && r[2] == Token("{", 1)
    ensures r[3..10] == AttributeTokens(2) && r[10] == Token("A", 3) && r[11] == Token("}", 4)
    ensures r[12] == Token("use", 5) && r[13] == Token("x", 5) && r[14] == Token(";", 5)
  {
    FrontTokens() + AttributeTokens(2) + BareTail()
  }

  /** `enum E {` over a body, and what follows the closing brace. */
  lemma EnumBalanced(body: Forest, last: nat, rest: Forest) returns (f: Forest)
    requires Matched(body) && Matched(rest)
    ensures Matched(f) && Yield(f) == FrontTokens() + AttributeTokens(2) + Yield(body) + [Token("}", last)] + Yield(rest)
  {
    hide AttributeTokens, AttributeForest, Matched, Yield;
    var inner := AttributeForest(2, body);
    AttributeForestYields(2, body);
    var group := Group(Token("{", 1), inner, Token("}", last), rest);
    AddGroup('{', 1, inner, '}', last, rest);
    var named := Plain(Token("E", 1), group);
    AddPlain("E", 1, group);
    f := Plain(Token("enum", 1), named);
    AddPlain("enum", 1, named);
  }

  lemma BareBalanced()
    ensures exists f :: Matched(f) && Yield(f) == BareTokens()
  {
    hide AttributeTokens, FrontTokens, Matched, Yield;
    NoForest();
    var end := Plain(Token(";", 5), Empty);
    AddPlain(";", 5, Empty);
    var name := Plain(Token("x", 5), end);
    AddPlain("x", 5, end);
    var use := Plain(Token("use", 5), name);
    AddPlain("use", 5, name);
    var body := Plain(Token("A", 3), Empty);
    AddPlain("A", 3, Empty);
    var f := EnumBalanced(body, 4, use);
    assert Yield(f) == BareTokens();
  }

  lemma BareInView(cls: Classes, table: Table)
    requires Valid(View(cls, BareTokens(), table))
    ensures VariantShape(View(cls, BareTokens(), table))
  {
    hide Valid, View, SymbolOf, BareTokens, AttributeTokens, Attribute;
    var tokens := BareTokens();
    AttributeInView(cls, tokens, table, 3, 2);
    ViewAt(cls, tokens, table, 0);
    ViewAt(cls, tokens, table, 1);
    ViewAt(cls, tokens, table, 2);
    ViewAt(cls, tokens, table, 10);
    ViewAt(cls, tokens, table, 11);
    ViewAt(cls, tokens, table, 12);
    ViewAt(cls, tokens, table, 13);
    ViewAt(cls, tokens, table, 14);
    MarkTexts();
    WordsAreOther();
    LetterIsOther('E');
    LetterIsOther('A');
    LetterIsOther('x');
  }

  lemma VariantStart(s: Stream)
    requires VariantShape(s)
    ensures Attribute(s.y, 3) && |s.y| == |s.line| == 15 && s.y[0] != Hash && s.y[1] != Hash && s.y[2] != Hash
  {
  }

  /** A bare enum variant under the attribute takes the item behind its enum with it. */
  lemma BareVariantEscapes(cls: Classes)
    requires Ordinary(cls)
    ensures exists table :: Scans(cls, Spelled(EnumFront(Bare())), BareTokens(), table, [VARIANT])
                            && Escapes(View(cls, BareTokens(), table), 3, VARIANT)
                            && BareTokens()[12].line in AllExcluded(View(cls, BareTokens(), table), [VARIANT])
  {
    hide Ordinary, Readable, EnumFront, Bare, BareTokens, Spelled, Tokens, AttributeTokens, FrontTokens, Escapes,
         Valid, View, WellMatched, Reads, Attribute, Outcome, Scanned, Matched, Yield, LinesAscend, VariantShape, Excludes;
    BareReads(cls);
    AddFront(cls, Bare());
    BareTokensAre();
    BareBalanced();
    var f :| Matched(f) && Yield(f) == BareTokens();
    MakesScan(cls, EnumFront(Bare()), f);
    var table :| WellMatched(BareTokens(), table) && Valid(View(cls, BareTokens(), table));
    var s := View(cls, BareTokens(), table);
    BareInView(cls, table);
    VariantEscapes(s);
    EscapesMeans(s, 3, VARIANT);
    VariantStart(s);
    OneSpanScans(s, VARIANT);
    ViewAt(cls, BareTokens(), table, 12);
    assert Excludes(s, [VARIANT][0], s.line[12]);
  }

  lemma EscapesMeans(s: Stream, p: nat, x: Span)
    requires Escapes(s, p, x)
    ensures Valid(s) && Attribute(s.y, p) && Outcome(s, p, Ok(x))
  {
  }

  lemma BareTokensAre()
    ensures BareTokens() == FrontTokens() + AttributeTokens(2) + BareTail()
  {
  }

  // ----- a bare variant before one with a body

  function Pair(): (r: Pieces) {
    More(Blank('\n'), More(Name("A"), More(Sign(','), More(Blank('\n'), More(Name("B"), More(Blank(' '),
      More(Sign('{'), More(Sign('}'), More(Blank('\n'), More(Sign('}'), Done))))))))))
  }

  function PairTail(): (r: seq<Token>)
    ensures |r| == 6
  {
    [Token("A", 3), Token(",", 3), Token("B", 4), Token("{", 4), Token("}", 4), Token("}", 5)]
  }

  lemma PairReads(cls: Classes)
    requires Ordinary(cls)
    ensures Readable(cls, Pair()) && Tokens(Pair(), 2) == PairTail()
  {
    hide Readable, Tokens, Ordinary, IsPlain;
    AddNothing(cls, 5);
    var a := More(Sign('}'), Done);
    AddSign(cls, '}', Done, 5);
    var b := More(Blank('\n'), a);
    AddBlank(cls, '\n', a, 4);
    var c := More(Sign('}'), b);
    AddSign(cls, '}', b, 4);
    var d := More(Sign('{'), c);
    AddSign(cls, '{', c, 4);
    var e := More(Blank(' '), d);
    AddBlank(cls, ' ', d, 4);
    var f := More(Name("B"), e);
    LettersArePlain(cls, "B");
    AddName(cls, "B", e, 4);
    var g := More(Blank('\n'), f);
    AddBlank(cls, '\n', f, 3);
    var h := More(Sign(','), g);
    AddSign(cls, ',', g, 3);
    var i := More(Name("A"), h);
    LettersArePlain(cls, "A");
    AddName(cls, "A", h, 3);
    AddBlank(cls, '\n', i, 2);
  }

  function PairTokens(): (r: seq<Token>)
    ensures |r| == 16 && r[0] == Token("enum", 1) && r[1] == Token("E", 1) && r[2] == Token("{", 1)
    ensures r[3..10] == AttributeTokens(2) && r[10] == Token("A", 3) && r[11] == Token(",", 3) && r[12] == Token("B", 4)
    ensures r[13] == Token("{", 4) && r[14] == Token("}", 4) && r[15] == Token("}", 5)
  {
    FrontTokens() + AttributeTokens(2) + PairTail()
  }

  lemma PairTokensAre()
    ensures PairTokens() == FrontTokens() + AttributeTokens(2) + PairTail()
  {
  }

  lemma PairBalanced()
    ensures exists f :: Matched(f) && Yield(f) == PairTokens()
  {
    hide AttributeTokens, FrontTokens, Matched, Yield;
    NoForest();
    var group := Group(Token("{", 4), Empty, Token("}", 4), Empty);
    AddGroup('{', 4, Empty, '}', 4, Empty);
    var second := Plain(Token("B", 4), group);
    AddPlain("B", 4, group);
    var comma := Plain(Token(",", 3), second);
    AddPlain(",", 3, second);
    var body := Plain(Token("A", 3), comma);
    AddPlain("A", 3, comma);
    var f := EnumBalanced(body, 5, Empty);
    assert Yield(f) == PairTokens();
  }

  lemma PairInView(cls: Classes, table: Table)
    requires Valid(View(cls, PairTokens(), table))
    ensures SiblingShape(View(cls, PairTokens(), table))
  {
    hide Valid, View, SymbolOf, PairTokens, AttributeTokens, Attribute;
    var tokens := PairTokens();
    AttributeInView(cls, tokens, table, 3, 2);
    ViewAt(cls, tokens, table, 0);
    ViewAt(cls, tokens, table, 1);
    ViewAt(cls, tokens, table, 2);
    ViewAt(cls, tokens, table, 10);
    ViewAt(cls, tokens, table, 11);
    ViewAt(cls, tokens, table, 12);
    ViewAt(cls, tokens, table, 13);
    ViewAt(cls, tokens, table, 14);
    ViewAt(cls, tokens, table, 15);
    MarkTexts();
    WordsAreOther();
    LetterIsOther('E');
    LetterIsOther('A');
    LetterIsOther('B');
  }

  lemma SiblingStart(s: Stream)
    requires SiblingShape(s)
    ensures Attribute(s.y, 3) && |s.y| == |s.line| == 16 && s.y[0] != Hash && s.y[1] != Hash && s.y[2] != Hash
  {
  }

  /** The span stays inside its container, passes a comma there and holds the production variant behind it. */
  ghost predicate TakesSibling(s: Stream, p: nat, x: Span, q: nat) {
    && Valid(s) && Within(s, p) && x.last < Limit(s, p) < |s.y| && PassesComma(s, p, x) && CfgSafety.Holds(x, q)
  }

  /** A bare variant under the attribute takes the next variant, which has a body, with it. */
  lemma BareVariantTakesSibling(cls: Classes)
    requires Ordinary(cls)
    ensures PairTokens()[12].text == "B"
    ensures exists table :: Scans(cls, Spelled(EnumFront(Pair())), PairTokens(), table, [SIBLINGS])
                            && TakesSibling(View(cls, PairTokens(), table), 3, SIBLINGS, 12)
  {
    hide Ordinary, Readable, EnumFront, Pair, PairTokens, Spelled, Tokens, AttributeTokens, FrontTokens,
         Valid, View, WellMatched, Reads, Attribute, Outcome, Scanned, Matched, Yield, LinesAscend, SiblingShape, PassesComma,
         HasDirectStop;
    PairReads(cls);
    AddFront(cls, Pair());
    PairTokensAre();
    PairBalanced();
    var f :| Matched(f) && Yield(f) == PairTokens();
    MakesScan(cls, EnumFront(Pair()), f);
    var table :| WellMatched(PairTokens(), table) && Valid(View(cls, PairTokens(), table));
    var s := View(cls, PairTokens(), table);
    PairInView(cls, table);
    SiblingTaken(s);
    SiblingStart(s);
    OneSpanScans(s, SIBLINGS);
  }

  // ----- two items on one line

  function Line(): (r: Pieces) {
    More(Blank(' '), More(Name("use"), More(Blank(' '), More(Name("a"), More(Sign(';'), More(Blank(' '),
      More(Name("use"), More(Blank(' '), More(Name("c"), More(Sign(';'), Done))))))))))
  }

  function LineTail(): (r: seq<Token>)
    ensures |r| == 6
  {
    [Token("use", 1), Token("a", 1), Token(";", 1), Token("use", 1), Token("c", 1), Token(";", 1)]
  }

  lemma LineReads(cls: Classes)
    requires Ordinary(cls)
    ensures Readable(cls, Attributed(Line())) && Tokens(Attributed(Line()), 1) == LineTokens()
  {
    hide Readable, Tokens, Ordinary, IsPlain, Attributed, AttributeTokens;
    AddNothing(cls, 1);
    var a := More(Sign(';'), Done);
    AddSign(cls, ';', Done, 1);
    var b := More(Name("c"), a);
    LettersArePlain(cls, "c");
    AddName(cls, "c", a, 1);
    var c := More(Blank(' '), b);
    AddBlank(cls, ' ', b, 1);
    var d := More(Name("use"), c);
    LettersArePlain(cls, "use");
    AddName(cls, "use", c, 1);
    var e := More(Blank(' '), d);
    AddBlank(cls, ' ', d, 1);
    var f := More(Sign(';'), e);
    AddSign(cls, ';', e, 1);
    var g := More(Name("a"), f);
    LettersArePlain(cls, "a");
    AddName(cls, "a", f, 1);
    var h := More(Blank(' '), g);
    AddBlank(cls, ' ', g, 1);
    var i := More(Name("use"), h);
    LettersArePlain(cls, "use");
    AddName(cls, "use", h, 1);
    AddBlank(cls, ' ', i, 1);
    AddAttribute(cls, Line(), 1);
  }

  function LineTokens(): (r: seq<Token>)
    ensures |r| == 13 && r[0..7] == AttributeTokens(1) && r[7] == Token("use", 1) && r[8] == Token("a", 1)
    ensures r[9] == Token(";", 1) && r[10] == Token("use", 1) && r[11] == Token("c", 1) && r[12] == Token(";", 1)
  {
    AttributeTokens(1) + LineTail()
  }

  lemma LineBalanced()
    ensures exists f :: Matched(f) && Yield(f) == LineTokens()
  {
    hide AttributeTokens, Matched, Yield;
    NoForest();
    var a := Plain(Token(";", 1), Empty);
    AddPlain(";", 1, Empty);
    var b := Plain(Token("c", 1), a);
    AddPlain("c", 1, a);
    var c := Plain(Token("use", 1), b);
    AddPlain("use", 1, b);
    var d := Plain(Token(";", 1), c);
    AddPlain(";", 1, c);
    var e := Plain(Token("a", 1), d);
    AddPlain("a", 1, d);
    var f := Plain(Token("use", 1), e);
    AddPlain("use", 1, e);
    AttributeForestYields(1, f);
    assert Yield(AttributeForest(1, f)) == LineTokens();
  }

  lemma LineInView(cls: Classes, table: Table)
    requires Valid(View(cls, LineTokens(), table))
    ensures LineShape(View(cls, LineTokens(), table))
  {
    hide Valid, View, SymbolOf, LineTokens, AttributeTokens, Attribute;
    var tokens := LineTokens();
    AttributeInView(cls, tokens, table, 0, 1);
    ViewAt(cls, tokens, table, 7);
    ViewAt(cls, tokens, table, 8);
    ViewAt(cls, tokens, table, 9);
    ViewAt(cls, tokens, table, 10);
    ViewAt(cls, tokens, table, 11);
    ViewAt(cls, tokens, table, 12);
    MarkTexts();
    WordsAreOther();
    LetterIsOther('a');
  }

  lemma LineLength(s: Stream)
    requires LineShape(s)
    ensures |s.y| == |s.line| == 13
  {
  }

  /** In `#[cfg(test)] use a; use c;` the production item loses its line. */
  lemma NeighbourLosesItsLine(cls: Classes)
    requires Ordinary(cls)
    ensures exists table :: Scans(cls, Spelled(Attributed(Line())), LineTokens(), table, [FIRST])
                            && !CfgSafety.Holds(FIRST, 10)
                            && LineTokens()[10].line in AllExcluded(View(cls, LineTokens(), table), [FIRST])
  {
    hide Ordinary, Readable, Attributed, Line, LineTokens, Spelled, Tokens, AttributeTokens,
         Valid, View, WellMatched, Reads, Attribute, Outcome, Scanned, Matched, Yield, LinesAscend, LineShape, Excludes;
    LineReads(cls);
    LineBalanced();
    var f :| Matched(f) && Yield(f) == LineTokens();
    MakesScan(cls, Attributed(Line()), f);
    var table :| WellMatched(LineTokens(), table) && Valid(View(cls, LineTokens(), table));
    var s := View(cls, LineTokens(), table);
    LineInView(cls, table);
    NeighbourTaken(s);
    LineLength(s);
    OneSpanScans(s, FIRST);
    ViewAt(cls, LineTokens(), table, 10);
    assert Excludes(s, [FIRST][0], s.line[10]);
  }
}
