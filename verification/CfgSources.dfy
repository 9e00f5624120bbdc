/** Rust sources on which the scan takes production code with it (scripts/coverage_rust_ledger.py). */
module CfgSources {
  import opened Results
  import opened RustLexemes
  import opened RustTokenizer
  import opened RustPieces
  import opened Delimiters
  import opened DelimiterTable
  import opened CfgSpans
  import opened CfgOutcome
  import opened CfgScan
  import opened CfgLiterals
  import opened CfgAnalysis
  import opened CfgWitnesses

  // ----- ordinary character classes

  predicate IsLetter(c: char) {
    'a' <= c <= 'z' || 'A' <= c <= 'Z'
  }

  predicate IsPunctuation(c: char) {
    c == '[' || c == ']' || c == '(' || c == ')' || c == '{' || c == '}' || c == '#' || c == ',' || c == ';' || c == '"'
    || c == ':' || c == '<' || c == '>'
  }

  /** ASCII letters, punctuation, blanks and newlines are what they should be. */
  ghost predicate Ordinary(cls: Classes) {
    && (forall c :: IsLetter(c) ==> c in cls.letters && c in cls.alnums && c !in cls.spaces)
    && (forall c :: IsPunctuation(c) ==> c !in cls.letters && c !in cls.alnums && c !in cls.spaces)
    && (forall c :: c == ' ' || c == '\n' ==> c in cls.spaces && c !in cls.alnums)
  }

  lemma SomeClassesAreOrdinary()
    ensures exists cls :: Ordinary(cls)
  {
    var letters := set c: char | IsLetter(c);
    assert Ordinary(Classes({' ', '\n'}, letters, letters));
  }

  // ----- the attribute, spelled, read and matched

  function Attributed(rest: Pieces): (r: Pieces) {
    More(Sign('#'), More(Sign('['), More(Name("cfg"), More(Sign('('), More(Name("test"), More(Sign(')'), More(Sign(']'), rest)))))))
  }

  function AttributeTokens(line: nat): (r: seq<Token>)
    ensures |r| == 7
  {
    [Token("#", line), Token("[", line), Token("cfg", line), Token("(", line), Token("test", line), Token(")", line), Token("]", line)]
  }

  // Each lemma puts one piece in front of readable ones.

  lemma AddSign(cls: Classes, c: char, rest: Pieces, line: nat)
    requires Ordinary(cls) && IsPunctuation(c) && c != '"' && Readable(cls, rest)
    ensures Readable(cls, More(Sign(c), rest)) && Tokens(More(Sign(c), rest), line) == [Token([c], line)] + Tokens(rest, line)
  {
  }

  lemma AddBlank(cls: Classes, c: char, rest: Pieces, line: nat)
    requires Ordinary(cls) && (c == ' ' || c == '\n') && Readable(cls, rest)
    ensures Readable(cls, More(Blank(c), rest))
    ensures Tokens(More(Blank(c), rest), line) == Tokens(rest, if c == '\n' then line + 1 else line)
  {
    assert [] + Tokens(rest, After(Blank(c), line)) == Tokens(rest, After(Blank(c), line));
  }

  lemma AddName(cls: Classes, text: string, rest: Pieces, line: nat)
    requires Ordinary(cls) && IsPlain(cls, Name(text))
    requires rest.More? && (rest.first.Sign? || rest.first.Blank?) && Readable(cls, rest)
    requires (IsPunctuation(rest.first.c) && rest.first.c != '#' && rest.first.c != '"') || rest.first.c == ' ' || rest.first.c == '\n'
    ensures Readable(cls, More(Name(text), rest)) && Tokens(More(Name(text), rest), line) == [Token(text, line)] + Tokens(rest, line)
  {
  }

  lemma LettersArePlain(cls: Classes, text: string)
    requires Ordinary(cls) && text != [] && forall k :: 0 <= k < |text| ==> IsLetter(text[k])
    ensures IsPlain(cls, Name(text))
  {
  }

  lemma AddQuote(cls: Classes, body: string, rest: Pieces, line: nat)
    requires Ordinary(cls) && (forall k :: 0 <= k < |body| ==> IsLetter(body[k])) && Readable(cls, rest)
    ensures Readable(cls, More(Quote(body), rest)) && Tokens(More(Quote(body), rest), line) == Tokens(rest, line)
  {
    assert [] + Tokens(rest, line) == Tokens(rest, line);
  }

  lemma AddNothing(cls: Classes, line: nat)
    ensures Readable(cls, Done) && Tokens(Done, line) == []
  {
  }

  lemma AddAttribute(cls: Classes, rest: Pieces, line: nat)
    requires Ordinary(cls) && Readable(cls, rest)
    ensures Readable(cls, Attributed(rest)) && Tokens(Attributed(rest), line) == AttributeTokens(line) + Tokens(rest, line)
  {
    hide Readable, Tokens, Ordinary, IsPlain;
    var a := More(Sign(']'), rest);
    AddSign(cls, ']', rest, line);
    var b := More(Sign(')'), a);
    AddSign(cls, ')', a, line);
    var c := More(Name("test"), b);
    LettersArePlain(cls, "test");
    AddName(cls, "test", b, line);
    var d := More(Sign('('), c);
    AddSign(cls, '(', c, line);
    var e := More(Name("cfg"), d);
    LettersArePlain(cls, "cfg");
    AddName(cls, "cfg", d, line);
    var f := More(Sign('['), e);
    AddSign(cls, '[', e, line);
    AddSign(cls, '#', f, line);
  }

  ghost function AttributeForest(line: nat, rest: Forest): (f: Forest) {
    Plain(Token("#", line),
          Group(Token("[", line),
                Plain(Token("cfg", line), Group(Token("(", line), Plain(Token("test", line), Empty), Token(")", line), Empty)),
                Token("]", line), rest))
  }

  lemma AddPlain(text: string, line: nat, rest: Forest)
    requires text != [] && text[0] !in "{}()[]" && Matched(rest)
    ensures var f := Plain(Token(text, line), rest); Matched(f) && Yield(f) == [Token(text, line)] + Yield(rest)
  {
  }

  lemma AddGroup(open: char, line: nat, inner: Forest, close: char, last: nat, rest: Forest)
    requires (open == '{' && close == '}') || (open == '(' && close == ')') || (open == '[' && close == ']')
    requires Matched(inner) && Matched(rest)
    ensures var f := Group(Token([open], line), inner, Token([close], last), rest);
            Matched(f) && Yield(f) == [Token([open], line)] + Yield(inner) + [Token([close], last)] + Yield(rest)
  {
  }

  lemma NoForest()
    ensures Matched(Empty) && Yield(Empty) == []
  {
  }

  lemma AttributeForestYields(line: nat, rest: Forest)
    requires Matched(rest)
    ensures Matched(AttributeForest(line, rest)) && Yield(AttributeForest(line, rest)) == AttributeTokens(line) + Yield(rest)
  {
    hide Matched, Yield;
    NoForest();
    var test := Plain(Token("test", line), Empty);
    AddPlain("test", line, Empty);
    var call := Group(Token("(", line), test, Token(")", line), Empty);
    AddGroup('(', line, test, ')', line, Empty);
    var cfg := Plain(Token("cfg", line), call);
    AddPlain("cfg", line, call);
    var group := Group(Token("[", line), cfg, Token("]", line), rest);
    AddGroup('[', line, cfg, ']', line, rest);
    AddPlain("#", line, group);
  }

  /** The view of a token. */
  lemma ViewAt(cls: Classes, tokens: seq<Token>, table: Table, p: nat)
    requires p < |tokens|
    ensures var s := View(cls, tokens, table);
            |s.y| == |s.line| == |tokens| && s.y[p] == SymbolOf(tokens[p].text) && s.line[p] == tokens[p].line
  {
    hide SymbolOf, IsName;
  }

  lemma AttributeInView(cls: Classes, tokens: seq<Token>, table: Table, p: nat, line: nat)
    requires p + 7 <= |tokens| && tokens[p..p + 7] == AttributeTokens(line)
    ensures var s := View(cls, tokens, table);
            |s.y| == |s.line| == |tokens| && Attribute(s.y, p) && forall k :: p <= k < p + 7 ==> s.line[k] == line
  {
    hide IsName, SymbolOf;
    var s, a := View(cls, tokens, table), tokens[p..p + 7];
    assert a[0] == tokens[p] && a[1] == tokens[p + 1] && a[2] == tokens[p + 2] && a[3] == tokens[p + 3];
    assert a[4] == tokens[p + 4] && a[5] == tokens[p + 5] && a[6] == tokens[p + 6];
    AttributeTexts();
  }

  lemma AttributeTexts()
    ensures SymbolOf("#") == Hash && SymbolOf("[") == OpenBracket && SymbolOf("cfg") == CfgWord && SymbolOf("(") == OpenParen
    ensures SymbolOf("test") == TestWord && SymbolOf(")") == CloseParen && SymbolOf("]") == CloseBracket
  {
  }

  /** The scan of the source reads these tokens and finds these spans. */
  ghost predicate Scans(cls: Classes, source: string, tokens: seq<Token>, table: Table, spans: seq<Span>) {
    && Reads(cls, source, tokens) && WellMatched(tokens, table) && LinesAscend(tokens) && Valid(View(cls, tokens, table))
    && Scanned(View(cls, tokens, table), spans, |tokens|) && InRange(View(cls, tokens, table), spans)
  }

  /** One attribute with one span, and no room for another. */
  lemma OneSpanScans(s: Stream, x: Span)
    requires Valid(s) && Attribute(s.y, x.start) && Outcome(s, x.start, Ok(x)) && x.last < |s.y| <= x.last + 7
    requires forall q :: 0 <= q < x.start ==> s.y[q] != Hash
    ensures Scanned(s, [x], |s.y|) && InRange(s, [x])
  {
    hide Paired, Placed, Indexed, Outcome;
    forall q: nat | q < x.start
      ensures !Attribute(s.y, q)
    {
      NoAttribute(s.y, q);
    }
    assert [x][..0] == [];
    assert Scanned(s, [], x.start);
  }

  lemma NoAttribute(y: seq<Symbol>, q: nat)
    requires q < |y| && y[q] != Hash
    ensures !Attribute(y, q)
  {
    if Attribute(y, q) {
      AttributeSymbols(y, q);
    }
  }

  lemma PiecesRead(cls: Classes, ps: Pieces)
    requires Readable(cls, ps)
    ensures Reads(cls, Spelled(ps), Tokens(ps, 1))
  {
    hide IsLexing, TokensOf, Readable;
    SpellingReads(cls, ps);
    assert ReadAs(cls, Spelled(ps), Lexemes(0, ps), Tokens(ps, 1));
  }

  /** Balanced tokens with a view that has one span make a scan. */
  lemma MakesScan(cls: Classes, ps: Pieces, f: Forest)
    requires Readable(cls, ps) && Matched(f) && Yield(f) == Tokens(ps, 1)
    ensures Reads(cls, Spelled(ps), Tokens(ps, 1)) && LinesAscend(Tokens(ps, 1))
    ensures exists table :: WellMatched(Tokens(ps, 1), table) && Valid(View(cls, Tokens(ps, 1), table))
  {
    hide Readable, Matched, Yield, Tokens, WellMatched, Valid, View, LinesAscend;
    PiecesRead(cls, ps);
    TokensAscend(ps, 1);
    assert Balanced(Tokens(ps, 1));
    TableExists(Tokens(ps, 1));
    var table :| WellMatched(Tokens(ps, 1), table);
    ViewIsValid(cls, Tokens(ps, 1), table);
  }

  // ----- an array whose production literal shares a line with an attributed element

  function Elements(): (r: Pieces) {
    More(Blank(' '), More(Name("a"), More(Sign(','), More(Blank(' '), More(Quote("prod"), More(Blank('\n'), More(Sign(']'), Done)))))))
  }

  function SharedLine(): (r: Pieces) {
    More(Sign('['), More(Blank('\n'), Attributed(Elements())))
  }

  function SharedLineTokens(): (r: seq<Token>)
    ensures |r| == 11 && r[0] == Token("[", 1) && r[1..8] == AttributeTokens(2)
    ensures r[8] == Token("a", 2) && r[9] == Token(",", 2) && r[10] == Token("]", 3)
  {
    [Token("[", 1)] + AttributeTokens(2) + [Token("a", 2), Token(",", 2), Token("]", 3)]
  }

  lemma ElementsRead(cls: Classes)
    requires Ordinary(cls)
    ensures Readable(cls, Elements()) && Tokens(Elements(), 2) == [Token("a", 2), Token(",", 2), Token("]", 3)]
  {
    hide Ordinary, Readable, Tokens;
    AddNothing(cls, 3);
    var a := More(Sign(']'), Done);
    AddSign(cls, ']', Done, 3);
    var b := More(Blank('\n'), a);
    AddBlank(cls, '\n', a, 2);
    var c := More(Quote("prod"), b);
    AddQuote(cls, "prod", b, 2);
    var d := More(Blank(' '), c);
    AddBlank(cls, ' ', c, 2);
    var e := More(Sign(','), d);
    AddSign(cls, ',', d, 2);
    var f := More(Name("a"), e);
    LettersArePlain(cls, "a");
    AddName(cls, "a", e, 2);
    AddBlank(cls, ' ', f, 2);
  }

  lemma SharedLineReads(cls: Classes)
    requires Ordinary(cls)
    ensures Readable(cls, SharedLine()) && Tokens(SharedLine(), 1) == SharedLineTokens()
  {
    hide AttributeTokens, Attributed, Ordinary, Readable, Tokens, Elements;
    ElementsRead(cls);
    AddAttribute(cls, Elements(), 2);
    AddBlank(cls, '\n', Attributed(Elements()), 1);
    AddSign(cls, '[', More(Blank('\n'), Attributed(Elements())), 1);
  }

  lemma SharedLineBalanced()
    ensures exists f :: Matched(f) && Yield(f) == SharedLineTokens()
  {
    hide AttributeTokens, AttributeForest, Matched, Yield;
    NoForest();
    var comma := Plain(Token(",", 2), Empty);
    AddPlain(",", 2, Empty);
    var tail := Plain(Token("a", 2), comma);
    AddPlain("a", 2, comma);
    var inner := AttributeForest(2, tail);
    AttributeForestYields(2, tail);
    AddGroup('[', 1, inner, ']', 3, Empty);
    assert Yield(Group(Token("[", 1), inner, Token("]", 3), Empty)) == SharedLineTokens();
  }

  lemma ArrayInView(cls: Classes, table: Table)
    requires Valid(View(cls, SharedLineTokens(), table))
    ensures ArrayShape(View(cls, SharedLineTokens(), table))
  {
    hide Valid, View, SymbolOf, SharedLineTokens, AttributeTokens, Attribute;
    var tokens := SharedLineTokens();
    AttributeInView(cls, tokens, table, 1, 2);
    ViewAt(cls, tokens, table, 0);
    ViewAt(cls, tokens, table, 8);
    ViewAt(cls, tokens, table, 9);
    ViewAt(cls, tokens, table, 10);
    AttributeTexts();
    MarkTexts();
    LetterIsOther('a');
  }

  lemma LetterIsOther(c: char)
    requires IsLetter(c)
    ensures SymbolOf([c]) == Other
  {
  }

  lemma WordsAreOther()
    ensures SymbolOf("enum") == Other && SymbolOf("use") == Other
  {
  }

  lemma MarkTexts()
    ensures SymbolOf(",") == Comma && SymbolOf("{") == OpenBrace && SymbolOf("}") == CloseBrace && SymbolOf(";") == Semicolon
  {
  }

  /** The literal is the fourteenth lexeme; ten tokens stand before it, and it is on line 2. */
  lemma LiteralIsThere(cls: Classes)
    requires Ordinary(cls)
    ensures var source, lx := Spelled(SharedLine()), Lexemes(0, SharedLine());
            && IsLexing(cls, source, 0, lx) && Bounded(source, lx) && TokensOf(source, lx) == SharedLineTokens()
            && 13 < |lx| && lx[13].kind == Literal && TokensBefore(source, lx, 13) == 10 && StandsOn(source, lx[13], 2)
  {
    hide Ordinary, Readable, IsLexing, TokensOf, LineOf, SharedLine, Lexemes, SharedLineTokens, Spelled, Tokens, Drop, Count;
    SharedLineReads(cls);
    SpellingReads(cls, SharedLine());
    DropToLiteral();
    PieceAt(cls, SharedLine(), 13);
    var source, lx := Spelled(SharedLine()), Lexemes(0, SharedLine());
    var line := LineOf(source, lx[13].start);
    TokensBehindLiteral(line);
    var before, last := TokensOf(source, lx[..13]), Token("]", line + 1);
    assert |before| == 10 && (before + [last])[10] == last;
  }

  lemma TokensBehindLiteral(line: nat)
    ensures Tokens(More(Quote("prod"), More(Blank('\n'), More(Sign(']'), Done))), line) == [Token("]", line + 1)]
  {
    var a := More(Sign(']'), Done);
    assert Tokens(a, line + 1) == [Token("]", line + 1)];
    assert Tokens(More(Blank('\n'), a), line) == Tokens(a, line + 1);
  }

  lemma DropToLiteral()
    ensures Count(SharedLine()) == 16 && Drop(SharedLine(), 13) == More(Quote("prod"), More(Blank('\n'), More(Sign(']'), Done)))
  {
    var tail := Elements();
    assert Count(tail) == 7;
    assert Drop(tail, 4) == More(Quote("prod"), More(Blank('\n'), More(Sign(']'), Done)));
    var attributed := Attributed(tail);
    assert Count(attributed) == 14;
    assert Drop(attributed, 11) == Drop(tail, 4);
  }

  lemma SharedLineScans(cls: Classes)
    requires Ordinary(cls)
    ensures exists table :: Scans(cls, Spelled(SharedLine()), SharedLineTokens(), table, [ELEMENT])
                            && 2 in AllExcluded(View(cls, SharedLineTokens(), table), [ELEMENT])
  {
    hide Ordinary, Readable, SharedLine, SharedLineTokens, Spelled, Tokens,
         Valid, View, WellMatched, Reads, Attribute, Outcome, Scanned, Matched, Yield, LinesAscend, ArrayShape, Excludes;
    var tokens := SharedLineTokens();
    SharedLineReads(cls);
    SharedLineBalanced();
    var f :| Matched(f) && Yield(f) == tokens;
    MakesScan(cls, SharedLine(), f);
    var table :| WellMatched(tokens, table) && Valid(View(cls, tokens, table));
    var s := View(cls, tokens, table);
    ArrayInView(cls, table);
    ElementOfArray(s);
    LineOfElement(s);
    ArrayStart(s);
    OneSpanScans(s, ELEMENT);
    ViewAt(cls, tokens, table, 0);
    assert Excludes(s, [ELEMENT][0], 2);
  }

  /**
   * In `[`, `#[cfg(test)] a, "prod"`, `]` on three lines, the production literal stands outside the
   * only span, and its line is taken.
   */
  lemma ProductionLiteralLosesItsLine(cls: Classes)
    requires Ordinary(cls)
    ensures var source, lx := Spelled(SharedLine()), Lexemes(0, SharedLine());
            && IsLexing(cls, source, 0, lx) && Bounded(source, lx) && TokensOf(source, lx) == SharedLineTokens()
            && 13 < |lx| && lx[13].kind == Literal && StandsOn(source, lx[13], 2)
            && OutsideAt(ELEMENT, TokensBefore(source, lx, 13))
    ensures exists table :: Scans(cls, Spelled(SharedLine()), SharedLineTokens(), table, [ELEMENT])
                            && 2 in AllExcluded(View(cls, SharedLineTokens(), table), [ELEMENT])
  {
    hide Ordinary, IsLexing, TokensOf, SharedLine, Lexemes, SharedLineTokens, Spelled, StandsOn, TokensBefore, Scans, AllExcluded, View;
    LiteralIsThere(cls);
    SharedLineScans(cls);
  }

  lemma ArrayStart(s: Stream)
    requires ArrayShape(s)
    ensures Attribute(s.y, 1) && |s.y| == |s.line| == 11 && s.y[0] != Hash
  {
  }
}
