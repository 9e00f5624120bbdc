/** Source spelled from pieces is read back as those pieces (scripts/coverage_rust_ledger.py). */
module RustPieces {
  import opened RustLexemes
  import opened RustLiterals
  import opened RustTokenizer

  /** White space, a punctuation mark, an identifier, or a string literal without escapes. */
  datatype Piece = Blank(c: char) | Sign(c: char) | Name(text: string) | Quote(body: string)

  datatype Pieces = Done | More(first: Piece, rest: Pieces)

  function Spell(p: Piece): (r: string) {
    match p
    case Blank(c) => [c]
    case Sign(c) => [c]
    case Name(text) => text
    case Quote(body) => ['"'] + body + ['"']
  }

  function Spelled(ps: Pieces): (r: string) {
    match ps
    case Done => []
    case More(p, rest) => Spell(p) + Spelled(rest)
  }

  /** A character that starts nothing but itself. */
  predicate Starts(cls: Classes, c: char) {
    c !in cls.spaces && c != '/' && c != 'b' && c != 'r' && c != '"' && c != '\'' && c != '\n'
  }

  /** A letter that can also begin a literal's prefix. */
  predicate MayOpen(cls: Classes, c: char) {
    (c == 'b' || c == 'r') && c !in cls.spaces
  }

  predicate IsPlain(cls: Classes, p: Piece) {
    match p
    case Blank(c) => c in cls.spaces
    case Sign(c) => Starts(cls, c) && !IdStart(cls, c)
    case Name(text) =>
      && text != [] && (Starts(cls, text[0]) || MayOpen(cls, text[0])) && IdStart(cls, text[0])
      && (forall k :: 1 <= k < |text| ==> IdChar(cls, text[k]) && text[k] != '\n')
      && (MayOpen(cls, text[0]) ==> '"' !in text && '#' !in text)
    case Quote(body) =>
      '"' !in cls.spaces && forall k :: 0 <= k < |body| ==> body[k] != '"' && body[k] != '\\' && body[k] != '\n'
  }

  /** Plain pieces, and nothing that would lengthen an identifier behind it. */
  predicate Readable(cls: Classes, ps: Pieces) {
    match ps
    case Done => true
    case More(p, rest) =>
      && IsPlain(cls, p) && Readable(cls, rest)
      && (p.Name? && rest.More? ==> (rest.first.Blank? || rest.first.Sign?) && !IdChar(cls, rest.first.c))
      && (p.Name? && MayOpen(cls, p.text[0]) && rest.More? ==> rest.first.c !in {'"', '#', 'r'})
  }

  function KindOf(p: Piece): (r: Kind) {
    match p
    case Blank(_) => Space
    case Sign(_) => Mark
    case Name(_) => Word
    case Quote(_) => Literal
  }

  function Lexemes(i: nat, ps: Pieces): (r: seq<Lexeme>)
    decreases ps
  {
    match ps
    case Done => []
    case More(p, rest) => [Lexeme(KindOf(p), i, i + |Spell(p)|)] + Lexemes(i + |Spell(p)|, rest)
  }

  function After(p: Piece, line: nat): (r: nat) {
    if p == Blank('\n') then line + 1 else line
  }

  /** The identifiers and marks with their lines. */
  function Tokens(ps: Pieces, line: nat): (r: seq<Token>) {
    match ps
    case Done => []
    case More(p, rest) =>
      (if p.Sign? || p.Name? then [Token(Spell(p), line)] else []) + Tokens(rest, After(p, line))
  }

  // ----- one piece

  lemma {:induction false} PlainBody(t: string)
    requires forall k :: 0 <= k < |t| ==> t[k] != '"' && t[k] != '\\'
    ensures StringBody(t)
  {
    if t != [] {
      PlainBody(t[1..]);
    }
  }

  lemma NotRaw(s: string, i: nat)
    requires i < |s| && s[i] != 'r' && s[i] != 'b'
    ensures !RawStart(s, i)
  {
  }

  /** `a` stands at `i` and `rest` behind it. */
  lemma Ahead(s: string, i: nat, a: string, rest: string)
    requires i <= |s| && s[i..] == a + rest
    ensures i + |a| <= |s| && s[i..i + |a|] == a && s[i + |a|..] == rest
    ensures forall k :: i <= k < i + |a| ==> s[k] == a[k - i]
    ensures rest != [] ==> i + |a| < |s| && s[i + |a|] == rest[0]
  {
    var t := s[i..];
    assert forall k :: i <= k < i + |a| ==> s[k] == t[k - i];
    assert t[|a|..] == s[i + |a|..];
    assert t[..|a|] == s[i..i + |a|];
  }

  lemma SignIsLexeme(cls: Classes, s: string, i: nat)
    requires i < |s| && Starts(cls, s[i]) && !IdStart(cls, s[i])
    ensures LexemeAt(cls, s, i, Mark, i + 1)
  {
    hide RawStart, RawLiteral, StringCloses, Lifetime, CharLiteral, WordRun;
    NotRaw(s, i);
  }

  /** No quote or hash follows where a prefix would ask for one. */
  predicate NoPrefix(s: string, i: nat, e: nat) {
    && i < e <= |s| && (forall k :: i < k < e ==> s[k] != '"' && s[k] != '#')
    && (e < |s| ==> s[e] != '"' && s[e] != '#' && s[e] != 'r')
  }

  lemma RawNeeds(s: string, i: nat, q: nat)
    requires RawOpens(s, i, q)
    ensures var p := RawPrefix(s, i); p + 1 < |s| && s[p] == 'r' && (s[p + 1] == '"' || s[p + 1] == '#')
  {
  }

  lemma PrefixIsNotRaw(s: string, i: nat, e: nat)
    requires NoPrefix(s, i, e)
    ensures !RawStart(s, i) && (s[i] != '"' ==> s[QuotePlace(s, i)] != '"')
  {
    if RawStart(s, i) {
      var q: nat :| RawOpens(s, i, q);
      RawNeeds(s, i, q);
    }
  }

  lemma NameIsLexeme(cls: Classes, s: string, i: nat, e: nat)
    requires i < |s| && IdStart(cls, s[i]) && WordRun(cls, s, i, e)
    requires Starts(cls, s[i]) || (MayOpen(cls, s[i]) && NoPrefix(s, i, e))
    ensures LexemeAt(cls, s, i, Word, e)
  {
    hide RawStart, RawLiteral, StringCloses, Lifetime, CharLiteral, WordRun;
    if Starts(cls, s[i]) {
      NotRaw(s, i);
    } else {
      PrefixIsNotRaw(s, i, e);
    }
  }

  lemma QuoteIsLexeme(cls: Classes, s: string, i: nat, e: nat)
    requires i < |s| && s[i] == '"' && '"' !in cls.spaces && StringCloses(s, i + 1, e)
    ensures LexemeAt(cls, s, i, Literal, e)
  {
    hide RawStart, RawLiteral, StringCloses, Lifetime, CharLiteral, WordRun;
    NotRaw(s, i);
  }

  lemma PieceIsLexeme(cls: Classes, s: string, i: nat, p: Piece, rest: string)
    requires i < |s| && s[i..] == Spell(p) + rest && IsPlain(cls, p)
    requires p.Name? && rest != [] ==> !IdChar(cls, rest[0])
    requires p.Name? && MayOpen(cls, p.text[0]) && rest != [] ==> rest[0] !in {'"', '#', 'r'}
    ensures LexemeAt(cls, s, i, KindOf(p), i + |Spell(p)|) && i + |Spell(p)| <= |s|
  {
    hide LexemeAt, StringBody;
    var e := i + |Spell(p)|;
    Ahead(s, i, Spell(p), rest);
    match p
    case Blank(c) => BlankIsLexeme(cls, s, i);
    case Sign(c) => SignIsLexeme(cls, s, i);
    case Name(text) =>
      assert rest == [] ==> s[e..] == [];
      NameIsLexeme(cls, s, i, e);
    case Quote(body) =>
      assert s[i + 1..e - 1] == body;
      PlainBody(body);
      QuoteIsLexeme(cls, s, i, e);
  }

  lemma BlankIsLexeme(cls: Classes, s: string, i: nat)
    requires i < |s| && s[i] in cls.spaces
    ensures LexemeAt(cls, s, i, Space, i + 1)
  {
  }

  // ----- all pieces

  lemma {:induction false} PiecesAreLexemes(cls: Classes, s: string, i: nat, ps: Pieces)
    requires Readable(cls, ps) && i <= |s| && s[i..] == Spelled(ps)
    ensures IsLexing(cls, s, i, Lexemes(i, ps))
    decreases ps
  {
    hide LexemeAt, IsPlain, Spell;
    match ps
    case Done =>
    case More(p, rest) =>
      SpellIsText(cls, p);
      var e := i + |Spell(p)|;
      Ahead(s, i, Spell(p), Spelled(rest));
      NextCharacter(cls, p, rest);
      PieceIsLexeme(cls, s, i, p, Spelled(rest));
      PiecesAreLexemes(cls, s, e, rest);
      assert Lexemes(i, ps)[1..] == Lexemes(e, rest);
  }

  /** An identifier is not lengthened by what follows. */
  lemma NextCharacter(cls: Classes, p: Piece, rest: Pieces)
    requires Readable(cls, More(p, rest))
    ensures p.Name? && Spelled(rest) != [] ==> !IdChar(cls, Spelled(rest)[0])
    ensures p.Name? && MayOpen(cls, p.text[0]) && Spelled(rest) != [] ==> Spelled(rest)[0] !in {'"', '#', 'r'}
  {
  }

  lemma SpellIsText(cls: Classes, p: Piece)
    requires IsPlain(cls, p)
    ensures Spell(p) != []
  {
  }

  lemma {:induction false} TokensFront(s: string, x: Lexeme, lx: seq<Lexeme>)
    requires x.start <= x.end <= |s| && forall k :: 0 <= k < |lx| ==> lx[k].start <= lx[k].end <= |s|
    ensures TokensOf(s, [x] + lx)
         == (if IsToken(x) then [Token(s[x.start..x.end], LineOf(s, x.start))] else []) + TokensOf(s, lx)
    decreases |lx|
  {
    hide LineOf;
    var all := [x] + lx;
    if lx == [] {
      assert all[..0] == [];
    } else {
      assert all[..|all| - 1] == [x] + lx[..|lx| - 1];
      TokensFront(s, x, lx[..|lx| - 1]);
    }
  }

  lemma {:induction false} NoNewlines(t: string)
    requires '\n' !in t
    ensures Newlines(t) == 0
    decreases |t|
  {
    if t != [] {
      NoNewlines(t[..|t| - 1]);
    }
  }

  lemma PieceLine(cls: Classes, p: Piece, line: nat)
    requires IsPlain(cls, p)
    ensures line + Newlines(Spell(p)) == After(p, line)
  {
    if p.Blank? {
      assert [p.c][..0] == [];
    } else {
      NoNewlines(Spell(p));
    }
  }

  lemma {:induction false} LexemeBounds(cls: Classes, s: string, i: nat, ps: Pieces)
    requires Readable(cls, ps) && i <= |s| && s[i..] == Spelled(ps)
    ensures var lx := Lexemes(i, ps); forall k :: 0 <= k < |lx| ==> lx[k].start <= lx[k].end <= |s|
    decreases ps
  {
    hide IsPlain, Spell;
    if ps.More? {
      Ahead(s, i, Spell(ps.first), Spelled(ps.rest));
      var e := i + |Spell(ps.first)|;
      LexemeBounds(cls, s, e, ps.rest);
      assert Lexemes(i, ps) == [Lexeme(KindOf(ps.first), i, e)] + Lexemes(e, ps.rest);
    } else {
      assert Lexemes(i, ps) == [];
    }
  }

  lemma {:induction false} TokensOfPieces(cls: Classes, s: string, i: nat, ps: Pieces)
    requires Readable(cls, ps) && i <= |s| && s[i..] == Spelled(ps)
    ensures var lx := Lexemes(i, ps); forall k :: 0 <= k < |lx| ==> lx[k].start <= lx[k].end <= |s|
    ensures TokensOf(s, Lexemes(i, ps)) == Tokens(ps, LineOf(s, i))
    decreases ps
  {
    hide IsPlain, LineOf, TokensOf, Spell;
    LexemeBounds(cls, s, i, ps);
    match ps
    case Done => NoTokens(s);
    case More(p, rest) =>
      var e := i + |Spell(p)|;
      Ahead(s, i, Spell(p), Spelled(rest));
      TokensOfPieces(cls, s, e, rest);
      LineAdvances(s, i, e);
      PieceLine(cls, p, LineOf(s, i));
      TokensFront(s, Lexeme(KindOf(p), i, e), Lexemes(e, rest));
  }

  lemma NoTokens(s: string)
    ensures TokensOf(s, []) == []
  {
  }

  /** Readable pieces are the only lexing of their spelling, and leave their identifiers and marks. */
  lemma SpellingReads(cls: Classes, ps: Pieces)
    requires Readable(cls, ps)
    ensures var s, lx := Spelled(ps), Lexemes(0, ps);
            && IsLexing(cls, s, 0, lx) && (forall k :: 0 <= k < |lx| ==> lx[k].start <= lx[k].end <= |s|)
            && TokensOf(s, lx) == Tokens(ps, 1)
  {
    hide Readable, IsLexing, TokensOf;
    var s := Spelled(ps);
    assert s[0..] == s;
    PiecesAreLexemes(cls, s, 0, ps);
    TokensOfPieces(cls, s, 0, ps);
    assert LineOf(s, 0) == 1;
  }

  lemma {:induction false} TokensAscend(ps: Pieces, line: nat)
    ensures LinesAscend(Tokens(ps, line)) && forall t :: t in Tokens(ps, line) ==> line <= t.line
    decreases ps
  {
    if ps.More? {
      var rest := Tokens(ps.rest, After(ps.first, line));
      TokensAscend(ps.rest, After(ps.first, line));
      assert forall k :: 0 <= k < |rest| ==> rest[k] in rest;
    }
  }

  // ----- suffixes

  function Count(ps: Pieces): (r: nat) {
    if ps.Done? then 0 else 1 + Count(ps.rest)
  }

  function Drop(ps: Pieces, k: nat): (r: Pieces)
    requires k <= Count(ps)
    ensures Count(r) == Count(ps) - k
    decreases k
  {
    if k == 0 then ps else Drop(ps.rest, k - 1)
  }

  lemma {:induction false} TokensJoin(s: string, a: seq<Lexeme>, b: seq<Lexeme>)
    requires forall k :: 0 <= k < |a| ==> a[k].start <= a[k].end <= |s|
    requires forall k :: 0 <= k < |b| ==> b[k].start <= b[k].end <= |s|
    ensures TokensOf(s, a + b) == TokensOf(s, a) + TokensOf(s, b)
    decreases |b|
  {
    hide LineOf;
    if b == [] {
      assert a + b == a;
    } else {
      var n := |b| - 1;
      assert (a + b)[..|a + b| - 1] == a + b[..n];
      TokensJoin(s, a, b[..n]);
    }
  }

  /** The lexemes from the `k`-th on are those of the pieces from the `k`-th on. */
  lemma {:induction false} SuffixLexemes(cls: Classes, s: string, i: nat, ps: Pieces, k: nat) returns (e: nat)
    requires Readable(cls, ps) && i <= |s| && s[i..] == Spelled(ps) && k <= Count(ps)
    ensures k <= |Lexemes(i, ps)| && i <= e <= |s| && s[e..] == Spelled(Drop(ps, k)) && Readable(cls, Drop(ps, k))
    ensures Lexemes(i, ps)[k..] == Lexemes(e, Drop(ps, k))
    decreases k
  {
    hide IsPlain, Spell;
    if k == 0 {
      e := i;
    } else {
      Ahead(s, i, Spell(ps.first), Spelled(ps.rest));
      e := SuffixLexemes(cls, s, i + |Spell(ps.first)|, ps.rest, k - 1);
    }
  }

  /** A piece's lexeme, the tokens before it and the line it starts on, told from the pieces behind it. */
  lemma PieceAt(cls: Classes, ps: Pieces, k: nat)
    requires Readable(cls, ps) && k < Count(ps)
    ensures var s, lx, rest := Spelled(ps), Lexemes(0, ps), Drop(ps, k);
            && k < |lx| && lx[k].kind == KindOf(rest.first) && lx[k].start < lx[k].end <= |s|
            && (forall j :: 0 <= j < |lx| ==> lx[j].start <= lx[j].end <= |s|)
            && TokensOf(s, lx[..k]) + Tokens(rest, LineOf(s, lx[k].start)) == Tokens(ps, 1)
  {
    hide IsLexing, TokensOf, LineOf, IsPlain;
    var s, lx, rest := Spelled(ps), Lexemes(0, ps), Drop(ps, k);
    assert s[0..] == s;
    var e := SuffixLexemes(cls, s, 0, ps, k);
    SpellingReads(cls, ps);
    TokensOfPieces(cls, s, e, rest);
    SpellIsText(cls, rest.first);
    assert lx[k..][0] == lx[k] == Lexeme(KindOf(rest.first), e, e + |Spell(rest.first)|);
    assert lx == lx[..k] + lx[k..];
    TokensJoin(s, lx[..k], lx[k..]);
  }
}
