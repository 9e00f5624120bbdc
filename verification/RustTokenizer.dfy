/** The Rust tokenizer of the coverage ledger (scripts/coverage_rust_ledger.py). */
module RustTokenizer {
  import opened Results
  import opened RustLexemes
  import opened RustComments
  import opened RustLiterals

  datatype Token = Token(text: string, line: nat)

  datatype Fault = UnclosedComment | UnclosedRawString | UnclosedString

  datatype LexError = LexError(fault: Fault, line: nat)

  function Newlines(s: string): (r: nat) {
    if s == [] then 0 else Newlines(s[..|s| - 1]) + if s[|s| - 1] == '\n' then 1 else 0
  }

  lemma {:induction false} NewlinesConcat(a: string, b: string)
    ensures Newlines(a + b) == Newlines(a) + Newlines(b)
  {
    if b == [] {
      assert a + b == a;
    } else {
      assert (a + b)[..|a + b| - 1] == a + b[..|b| - 1];
      NewlinesConcat(a, b[..|b| - 1]);
    }
  }

  /** The physical line on which position `i` stands. */
  function LineOf(s: string, i: nat): (r: nat)
    requires i <= |s|
  {
    1 + Newlines(s[..i])
  }

  lemma LineAdvances(s: string, i: nat, e: nat)
    requires i <= e <= |s|
    ensures LineOf(s, e) == LineOf(s, i) + Newlines(s[i..e])
  {
    assert s[..e] == s[..i] + s[i..e];
    NewlinesConcat(s[..i], s[i..e]);
  }

  // ----- what a tokenization is

  /** `lx` cuts the source from `i` on into consecutive lexemes, with nothing left over. */
  ghost predicate IsLexing(cls: Classes, s: string, i: nat, lx: seq<Lexeme>)
    decreases |lx|
  {
    if lx == [] then i == |s| else
      && i == lx[0].start < lx[0].end <= |s|
      && LexemeAt(cls, s, i, lx[0].kind, lx[0].end)
      && IsLexing(cls, s, lx[0].end, lx[1..])
  }

  predicate IsToken(x: Lexeme) {
    x.kind == Word || x.kind == Mark
  }

  /** White space, comments and literals leave no token. */
  ghost function TokensOf(s: string, lx: seq<Lexeme>): (r: seq<Token>)
    requires forall k :: 0 <= k < |lx| ==> lx[k].start <= lx[k].end <= |s|
  {
    if lx == [] then [] else
      var x := lx[|lx| - 1];
      TokensOf(s, lx[..|lx| - 1]) + if IsToken(x) then [Token(s[x.start..x.end], LineOf(s, x.start))] else []
  }

  /** The only lexeme at `i`. */
  ghost predicate Only(cls: Classes, s: string, x: Lexeme) {
    && x.start < x.end <= |s|
    && forall kind, e :: LexemeAt(cls, s, x.start, kind, e) <==> kind == x.kind && e == x.end
  }

  /** What is wrong with a construct that never closes. */
  ghost function FaultAt(s: string, i: nat): (r: Fault) {
    if Two(s, i, '/', '*') then UnclosedComment
    else if RawStart(s, i) then UnclosedRawString
    else UnclosedString
  }

  // ----- one lexeme

  method NextLexeme(cls: Classes, s: string, i: nat) returns (r: Result<Lexeme, Fault>)
    requires i < |s|
    ensures r.Ok? ==> r.value.start == i && Only(cls, s, r.value)
    ensures r.Err? ==> r.error == FaultAt(s, i) && forall kind, e: nat :: !LexemeAt(cls, s, i, kind, e)
  {
    if s[i] in cls.spaces {
      return Ok(Lexeme(Space, i, i + 1));
    }
    if Two(s, i, '/', '/') {
      var end := SkipLineComment(s, i);
      assert LineComment(s, i, end);
      return Ok(Lexeme(Comment, i, end));
    }
    if Two(s, i, '/', '*') {
      var end := SkipBlockComment(s, i);
      if end.None? {
        return Err(UnclosedComment);
      }
      assert BlockComment(s, i, end.value);
      return Ok(Lexeme(Comment, i, end.value));
    }
    r := NextLiteralOrToken(cls, s, i);
  }

  /** Neither space nor comment starts at `i`. */
  predicate Substantial(cls: Classes, s: string, i: nat)
    requires i < |s|
  {
    s[i] !in cls.spaces && !Two(s, i, '/', '/') && !Two(s, i, '/', '*')
  }

  lemma OnlyRaw(cls: Classes, s: string, i: nat, end: nat)
    requires i < |s| && Substantial(cls, s, i) && RawStart(s, i) && forall e: nat :: RawLiteral(s, i, e) <==> e == end
    ensures Only(cls, s, Lexeme(Literal, i, end))
  {
    hide RawStart;
    assert RawLiteral(s, i, end);
  }

  lemma OnlyString(cls: Classes, s: string, i: nat, body: nat, end: nat)
    requires i < |s| && Substantial(cls, s, i) && !RawStart(s, i) && s[QuotePlace(s, i)] == '"'
    requires body == QuotePlace(s, i) + 1 && forall e: nat :: StringCloses(s, body, e) <==> e == end
    ensures Only(cls, s, Lexeme(Literal, i, end))
  {
    hide RawStart, RawLiteral;
    assert StringCloses(s, body, end);
  }

  lemma OnlyLifetime(cls: Classes, s: string, i: nat)
    requires i < |s| && Substantial(cls, s, i) && !RawStart(s, i) && s[QuotePlace(s, i)] != '"'
    requires s[i] == '\'' && Lifetime(cls, s, i)
    ensures Only(cls, s, Lexeme(Mark, i, i + 1))
  {
    hide RawStart, RawLiteral, StringCloses, Lifetime, CharLiteral, WordRun;
  }

  lemma OnlyChar(cls: Classes, s: string, i: nat, body: nat, end: nat)
    requires i < |s| && Substantial(cls, s, i) && !RawStart(s, i) && s[QuotePlace(s, i)] != '"'
    requires s[i] == '\'' && !Lifetime(cls, s, i)
    requires body == i + 1 && forall e: nat :: CharCloses(s, body, e) <==> e == end
    ensures Only(cls, s, Lexeme(Literal, i, end))
  {
    hide RawStart, RawLiteral, StringCloses, Lifetime, WordRun;
    assert CharCloses(s, body, end);
    assert CharLiteral(s, i, end);
  }

  lemma NoChar(s: string, i: nat, body: nat)
    requires body == i + 1 && forall e: nat :: !CharCloses(s, body, e)
    ensures forall c: nat :: !CharLiteral(s, i, c)
  {
  }

  /** A quote that is neither a lifetime's nor a literal's, or no quote at all. */
  ghost predicate Bare(cls: Classes, s: string, i: nat)
    requires i < |s|
  {
    && Substantial(cls, s, i) && !RawStart(s, i) && s[QuotePlace(s, i)] != '"'
    && (s[i] == '\'' ==> !Lifetime(cls, s, i) && forall c: nat :: !CharLiteral(s, i, c))
  }

  lemma OnlyWord(cls: Classes, s: string, i: nat, end: nat)
    requires i < |s| && Bare(cls, s, i) && IdStart(cls, s[i]) && forall e: nat :: WordRun(cls, s, i, e) <==> e == end
    ensures Only(cls, s, Lexeme(Word, i, end))
  {
    hide RawStart, RawLiteral, StringCloses, Lifetime, CharLiteral;
    assert WordRun(cls, s, i, end);
  }

  lemma OnlyMark(cls: Classes, s: string, i: nat)
    requires i < |s| && Bare(cls, s, i) && !IdStart(cls, s[i])
    ensures Only(cls, s, Lexeme(Mark, i, i + 1))
  {
    hide RawStart, RawLiteral, StringCloses, Lifetime, CharLiteral, WordRun;
  }

  lemma NothingCloses(cls: Classes, s: string, i: nat, body: nat)
    requires i < |s| && Substantial(cls, s, i) && body == QuotePlace(s, i) + 1
    ensures RawStart(s, i) && (forall e: nat :: !RawLiteral(s, i, e)) ==> forall kind, e: nat :: !LexemeAt(cls, s, i, kind, e)
    ensures !RawStart(s, i) && s[QuotePlace(s, i)] == '"' && (forall e: nat :: !StringCloses(s, body, e)) ==>
              forall kind, e: nat :: !LexemeAt(cls, s, i, kind, e)
  {
    hide RawStart, RawLiteral, StringCloses, Lifetime, CharLiteral, WordRun;
  }

  method NextLiteralOrToken(cls: Classes, s: string, i: nat) returns (r: Result<Lexeme, Fault>)
    requires i < |s| && Substantial(cls, s, i)
    ensures r.Ok? ==> r.value.start == i && Only(cls, s, r.value)
    ensures r.Err? ==> r.error == FaultAt(s, i) && forall kind, e: nat :: !LexemeAt(cls, s, i, kind, e)
  {
    hide Only, LexemeAt, RawLiteral, RawStart, StringCloses, CharCloses, CharLiteral, WordRun, Lifetime, IdStart;
    NothingCloses(cls, s, i, QuotePlace(s, i) + 1);
    var raw := SkipRawString(s, i);
    if raw.Unclosed? {
      return Err(UnclosedRawString);
    }
    if raw.RawUntil? {
      OnlyRaw(cls, s, i, raw.end);
      return Ok(Lexeme(Literal, i, raw.end));
    }
    var quote := if s[i] == 'b' && i + 1 < |s| then i + 1 else i;
    if s[quote] == '"' {
      var end := SkipString(s, quote + 1);
      if end.None? {
        return Err(UnclosedString);
      }
      OnlyString(cls, s, i, quote + 1, end.value);
      return Ok(Lexeme(Literal, i, end.value));
    }
    if s[i] == '\'' {
      var lifetime := IsLifetime(cls, s, i);
      if lifetime {
        OnlyLifetime(cls, s, i);
        return Ok(Lexeme(Mark, i, i + 1));
      }
      var end := SkipChar(s, i + 1);
      if end.Some? {
        OnlyChar(cls, s, i, i + 1, end.value);
        return Ok(Lexeme(Literal, i, end.value));
      }
      NoChar(s, i, i + 1);
    }
    assert Bare(cls, s, i);
    if IdStart(cls, s[i]) {
      var end := SkipWord(cls, s, i);
      OnlyWord(cls, s, i, end);
      return Ok(Lexeme(Word, i, end));
    }
    OnlyMark(cls, s, i);
    return Ok(Lexeme(Mark, i, i + 1));
  }

  // ----- the whole source

  /** `lx` are the lexemes before position `i`, and none of them could have been another. */
  ghost predicate IsPrefix(cls: Classes, s: string, lx: seq<Lexeme>, i: nat)
    decreases |lx|
  {
    if lx == [] then i == 0 else
      var x := lx[|lx| - 1];
      x.end == i && Only(cls, s, x) && IsPrefix(cls, s, lx[..|lx| - 1], x.start)
  }

  lemma {:induction false} PrefixSpans(cls: Classes, s: string, lx: seq<Lexeme>, i: nat)
    requires IsPrefix(cls, s, lx, i)
    ensures i <= |s| && forall k :: 0 <= k < |lx| ==> lx[k].start < lx[k].end <= |s|
    decreases |lx|
  {
    if lx != [] {
      PrefixSpans(cls, s, lx[..|lx| - 1], lx[|lx| - 1].start);
    }
  }

  /** A prefix and a lexing of the rest make a lexing of everything. */
  lemma {:induction false} Join(cls: Classes, s: string, pre: seq<Lexeme>, i: nat, rest: seq<Lexeme>)
    requires IsPrefix(cls, s, pre, i) && IsLexing(cls, s, i, rest)
    ensures IsLexing(cls, s, 0, pre + rest)
    decreases |pre|
  {
    hide LexemeAt;
    if pre == [] {
      assert pre + rest == rest;
    } else {
      var x := pre[|pre| - 1];
      assert ([x] + rest)[1..] == rest;
      assert LexemeAt(cls, s, x.start, x.kind, x.end);
      Join(cls, s, pre[..|pre| - 1], x.start, [x] + rest);
      assert pre[..|pre| - 1] + ([x] + rest) == pre + rest;
    }
  }

  /** Every lexing of the source runs through every prefix. */
  lemma {:induction false} Through(cls: Classes, s: string, pre: seq<Lexeme>, i: nat, lx: seq<Lexeme>)
    requires IsPrefix(cls, s, pre, i) && IsLexing(cls, s, 0, lx)
    ensures |pre| <= |lx| && lx[..|pre|] == pre && IsLexing(cls, s, i, lx[|pre|..])
    decreases |pre|
  {
    if pre == [] {
      assert lx[0..] == lx;
    } else {
      var n, x := |pre| - 1, pre[|pre| - 1];
      Through(cls, s, pre[..n], x.start, lx);
      var rest := lx[n..];
      assert LexemeAt(cls, s, x.start, rest[0].kind, rest[0].end);
      assert rest[0] == x && rest[1..] == lx[n + 1..];
      assert lx[..n + 1] == lx[..n] + [x];
    }
  }

  /**
   * On success the source has exactly one lexing, and the tokens are its words and marks with
   * the lines they stand on. On failure it has none, and the reported line is where the
   * construct starts that never closes.
   */
  method Tokenize(cls: Classes, s: string) returns (r: Result<seq<Token>, LexError>, ghost lx: seq<Lexeme>)
    ensures r.Ok? ==> IsLexing(cls, s, 0, lx)
    ensures r.Ok? ==> forall other :: IsLexing(cls, s, 0, other) ==> other == lx
    ensures r.Ok? ==> (forall k :: 0 <= k < |lx| ==> lx[k].start <= lx[k].end <= |s|) && r.value == TokensOf(s, lx)
    ensures r.Ok? ==> LinesAscend(r.value)
    ensures r.Err? ==> forall other :: !IsLexing(cls, s, 0, other)
    ensures r.Err? ==> exists at: nat :: at < |s| && IsPrefix(cls, s, lx, at) && r.error == LexError(FaultAt(s, at), LineOf(s, at))
                                         && forall kind, e: nat :: !LexemeAt(cls, s, at, kind, e)
  {
    hide LexemeAt;
    var tokens: seq<Token> := [];
    var index, line := 0, 1;
    lx := [];
    while index < |s|
      invariant index <= |s| && line == LineOf(s, index)
      invariant IsPrefix(cls, s, lx, index)
      invariant forall k :: 0 <= k < |lx| ==> lx[k].start <= lx[k].end <= |s|
      invariant tokens == TokensOf(s, lx)
    {
      var next := NextLexeme(cls, s, index);
      if next.Err? {
        forall other
          ensures !IsLexing(cls, s, 0, other)
        {
          if IsLexing(cls, s, 0, other) {
            Through(cls, s, lx, index, other);
          }
        }
        return Err(LexError(next.error, line)), lx;
      }
      var x := next.value;
      if IsToken(x) {
        tokens := tokens + [Token(s[index..x.end], line)];
      }
      LineAdvances(s, index, x.end);
      line := line + Newlines(s[index..x.end]);
      index := x.end;
      assert (lx + [x])[..|lx|] == lx;
      lx := lx + [x];
    }
    Join(cls, s, lx, index, []);
    assert lx + [] == lx;
    forall other | IsLexing(cls, s, 0, other)
      ensures other == lx
    {
      Through(cls, s, lx, index, other);
      assert other[|lx|..] == [];
    }
    TokenLinesAscend(cls, s, lx, index);
    return Ok(tokens), lx;
  }

  // ----- what later passes rely on

  lemma {:induction false} NewlinesGrow(s: string, i: nat, e: nat)
    requires i <= e <= |s|
    ensures LineOf(s, i) <= LineOf(s, e)
  {
    LineAdvances(s, i, e);
  }

  /** Lines never go backwards from one token to the next. */
  ghost predicate LinesAscend(tokens: seq<Token>) {
    forall i, j :: 0 <= i <= j < |tokens| ==> tokens[i].line <= tokens[j].line
  }

  lemma {:induction false} TokenLinesAscend(cls: Classes, s: string, lx: seq<Lexeme>, i: nat)
    requires IsPrefix(cls, s, lx, i) && forall k :: 0 <= k < |lx| ==> lx[k].start <= lx[k].end <= |s|
    ensures i <= |s| && LinesAscend(TokensOf(s, lx))
    ensures forall k :: 0 <= k < |TokensOf(s, lx)| ==> TokensOf(s, lx)[k].line <= LineOf(s, i)
    decreases |lx|
  {
    if lx != [] {
      var x := lx[|lx| - 1];
      TokenLinesAscend(cls, s, lx[..|lx| - 1], x.start);
      NewlinesGrow(s, x.start, i);
    }
  }
}
