/**
 * The lexical shapes that the coverage ledger recognises in Rust source
 * (scripts/coverage_rust_ledger.py), as a description of text spans rather than a scanner.
 */
module RustLexemes {

  /** The Unicode classes the scanner asks about: white space, letters, letters and numbers. */
  datatype Classes = Classes(spaces: set<char>, letters: set<char>, alnums: set<char>)

  predicate IdStart(cls: Classes, c: char) {
    c == '_' || c in cls.letters
  }

  predicate IdChar(cls: Classes, c: char) {
    c == '_' || c in cls.alnums
  }

  /** The two characters `a`, `b` stand at `i`. */
  predicate Two(s: string, i: nat, a: char, b: char) {
    i + 1 < |s| && s[i] == a && s[i + 1] == b
  }

  predicate At(s: string, i: nat, part: string) {
    i + |part| <= |s| && s[i..i + |part|] == part
  }

  // ----- nested block comments

  /** What follows an opening of a comment, up to and with its own closing. */
  datatype Inside = Close | Character(c: char, rest: Inside) | Nested(inner: Inside, rest: Inside)

  ghost function Text(x: Inside): (r: string)
    ensures |r| >= 2
  {
    match x
    case Close => "*/"
    case Character(c, rest) => [c] + Text(rest)
    case Nested(inner, rest) => "/*" + Text(inner) + Text(rest)
  }

  /** No opening or closing is read as mere characters. */
  ghost predicate Proper(x: Inside) {
    match x
    case Close => true
    case Character(c, rest) =>
      var text := [c] + Text(rest);
      !Two(text, 0, '/', '*') && !Two(text, 0, '*', '/') && Proper(rest)
    case Nested(inner, rest) => Proper(inner) && Proper(rest)
  }

  ghost predicate BlockComment(s: string, i: nat, e: nat) {
    i + 2 <= e <= |s| && Two(s, i, '/', '*') && exists x :: Proper(x) && Text(x) == s[i + 2..e]
  }

  // ----- the other spans

  ghost predicate LineComment(s: string, i: nat, e: nat) {
    && i + 2 <= e <= |s|
    && (forall k :: i + 2 <= k < e ==> s[k] != '\n')
    && (e < |s| ==> s[e] == '\n')
  }

  /** The end of the run of `#` that starts at `i`. */
  ghost predicate HashRun(s: string, i: nat, e: nat) {
    i <= e <= |s| && (forall k :: i <= k < e ==> s[k] == '#') && (e < |s| ==> s[e] != '#')
  }

  ghost function RawPrefix(s: string, i: nat): (r: nat) {
    if Two(s, i, 'b', 'r') then i + 1 else i
  }

  /** A raw string opens at `i`, with its opening quote at `q`. */
  ghost predicate RawOpens(s: string, i: nat, q: nat) {
    var p := RawPrefix(s, i);
    p < q < |s| && s[p] == 'r' && s[q] == '"' && HashRun(s, p + 1, q)
  }

  ghost predicate RawStart(s: string, i: nat) {
    exists q: nat :: RawOpens(s, i, q)
  }

  /** A quote and as many `#` as stood before the opening quote. */
  ghost function RawTerminator(s: string, i: nat, q: nat): (r: string)
    requires RawPrefix(s, i) < q <= |s|
  {
    ['"'] + s[RawPrefix(s, i) + 1..q]
  }

  /** The string closes at the first terminator after the opening quote. */
  ghost predicate RawString(s: string, i: nat, q: nat, e: nat)
    requires RawOpens(s, i, q)
  {
    var t := RawTerminator(s, i, q);
    && q + 1 + |t| <= e <= |s|
    && At(s, e - |t|, t)
    && forall k :: q + 1 <= k < e - |t| ==> !At(s, k, t)
  }

  ghost predicate RawLiteral(s: string, i: nat, e: nat) {
    exists q: nat :: RawOpens(s, i, q) && RawString(s, i, q, e)
  }

  /** Characters other than a quote or backslash, and backslashes each with the character after it. */
  ghost predicate StringBody(t: string) {
    t == [] ||
    if t[0] == '\\' then |t| >= 2 && StringBody(t[2..]) else t[0] != '"' && StringBody(t[1..])
  }

  /** A string whose body starts at `i` closes just before `e`. */
  ghost predicate StringCloses(s: string, i: nat, e: nat) {
    i < e <= |s| && s[e - 1] == '"' && StringBody(s[i..e - 1])
  }

  /** The same between single quotes, on one line. */
  ghost predicate CharBody(t: string) {
    t == [] ||
    if t[0] == '\\' then |t| >= 2 && t[1] != '\n' && CharBody(t[2..])
    else t[0] != '\'' && t[0] != '\n' && CharBody(t[1..])
  }

  ghost predicate CharCloses(s: string, i: nat, e: nat) {
    i < e <= |s| && s[e - 1] == '\'' && CharBody(s[i..e - 1])
  }

  /** A maximal run of identifier characters after the first. */
  ghost predicate WordRun(cls: Classes, s: string, i: nat, e: nat) {
    i < e <= |s| && (forall k :: i + 1 <= k < e ==> IdChar(cls, s[k])) && (e < |s| ==> !IdChar(cls, s[e]))
  }

  ghost predicate CharLiteral(s: string, i: nat, e: nat) {
    CharCloses(s, i + 1, e)
  }

  /** The identifier after a single quote at `i` runs up to `e`, and no quote follows it. */
  ghost predicate LifetimeRun(cls: Classes, s: string, i: nat, e: nat) {
    i + 1 < |s| && IdStart(cls, s[i + 1]) && WordRun(cls, s, i + 1, e) && (e < |s| ==> s[e] != '\'')
  }

  ghost predicate Lifetime(cls: Classes, s: string, i: nat) {
    exists e: nat :: LifetimeRun(cls, s, i, e)
  }

  /** Where a string's opening quote would stand, after an optional `b`. */
  ghost function QuotePlace(s: string, i: nat): (r: nat)
    requires i < |s|
  {
    if s[i] == 'b' && i + 1 < |s| then i + 1 else i
  }

  // ----- lexemes

  datatype Kind = Space | Comment | Literal | Word | Mark

  datatype Lexeme = Lexeme(kind: Kind, start: nat, end: nat)

  /** The lexeme that starts at `i`: the first construct that fits, in this order. */
  ghost predicate LexemeAt(cls: Classes, s: string, i: nat, kind: Kind, e: nat)
    requires i < |s|
  {
    if s[i] in cls.spaces then kind == Space && e == i + 1
    else if Two(s, i, '/', '/') then kind == Comment && LineComment(s, i, e)
    else if Two(s, i, '/', '*') then kind == Comment && BlockComment(s, i, e)
    else if RawStart(s, i) then kind == Literal && RawLiteral(s, i, e)
    else if s[QuotePlace(s, i)] == '"' then kind == Literal && StringCloses(s, QuotePlace(s, i) + 1, e)
    else if s[i] == '\'' && Lifetime(cls, s, i) then kind == Mark && e == i + 1
    else if s[i] == '\'' && exists c: nat :: CharLiteral(s, i, c) then kind == Literal && CharLiteral(s, i, e)
    else if IdStart(cls, s[i]) then kind == Word && WordRun(cls, s, i, e)
    else kind == Mark && e == i + 1
  }
}
