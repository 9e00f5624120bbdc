/**
 * What a `#[cfg(test)]` attribute covers (scripts/coverage_rust_ledger.py): a field or
 * parameter, an argument or element, or an item, as a span of tokens.
 */
module CfgSpans {
  import opened Results
  import opened RustLexemes
  import opened RustTokenizer
  import opened Delimiters
  import opened DelimiterTable

  /** The token texts the scan looks for. */
  datatype Symbol =
    | OpenBrace | CloseBrace | OpenParen | CloseParen | OpenBracket | CloseBracket
    | Hash | Comma | Colon | Semicolon | Less | Greater
    | CfgWord | TestWord | PubWord | MutWord | StructWord | ModWord
    | Other

  function SymbolOf(text: string): (r: Symbol) {
    if text == "{" then OpenBrace else if text == "}" then CloseBrace
    else if text == "(" then OpenParen else if text == ")" then CloseParen
    else if text == "[" then OpenBracket else if text == "]" then CloseBracket
    else if text == "#" then Hash else if text == "," then Comma
    else if text == ":" then Colon else if text == ";" then Semicolon
    else if text == "<" then Less else if text == ">" then Greater
    else if text == "cfg" then CfgWord else if text == "test" then TestWord
    else if text == "pub" then PubWord else if text == "mut" then MutWord
    else if text == "struct" then StructWord else if text == "mod" then ModWord
    else Other
  }

  predicate IsOpener(y: Symbol) {
    y.OpenBrace? || y.OpenParen? || y.OpenBracket?
  }

  predicate IsCloser(y: Symbol) {
    y.CloseBrace? || y.CloseParen? || y.CloseBracket?
  }

  /** The closer that belongs to an opener. */
  function Partner(y: Symbol): (r: Symbol) {
    match y
    case OpenBrace => CloseBrace
    case OpenParen => CloseParen
    case OpenBracket => CloseBracket
    case _ => Other
  }

  function DelimiterOf(y: Symbol): (r: Option<Delimiter>) {
    match y
    case OpenBrace => Some(Brace)
    case CloseBrace => Some(Brace)
    case OpenParen => Some(Paren)
    case CloseParen => Some(Paren)
    case OpenBracket => Some(Bracket)
    case CloseBracket => Some(Bracket)
    case _ => None
  }

  /** An ASCII letter or underscore, then word characters. */
  predicate IsName(cls: Classes, text: string) {
    && text != [] && (text[0] == '_' || 'A' <= text[0] <= 'Z' || 'a' <= text[0] <= 'z')
    && forall k :: 1 <= k < |text| ==> IdChar(cls, text[k])
  }

  lemma NamesAreNoDelimiters(cls: Classes, text: string)
    requires IsName(cls, text)
    ensures !IsOpener(SymbolOf(text)) && !IsCloser(SymbolOf(text))
  {
  }

  /** What the scan sees of a token stream: symbols, names and lines, and its delimiter table. */
  datatype Stream = Stream(y: seq<Symbol>, name: seq<bool>, line: seq<nat>, table: Table) {

    /** The position of the innermost opener around `p`, if any. */
    function Container(p: nat): (c: Option<nat>) {
      if p in table.enclosing then Some(table.enclosing[p]) else None
    }
  }

  function View(cls: Classes, tokens: seq<Token>, table: Table): (s: Stream) {
    Stream(seq(|tokens|, p requires 0 <= p < |tokens| => SymbolOf(tokens[p].text)),
           seq(|tokens|, p requires 0 <= p < |tokens| => IsName(cls, tokens[p].text)),
           seq(|tokens|, p requires 0 <= p < |tokens| => tokens[p].line),
           table)
  }

  /** Everything the table says, in terms of symbols. */
  ghost predicate Paired(y: seq<Symbol>, close: map<nat, nat>) {
    && (forall p :: 0 <= p < |y| && IsOpener(y[p]) ==> p in close)
    && (forall o :: o in close ==> o < close[o] < |y| && IsOpener(y[o]) && IsCloser(y[close[o]]) && y[close[o]] == Partner(y[o]))
    && (forall a, b :: a in close && b in close && a < b ==> close[a] < b || close[b] < close[a])
  }

  ghost predicate Placed(y: seq<Symbol>, close: map<nat, nat>, enclosing: map<nat, nat>) {
    && (forall p :: p in enclosing ==> p < |y| && Covers(close, enclosing[p], p))
    && (forall p, o :: 0 <= p < |y| && Covers(close, o, p) ==> p in enclosing && o <= enclosing[p])
    && (forall p :: 0 <= p < |y| && IsCloser(y[p]) ==>
          p in enclosing && enclosing[p] in close && close[enclosing[p]] == p)
  }

  ghost predicate Indexed(line: seq<nat>, lines: map<nat, Extent>) {
    && (forall l :: l in lines ==>
          lines[l].first <= lines[l].last < |line| && line[lines[l].first] == l == line[lines[l].last])
    && (forall p :: 0 <= p < |line| ==> OnLine(lines, line[p], p))
    && (forall p, q :: 0 <= p <= q < |line| ==> line[p] <= line[q])
  }

  ghost predicate Valid(s: Stream) {
    && |s.y| == |s.name| == |s.line|
    && (forall p :: 0 <= p < |s.y| && s.name[p] ==> !IsOpener(s.y[p]) && !IsCloser(s.y[p]))
    && Paired(s.y, s.table.close)
    && Placed(s.y, s.table.close, s.table.enclosing)
    && Indexed(s.line, s.table.lines)
  }

  lemma DelimitersAreSymbols(t: Token)
    ensures Opens(t).Some? <==> IsOpener(SymbolOf(t.text))
    ensures Closes(t).Some? <==> IsCloser(SymbolOf(t.text))
    ensures Opens(t).Some? ==> Opens(t) == DelimiterOf(SymbolOf(t.text))
    ensures Closes(t).Some? ==> Closes(t) == DelimiterOf(SymbolOf(t.text))
  {
  }

  lemma SameDelimiterIsPartner(open: Symbol, close: Symbol)
    requires IsOpener(open) && IsCloser(close) && DelimiterOf(open) == DelimiterOf(close)
    ensures close == Partner(open)
  {
  }

  /** The view's symbols agree with the tokens' delimiters. */
  ghost predicate Agrees(tokens: seq<Token>, y: seq<Symbol>) {
    |tokens| == |y| && forall p :: 0 <= p < |y| ==>
      && (Opens(tokens[p]).Some? <==> IsOpener(y[p])) && (Opens(tokens[p]).Some? ==> Opens(tokens[p]) == DelimiterOf(y[p]))
      && (Closes(tokens[p]).Some? <==> IsCloser(y[p])) && (Closes(tokens[p]).Some? ==> Closes(tokens[p]) == DelimiterOf(y[p]))
  }

  lemma ViewAgrees(cls: Classes, tokens: seq<Token>, table: Table)
    ensures var s := View(cls, tokens, table);
            && Agrees(tokens, s.y) && |s.name| == |s.line| == |s.y|
            && (forall p :: 0 <= p < |s.y| && s.name[p] ==> !IsOpener(s.y[p]) && !IsCloser(s.y[p]))
  {
    hide Opens, Closes, SymbolOf, IsName, IsOpener, IsCloser, DelimiterOf;
    forall p | 0 <= p < |tokens|
      ensures (Opens(tokens[p]).Some? <==> IsOpener(SymbolOf(tokens[p].text)))
           && (Closes(tokens[p]).Some? <==> IsCloser(SymbolOf(tokens[p].text)))
           && (Opens(tokens[p]).Some? ==> Opens(tokens[p]) == DelimiterOf(SymbolOf(tokens[p].text)))
           && (Closes(tokens[p]).Some? ==> Closes(tokens[p]) == DelimiterOf(SymbolOf(tokens[p].text)))
           && (IsName(cls, tokens[p].text) ==> !IsOpener(SymbolOf(tokens[p].text)) && !IsCloser(SymbolOf(tokens[p].text)))
    {
      DelimitersAreSymbols(tokens[p]);
      if IsName(cls, tokens[p].text) {
        NamesAreNoDelimiters(cls, tokens[p].text);
      }
    }
  }

  lemma MatchingIsPaired(tokens: seq<Token>, y: seq<Symbol>, close: map<nat, nat>)
    requires Agrees(tokens, y) && IsMatching(tokens, close)
    ensures Paired(y, close)
  {
    hide Opens, Closes, IsOpener, IsCloser, DelimiterOf, Partner;
    forall o | o in close
      ensures o < close[o] < |y| && IsOpener(y[o]) && IsCloser(y[close[o]]) && y[close[o]] == Partner(y[o])
    {
      SameDelimiterIsPartner(y[o], y[close[o]]);
    }
  }

  lemma EnclosingIsPlaced(tokens: seq<Token>, y: seq<Symbol>, close: map<nat, nat>, enclosing: map<nat, nat>)
    requires Agrees(tokens, y) && IsEnclosing(tokens, close, enclosing)
    ensures Placed(y, close, enclosing)
  {
    hide Opens, Closes, IsOpener, IsCloser, Covers;
  }

  /** A matched token stream gives a valid view. */
  lemma ViewIsValid(cls: Classes, tokens: seq<Token>, table: Table)
    requires WellMatched(tokens, table) && LinesAscend(tokens)
    ensures Valid(View(cls, tokens, table))
  {
    var s := View(cls, tokens, table);
    hide Paired, Placed, IsMatching, IsEnclosing, Agrees, SymbolOf, IsName;
    ViewAgrees(cls, tokens, table);
    MatchingIsPaired(tokens, s.y, table.close);
    EnclosingIsPlaced(tokens, s.y, table.close, table.enclosing);
  }

  /** The seven tokens `#[cfg(test)]` stand at `p`. */
  predicate Attribute(y: seq<Symbol>, p: nat) {
    && p + 6 < |y|
    && y[p..p + 7] == [Hash, OpenBracket, CfgWord, OpenParen, TestWord, CloseParen, CloseBracket]
  }

  // ----- moving through a container

  /** Past a token, or past a whole group. */
  function Next(s: Stream, p: nat): (r: nat)
    requires p < |s.y| && (IsOpener(s.y[p]) ==> p in s.table.close)
  {
    if IsOpener(s.y[p]) then s.table.close[p] + 1 else p + 1
  }

  lemma NextHasSameCovers(s: Stream, p: nat, o: nat)
    requires Paired(s.y, s.table.close) && p < |s.y| && !IsCloser(s.y[p])
    ensures Covers(s.table.close, o, p) <==> Covers(s.table.close, o, Next(s, p))
  {
    var close := s.table.close;
    if o in close {
      assert IsOpener(s.y[o]) && IsCloser(s.y[close[o]]);
      if IsOpener(s.y[p]) {
        assert o < p ==> close[o] < p || close[p] < close[o];
        assert p < o ==> close[p] < o || close[o] < close[p];
      }
    }
  }

  lemma SameCoversSameContainer(s: Stream, p: nat, q: nat)
    requires Placed(s.y, s.table.close, s.table.enclosing) && p < |s.y| && q < |s.y|
    requires forall o: nat :: Covers(s.table.close, o, p) <==> Covers(s.table.close, o, q)
    ensures s.Container(p) == s.Container(q)
  {
    hide Covers;
    var close, enclosing := s.table.close, s.table.enclosing;
    if p in enclosing {
      assert Covers(close, enclosing[p], q);
    }
    if q in enclosing {
      assert Covers(close, enclosing[q], p);
    }
  }

  /** Stepping over a token or a group stays in the container and does not pass its end. */
  lemma NextKeepsContainer(s: Stream, p: nat)
    requires Valid(s) && p < |s.y| && !IsCloser(s.y[p])
    ensures p < Next(s, p) <= |s.y|
    ensures Next(s, p) < |s.y| ==> s.Container(Next(s, p)) == s.Container(p)
    ensures s.Container(p).Some? ==> Within(s, p) && Next(s, p) <= Limit(s, p)
  {
    hide IsOpener, IsCloser, Indexed;
    var q := Next(s, p);
    forall o: nat
      ensures Covers(s.table.close, o, p) <==> Covers(s.table.close, o, q)
    {
      NextHasSameCovers(s, p, o);
    }
    if q < |s.y| {
      SameCoversSameContainer(s, p, q);
    }
    if s.Container(p).Some? {
      assert Covers(s.table.close, s.Container(p).value, p);
    }
  }

  /** `p` lies in a matched container. */
  predicate Within(s: Stream, p: nat) {
    s.Container(p).Some? && s.Container(p).value in s.table.close
  }

  /** Where the container around `p` closes. */
  function Limit(s: Stream, p: nat): (r: nat)
    requires Within(s, p)
  {
    s.table.close[s.Container(p).value]
  }

  /** The first character of a name by code point: a letter of the ASCII alphabet or an underscore. */
  lemma NameBegins(cls: Classes, c: char)
    ensures IsName(cls, [c]) <==> 65 <= c as int < 91 || 97 <= c as int < 123 || c as int == 95
  {
  }
}
