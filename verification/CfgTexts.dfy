/**
 * The same account of what a `#[cfg(test)]` attribute covers, in terms of the tokens' own texts and
 * lines (scripts/coverage_rust_ledger.py).
 */
module CfgTexts {
  import opened Results
  import opened RustLexemes
  import opened RustTokenizer
  import opened DelimiterTable
  import opened CfgSpans
  import opened CfgOutcome
  import opened CfgScan

  /** A span, or why there is no definite one. */
  type Cover = Result<Span, CfgOutcome.Fault>

  predicate Says(tokens: seq<Token>, p: int, text: string) {
    0 <= p < |tokens| && tokens[p].text == text
  }

  predicate AttributeHere(tokens: seq<Token>, p: nat) {
    && Says(tokens, p, "#") && Says(tokens, p + 1, "[") && Says(tokens, p + 2, "cfg") && Says(tokens, p + 3, "(")
    && Says(tokens, p + 4, "test") && Says(tokens, p + 5, ")") && Says(tokens, p + 6, "]")
  }

  // ----- fields, parameters and initializers

  /** The further attributes from `m` on end before `n`. */
  ghost predicate AttributesEnd(tokens: seq<Token>, close: map<nat, nat>, m: nat, n: nat)
    decreases |tokens| - m
  {
    if Says(tokens, m, "#") && Says(tokens, m + 1, "[") then
      m + 1 in close && m < close[m + 1] < |tokens| && AttributesEnd(tokens, close, close[m + 1] + 1, n)
    else n == m
  }

  /** Behind `pub`, `pub(...)` or nothing. */
  ghost predicate VisibilityEnds(tokens: seq<Token>, close: map<nat, nat>, m: nat, n: nat) {
    if !Says(tokens, m, "pub") then n == m
    else if Says(tokens, m + 1, "(") then m + 1 in close && n == close[m + 1] + 1
    else n == m + 1
  }

  ghost predicate LeadsTo(tokens: seq<Token>, close: map<nat, nat>, from: nat, a: nat, v: nat, m: nat) {
    && AttributesEnd(tokens, close, from, a) && VisibilityEnds(tokens, close, a, v)
    && m == if Says(tokens, v, "mut") then v + 1 else v
  }

  ghost predicate LeadsSomehow(tokens: seq<Token>, close: map<nat, nat>, from: nat, m: nat) {
    exists a: nat, v: nat :: LeadsTo(tokens, close, from, a, v, m)
  }

  /** A name stands at `m`, with a colon and no second one behind it. */
  ghost predicate NamedAt(cls: Classes, tokens: seq<Token>, close: map<nat, nat>, p: nat, m: nat) {
    && LeadsSomehow(tokens, close, p + 7, m)
    && m + 2 < |tokens| && IsName(cls, tokens[m].text) && Says(tokens, m + 1, ":") && !Says(tokens, m + 2, ":")
  }

  /** Parentheses, or the braces of a struct. */
  ghost predicate HoldsTypes(tokens: seq<Token>, c: nat) {
    || Says(tokens, c, "(")
    || (Says(tokens, c, "{") && exists k: nat :: BelongsToStruct(tokens, c, k))
  }

  ghost predicate BelongsToStruct(tokens: seq<Token>, c: nat, k: nat) {
    k < c && Says(tokens, k, "struct")
    && forall j :: k < j < c ==> !Says(tokens, j, "{") && !Says(tokens, j, "}") && !Says(tokens, j, ";")
  }

  // ----- commas

  predicate Directly(enclosing: map<nat, nat>, c: nat, q: nat) {
    q in enclosing && enclosing[q] == c
  }

  /** How many angle brackets are open before `q`. */
  ghost function Angles(tokens: seq<Token>, enclosing: map<nat, nat>, c: nat, types: bool, from: nat, q: nat): (r: nat)
    requires from <= q
    decreases q
  {
    if q == from then 0 else
      var depth := Angles(tokens, enclosing, c, types, from, q - 1);
      if !Directly(enclosing, c, q - 1) then depth
      else if Says(tokens, q - 1, "<") then
        if types || depth > 0 || (Says(tokens, q - 2, ":") && Says(tokens, q - 3, ":")) then depth + 1 else depth
      else if Says(tokens, q - 1, ">") && depth > 0 then depth - 1
      else depth
  }

  ghost predicate CommaAt(tokens: seq<Token>, enclosing: map<nat, nat>, c: nat, types: bool, from: nat, q: nat)
    requires from <= q
  {
    Directly(enclosing, c, q) && Says(tokens, q, ",") && Angles(tokens, enclosing, c, types, from, q) == 0
  }

  /** The first such comma, or the end of the container. */
  ghost predicate ListedUpTo(tokens: seq<Token>, enclosing: map<nat, nat>, c: nat, types: bool, from: nat, limit: nat, e: nat) {
    && from <= e <= limit && (e < limit ==> CommaAt(tokens, enclosing, c, types, from, e))
    && forall q :: from <= q < e ==> !CommaAt(tokens, enclosing, c, types, from, q)
  }

  ghost predicate LessBefore(tokens: seq<Token>, enclosing: map<nat, nat>, c: nat, from: nat, e: nat) {
    exists k: nat :: from <= k < e && Directly(enclosing, c, k) && Says(tokens, k, "<")
  }

  /** A member whose type or value starts at `from` and ends at `e`. */
  ghost predicate MemberTo(tokens: seq<Token>, t: Table, p: nat, from: nat, e: nat, r: Cover) {
    && p in t.enclosing && t.enclosing[p] in t.close
    && var c := t.enclosing[p];
    && ListedUpTo(tokens, t.enclosing, c, true, from, t.close[c], e) && from > 0
    && r == if !HoldsTypes(tokens, c) && LessBefore(tokens, t.enclosing, c, from, e) then Err(AmbiguousInitializer)
            else if Angles(tokens, t.enclosing, c, true, from, e) > 0 then Err(AmbiguousMember)
            else Ok(Span(MemberSpan, p, if e == t.close[c] then e - 1 else e, None))
  }

  ghost predicate MemberHere(tokens: seq<Token>, t: Table, p: nat, from: nat, r: Cover) {
    if p !in t.enclosing then r == Err(AmbiguousMember) else exists e: nat :: MemberTo(tokens, t, p, from, e, r)
  }

  // ----- arguments and elements

  predicate InBrackets(tokens: seq<Token>, t: Table, p: nat) {
    p in t.enclosing && (Says(tokens, t.enclosing[p], "(") || Says(tokens, t.enclosing[p], "["))
  }

  ghost predicate ElementTo(tokens: seq<Token>, t: Table, p: nat, e: nat, r: Cover) {
    && p in t.enclosing && t.enclosing[p] in t.close
    && var c := t.enclosing[p];
    && ListedUpTo(tokens, t.enclosing, c, false, p + 7, t.close[c], e)
    && r == if e == p + 7 || Angles(tokens, t.enclosing, c, false, p + 7, e) > 0 then Err(AmbiguousExpression)
            else Ok(Span(ElementSpan, p, e, None))
  }

  // ----- items

  /** How often `a` is said between two places, less how often `b` is. */
  ghost function Excess(tokens: seq<Token>, a: string, b: string, from: nat, q: nat): (r: int)
    requires from <= q
    decreases q
  {
    if q == from then 0 else
      Excess(tokens, a, b, from, q - 1)
      + (if Says(tokens, q - 1, a) then 1 else 0) - (if Says(tokens, q - 1, b) then 1 else 0)
  }

  ghost predicate StopAt(tokens: seq<Token>, from: nat, q: nat)
    requires from <= q
  {
    && (Says(tokens, q, "{") || Says(tokens, q, ";"))
    && Excess(tokens, "(", ")", from, q) == 0 && Excess(tokens, "[", "]", from, q) == 0
  }

  ghost predicate FirstStopAt(tokens: seq<Token>, from: nat, b: nat) {
    from <= b < |tokens| && StopAt(tokens, from, b) && forall q :: from <= q < b ==> !StopAt(tokens, from, q)
  }

  /** The first `mod` between `from` and `b` is at `k`. */
  ghost predicate ModAt(tokens: seq<Token>, from: nat, b: nat, k: nat) {
    from <= k < b && Says(tokens, k, "mod") && forall j :: from <= j < k ==> !Says(tokens, j, "mod")
  }

  ghost predicate ItemTo(tokens: seq<Token>, t: Table, p: nat, b: nat, r: Cover) {
    && FirstStopAt(tokens, p + 7, b)
    && if Says(tokens, b, "{") then b in t.close && r == Ok(Span(ItemSpan, p, t.close[b], None))
       else if forall k :: p + 7 <= k < b ==> !Says(tokens, k, "mod") then r == Ok(Span(ItemSpan, p, b, None))
       else exists k: nat :: ModuleTo(tokens, p, b, k, r)
  }

  ghost predicate ModuleTo(tokens: seq<Token>, p: nat, b: nat, k: nat, r: Cover) {
    && ModAt(tokens, p + 7, b, k)
    && r == if k + 1 < b then Ok(Span(ItemSpan, p, b, Some(k + 1))) else Err(AmbiguousModule)
  }

  ghost predicate NoStop(tokens: seq<Token>, from: nat) {
    forall q: nat :: from <= q < |tokens| ==> !StopAt(tokens, from, q)
  }

  ghost predicate ItemHere(tokens: seq<Token>, t: Table, p: nat, r: Cover) {
    || (NoStop(tokens, p + 7) && r == Err(AmbiguousItem))
    || exists b: nat :: ItemTo(tokens, t, p, b, r)
  }

  // ----- the attribute

  /** What the attribute at `p` covers, or why that is not definite. */
  ghost predicate Covered(cls: Classes, tokens: seq<Token>, t: Table, p: nat, r: Cover) {
    if exists m: nat :: NamedAt(cls, tokens, t.close, p, m) then
      exists m: nat :: NamedAt(cls, tokens, t.close, p, m) && MemberHere(tokens, t, p, m + 2, r)
    else if InBrackets(tokens, t, p) then exists e: nat :: ElementTo(tokens, t, p, e, r)
    else ItemHere(tokens, t, p, r)
  }

  /** `spans` are what the attributes before `i` cover, one after the other and leaving none out. */
  ghost predicate CoveredBefore(cls: Classes, tokens: seq<Token>, t: Table, spans: seq<Span>, i: nat)
    decreases |spans|
  {
    if spans == [] then forall q: nat :: q < i ==> !AttributeHere(tokens, q) else
      var x := spans[|spans| - 1];
      && x.last < i && (forall q: nat :: x.last < q < i ==> !AttributeHere(tokens, q))
      && AttributeHere(tokens, x.start) && Covered(cls, tokens, t, x.start, Ok(x))
      && CoveredBefore(cls, tokens, t, spans[..|spans| - 1], x.start)
  }

  /** An item takes every line from its first to its last; anything else only lines on which it holds every token. */
  ghost predicate TakesLine(tokens: seq<Token>, x: Span, l: nat) {
    && x.start < |tokens| && x.last < |tokens| && tokens[x.start].line <= l <= tokens[x.last].line
    && (x.kind == ItemSpan || forall q :: 0 <= q < |tokens| && tokens[q].line == l ==> x.start <= q <= x.last)
  }

  /** The item ends in `;`, and its first `mod` is at `k` with a name behind it. */
  ghost predicate DeclaresModule(tokens: seq<Token>, x: Span, k: nat) {
    && x.kind == ItemSpan && Says(tokens, x.last, ";")
    && ModAt(tokens, x.start + 7, x.last, k) && k + 1 < x.last < |tokens|
  }

  ghost predicate LineTaken(tokens: seq<Token>, spans: seq<Span>, l: nat) {
    exists i :: 0 <= i < |spans| && TakesLine(tokens, spans[i], l)
  }

  ghost predicate ModuleDeclared(tokens: seq<Token>, spans: seq<Span>, name: string) {
    exists i, k: nat :: 0 <= i < |spans| && DeclaresModule(tokens, spans[i], k) && tokens[k + 1].text == name
  }

  /** The lines and module names that the spans of all attributes give. */
  ghost predicate Finds(cls: Classes, tokens: seq<Token>, t: Table, spans: seq<Span>, excluded: set<nat>, modules: set<string>) {
    && CoveredBefore(cls, tokens, t, spans, |tokens|)
    && (forall l: nat :: l in excluded <==> LineTaken(tokens, spans, l))
    && (forall name :: name in modules <==> ModuleDeclared(tokens, spans, name))
  }

  // ----- symbols and texts

  /** The symbols are those of the texts. */
  ghost predicate Marks(tokens: seq<Token>, y: seq<Symbol>) {
    |y| == |tokens| && forall p :: 0 <= p < |y| ==>
      && (y[p] == OpenBrace <==> Says(tokens, p, "{")) && (y[p] == CloseBrace <==> Says(tokens, p, "}"))
      && (y[p] == OpenParen <==> Says(tokens, p, "(")) && (y[p] == CloseParen <==> Says(tokens, p, ")"))
      && (y[p] == OpenBracket <==> Says(tokens, p, "[")) && (y[p] == CloseBracket <==> Says(tokens, p, "]"))
      && (y[p] == Semicolon <==> Says(tokens, p, ";")) && (y[p] == Hash <==> Says(tokens, p, "#"))
  }

  ghost predicate Signs(tokens: seq<Token>, y: seq<Symbol>) {
    |y| == |tokens| && forall p :: 0 <= p < |y| ==>
      && (y[p] == Comma <==> Says(tokens, p, ",")) && (y[p] == Colon <==> Says(tokens, p, ":"))
      && (y[p] == Less <==> Says(tokens, p, "<")) && (y[p] == Greater <==> Says(tokens, p, ">"))
  }

  ghost predicate Words(tokens: seq<Token>, y: seq<Symbol>) {
    |y| == |tokens| && forall p :: 0 <= p < |y| ==>
      && (y[p] == CfgWord <==> Says(tokens, p, "cfg")) && (y[p] == TestWord <==> Says(tokens, p, "test"))
      && (y[p] == PubWord <==> Says(tokens, p, "pub")) && (y[p] == MutWord <==> Says(tokens, p, "mut"))
      && (y[p] == StructWord <==> Says(tokens, p, "struct")) && (y[p] == ModWord <==> Says(tokens, p, "mod"))
  }

  lemma MarkSymbols(t: string)
    ensures (SymbolOf(t) == OpenBrace <==> t == "{") && (SymbolOf(t) == CloseBrace <==> t == "}")
    ensures (SymbolOf(t) == OpenParen <==> t == "(") && (SymbolOf(t) == CloseParen <==> t == ")")
    ensures (SymbolOf(t) == OpenBracket <==> t == "[") && (SymbolOf(t) == CloseBracket <==> t == "]")
    ensures (SymbolOf(t) == Semicolon <==> t == ";") && (SymbolOf(t) == Hash <==> t == "#")
  {
  }

  lemma SignSymbols(t: string)
    ensures (SymbolOf(t) == Comma <==> t == ",") && (SymbolOf(t) == Colon <==> t == ":")
    ensures (SymbolOf(t) == Less <==> t == "<") && (SymbolOf(t) == Greater <==> t == ">")
  {
  }

  lemma WordSymbols(t: string)
    ensures (SymbolOf(t) == CfgWord <==> t == "cfg") && (SymbolOf(t) == TestWord <==> t == "test")
    ensures (SymbolOf(t) == PubWord <==> t == "pub") && (SymbolOf(t) == MutWord <==> t == "mut")
    ensures (SymbolOf(t) == StructWord <==> t == "struct") && (SymbolOf(t) == ModWord <==> t == "mod")
  {
  }

  lemma ViewSpells(cls: Classes, tokens: seq<Token>, table: Table)
    ensures var s := View(cls, tokens, table);
            && Marks(tokens, s.y) && Signs(tokens, s.y) && Words(tokens, s.y)
            && |s.name| == |s.line| == |s.y| == |tokens|
            && (forall p :: 0 <= p < |tokens| ==> s.name[p] == IsName(cls, tokens[p].text) && s.line[p] == tokens[p].line)
  {
    hide SymbolOf, IsName, Marks, Signs, Words;
    var y := View(cls, tokens, table).y;
    assert forall p :: 0 <= p < |tokens| ==> y[p] == SymbolOf(tokens[p].text);
    MarksSpelled(tokens, y);
    SignsSpelled(tokens, y);
    WordsSpelled(tokens, y);
  }

  lemma MarksSpelled(tokens: seq<Token>, y: seq<Symbol>)
    requires |y| == |tokens| && forall p :: 0 <= p < |tokens| ==> y[p] == SymbolOf(tokens[p].text)
    ensures Marks(tokens, y)
  {
    hide SymbolOf;
    forall p | 0 <= p < |y|
      ensures (y[p] == OpenBrace <==> Says(tokens, p, "{")) && (y[p] == CloseBrace <==> Says(tokens, p, "}"))
      ensures (y[p] == OpenParen <==> Says(tokens, p, "(")) && (y[p] == CloseParen <==> Says(tokens, p, ")"))
      ensures (y[p] == OpenBracket <==> Says(tokens, p, "[")) && (y[p] == CloseBracket <==> Says(tokens, p, "]"))
      ensures (y[p] == Semicolon <==> Says(tokens, p, ";")) && (y[p] == Hash <==> Says(tokens, p, "#"))
    {
      MarkSymbols(tokens[p].text);
    }
  }

  lemma SignsSpelled(tokens: seq<Token>, y: seq<Symbol>)
    requires |y| == |tokens| && forall p :: 0 <= p < |tokens| ==> y[p] == SymbolOf(tokens[p].text)
    ensures Signs(tokens, y)
  {
    hide SymbolOf;
    forall p | 0 <= p < |y|
      ensures (y[p] == Comma <==> Says(tokens, p, ",")) && (y[p] == Colon <==> Says(tokens, p, ":"))
      ensures (y[p] == Less <==> Says(tokens, p, "<")) && (y[p] == Greater <==> Says(tokens, p, ">"))
    {
      SignSymbols(tokens[p].text);
    }
  }

  lemma WordsSpelled(tokens: seq<Token>, y: seq<Symbol>)
    requires |y| == |tokens| && forall p :: 0 <= p < |tokens| ==> y[p] == SymbolOf(tokens[p].text)
    ensures Words(tokens, y)
  {
    hide SymbolOf;
    forall p | 0 <= p < |y|
      ensures (y[p] == CfgWord <==> Says(tokens, p, "cfg")) && (y[p] == TestWord <==> Says(tokens, p, "test"))
      ensures (y[p] == PubWord <==> Says(tokens, p, "pub")) && (y[p] == MutWord <==> Says(tokens, p, "mut"))
      ensures (y[p] == StructWord <==> Says(tokens, p, "struct")) && (y[p] == ModWord <==> Says(tokens, p, "mod"))
    {
      WordSymbols(tokens[p].text);
    }
  }
}
