/** Which tokens and lines a `#[cfg(test)]` attribute takes with it (scripts/coverage_rust_ledger.py). */
module CfgOutcome {
  import opened Results
  import opened CfgSpans

  datatype SpanKind = MemberSpan | ElementSpan | ItemSpan

  /** Tokens `start` to `last`; `declares` is the position of an out-of-line module's name. */
  datatype Span = Span(kind: SpanKind, start: nat, last: nat, declares: Option<nat>)

  datatype Fault = AmbiguousMember | AmbiguousInitializer | AmbiguousExpression | AmbiguousItem | AmbiguousModule

  // ----- members

  /** Past any further attributes. */
  function SkipAttributes(s: Stream, m: nat): (r: nat)
    requires Valid(s)
    ensures m <= r
    decreases |s.y| - m
  {
    if m + 1 < |s.y| && s.y[m] == Hash && s.y[m + 1] == OpenBracket then SkipAttributes(s, s.table.close[m + 1] + 1) else m
  }

  /** Past `pub`, with or without a parenthesised scope. */
  function SkipVisibility(s: Stream, m: nat): (r: nat)
    requires Valid(s)
    ensures m <= r
  {
    if m < |s.y| && s.y[m] == PubWord then
      if m + 1 < |s.y| && s.y[m + 1] == OpenParen then s.table.close[m + 1] + 1 else m + 1
    else m
  }

  /** Where the name of a field or parameter would stand. */
  function NamePosition(s: Stream, m: nat): (r: nat)
    requires Valid(s)
    ensures m <= r
  {
    var v := SkipVisibility(s, SkipAttributes(s, m));
    if v < |s.y| && s.y[v] == MutWord then v + 1 else v
  }

  /** A name and a single colon: a field, parameter or initializer. */
  predicate Named(s: Stream, p: nat)
    requires Valid(s)
  {
    var m := NamePosition(s, p + 7);
    m + 2 < |s.y| && s.name[m] && s.y[m + 1] == Colon && s.y[m + 2] != Colon
  }

  /** The braces at `c` belong to a `struct` at `k`. */
  ghost predicate StructAt(s: Stream, c: nat, k: nat)
    requires c < |s.y|
  {
    k < c && s.y[k] == StructWord && forall j :: k < j < c ==> s.y[j] !in {OpenBrace, CloseBrace, Semicolon}
  }

  /** In parentheses, or in the braces of a struct, `<` belongs to a type. */
  ghost predicate Typed(s: Stream, c: nat)
    requires c < |s.y|
  {
    s.y[c] == OpenParen || (s.y[c] == OpenBrace && exists k: nat :: StructAt(s, c, k))
  }

  // ----- commas at the top level of a container

  /** `<` opens a list of type arguments: always among types, after `::` among expressions. */
  predicate OpensAngle(s: Stream, types: bool, q: nat, depth: nat)
    requires q < |s.y|
  {
    types || depth > 0 || (q >= 2 && s.y[q - 1] == Colon && s.y[q - 2] == Colon)
  }

  /** Open angle brackets before `q`, counted over the tokens directly in container `c` from `from` on. */
  function Angle(s: Stream, c: nat, types: bool, from: nat, q: nat): (r: nat)
    requires from <= q <= |s.y|
    decreases q
  {
    if q == from then 0 else
      var depth := Angle(s, c, types, from, q - 1);
      if s.Container(q - 1) != Some(c) then depth
      else if s.y[q - 1] == Less && OpensAngle(s, types, q - 1, depth) then depth + 1
      else if s.y[q - 1] == Greater && depth > 0 then depth - 1
      else depth
  }

  /** A comma directly in the container and outside angle brackets. */
  predicate Separates(s: Stream, c: nat, types: bool, from: nat, q: nat)
    requires from <= q < |s.y|
  {
    s.Container(q) == Some(c) && s.y[q] == Comma && Angle(s, c, types, from, q) == 0
  }

  /** `e` is the first separating comma from `from` on, or the end of the container. */
  ghost predicate EndsAt(s: Stream, c: nat, types: bool, from: nat, limit: nat, e: nat)
    requires limit < |s.y|
  {
    && from <= e <= limit
    && (forall q :: from <= q < e ==> !Separates(s, c, types, from, q))
    && (e < limit ==> Separates(s, c, types, from, e))
  }

  lemma EndIsUnique(s: Stream, c: nat, types: bool, from: nat, limit: nat, a: nat, b: nat)
    requires limit < |s.y| && EndsAt(s, c, types, from, limit, a) && EndsAt(s, c, types, from, limit, b)
    ensures a == b
  {
    assert a < limit ==> Separates(s, c, types, from, a);
    assert b < limit ==> Separates(s, c, types, from, b);
  }

  /** A `<` directly in the container, before `e`. */
  ghost predicate Compares(s: Stream, c: nat, from: nat, e: nat)
    requires e <= |s.y|
  {
    exists k :: from <= k < e && s.Container(k) == Some(c) && s.y[k] == Less
  }

  ghost function MemberResult(s: Stream, p: nat, c: nat, from: nat, e: nat): (r: Result<Span, Fault>)
    requires c < |s.y| && c in s.table.close && from <= e <= s.table.close[c] < |s.y| && from > 0
  {
    if !Typed(s, c) && Compares(s, c, from, e) then Err(AmbiguousInitializer)
    else if Angle(s, c, true, from, e) > 0 then Err(AmbiguousMember)
    else Ok(Span(MemberSpan, p, if e < s.table.close[c] then e else e - 1, None))
  }

  ghost function ElementResult(s: Stream, p: nat, c: nat, e: nat): (r: Result<Span, Fault>)
    requires p + 7 <= e <= |s.y|
  {
    if Angle(s, c, false, p + 7, e) > 0 || e == p + 7 then Err(AmbiguousExpression)
    else Ok(Span(ElementSpan, p, e, None))
  }

  // ----- items

  /** Openers minus closers between `a` and `b`. */
  function Balance(y: seq<Symbol>, open: Symbol, close: Symbol, a: nat, b: nat): (r: int)
    requires a <= b <= |y|
    decreases b
  {
    if a == b then 0 else
      Balance(y, open, close, a, b - 1) + if y[b - 1] == open then 1 else if y[b - 1] == close then -1 else 0
  }

  /** A `{` or `;` outside the parentheses and brackets opened since `from`. */
  predicate Stops(y: seq<Symbol>, from: nat, q: nat)
    requires from <= q < |y|
  {
    && (y[q] == OpenBrace || y[q] == Semicolon)
    && Balance(y, OpenParen, CloseParen, from, q) == 0
    && Balance(y, OpenBracket, CloseBracket, from, q) == 0
  }

  ghost predicate FirstStop(y: seq<Symbol>, from: nat, b: nat) {
    from <= b < |y| && Stops(y, from, b) && forall q :: from <= q < b ==> !Stops(y, from, q)
  }

  ghost predicate NeverStops(y: seq<Symbol>, from: nat) {
    forall q :: from <= q < |y| ==> !Stops(y, from, q)
  }

  /** The first `mod` between `a` and `b`. */
  ghost predicate FirstMod(y: seq<Symbol>, a: nat, b: nat, k: nat)
    requires b <= |y|
  {
    a <= k < b && y[k] == ModWord && forall j :: a <= j < k ==> y[j] != ModWord
  }

  ghost predicate NoMod(y: seq<Symbol>, a: nat, b: nat)
    requires b <= |y|
  {
    forall j :: a <= j < b ==> y[j] != ModWord
  }

  /** What an item ending in `;` at `b` comes to when its first `mod` is at `k`. */
  ghost predicate ModuleResult(s: Stream, p: nat, b: nat, k: nat, r: Result<Span, Fault>)
    requires b <= |s.y|
  {
    && FirstMod(s.y, p + 7, b, k)
    && r == if k + 1 >= b then Err(AmbiguousModule) else Ok(Span(ItemSpan, p, b, Some(k + 1)))
  }

  /** What the item that stops at `b` comes to. */
  ghost predicate ItemResult(s: Stream, p: nat, b: nat, r: Result<Span, Fault>)
    requires Valid(s) && p + 7 <= b < |s.y|
  {
    if s.y[b] == OpenBrace then r == Ok(Span(ItemSpan, p, s.table.close[b], None))
    else if NoMod(s.y, p + 7, b) then r == Ok(Span(ItemSpan, p, b, None))
    else exists k: nat :: ModuleResult(s, p, b, k, r)
  }

  // ----- the outcome of one attribute

  /** The attribute's container is a pair of parentheses or brackets. */
  predicate InList(s: Stream, p: nat)
    requires Valid(s)
  {
    var c := s.Container(p);
    c.Some? && c.value < |s.y| && (s.y[c.value] == OpenParen || s.y[c.value] == OpenBracket)
  }

  /** `r` is what a member comes to whose body starts at `from` and ends at `e`. */
  ghost predicate MemberEnds(s: Stream, p: nat, from: nat, e: nat, r: Result<Span, Fault>) {
    && Within(s, p) && 0 < from && s.Container(p).value < |s.y| && Limit(s, p) < |s.y|
    && EndsAt(s, s.Container(p).value, true, from, Limit(s, p), e)
    && r == MemberResult(s, p, s.Container(p).value, from, e)
  }

  ghost predicate MemberOutcome(s: Stream, p: nat, from: nat, r: Result<Span, Fault>) {
    if s.Container(p).None? then r == Err(AmbiguousMember) else exists e: nat :: MemberEnds(s, p, from, e, r)
  }

  /** `r` is what an argument or element comes to that ends at `e`. */
  ghost predicate ElementEnds(s: Stream, p: nat, e: nat, r: Result<Span, Fault>) {
    && Within(s, p) && s.Container(p).value < |s.y| && Limit(s, p) < |s.y|
    && EndsAt(s, s.Container(p).value, false, p + 7, Limit(s, p), e)
    && r == ElementResult(s, p, s.Container(p).value, e)
  }

  ghost predicate ElementOutcome(s: Stream, p: nat, r: Result<Span, Fault>) {
    exists e: nat :: ElementEnds(s, p, e, r)
  }

  /** `r` is what an item comes to whose body or semicolon is at `b`. */
  ghost predicate ItemStops(s: Stream, p: nat, b: nat, r: Result<Span, Fault>)
    requires Valid(s)
  {
    FirstStop(s.y, p + 7, b) && ItemResult(s, p, b, r)
  }

  ghost predicate ItemOutcome(s: Stream, p: nat, r: Result<Span, Fault>)
    requires Valid(s)
  {
    || (NeverStops(s.y, p + 7) && r == Err(AmbiguousItem))
    || exists b: nat :: ItemStops(s, p, b, r)
  }

  ghost predicate Outcome(s: Stream, p: nat, r: Result<Span, Fault>)
    requires Valid(s) && Attribute(s.y, p)
  {
    if Named(s, p) then MemberOutcome(s, p, NamePosition(s, p + 7) + 2, r)
    else if InList(s, p) then ElementOutcome(s, p, r)
    else ItemOutcome(s, p, r)
  }

  // ----- lines

  /** The line goes with the span: for an item always, otherwise when all its tokens do. */
  predicate Excludes(s: Stream, x: Span, l: nat)
    requires x.start < |s.line| && x.last < |s.line|
  {
    && s.line[x.start] <= l <= s.line[x.last]
    && (x.kind == ItemSpan || l !in s.table.lines
        || (s.table.lines[l].first >= x.start && s.table.lines[l].last <= x.last))
  }

  /** The set of lines a span takes with it. */
  function ExcludedLines(s: Stream, x: Span): (r: set<nat>)
    requires x.start < |s.line| && x.last < |s.line|
    ensures forall l :: l in r <==> Excludes(s, x, l)
  {
    set l: nat | s.line[x.start] <= l <= s.line[x.last] && Excludes(s, x, l)
  }

  // ----- the whole scan

  /** No attribute starts between `a` and `b`. */
  ghost predicate Gap(s: Stream, a: nat, b: nat) {
    forall q: nat :: a <= q < b ==> !Attribute(s.y, q)
  }

  /** `spans` are what the attributes before position `i` cover, one after the other. */
  ghost predicate Scanned(s: Stream, spans: seq<Span>, i: nat)
    requires Valid(s)
    decreases |spans|
  {
    if spans == [] then Gap(s, 0, i) else
      var x := spans[|spans| - 1];
      && x.last < i && Gap(s, x.last + 1, i)
      && Attribute(s.y, x.start) && Outcome(s, x.start, Ok(x))
      && Scanned(s, spans[..|spans| - 1], x.start)
  }
}
