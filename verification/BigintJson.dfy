/**
 * Exact bigint conversion (packages/protocol-wasm/index.js). Each bigint is stringified as a
 * marked string, the marks are counted, and when the count is right the marked strings are
 * replaced by their digits.
 */
module BigintJson {
  import opened Results
  import opened JsonText
  import opened Utf16
  import opened MarkedText
  import opened BigintTokens
  import opened JsonReads
  import opened JsonParts
  import R = JsonReader

  // ----- the replacer

  /** What the replacer leaves to be stringified. */
  function Marked(v: Value, mark: Text): (r: Value)
    ensures r.Absent? <==> v.Absent?
    decreases v, 1
  {
    match v
    case BigInt(i) => Str(mark + Decimal(i))
    case Array(items) => Array(MarkedItems(items, mark))
    case Object(members) => Object(MarkedMembers(members, mark))
    case _ => v
  }

  function MarkedItems(items: seq<Value>, mark: Text): (r: seq<Value>)
    ensures |r| == |items|
    decreases items, 0
  {
    if items == [] then [] else [Marked(items[0], mark)] + MarkedItems(items[1..], mark)
  }

  function MarkedMembers(members: seq<Member>, mark: Text): (r: seq<Member>)
    ensures |r| == |members|
    ensures forall k :: 0 <= k < |r| ==> (r[k].value.Absent? <==> members[k].value.Absent?)
    decreases members, 0
  {
    if members == [] then [] else
      [Member(members[0].key, Marked(members[0].value, mark))] + MarkedMembers(members[1..], mark)
  }

  // ----- tokens

  function MarkToken(t: Token, mark: Text): (r: Token) {
    if t.Big? then Quoted(mark + Decimal(t.i)) else t
  }

  /** The tokens after the replacer: a bigint has become a marked string. */
  function MarkTokens(ts: seq<Token>, mark: Text): (r: seq<Token>)
    ensures |r| == |ts|
  {
    if ts == [] then [] else [MarkToken(ts[0], mark)] + MarkTokens(ts[1..], mark)
  }

  lemma {:induction false} MarkTokensConcat(a: seq<Token>, b: seq<Token>, mark: Text)
    ensures MarkTokens(a + b, mark) == MarkTokens(a, mark) + MarkTokens(b, mark)
  {
    hide MarkToken;
    if a == [] {
      assert a + b == b;
    } else {
      assert (a + b)[1..] == a[1..] + b;
      MarkTokensConcat(a[1..], b, mark);
    }
  }

  lemma MarkTokensKeep(t: Token, mark: Text)
    requires !t.Big?
    ensures MarkTokens([t], mark) == [t]
  {
  }

  /** Marking the value and marking its tokens come to the same. */
  lemma {:induction false} TokensOfMarked(v: Value, mark: Text)
    requires IsMark(mark)
    ensures Tokens(Marked(v, mark)) == MarkTokens(Tokens(v), mark)
    decreases v, 1
  {
    match v
    case BigInt(i) =>
    case Array(items) =>
      ItemTokensOfMarked(items, mark);
      EncloseMarked(Sym(OpenArray), ItemTokens(items), Sym(CloseArray), mark);
    case Object(members) =>
      MemberTokensOfMarked(members, mark);
      EncloseMarked(Sym(OpenObject), MemberTokens(members), Sym(CloseObject), mark);
    case Null => MarkTokensKeep(Sym(NullWord), mark);
    case Boolean(b) => MarkTokensKeep(Sym(if b then TrueWord else FalseWord), mark);
    case Num(n) => MarkTokensKeep(if n.NotFinite? then Sym(NullWord) else NumberText(n.text), mark);
    case Str(s) => MarkTokensKeep(Quoted(s), mark);
    case Absent =>
  }

  lemma EncloseMarked(open: Token, ts: seq<Token>, close: Token, mark: Text)
    requires !open.Big? && !close.Big?
    ensures MarkTokens([open] + ts + [close], mark) == [open] + MarkTokens(ts, mark) + [close]
  {
    MarkTokensConcat([open] + ts, [close], mark);
    MarkTokensConcat([open], ts, mark);
    MarkTokensKeep(open, mark);
    MarkTokensKeep(close, mark);
  }

  lemma {:induction false} ItemTokensOfMarked(items: seq<Value>, mark: Text)
    requires IsMark(mark)
    ensures ItemTokens(MarkedItems(items, mark)) == MarkTokens(ItemTokens(items), mark)
    decreases items, 0
  {
    if items != [] {
      var first := if items[0].Absent? then [Sym(NullWord)] else Tokens(items[0]);
      var comma := if |items| == 1 then [] else [Sym(Comma)];
      TokensOfMarked(items[0], mark);
      ItemTokensOfMarked(items[1..], mark);
      MarkTokensKeep(Sym(NullWord), mark);
      MarkTokensKeep(Sym(Comma), mark);
      MarkTokensConcat(first + comma, ItemTokens(items[1..]), mark);
      MarkTokensConcat(first, comma, mark);
      hide Tokens, MarkTokens, Marked;
      var marked := MarkedItems(items, mark);
      assert marked[0] == Marked(items[0], mark) && marked[1..] == MarkedItems(items[1..], mark);
    }
  }

  lemma {:induction false} MemberTokensOfMarked(members: seq<Member>, mark: Text)
    requires IsMark(mark)
    ensures MemberTokens(MarkedMembers(members, mark)) == MarkTokens(MemberTokens(members), mark)
    decreases members, 0
  {
    if members != [] {
      var value, rest := members[0].value, members[1..];
      MemberTokensOfMarked(rest, mark);
      if !value.Absent? {
        TokensOfMarked(value, mark);
        var key: seq<Token> := [Quoted(members[0].key), Sym(Colon)];
        var comma := if AnyPresent(rest) then [Sym(Comma)] else [];
        assert key == [Quoted(members[0].key)] + [] + [Sym(Colon)];
        EncloseMarked(Quoted(members[0].key), [], Sym(Colon), mark);
        MarkTokensKeep(Sym(Comma), mark);
        MarkTokensConcat(key + Tokens(value) + comma, MemberTokens(rest), mark);
        MarkTokensConcat(key + Tokens(value), comma, mark);
        MarkTokensConcat(key, Tokens(value), mark);
      }
      hide Tokens, MarkTokens, Marked;
      var marked := MarkedMembers(members, mark);
      assert marked[1..] == MarkedMembers(rest, mark);
      assert AnyPresent(marked[1..]) <==> AnyPresent(rest);
    }
  }

  // ----- counting and replacing over tokens

  lemma MentionsStep(ts: seq<Token>, mark: Text)
    requires ts != []
    ensures Mentions(ts, mark) <==> (ts[0].Quoted? && Contains(ts[0].s, mark)) || Mentions(ts[1..], mark)
  {
    if k :| 0 <= k < |ts[1..]| && ts[1..][k].Quoted? && Contains(ts[1..][k].s, mark) {
      assert ts[k + 1] == ts[1..][k];
    }
    if k :| 0 <= k < |ts| && ts[k].Quoted? && Contains(ts[k].s, mark) {
      assert k > 0 ==> ts[k] == ts[1..][k - 1];
    }
  }

  lemma UnquotedIsSilent(t: Token)
    requires t.Sym? || (t.NumberText? && IsNumberText(t.text))
    ensures QUOTE !in TokenText(t) && LETTER_G !in TokenText(t)
  {
  }

  /** The marks in the text are the bigints' own, and more exactly when the caller brought some. */
  lemma {:induction false} MarksAccountedFor(ts: seq<Token>, mark: Text)
    requires IsMark(mark) && NumbersHaveNumberText(ts)
    ensures var count := SplitCount(Flatten(MarkTokens(ts, mark)), mark);
            count >= BigTokens(ts) && (count == BigTokens(ts) <==> !Mentions(ts, mark))
  {
    if ts != [] {
      MarkIsPlain(mark);
      var rest := Flatten(MarkTokens(ts[1..], mark));
      MarksAccountedFor(ts[1..], mark);
      MentionsStep(ts, mark);
      match ts[0]
      case Quoted(s) =>
        QuotedCount(Escape(s), rest, mark);
        CountsNoneExactlyWhenAbsent(Escape(s), mark);
        EscapeKeepsMarks(s, mark);
      case Big(i) =>
        MarkedStringIsPlain(i, mark);
        QuotedCount(mark + Decimal(i), rest, mark);
        MarkedDigitsCountOnce(i, mark);
      case t =>
        UnquotedIsSilent(t);
        CountAfter(TokenText(t), rest, mark);
    }
  }

  lemma {:induction false} NoTokenBeginsWithG(ts: seq<Token>, mark: Text)
    requires NumbersHaveNumberText(ts)
    ensures var text := Flatten(MarkTokens(ts, mark)); text == [] || text[0] != LETTER_G
  {
    if ts != [] {
      NoTokenBeginsWithG(ts[1..], mark);
      if ts[0].Sym? || ts[0].NumberText? {
        UnquotedIsSilent(ts[0]);
      }
    }
  }

  /** When no caller string holds the mark, replacing turns the marked text into the exact one. */
  lemma {:induction false} SpliceTokens(ts: seq<Token>, mark: Text)
    requires IsMark(mark) && NumbersHaveNumberText(ts) && !Mentions(ts, mark)
    ensures Splice(Flatten(MarkTokens(ts, mark)), mark) == Flatten(ts)
  {
    if ts != [] {
      hide Splice, TokenText, Mentions, Contains, IsMark, IsNumberText, MarkToken;
      var marked := MarkTokens(ts, mark);
      assert marked[0] == MarkToken(ts[0], mark) && marked[1..] == MarkTokens(ts[1..], mark);
      NoTokenBeginsWithG(ts[1..], mark);
      MentionsStep(ts, mark);
      SpliceTokens(ts[1..], mark);
      SpliceToken(ts[0], Flatten(MarkTokens(ts[1..], mark)), mark);
    }
  }

  /** One token: a bigint loses its quotes and mark, everything else stays. */
  lemma SpliceToken(t: Token, rest: Text, mark: Text)
    requires IsMark(mark) && (t.NumberText? ==> IsNumberText(t.text)) && (t.Quoted? ==> !Contains(t.s, mark))
    requires rest == [] || rest[0] != LETTER_G
    ensures Splice(TokenText(MarkToken(t, mark)) + rest, mark) == TokenText(t) + Splice(rest, mark)
  {
    hide Splice, Escape, Decimal, IsMark, Contains;
    match t
    case Quoted(s) =>
      EscapeKeepsMarks(s, mark);
      SpliceQuoted(Escape(s), rest, mark);
    case Big(i) =>
      MarkedStringIsPlain(i, mark);
      SpliceBig(i, rest, mark);
    case Sym(_) =>
      UnquotedIsSilent(t);
      SpliceCopies(TokenText(t), rest, mark);
    case NumberText(_) =>
      UnquotedIsSilent(t);
      SpliceCopies(TokenText(t), rest, mark);
  }

  lemma {:induction false} NothingToMark(ts: seq<Token>, mark: Text)
    requires BigTokens(ts) == 0
    ensures MarkTokens(ts, mark) == ts
  {
    if ts != [] {
      NothingToMark(ts[1..], mark);
    }
  }

  // ----- the conversion

  datatype Refusal = NotWellFormed | NumberRefused | NotJson | NotConverted

  /** One attempt: its count shows whether it collided, and without a collision it is exact. */
  lemma AttemptIsExact(v: Value, mark: Text)
    requires IsMark(mark) && NumbersHaveNumberText(Tokens(v)) && !v.Absent?
    ensures var ts, text := Tokens(v), Stringify(Marked(v, mark)).value;
            && (BigTokens(ts) == 0 ==> text == Flatten(ts))
            && (SplitCount(text, mark) == BigTokens(ts) <==> !Mentions(ts, mark))
            && (!Mentions(ts, mark) ==> Splice(text, mark) == Flatten(ts))
  {
    var ts := Tokens(v);
    TokensOfMarked(v, mark);
    if BigTokens(ts) == 0 {
      NothingToMark(ts, mark);
    }
    MarksAccountedFor(ts, mark);
    if !Mentions(ts, mark) {
      SpliceTokens(ts, mark);
    }
  }

  /** What the conversion promises, without marks: the exact text, or the reason for a refusal. */
  ghost function Promise(v: Value, marks: seq<Text>): (r: Result<Text, Refusal>) {
    if v.Str? then (if IsWellFormed(v.s) then Ok(v.s) else Err(NotWellFormed))
    else if HasRefused(v) then Err(NumberRefused)
    else if v.Absent? then Err(NotJson)
    else if BigTokens(Tokens(v)) == 0 || exists k :: 0 <= k < |marks| && !Mentions(Tokens(v), marks[k]) then
      Ok(Flatten(Tokens(v)))
    else Err(NotConverted)
  }

  /** What the promise comes to, in terms of the value and of what its JSON text means. */
  lemma PromiseExactly(v: Value, marks: seq<Text>)
    requires !v.Str?
    ensures var r := Promise(v, marks);
            && (r == Err(NumberRefused) <==> HoldsInexact(v))
            && (r == Err(NotJson) <==> v.Absent?)
            && (r == Err(NotConverted) <==>
                  && !HoldsInexact(v) && !v.Absent? && HoldsBigint(v)
                  && forall k :: 0 <= k < |marks| ==> Speaks(Meant(v), marks[k]))
            && r != Err(NotWellFormed)
            && (r.Ok? && NumbersAreNumbers(Tokens(v)) ==> R.ReadJson(r.value) == Some(Meant(v)))
  {
    hide Tokens, Flatten, HasRefused, HoldsInexact, HoldsBigint, Speaks, Mentions, BigTokens, NumbersAreNumbers, R.ReadJson, Meant;
    RefusedExactly(v);
    BigExactly(v);
    if v.Absent? {
      AbsentIsExact(v);
    }
    forall k | 0 <= k < |marks|
      ensures Mentions(Tokens(v), marks[k]) <==> !v.Absent? && Speaks(Meant(v), marks[k])
    {
      MentionsExactly(v, marks[k]);
    }
    if !v.Absent? && NumbersAreNumbers(Tokens(v)) {
      TextReads(v);
    }
  }

  lemma AbsentIsExact(v: Value)
    requires v.Absent?
    ensures !HoldsInexact(v)
  {
  }

  /**
   * The conversion, with the four random marks it may draw. A string is passed on when it is well
   * formed; anything else is refused for its numbers, for being no JSON value, or for colliding with
   * every mark, and otherwise becomes a text that a JSON reader reads as exactly what it means.
   */
  method ToJson(v: Value, marks: seq<Text>) returns (r: Result<Text, Refusal>)
    requires |marks| == 4 && forall k :: 0 <= k < 4 ==> IsMark(marks[k])
    requires NumbersHaveNumberText(Tokens(v))
    ensures v.Str? ==> r == if SurrogatesPaired(v.s) then Ok(v.s) else Err(NotWellFormed)
    ensures !v.Str? ==> (r == Err(NumberRefused) <==> HoldsInexact(v)) && (r == Err(NotJson) <==> v.Absent?)
    ensures !v.Str? ==> (r == Err(NotConverted) <==>
              && !HoldsInexact(v) && !v.Absent? && HoldsBigint(v)
              && forall k :: 0 <= k < 4 ==> Speaks(Meant(v), marks[k]))
    ensures !v.Str? && r.Ok? && NumbersAreNumbers(Tokens(v)) ==> R.ReadJson(r.value) == Some(Meant(v))
    ensures !v.Str? ==> r != Err(NotWellFormed) && r == Promise(v, marks)
  {
    hide Tokens, Marked, Flatten, SplitCount, Splice, BigTokens, Mentions, HasRefused, IsWellFormed, NumbersHaveNumberText,
         SurrogatesPaired, HoldsInexact, HoldsBigint, Speaks, Meant, R.ReadJson, NumbersAreNumbers;
    if v.Str? {
      WellFormedExactly(v.s);
      return if IsWellFormed(v.s) then Ok(v.s) else Err(NotWellFormed);
    }
    PromiseExactly(v, marks);
    ghost var ts := Tokens(v);
    for attempt := 0 to 4
      invariant attempt > 0 ==> !HasRefused(v) && !v.Absent? && BigTokens(ts) > 0
      invariant forall k :: 0 <= k < attempt ==> Mentions(ts, marks[k])
    {
      var mark := marks[attempt];
      if HasRefused(v) {
        return Err(NumberRefused);
      }
      var bigints := BigTokens(Tokens(v));
      var text := Stringify(Marked(v, mark));
      if text.None? {
        return Err(NotJson);
      }
      AttemptIsExact(v, mark);
      if bigints == 0 {
        return Ok(text.value);
      }
      if SplitCount(text.value, mark) == bigints {
        return Ok(Splice(text.value, mark));
      }
    }
    return Err(NotConverted);
  }
}
