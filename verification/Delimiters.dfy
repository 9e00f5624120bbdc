/** Delimiter matching over Rust tokens (scripts/coverage_rust_ledger.py). */
module Delimiters {
  import opened Results
  import opened RustTokenizer

  datatype Delimiter = Brace | Paren | Bracket

  function Opens(t: Token): (r: Option<Delimiter>) {
    if t.text == "{" then Some(Brace) else if t.text == "(" then Some(Paren)
    else if t.text == "[" then Some(Bracket) else None
  }

  function Closes(t: Token): (r: Option<Delimiter>)
    ensures r.Some? ==> Opens(t).None?
  {
    if t.text == "}" then Some(Brace) else if t.text == ")" then Some(Paren)
    else if t.text == "]" then Some(Bracket) else None
  }

  // ----- the grammar of balanced token streams

  datatype Forest =
    | Empty
    | Plain(t: Token, rest: Forest)
    | Group(open: Token, inner: Forest, close: Token, rest: Forest)

  ghost function Yield(f: Forest): (r: seq<Token>) {
    match f
    case Empty => []
    case Plain(t, rest) => [t] + Yield(rest)
    case Group(open, inner, close, rest) => [open] + Yield(inner) + [close] + Yield(rest)
  }

  ghost predicate Matched(f: Forest) {
    match f
    case Empty => true
    case Plain(t, rest) => Opens(t).None? && Closes(t).None? && Matched(rest)
    case Group(open, inner, close, rest) =>
      Opens(open).Some? && Opens(open) == Closes(close) && Matched(inner) && Matched(rest)
  }

  ghost predicate Balanced(tokens: seq<Token>) {
    exists f :: Matched(f) && Yield(f) == tokens
  }

  /** `text` is balanced up to `tail`, which closes everything in `open`. */
  ghost predicate Fits(text: seq<Token>, f: Forest, tail: seq<Token>, open: seq<Delimiter>)
    decreases |open|, 1
  {
    Matched(f) && text == Yield(f) + tail && Tail(tail, open)
  }

  ghost predicate Tail(tail: seq<Token>, open: seq<Delimiter>)
    decreases |open|, 0
  {
    if open == [] then tail == [] else
      tail != [] && Closes(tail[0]) == Some(open[|open| - 1]) && Resumes(tail[1..], open[..|open| - 1])
  }

  /** `text` closes everything in `open`, innermost last, and nothing else. */
  ghost predicate Resumes(text: seq<Token>, open: seq<Delimiter>)
    decreases |open|, 2
  {
    exists f, tail :: Fits(text, f, tail, open)
  }

  lemma ResumesNothing(text: seq<Token>)
    ensures Resumes(text, []) <==> Balanced(text)
  {
    if f :| Matched(f) && Yield(f) == text {
      assert Yield(f) + [] == Yield(f);
      assert Fits(text, f, [], []);
    }
    if f, tail :| Fits(text, f, tail, []) {
      assert Tail(tail, []);
      assert Yield(f) + [] == Yield(f);
    }
  }

  lemma ResumesEmpty(open: seq<Delimiter>)
    ensures Resumes([], open) <==> open == []
  {
    if open == [] {
      assert Tail([], []);
      assert Fits([], Empty, [], []);
    }
    if f, tail :| Fits([], f, tail, open) {
      assert Tail(tail, open);
    }
  }

  /** Reading an ordinary token changes nothing that is open. */
  lemma PlainStep(text: seq<Token>, open: seq<Delimiter>)
    requires text != [] && Opens(text[0]).None? && Closes(text[0]).None?
    ensures Resumes(text, open) <==> Resumes(text[1..], open)
  {
    hide Opens, Closes;
    if f, tail :| Fits(text, f, tail, open) {
      assert Tail(tail, open);
      FirstOf(f, tail);
      if f.Plain? {
        assert text[1..] == Yield(f.rest) + tail;
        assert Fits(text[1..], f.rest, tail, open);
        assert Resumes(text[1..], open);
      }
    }
    if f, tail :| Fits(text[1..], f, tail, open) {
      PlainOut(text, open, f, tail);
    }
  }

  lemma PlainOut(text: seq<Token>, open: seq<Delimiter>, f: Forest, tail: seq<Token>)
    requires text != [] && Opens(text[0]).None? && Closes(text[0]).None? && Fits(text[1..], f, tail, open)
    ensures Resumes(text, open)
  {
    hide Opens, Closes;
    var g := Plain(text[0], f);
    assert text == [text[0]] + text[1..];
    assert Fits(text, g, tail, open);
  }

  /** What a balanced part and its tail begin with. */
  lemma FirstOf(f: Forest, tail: seq<Token>)
    requires Matched(f) && Yield(f) + tail != []
    ensures f.Empty? ==> Yield(f) + tail == tail
    ensures f.Plain? ==> (Yield(f) + tail)[0] == f.t
    ensures f.Group? ==> (Yield(f) + tail)[0] == f.open
  {
  }

  lemma GroupIn(text: seq<Token>, open: seq<Delimiter>, f: Forest, tail: seq<Token>)
    requires f.Group? && Fits(text, f, tail, open)
    ensures text[0] == f.open && Resumes(text[1..], open + [Opens(f.open).value])
  {
    hide Opens, Closes;
    var later := Yield(f.rest) + tail;
    assert Fits(later, f.rest, tail, open);
    var more := open + [Opens(f.open).value];
    assert more[..|open|] == open;
    assert ([f.close] + later)[1..] == later;
    assert Tail([f.close] + later, more);
    assert text[1..] == Yield(f.inner) + ([f.close] + later);
    assert Fits(text[1..], f.inner, [f.close] + later, more);
  }

  lemma Regrouped(text: seq<Token>, inner: seq<Token>, tail: seq<Token>, rest: seq<Token>, end: seq<Token>)
    requires text != [] && tail != [] && text[1..] == inner + tail && tail[1..] == rest + end
    ensures text == [text[0]] + inner + [tail[0]] + rest + end
  {
    assert tail == [tail[0]] + (rest + end);
  }

  lemma GroupOut(text: seq<Token>, open: seq<Delimiter>, inner: Forest, tail: seq<Token>, f: Forest, end: seq<Token>)
    requires text != [] && tail != [] && Matched(inner) && text[1..] == Yield(inner) + tail
    requires Opens(text[0]).Some? && Closes(tail[0]) == Opens(text[0]) && Fits(tail[1..], f, end, open)
    ensures Resumes(text, open)
  {
    hide Opens, Closes, Tail;
    var g := Group(text[0], inner, tail[0], f);
    Regrouped(text, Yield(inner), tail, Yield(f), end);
    assert Fits(text, g, end, open);
  }

  /** Reading an opening token adds it to what is open. */
  lemma OpenStep(text: seq<Token>, open: seq<Delimiter>)
    requires text != [] && Opens(text[0]).Some?
    ensures Resumes(text, open) <==> Resumes(text[1..], open + [Opens(text[0]).value])
  {
    hide Opens, Closes;
    var d := Opens(text[0]).value;
    var more := open + [d];
    assert more[..|open|] == open;
    if f, tail :| Fits(text, f, tail, open) {
      assert Tail(tail, open);
      FirstOf(f, tail);
      if f.Group? {
        GroupIn(text, open, f, tail);
      }
    }
    if inner, tail :| Fits(text[1..], inner, tail, more) {
      assert Tail(tail, more);
      assert Resumes(tail[1..], open);
      var f, end :| Fits(tail[1..], f, end, open);
      GroupOut(text, open, inner, tail, f, end);
    }
  }

  /** Reading a closing token is possible only for the innermost open one. */
  lemma CloseStep(text: seq<Token>, open: seq<Delimiter>)
    requires text != [] && Closes(text[0]).Some?
    ensures Resumes(text, open) <==>
            open != [] && Closes(text[0]) == Some(open[|open| - 1]) && Resumes(text[1..], open[..|open| - 1])
  {
    hide Opens, Closes;
    if f, tail :| Fits(text, f, tail, open) {
      assert Tail(tail, open);
      FirstOf(f, tail);
    }
    if open != [] && Closes(text[0]) == Some(open[|open| - 1]) && Resumes(text[1..], open[..|open| - 1]) {
      assert Yield(Empty) + text == text;
      assert Tail(text, open);
      assert Fits(text, Empty, text, open);
    }
  }

  // ----- what a prefix leaves open

  /** After `before`, the stream is balanced exactly when what follows closes `open`. */
  ghost predicate Leaves(before: seq<Token>, open: seq<Delimiter>) {
    forall rest :: Balanced(before + rest) <==> Resumes(rest, open)
  }

  /** Something can follow that makes a balanced stream. */
  ghost predicate Extendable(before: seq<Token>) {
    exists rest :: Balanced(before + rest)
  }

  lemma LeavesNothing()
    ensures Leaves([], [])
  {
    hide Balanced, Resumes;
    forall rest
      ensures Balanced([] + rest) <==> Resumes(rest, [])
    {
      assert [] + rest == rest;
      ResumesNothing(rest);
    }
  }

  lemma LeavesOpener(before: seq<Token>, open: seq<Delimiter>, t: Token)
    requires Leaves(before, open) && Opens(t).Some?
    ensures Leaves(before + [t], open + [Opens(t).value])
  {
    hide Balanced, Resumes, Opens, Closes;
    forall rest
      ensures Balanced(before + [t] + rest) <==> Resumes(rest, open + [Opens(t).value])
    {
      assert before + [t] + rest == before + ([t] + rest) && ([t] + rest)[1..] == rest;
      OpenStep([t] + rest, open);
    }
  }

  lemma LeavesPlain(before: seq<Token>, open: seq<Delimiter>, t: Token)
    requires Leaves(before, open) && Opens(t).None? && Closes(t).None?
    ensures Leaves(before + [t], open)
  {
    hide Balanced, Resumes, Opens, Closes;
    forall rest
      ensures Balanced(before + [t] + rest) <==> Resumes(rest, open)
    {
      assert before + [t] + rest == before + ([t] + rest) && ([t] + rest)[1..] == rest;
      PlainStep([t] + rest, open);
    }
  }

  lemma LeavesCloser(before: seq<Token>, open: seq<Delimiter>, t: Token)
    requires Leaves(before, open) && Closes(t).Some?
    ensures open != [] && Closes(t) == Some(open[|open| - 1]) ==> Leaves(before + [t], open[..|open| - 1])
    ensures open == [] || Closes(t) != Some(open[|open| - 1]) ==> !Extendable(before + [t])
  {
    hide Balanced, Resumes, Opens, Closes;
    forall rest
      ensures Balanced(before + [t] + rest) <==>
              open != [] && Closes(t) == Some(open[|open| - 1]) && Resumes(rest, open[..|open| - 1])
    {
      assert before + [t] + rest == before + ([t] + rest) && ([t] + rest)[1..] == rest;
      CloseStep([t] + rest, open);
    }
  }

  function Closer(d: Delimiter): (t: Token)
    ensures Closes(t) == Some(d)
  {
    Token(match d case Brace => "}" case Paren => ")" case Bracket => "]", 0)
  }

  /** Whatever is open can be closed. */
  lemma {:induction false} CanBeClosed(open: seq<Delimiter>)
    ensures exists rest :: Resumes(rest, open)
    decreases |open|
  {
    hide Resumes, Closes;
    if open == [] {
      ResumesEmpty(open);
    } else {
      CanBeClosed(open[..|open| - 1]);
      var rest :| Resumes(rest, open[..|open| - 1]);
      var t := Closer(open[|open| - 1]);
      assert ([t] + rest)[1..] == rest;
      CloseStep([t] + rest, open);
      assert Resumes([t] + rest, open);
    }
  }

  lemma LeavesExtendable(before: seq<Token>, open: seq<Delimiter>)
    requires Leaves(before, open)
    ensures Extendable(before) && (Balanced(before) <==> open == [])
  {
    hide Balanced, Resumes;
    CanBeClosed(open);
    var rest :| Resumes(rest, open);
    assert Balanced(before + rest);
    assert before + [] == before;
    ResumesEmpty(open);
  }
}
