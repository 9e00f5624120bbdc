/** Skipping nested block comments by counting depth (scripts/coverage_rust_ledger.py). */
module RustComments {
  import opened Results
  import opened RustLexemes

  /** The text of several insides, one after the other. */
  ghost function TextAll(xs: seq<Inside>): (r: string)
    ensures xs != [] ==> |r| >= 2
  {
    if xs == [] then [] else Text(xs[0]) + TextAll(xs[1..])
  }

  ghost predicate ProperAll(xs: seq<Inside>) {
    forall k :: 0 <= k < |xs| ==> Proper(xs[k])
  }

  /** `xs` spells the text from `i` to `e`, which closes `|xs|` open comments. */
  ghost predicate Spells(s: string, i: nat, xs: seq<Inside>, e: nat) {
    i <= e <= |s| && ProperAll(xs) && TextAll(xs) == s[i..e]
  }

  /** Some text from `i` to `e` closes `depth` open comments. */
  ghost predicate Closes(s: string, i: nat, depth: nat, e: nat) {
    exists xs :: |xs| == depth && Spells(s, i, xs, e)
  }

  /** The depth-counting loop finds the matching close, and fails only when there is none. */
  method SkipBlockComment(s: string, i: nat) returns (r: Option<nat>)
    requires Two(s, i, '/', '*')
    ensures forall e: nat :: BlockComment(s, i, e) <==> r == Some(e)
  {
    hide Closes, BlockComment;
    var depth, cursor := 1, i + 2;
    while cursor < |s| && depth > 0
      invariant cursor <= |s|
      invariant forall e: nat :: Closes(s, i + 2, 1, e) <==> Closes(s, cursor, depth, e)
    {
      ghost var c, d := cursor, depth;
      if Two(s, cursor, '/', '*') {
        depth, cursor := depth + 1, cursor + 2;
      } else if Two(s, cursor, '*', '/') {
        depth, cursor := depth - 1, cursor + 2;
      } else {
        cursor := cursor + 1;
      }
      forall e: nat
        ensures Closes(s, c, d, e) <==> Closes(s, cursor, depth, e)
      {
        ClosesStep(s, c, d, e);
      }
    }
    forall e: nat
      ensures BlockComment(s, i, e) <==> Closes(s, i + 2, 1, e)
      ensures Closes(s, cursor, depth, e) <==> depth == 0 && e == cursor
    {
      OneComment(s, i, e);
      AtTheEnd(s, cursor, depth, e);
    }
    r := if depth > 0 then None else Some(cursor);
  }

  lemma OneComment(s: string, i: nat, e: nat)
    requires Two(s, i, '/', '*')
    ensures BlockComment(s, i, e) <==> Closes(s, i + 2, 1, e)
  {
    if BlockComment(s, i, e) {
      var x :| Proper(x) && Text(x) == s[i + 2..e];
      assert TextAll([x]) == Text(x);
      assert Spells(s, i + 2, [x], e);
    }
    if Closes(s, i + 2, 1, e) {
      var xs :| |xs| == 1 && Spells(s, i + 2, xs, e);
      assert TextAll(xs) == Text(xs[0]);
    }
  }

  lemma AtTheEnd(s: string, cursor: nat, depth: nat, e: nat)
    requires cursor <= |s| && (depth == 0 || cursor == |s|)
    ensures Closes(s, cursor, depth, e) <==> depth == 0 && e == cursor
  {
    if Closes(s, cursor, depth, e) {
      var xs :| |xs| == depth && Spells(s, cursor, xs, e);
    }
    if depth == 0 && e == cursor {
      assert Spells(s, cursor, [], e);
    }
  }

  /** What one turn of the loop does to the comments that are still open. */
  lemma ClosesStep(s: string, c: nat, depth: nat, e: nat)
    requires c < |s| && depth > 0
    ensures Two(s, c, '/', '*') ==> (Closes(s, c, depth, e) <==> Closes(s, c + 2, depth + 1, e))
    ensures Two(s, c, '*', '/') ==> (Closes(s, c, depth, e) <==> Closes(s, c + 2, depth - 1, e))
    ensures !Two(s, c, '/', '*') && !Two(s, c, '*', '/') ==> (Closes(s, c, depth, e) <==> Closes(s, c + 1, depth, e))
  {
    if Closes(s, c, depth, e) {
      var xs :| |xs| == depth && Spells(s, c, xs, e);
      StepInto(s, c, xs, e);
    }
    if Two(s, c, '/', '*') {
      if Closes(s, c + 2, depth + 1, e) {
        var ys :| |ys| == depth + 1 && Spells(s, c + 2, ys, e);
        PutBackNested(s, c, ys, e);
      }
    } else if Two(s, c, '*', '/') {
      if Closes(s, c + 2, depth - 1, e) {
        var ys :| |ys| == depth - 1 && Spells(s, c + 2, ys, e);
        PutBackClose(s, c, ys, e);
      }
    } else if Closes(s, c + 1, depth, e) {
      var ys :| |ys| == depth && Spells(s, c + 1, ys, e);
      PutBackCharacter(s, c, ys, e);
    }
  }

  /** Reading one step of a proper text leaves a proper text. */
  lemma StepInto(s: string, c: nat, xs: seq<Inside>, e: nat)
    requires c < |s| && xs != [] && Spells(s, c, xs, e)
    ensures Two(s, c, '/', '*') ==> Closes(s, c + 2, |xs| + 1, e)
    ensures Two(s, c, '*', '/') ==> Closes(s, c + 2, |xs| - 1, e)
    ensures !Two(s, c, '/', '*') && !Two(s, c, '*', '/') ==> Closes(s, c + 1, |xs|, e)
  {
    assert TextAll(xs) == Text(xs[0]) + TextAll(xs[1..]);
    match xs[0]
    case Close => StepOverClose(s, c, xs[1..], e);
    case Character(x, more) => StepOverCharacter(s, c, x, more, xs[1..], e);
    case Nested(inner, more) =>
      NestedText(inner, more, xs[1..]);
      StepOverOpen(s, c, [inner] + ([more] + xs[1..]), e);
  }

  lemma TextAllCons(x: Inside, rest: seq<Inside>)
    ensures TextAll([x] + rest) == Text(x) + TextAll(rest)
  {
    assert ([x] + rest)[1..] == rest;
  }

  lemma Peel(s: string, c: nat, head: string, tail: string, e: nat)
    requires c <= e <= |s| && head + tail == s[c..e]
    ensures c + |head| <= e && s[c + |head|..e] == tail
    ensures forall k :: 0 <= k < |head| ==> s[c + k] == head[k]
  {
    assert forall k :: 0 <= k < |head| ==> s[c..e][k] == s[c + k];
    assert s[c..e][|head|..] == s[c + |head|..e];
  }

  lemma PeelTwo(s: string, c: nat, a: char, b: char, tail: string, e: nat)
    requires c <= e <= |s| && [a, b] + tail == s[c..e]
    ensures Two(s, c, a, b) && c + 2 <= e && s[c + 2..e] == tail
  {
    Peel(s, c, [a, b], tail, e);
    assert s[c + 0] == a && s[c + 1] == b;
  }

  lemma StepOverClose(s: string, c: nat, rest: seq<Inside>, e: nat)
    requires c <= e <= |s| && ProperAll(rest) && "*/" + TextAll(rest) == s[c..e]
    ensures Two(s, c, '*', '/') && Closes(s, c + 2, |rest|, e)
  {
    hide Text, TextAll;
    PeelTwo(s, c, '*', '/', TextAll(rest), e);
    assert Spells(s, c + 2, rest, e);
  }

  lemma CharacterText(x: char, more: Inside)
    requires Proper(Character(x, more))
    ensures var text := [x] + Text(more);
            && Text(Character(x, more)) == text && |text| >= 2 && Proper(more)
            && !Two(text, 0, '/', '*') && !Two(text, 0, '*', '/')
  {
  }

  lemma StepOverCharacter(s: string, c: nat, x: char, more: Inside, rest: seq<Inside>, e: nat)
    requires c <= e <= |s| && ProperAll(rest) && Proper(Character(x, more))
    requires Text(Character(x, more)) + TextAll(rest) == s[c..e]
    ensures !Two(s, c, '/', '*') && !Two(s, c, '*', '/') && Closes(s, c + 1, |rest| + 1, e)
  {
    hide Text, TextAll, Proper;
    var text := [x] + Text(more);
    CharacterText(x, more);
    var ys := [more] + rest;
    TextAllCons(more, rest);
    Peel(s, c, text, TextAll(rest), e);
    assert s[c + 0] == text[0] && s[c + 1] == text[1];
    assert [x] + TextAll(ys) == s[c..e];
    Peel(s, c, [x], TextAll(ys), e);
    assert Spells(s, c + 1, ys, e);
  }

  lemma StepOverOpen(s: string, c: nat, ys: seq<Inside>, e: nat)
    requires c <= e <= |s| && ProperAll(ys) && "/*" + TextAll(ys) == s[c..e]
    ensures Two(s, c, '/', '*') && Closes(s, c + 2, |ys|, e)
  {
    hide Text, TextAll;
    PeelTwo(s, c, '/', '*', TextAll(ys), e);
    assert Spells(s, c + 2, ys, e);
  }

  lemma NestedText(inner: Inside, more: Inside, rest: seq<Inside>)
    ensures Text(Nested(inner, more)) + TextAll(rest) == "/*" + TextAll([inner] + ([more] + rest))
  {
    hide TextAll;
    TextAllCons(more, rest);
    TextAllCons(inner, [more] + rest);
    assert Text(Nested(inner, more)) == "/*" + Text(inner) + Text(more);
  }

  lemma PutBackNested(s: string, c: nat, ys: seq<Inside>, e: nat)
    requires Two(s, c, '/', '*') && |ys| >= 2 && Spells(s, c + 2, ys, e)
    ensures Closes(s, c, |ys| - 1, e)
  {
    var rest := ys[2..];
    var xs := [Nested(ys[0], ys[1])] + rest;
    assert ys[1..][1..] == rest;
    assert TextAll(ys) == Text(ys[0]) + (Text(ys[1]) + TextAll(rest));
    assert s[c..e] == "/*" + s[c + 2..e];
    assert TextAll(xs) == s[c..e];
    assert Spells(s, c, xs, e);
  }

  lemma PutBackClose(s: string, c: nat, ys: seq<Inside>, e: nat)
    requires Two(s, c, '*', '/') && Spells(s, c + 2, ys, e)
    ensures Closes(s, c, |ys| + 1, e)
  {
    var xs := [Close] + ys;
    assert xs[1..] == ys;
    assert s[c..e] == "*/" + s[c + 2..e];
    assert Spells(s, c, xs, e);
  }

  lemma PutBackCharacter(s: string, c: nat, ys: seq<Inside>, e: nat)
    requires c < |s| && !Two(s, c, '/', '*') && !Two(s, c, '*', '/')
    requires ys != [] && Spells(s, c + 1, ys, e)
    ensures Closes(s, c, |ys|, e)
  {
    var rest := ys[1..];
    var x := Character(s[c], ys[0]);
    var xs := [x] + rest;
    assert xs[1..] == rest;
    assert s[c..e] == [s[c]] + s[c + 1..e];
    assert Text(x) + TextAll(rest) == s[c..e];
    assert Text(x)[0] == s[c] && Text(x)[1] == s[c..e][1] == s[c + 1];
    assert Spells(s, c, xs, e);
  }
}
