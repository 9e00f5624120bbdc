/** The stack pass that pairs delimiters and indexes tokens by line (scripts/coverage_rust_ledger.py). */
module DelimiterTable {
  import opened Results
  import opened RustTokenizer
  import opened Delimiters

  /** First and last token of a line. */
  datatype Extent = Extent(first: nat, last: nat)

  datatype Table = Table(close: map<nat, nat>, enclosing: map<nat, nat>, lines: map<nat, Extent>)

  /** Opener `o` is matched, and `p` lies after it, up to its closer. */
  ghost predicate Covers(close: map<nat, nat>, o: nat, p: nat) {
    o in close && o < p <= close[o]
  }

  /** `close` pairs openers with closers of their kind, and the pairs are nested. */
  ghost predicate IsMatching(tokens: seq<Token>, close: map<nat, nat>) {
    && (forall p :: 0 <= p < |tokens| && Opens(tokens[p]).Some? ==> p in close)
    && (forall o :: o in close ==>
          o < close[o] < |tokens| && Opens(tokens[o]).Some? && Opens(tokens[o]) == Closes(tokens[close[o]]))
    && (forall a, b :: a in close && b in close && a < b ==> close[a] < b || close[b] < close[a])
  }

  /** `enclosing` names the innermost pair around each position; a closer lies in its own pair. */
  ghost predicate IsEnclosing(tokens: seq<Token>, close: map<nat, nat>, enclosing: map<nat, nat>) {
    && (forall p :: p in enclosing ==> p < |tokens| && Covers(close, enclosing[p], p))
    && (forall p, o :: 0 <= p < |tokens| && Covers(close, o, p) ==> p in enclosing && o <= enclosing[p])
    && (forall p :: 0 <= p < |tokens| && Closes(tokens[p]).Some? ==>
          p in enclosing && enclosing[p] in close && close[enclosing[p]] == p)
  }

  ghost predicate OnLine(lines: map<nat, Extent>, line: nat, p: nat) {
    line in lines && lines[line].first <= p <= lines[line].last
  }

  ghost predicate IsLineIndex(tokens: seq<Token>, lines: map<nat, Extent>) {
    && (forall l :: l in lines ==>
          lines[l].first <= lines[l].last < |tokens| && tokens[lines[l].first].line == l == tokens[lines[l].last].line)
    && (forall p :: 0 <= p < |tokens| ==> OnLine(lines, tokens[p].line, p))
  }

  ghost predicate WellMatched(tokens: seq<Token>, t: Table) {
    IsMatching(tokens, t.close) && IsEnclosing(tokens, t.close, t.enclosing) && IsLineIndex(tokens, t.lines)
  }

  // ----- the pass, part way

  /** After `i` tokens an open delimiter covers everything since; a closed one up to its closer. */
  ghost predicate Holds(stack: seq<nat>, close: map<nat, nat>, o: nat, p: nat) {
    o < p && (o in stack || (o in close && p <= close[o]))
  }

  ghost predicate StackOk(tokens: seq<Token>, i: nat, stack: seq<nat>, close: map<nat, nat>)
    requires i <= |tokens|
  {
    && (forall k :: 0 <= k < |stack| ==> stack[k] < i && Opens(tokens[stack[k]]).Some? && stack[k] !in close)
    && (forall j, k :: 0 <= j < k < |stack| ==> stack[j] < stack[k])
    && (forall p :: 0 <= p < i && Opens(tokens[p]).Some? ==> p in close || p in stack)
    && (forall o :: o in close ==>
          o < close[o] < i && Opens(tokens[o]).Some? && Opens(tokens[o]) == Closes(tokens[close[o]]))
    && (forall k, o :: 0 <= k < |stack| && o in close && o < stack[k] ==> close[o] < stack[k])
    && (forall a, b :: a in close && b in close && a < b ==> close[a] < b || close[b] < close[a])
  }

  ghost predicate EnclosingOk(tokens: seq<Token>, i: nat, stack: seq<nat>, close: map<nat, nat>, enclosing: map<nat, nat>)
    requires i <= |tokens|
  {
    && (forall p :: p in enclosing ==> p < i && Holds(stack, close, enclosing[p], p))
    && (forall p, o :: 0 <= p < i && Holds(stack, close, o, p) ==> p in enclosing && o <= enclosing[p])
    && (forall p :: 0 <= p < i && Closes(tokens[p]).Some? ==>
          p in enclosing && enclosing[p] in close && close[enclosing[p]] == p)
  }

  ghost predicate LinesOk(tokens: seq<Token>, i: nat, lines: map<nat, Extent>)
    requires i <= |tokens|
  {
    && (forall l :: l in lines ==>
          lines[l].first <= lines[l].last < i && tokens[lines[l].first].line == l == tokens[lines[l].last].line)
    && (forall p :: 0 <= p < i ==> OnLine(lines, tokens[p].line, p))
  }

  function Enclose(enclosing: map<nat, nat>, stack: seq<nat>, i: nat): (r: map<nat, nat>) {
    if stack == [] then enclosing else enclosing[i := stack[|stack| - 1]]
  }

  /** At the next position exactly the open delimiters hold, and the top is the innermost. */
  lemma TopHolds(tokens: seq<Token>, i: nat, stack: seq<nat>, close: map<nat, nat>)
    requires i < |tokens| && StackOk(tokens, i, stack, close)
    ensures forall o: nat :: Holds(stack, close, o, i) ==> o in stack && o <= stack[|stack| - 1]
    ensures stack != [] ==> Holds(stack, close, stack[|stack| - 1], i)
  {
    hide Opens, Closes;
  }

  /** The stack and the pairs may change, as long as they hold the same positions so far. */
  lemma EnclosingStep(tokens: seq<Token>, i: nat, stack: seq<nat>, close: map<nat, nat>, enclosing: map<nat, nat>,
                      stack': seq<nat>, close': map<nat, nat>)
    requires i < |tokens| && StackOk(tokens, i, stack, close) && EnclosingOk(tokens, i, stack, close, enclosing)
    requires forall o: nat, p: nat :: p <= i ==> (Holds(stack', close', o, p) <==> Holds(stack, close, o, p))
    requires forall o :: o in close ==> o in close' && close'[o] == close[o]
    requires Closes(tokens[i]).Some? ==> stack != [] && stack[|stack| - 1] in close' && close'[stack[|stack| - 1]] == i
    ensures EnclosingOk(tokens, i + 1, stack', close', Enclose(enclosing, stack, i))
  {
    hide Opens, Closes, Holds, StackOk;
    TopHolds(tokens, i, stack, close);
    var enclosing' := Enclose(enclosing, stack, i);
    forall p | p in enclosing'
      ensures p < i + 1 && Holds(stack', close', enclosing'[p], p)
    {
      if p in enclosing && p != i {
        assert Holds(stack, close, enclosing[p], p);
      }
    }
    forall p, o: nat | 0 <= p < i + 1 && Holds(stack', close', o, p)
      ensures p in enclosing' && o <= enclosing'[p]
    {
      assert Holds(stack, close, o, p);
    }
  }

  lemma Push(tokens: seq<Token>, i: nat, stack: seq<nat>, close: map<nat, nat>)
    requires i < |tokens| && Opens(tokens[i]).Some? && StackOk(tokens, i, stack, close)
    ensures StackOk(tokens, i + 1, stack + [i], close)
    ensures forall o: nat, p: nat :: p <= i ==> (Holds(stack + [i], close, o, p) <==> Holds(stack, close, o, p))
  {
    hide Opens, Closes;
    var stack' := stack + [i];
    assert forall p :: p in stack' <==> p in stack || p == i;
  }

  lemma Pop(tokens: seq<Token>, i: nat, stack: seq<nat>, close: map<nat, nat>)
    requires i < |tokens| && stack != [] && Closes(tokens[i]).Some? && StackOk(tokens, i, stack, close)
    requires Opens(tokens[stack[|stack| - 1]]) == Closes(tokens[i])
    ensures var top, rest := stack[|stack| - 1], stack[..|stack| - 1];
            && StackOk(tokens, i + 1, rest, close[top := i])
            && forall o: nat, p: nat :: p <= i ==> (Holds(rest, close[top := i], o, p) <==> Holds(stack, close, o, p))
  {
    hide Opens, Closes;
    var top, rest := stack[|stack| - 1], stack[..|stack| - 1];
    assert forall p :: p in stack <==> p in rest || p == top;
    assert top !in rest;
  }

  ghost function Kinds(tokens: seq<Token>, stack: seq<nat>): (r: seq<Delimiter>)
    requires forall k :: 0 <= k < |stack| ==> stack[k] < |tokens| && Opens(tokens[stack[k]]).Some?
    ensures |r| == |stack|
  {
    seq(|stack|, k requires 0 <= k < |stack| => Opens(tokens[stack[k]]).value)
  }

  /** The stack holds openers that have been read. */
  ghost predicate OpenersOnly(tokens: seq<Token>, stack: seq<nat>) {
    forall k :: 0 <= k < |stack| ==> stack[k] < |tokens| && Opens(tokens[stack[k]]).Some?
  }

  /** What the tokens from `from` to `i` leave open is on the stack from `k` on. */
  ghost predicate LeavesFrom(tokens: seq<Token>, from: nat, i: nat, stack: seq<nat>, k: nat)
    requires OpenersOnly(tokens, stack)
  {
    from <= i <= |tokens| && k <= |stack| && Leaves(tokens[from..i], Kinds(tokens, stack[k..]))
  }

  /** The whole prefix leaves the stack open, and what follows an open delimiter leaves what is above it. */
  ghost predicate StillOpen(tokens: seq<Token>, i: nat, stack: seq<nat>)
    requires OpenersOnly(tokens, stack)
  {
    LeavesFrom(tokens, 0, i, stack, 0) && forall k: nat :: k < |stack| ==> LeavesFrom(tokens, stack[k] + 1, i, stack, k + 1)
  }

  lemma Started(tokens: seq<Token>)
    ensures StillOpen(tokens, 0, [])
  {
    hide Leaves, Opens;
    assert tokens[0..0] == [] && Kinds(tokens, [][0..]) == [];
    LeavesNothing();
  }

  lemma PushFrom(tokens: seq<Token>, from: nat, i: nat, stack: seq<nat>, k: nat)
    requires i < |tokens| && Opens(tokens[i]).Some? && OpenersOnly(tokens, stack) && LeavesFrom(tokens, from, i, stack, k)
    ensures OpenersOnly(tokens, stack + [i]) && LeavesFrom(tokens, from, i + 1, stack + [i], k)
  {
    hide Opens, Closes, Leaves;
    assert tokens[from..i + 1] == tokens[from..i] + [tokens[i]];
    assert Kinds(tokens, (stack + [i])[k..]) == Kinds(tokens, stack[k..]) + [Opens(tokens[i]).value];
    LeavesOpener(tokens[from..i], Kinds(tokens, stack[k..]), tokens[i]);
  }

  lemma PushStill(tokens: seq<Token>, i: nat, stack: seq<nat>)
    requires i < |tokens| && Opens(tokens[i]).Some? && OpenersOnly(tokens, stack) && StillOpen(tokens, i, stack)
    ensures OpenersOnly(tokens, stack + [i]) && StillOpen(tokens, i + 1, stack + [i])
  {
    hide Opens, Closes, Leaves, LeavesFrom;
    PushFrom(tokens, 0, i, stack, 0);
    forall k: nat | k < |stack| + 1
      ensures LeavesFrom(tokens, (stack + [i])[k] + 1, i + 1, stack + [i], k + 1)
    {
      if k < |stack| {
        PushFrom(tokens, stack[k] + 1, i, stack, k + 1);
      } else {
        NothingAbove(tokens, i, stack + [i]);
      }
    }
  }

  lemma NothingAbove(tokens: seq<Token>, i: nat, stack: seq<nat>)
    requires i < |tokens| && OpenersOnly(tokens, stack)
    ensures LeavesFrom(tokens, i + 1, i + 1, stack, |stack|)
  {
    hide Leaves, Opens;
    assert tokens[i + 1..i + 1] == [] && Kinds(tokens, stack[|stack|..]) == [];
    LeavesNothing();
  }

  lemma PassFrom(tokens: seq<Token>, from: nat, i: nat, stack: seq<nat>, k: nat)
    requires i < |tokens| && Opens(tokens[i]).None? && Closes(tokens[i]).None?
    requires OpenersOnly(tokens, stack) && LeavesFrom(tokens, from, i, stack, k)
    ensures LeavesFrom(tokens, from, i + 1, stack, k)
  {
    hide Opens, Closes, Leaves;
    assert tokens[from..i + 1] == tokens[from..i] + [tokens[i]];
    LeavesPlain(tokens[from..i], Kinds(tokens, stack[k..]), tokens[i]);
  }

  lemma PassStill(tokens: seq<Token>, i: nat, stack: seq<nat>)
    requires i < |tokens| && Opens(tokens[i]).None? && Closes(tokens[i]).None?
    requires OpenersOnly(tokens, stack) && StillOpen(tokens, i, stack)
    ensures StillOpen(tokens, i + 1, stack)
  {
    hide Opens, Closes, Leaves, LeavesFrom;
    PassFrom(tokens, 0, i, stack, 0);
    forall k: nat | k < |stack|
      ensures LeavesFrom(tokens, stack[k] + 1, i + 1, stack, k + 1)
    {
      PassFrom(tokens, stack[k] + 1, i, stack, k + 1);
    }
  }

  /** The closer at `i` closes the top of the stack. */
  predicate Closing(tokens: seq<Token>, i: nat, stack: seq<nat>)
    requires i < |tokens| && (stack != [] ==> stack[|stack| - 1] < |tokens|)
  {
    stack != [] && Opens(tokens[stack[|stack| - 1]]) == Closes(tokens[i])
  }

  lemma PopFrom(tokens: seq<Token>, from: nat, i: nat, stack: seq<nat>, k: nat)
    requires i < |tokens| && Closes(tokens[i]).Some? && OpenersOnly(tokens, stack) && Closing(tokens, i, stack)
    requires k < |stack| && LeavesFrom(tokens, from, i, stack, k)
    ensures OpenersOnly(tokens, stack[..|stack| - 1]) && LeavesFrom(tokens, from, i + 1, stack[..|stack| - 1], k)
  {
    hide Opens, Closes, Leaves;
    var n, open := |stack| - 1, Kinds(tokens, stack[k..]);
    assert tokens[from..i + 1] == tokens[from..i] + [tokens[i]];
    assert Kinds(tokens, stack[..n][k..]) == open[..|open| - 1];
    LeavesCloser(tokens[from..i], open, tokens[i]);
  }

  lemma PopStill(tokens: seq<Token>, i: nat, stack: seq<nat>)
    requires i < |tokens| && Closes(tokens[i]).Some? && OpenersOnly(tokens, stack) && StillOpen(tokens, i, stack)
    ensures Closing(tokens, i, stack) ==>
              OpenersOnly(tokens, stack[..|stack| - 1]) && StillOpen(tokens, i + 1, stack[..|stack| - 1])
  {
    hide Opens, Closes, Leaves, LeavesFrom;
    if Closing(tokens, i, stack) {
      var n := |stack| - 1;
      PopFrom(tokens, 0, i, stack, 0);
      forall k: nat | k < n
        ensures LeavesFrom(tokens, stack[..n][k] + 1, i + 1, stack[..n], k + 1)
      {
        PopFrom(tokens, stack[k] + 1, i, stack, k + 1);
      }
    }
  }

  /** What the pass stops at: a closer no stream can go on with, or the innermost delimiter left open. */
  ghost predicate Unmatched(tokens: seq<Token>, p: nat) {
    && p < |tokens|
    && ((Closes(tokens[p]).Some? && Extendable(tokens[..p]) && !Extendable(tokens[..p + 1]))
        || (Opens(tokens[p]).Some? && Extendable(tokens) && Balanced(tokens[p + 1..])))
  }

  lemma WrongCloser(tokens: seq<Token>, i: nat, stack: seq<nat>)
    requires i < |tokens| && Closes(tokens[i]).Some? && OpenersOnly(tokens, stack) && StillOpen(tokens, i, stack)
    requires !Closing(tokens, i, stack)
    ensures Unmatched(tokens, i) && !Balanced(tokens)
  {
    hide Opens, Closes, Leaves, Extendable, Balanced;
    var open := Kinds(tokens, stack);
    assert stack[0..] == stack && tokens[0..i] == tokens[..i];
    assert tokens[..i + 1] == tokens[..i] + [tokens[i]];
    LeavesExtendable(tokens[..i], open);
    LeavesCloser(tokens[..i], open, tokens[i]);
    NotBalanced(tokens, i + 1);
  }

  lemma NotBalanced(tokens: seq<Token>, i: nat)
    requires i <= |tokens| && !Extendable(tokens[..i])
    ensures !Balanced(tokens)
  {
    hide Balanced;
    assert tokens == tokens[..i] + tokens[i..];
  }

  lemma LeftOpen(tokens: seq<Token>, stack: seq<nat>)
    requires OpenersOnly(tokens, stack) && StillOpen(tokens, |tokens|, stack)
    ensures Balanced(tokens) <==> stack == []
    ensures stack != [] ==> Unmatched(tokens, stack[|stack| - 1])
  {
    hide Opens, Closes, Leaves, Extendable, Balanced;
    assert stack[0..] == stack && tokens[0..|tokens|] == tokens;
    LeavesExtendable(tokens, Kinds(tokens, stack));
    if stack != [] {
      var n := |stack| - 1;
      assert LeavesFrom(tokens, stack[n] + 1, |tokens|, stack, n + 1);
      assert Kinds(tokens, stack[n + 1..]) == [] && tokens[stack[n] + 1..|tokens|] == tokens[stack[n] + 1..];
      LeavesExtendable(tokens[stack[n] + 1..], []);
    }
  }

  function AddToLine(lines: map<nat, Extent>, line: nat, i: nat): (r: map<nat, Extent>) {
    lines[line := Extent(if line in lines then lines[line].first else i, i)]
  }

  lemma LineStep(tokens: seq<Token>, i: nat, lines: map<nat, Extent>)
    requires i < |tokens| && LinesOk(tokens, i, lines)
    ensures LinesOk(tokens, i + 1, AddToLine(lines, tokens[i].line, i))
  {
  }

  lemma AllPaired(tokens: seq<Token>, close: map<nat, nat>)
    requires StackOk(tokens, |tokens|, [], close)
    ensures IsMatching(tokens, close)
  {
    hide Opens, Closes;
  }

  lemma AllEnclosed(tokens: seq<Token>, close: map<nat, nat>, enclosing: map<nat, nat>)
    requires EnclosingOk(tokens, |tokens|, [], close, enclosing)
    ensures IsEnclosing(tokens, close, enclosing)
  {
    hide Opens, Closes;
    forall o: nat, p: nat
      ensures Holds([], close, o, p) <==> Covers(close, o, p)
    {
    }
    forall p | p in enclosing
      ensures p < |tokens| && Covers(close, enclosing[p], p)
    {
      assert Holds([], close, enclosing[p], p);
    }
    forall p, o: nat | 0 <= p < |tokens| && Covers(close, o, p)
      ensures p in enclosing && o <= enclosing[p]
    {
      assert Holds([], close, o, p);
    }
  }

  lemma Complete(tokens: seq<Token>, close: map<nat, nat>, enclosing: map<nat, nat>, lines: map<nat, Extent>)
    requires StackOk(tokens, |tokens|, [], close) && EnclosingOk(tokens, |tokens|, [], close, enclosing)
    requires LinesOk(tokens, |tokens|, lines)
    ensures WellMatched(tokens, Table(close, enclosing, lines))
  {
    hide Opens, Closes, StackOk, EnclosingOk, IsMatching, IsEnclosing;
    AllPaired(tokens, close);
    AllEnclosed(tokens, close, enclosing);
  }

  /** Everything the pass knows after `i` tokens. */
  ghost predicate Progress(tokens: seq<Token>, i: nat, stack: seq<nat>, close: map<nat, nat>, enclosing: map<nat, nat>) {
    && i <= |tokens| && OpenersOnly(tokens, stack)
    && StackOk(tokens, i, stack, close) && EnclosingOk(tokens, i, stack, close, enclosing)
    && StillOpen(tokens, i, stack)
  }

  lemma Begin(tokens: seq<Token>)
    ensures Progress(tokens, 0, [], map[], map[]) && LinesOk(tokens, 0, map[])
  {
    hide StillOpen, Opens, Closes;
    Started(tokens);
  }

  lemma ReadOpener(tokens: seq<Token>, i: nat, stack: seq<nat>, close: map<nat, nat>, enclosing: map<nat, nat>)
    requires Progress(tokens, i, stack, close, enclosing) && i < |tokens| && Opens(tokens[i]).Some?
    ensures Progress(tokens, i + 1, stack + [i], close, Enclose(enclosing, stack, i))
  {
    hide StillOpen, Opens, Closes, StackOk, EnclosingOk, Holds;
    Push(tokens, i, stack, close);
    PushStill(tokens, i, stack);
    EnclosingStep(tokens, i, stack, close, enclosing, stack + [i], close);
  }

  lemma ReadOther(tokens: seq<Token>, i: nat, stack: seq<nat>, close: map<nat, nat>, enclosing: map<nat, nat>)
    requires Progress(tokens, i, stack, close, enclosing) && i < |tokens|
    requires Opens(tokens[i]).None? && Closes(tokens[i]).None?
    ensures Progress(tokens, i + 1, stack, close, Enclose(enclosing, stack, i))
  {
    hide StillOpen, Opens, Closes, EnclosingOk, Holds;
    PassStill(tokens, i, stack);
    EnclosingStep(tokens, i, stack, close, enclosing, stack, close);
  }

  lemma ReadCloser(tokens: seq<Token>, i: nat, stack: seq<nat>, close: map<nat, nat>, enclosing: map<nat, nat>)
    requires Progress(tokens, i, stack, close, enclosing) && i < |tokens| && Closes(tokens[i]).Some?
    ensures !Closing(tokens, i, stack) ==> Unmatched(tokens, i) && !Balanced(tokens)
    ensures Closing(tokens, i, stack) ==>
              Progress(tokens, i + 1, stack[..|stack| - 1], close[stack[|stack| - 1] := i], Enclose(enclosing, stack, i))
  {
    hide StillOpen, Opens, Closes, EnclosingOk, Holds, Unmatched, Balanced;
    PopStill(tokens, i, stack);
    if Closing(tokens, i, stack) {
      var top, rest := stack[|stack| - 1], stack[..|stack| - 1];
      Pop(tokens, i, stack, close);
      assert top !in close;
      hide StackOk;
      EnclosingStep(tokens, i, stack, close, enclosing, rest, close[top := i]);
    } else {
      WrongCloser(tokens, i, stack);
    }
  }

  /** The pass succeeds exactly on balanced streams, and then its table is right. */
  method MatchDelimiters(tokens: seq<Token>) returns (r: Result<Table, nat>)
    ensures r.Ok? <==> Balanced(tokens)
    ensures r.Ok? ==> WellMatched(tokens, r.value)
    ensures r.Err? ==> exists p: nat :: Unmatched(tokens, p) && r.error == tokens[p].line
  {
    hide Opens, Closes, Balanced, WellMatched, StackOk, EnclosingOk, LinesOk, StillOpen, Unmatched;
    var stack: seq<nat> := [];
    var close: map<nat, nat>, enclosing: map<nat, nat>, lines: map<nat, Extent> := map[], map[], map[];
    Begin(tokens);
    for i := 0 to |tokens|
      invariant Progress(tokens, i, stack, close, enclosing)
      invariant LinesOk(tokens, i, lines)
    {
      LineStep(tokens, i, lines);
      lines := AddToLine(lines, tokens[i].line, i);
      ghost var around := enclosing;
      enclosing := Enclose(enclosing, stack, i);
      if Opens(tokens[i]).Some? {
        ReadOpener(tokens, i, stack, close, around);
        stack := stack + [i];
      } else if Closes(tokens[i]).Some? {
        ReadCloser(tokens, i, stack, close, around);
        if !Closing(tokens, i, stack) {
          return Err(tokens[i].line);
        }
        var opening := stack[|stack| - 1];
        stack := stack[..|stack| - 1];
        close := close[opening := i];
      } else {
        ReadOther(tokens, i, stack, close, around);
      }
    }
    LeftOpen(tokens, stack);
    if stack != [] {
      return Err(tokens[stack[|stack| - 1]].line);
    }
    Complete(tokens, close, enclosing, lines);
    return Ok(Table(close, enclosing, lines));
  }

  /** A balanced stream has a table. */
  lemma TableExists(tokens: seq<Token>)
    requires Balanced(tokens)
    ensures exists t :: WellMatched(tokens, t)
  {
    hide Opens, Closes, Balanced, WellMatched, StackOk, EnclosingOk, LinesOk, StillOpen;
    var stack, close, enclosing, lines := TableSoFar(tokens, |tokens|);
    LeftOpen(tokens, stack);
    Complete(tokens, close, enclosing, lines);
  }

  lemma {:induction false} TableSoFar(tokens: seq<Token>, i: nat)
    returns (stack: seq<nat>, close: map<nat, nat>, enclosing: map<nat, nat>, lines: map<nat, Extent>)
    requires Balanced(tokens) && i <= |tokens|
    ensures Progress(tokens, i, stack, close, enclosing) && LinesOk(tokens, i, lines)
    decreases i
  {
    hide Opens, Closes, Balanced, StackOk, EnclosingOk, LinesOk, StillOpen, Unmatched;
    if i == 0 {
      Begin(tokens);
      stack, close, enclosing, lines := [], map[], map[], map[];
    } else {
      var n := i - 1;
      stack, close, enclosing, lines := TableSoFar(tokens, n);
      LineStep(tokens, n, lines);
      lines := AddToLine(lines, tokens[n].line, n);
      var around := enclosing;
      enclosing := Enclose(enclosing, stack, n);
      if Opens(tokens[n]).Some? {
        ReadOpener(tokens, n, stack, close, around);
        stack := stack + [n];
      } else if Closes(tokens[n]).Some? {
        ReadCloser(tokens, n, stack, close, around);
        close := close[stack[|stack| - 1] := n];
        stack := stack[..|stack| - 1];
      } else {
        ReadOther(tokens, n, stack, close, around);
      }
    }
  }
}
