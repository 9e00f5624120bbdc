/** The scanner's inner loops over literals, words and line comments (scripts/coverage_rust_ledger.py). */
module RustLiterals {
  import opened Results
  import opened RustLexemes

  /** `s.find(part, start)`. */
  function Find(s: string, part: string, start: nat): (r: Option<nat>)
    ensures r.Some? ==> start <= r.value && At(s, r.value, part)
                        && forall k :: start <= k < r.value ==> !At(s, k, part)
    ensures r.None? ==> forall k :: start <= k ==> !At(s, k, part)
    decreases |s| - start
  {
    if start + |part| > |s| then None
    else if At(s, start, part) then Some(start)
    else Find(s, part, start + 1)
  }

  // ----- line comments

  method SkipLineComment(s: string, i: nat) returns (end: nat)
    requires Two(s, i, '/', '/')
    ensures forall e: nat :: LineComment(s, i, e) <==> e == end
  {
    var found := Find(s, "\n", i + 2);
    end := if found.None? then |s| else found.value;
    forall k: nat | k < |s|
      ensures At(s, k, "\n") <==> s[k] == '\n'
    {
      assert s[k..k + 1] == [s[k]];
    }
    LineCommentUnique(s, i, end);
  }

  lemma LineCommentUnique(s: string, i: nat, end: nat)
    requires LineComment(s, i, end)
    ensures forall e: nat :: LineComment(s, i, e) ==> e == end
  {
    forall e: nat | LineComment(s, i, e)
      ensures e == end
    {
      assert e < |s| ==> s[e] == '\n';
      assert end < |s| ==> s[end] == '\n';
    }
  }

  // ----- raw strings

  lemma HashRunUnique(s: string, i: nat, a: nat, b: nat)
    requires HashRun(s, i, a) && HashRun(s, i, b)
    ensures a == b
  {
    assert a < |s| ==> s[a] != '#';
    assert b < |s| ==> s[b] != '#';
  }

  datatype Raw = NotRaw | Unclosed | RawUntil(end: nat)

  method SkipRawString(s: string, i: nat) returns (r: Raw)
    requires i < |s|
    ensures RawStart(s, i) <==> !r.NotRaw?
    ensures forall e: nat :: RawLiteral(s, i, e) <==> r == RawUntil(e)
  {
    var raw := if Two(s, i, 'b', 'r') then i + 1 else i;
    if raw >= |s| || s[raw] != 'r' {
      return NotRaw;
    }
    var cursor := raw + 1;
    while cursor < |s| && s[cursor] == '#'
      invariant raw + 1 <= cursor <= |s|
      invariant forall k :: raw + 1 <= k < cursor ==> s[k] == '#'
    {
      cursor := cursor + 1;
    }
    assert HashRun(s, raw + 1, cursor);
    forall q: nat | RawOpens(s, i, q)
      ensures q == cursor
    {
      HashRunUnique(s, raw + 1, q, cursor);
    }
    if cursor >= |s| || s[cursor] != '"' {
      return NotRaw;
    }
    assert RawOpens(s, i, cursor);
    var terminator := ['"'] + s[raw + 1..cursor];
    var found := Find(s, terminator, cursor + 1);
    RawStringAt(s, i, cursor, terminator, found);
    r := if found.None? then Unclosed else RawUntil(found.value + |terminator|);
  }

  lemma RawStringAt(s: string, i: nat, q: nat, t: string, found: Option<nat>)
    requires RawOpens(s, i, q) && t == RawTerminator(s, i, q) && found == Find(s, t, q + 1)
    ensures forall e: nat :: RawString(s, i, q, e) <==> found.Some? && e == found.value + |t|
  {
    hide At, Find, RawOpens;
    forall e: nat
      ensures RawString(s, i, q, e) <==> found.Some? && e == found.value + |t|
    {
      FitsInside(s, t);
      if RawString(s, i, q, e) {
        assert At(s, e - |t|, t);
      }
    }
  }

  lemma FitsInside(s: string, t: string)
    ensures forall k: nat :: At(s, k, t) ==> k + |t| <= |s|
  {
  }

  // ----- strings

  lemma StringStep(s: string, c: nat, e: nat)
    requires c < |s|
    ensures s[c] == '\\' ==> (StringCloses(s, c, e) <==> StringCloses(s, c + 2, e))
    ensures s[c] == '"' ==> (StringCloses(s, c, e) <==> e == c + 1)
    ensures s[c] != '\\' && s[c] != '"' ==> (StringCloses(s, c, e) <==> StringCloses(s, c + 1, e))
  {
    if c + 1 < e <= |s| {
      var t := s[c..e - 1];
      assert t[0] == s[c] && t[1..] == s[c + 1..e - 1];
      if c + 2 <= e - 1 {
        assert t[2..] == s[c + 2..e - 1];
      }
    }
  }

  /** The string whose body starts at `start` ends where the escape-aware loop stops. */
  method SkipString(s: string, start: nat) returns (r: Option<nat>)
    requires start <= |s|
    ensures forall e: nat :: StringCloses(s, start, e) <==> r == Some(e)
  {
    var cursor := start;
    while cursor < |s|
      invariant forall e: nat :: StringCloses(s, start, e) <==> StringCloses(s, cursor, e)
    {
      forall e: nat
        ensures s[cursor] == '\\' ==> (StringCloses(s, cursor, e) <==> StringCloses(s, cursor + 2, e))
        ensures s[cursor] == '"' ==> (StringCloses(s, cursor, e) <==> e == cursor + 1)
        ensures s[cursor] != '\\' && s[cursor] != '"' ==> (StringCloses(s, cursor, e) <==> StringCloses(s, cursor + 1, e))
      {
        StringStep(s, cursor, e);
      }
      if s[cursor] == '\\' {
        cursor := cursor + 2;
      } else if s[cursor] == '"' {
        return Some(cursor + 1);
      } else {
        cursor := cursor + 1;
      }
    }
    return None;
  }

  // ----- character literals

  lemma CharStep(s: string, c: nat, e: nat)
    requires c < |s|
    ensures s[c] == '\n' ==> !CharCloses(s, c, e)
    ensures s[c] == '\'' ==> (CharCloses(s, c, e) <==> e == c + 1)
    ensures s[c] == '\\' && (c + 1 >= |s| || s[c + 1] == '\n') ==> !CharCloses(s, c, e)
    ensures s[c] == '\\' && c + 1 < |s| && s[c + 1] != '\n' ==> (CharCloses(s, c, e) <==> CharCloses(s, c + 2, e))
    ensures s[c] != '\\' && s[c] != '\'' && s[c] != '\n' ==> (CharCloses(s, c, e) <==> CharCloses(s, c + 1, e))
  {
    if c + 1 < e <= |s| {
      var t := s[c..e - 1];
      assert t[0] == s[c] && t[1..] == s[c + 1..e - 1];
      if c + 2 <= e - 1 {
        assert t[1] == s[c + 1] && t[2..] == s[c + 2..e - 1];
      }
    }
  }

  /** The loop steps character by character, remembering a pending backslash. */
  method SkipChar(s: string, start: nat) returns (r: Option<nat>)
    requires start <= |s|
    ensures forall e: nat :: CharCloses(s, start, e) <==> r == Some(e)
  {
    var cursor, escaped := start, false;
    ghost var from := start;
    while cursor < |s| && s[cursor] != '\n'
      invariant cursor <= |s|
      invariant from == if escaped then cursor - 1 else cursor
      invariant escaped ==> cursor >= 1 && s[cursor - 1] == '\\'
      invariant forall e: nat :: CharCloses(s, start, e) <==> CharCloses(s, from, e)
    {
      CharSteps(s, from);
      if !escaped && s[cursor] == '\'' {
        return Some(cursor + 1);
      }
      if !escaped && s[cursor] == '\\' {
        escaped := true;
      } else {
        escaped := false;
        from := cursor + 1;
      }
      cursor := cursor + 1;
    }
    if from < |s| {
      CharSteps(s, from);
    }
    return None;
  }

  lemma CharSteps(s: string, c: nat)
    requires c < |s|
    ensures s[c] == '\n' ==> forall e: nat :: !CharCloses(s, c, e)
    ensures s[c] == '\'' ==> forall e: nat :: CharCloses(s, c, e) <==> e == c + 1
    ensures s[c] == '\\' && (c + 1 >= |s| || s[c + 1] == '\n') ==> forall e: nat :: !CharCloses(s, c, e)
    ensures s[c] == '\\' && c + 1 < |s| && s[c + 1] != '\n' ==>
              forall e: nat :: CharCloses(s, c, e) <==> CharCloses(s, c + 2, e)
    ensures s[c] != '\\' && s[c] != '\'' && s[c] != '\n' ==>
              forall e: nat :: CharCloses(s, c, e) <==> CharCloses(s, c + 1, e)
  {
    forall e: nat
      ensures s[c] == '\n' ==> !CharCloses(s, c, e)
      ensures s[c] == '\'' ==> (CharCloses(s, c, e) <==> e == c + 1)
      ensures s[c] == '\\' && (c + 1 >= |s| || s[c + 1] == '\n') ==> !CharCloses(s, c, e)
      ensures s[c] == '\\' && c + 1 < |s| && s[c + 1] != '\n' ==> (CharCloses(s, c, e) <==> CharCloses(s, c + 2, e))
      ensures s[c] != '\\' && s[c] != '\'' && s[c] != '\n' ==> (CharCloses(s, c, e) <==> CharCloses(s, c + 1, e))
    {
      CharStep(s, c, e);
    }
  }

  // ----- words

  method SkipWord(cls: Classes, s: string, i: nat) returns (end: nat)
    requires i < |s|
    ensures forall e: nat :: WordRun(cls, s, i, e) <==> e == end
  {
    end := i + 1;
    while end < |s| && IdChar(cls, s[end])
      invariant i < end <= |s|
      invariant forall k :: i + 1 <= k < end ==> IdChar(cls, s[k])
    {
      end := end + 1;
    }
    forall e: nat | WordRun(cls, s, i, e)
      ensures e == end
    {
      assert e < |s| ==> !IdChar(cls, s[e]);
    }
  }

  /** A quote is a lifetime's when an identifier follows and no quote closes it. */
  method IsLifetime(cls: Classes, s: string, i: nat) returns (r: bool)
    requires i < |s|
    ensures r <==> Lifetime(cls, s, i)
  {
    if i + 1 >= |s| || !IdStart(cls, s[i + 1]) {
      return false;
    }
    var end := SkipWord(cls, s, i + 1);
    assert WordRun(cls, s, i + 1, end);
    r := end >= |s| || s[end] != '\'';
    assert r ==> LifetimeRun(cls, s, i, end);
  }
}
