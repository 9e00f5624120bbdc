/**
 * Marks inside JSON text (packages/protocol-wasm/index.js): counting them by splitting, and
 * replacing marked strings by their digits.
 */
module MarkedText {
  import opened Results
  import opened JsonText
  import opened Utf16

  // ----- the mark

  const PREFIX: Text := U("gf-bigint-")
  const LETTER_G: Unit := 103

  predicate IsHex(u: Unit) {
    48 <= u <= 57 || 97 <= u <= 102
  }

  /** `gf-bigint-`, 32 hexadecimal digits and a colon. */
  predicate IsMark(mark: Text) {
    && |mark| == 43
    && mark[..10] == PREFIX
    && (forall k :: 10 <= k < 42 ==> IsHex(mark[k]))
    && mark[42] == 58
  }

  /** A unit that is written as itself inside a JSON string and is no quote. */
  predicate IsPlain(u: Unit) {
    32 <= u < 128 && u != QUOTE && u != BACKSLASH
  }

  lemma MarkIsPlain(mark: Text)
    requires IsMark(mark)
    ensures mark[0] == LETTER_G
    ensures forall k :: 0 <= k < |mark| ==> IsPlain(mark[k])
  {
    forall k | 0 <= k < |mark|
      ensures IsPlain(mark[k])
    {
      if k < 10 {
        assert mark[k] == mark[..10][k] == PREFIX[k];
      }
    }
    assert mark[0] == mark[..10][0];
  }

  // ----- counting and replacing

  /** `text.split(mark).length - 1`. */
  function SplitCount(text: Text, mark: Text): (r: nat)
    requires mark != []
  {
    if |text| < |mark| then 0
    else if mark <= text then 1 + SplitCount(text[|mark|..], mark)
    else SplitCount(text[1..], mark)
  }

  /** The length of the leading run of digits. */
  function DigitRun(text: Text): (r: nat)
    ensures r <= |text|
    ensures forall k :: 0 <= k < r ==> IsDigit(text[k])
    ensures r < |text| ==> !IsDigit(text[r])
  {
    if text == [] || !IsDigit(text[0]) then 0 else 1 + DigitRun(text[1..])
  }

  /** The match of `"mark(-?\d+)"` at the front of `text`: its captured digits. */
  function MatchDigits(text: Text, mark: Text): (r: Option<Text>)
    ensures r.Some? ==> 2 + |mark| + |r.value| <= |text|
  {
    if !([QUOTE] + mark <= text) then None else
      var rest := text[1 + |mark|..];
      var sign := if rest != [] && rest[0] == MINUS then 1 else 0;
      var digits := DigitRun(rest[sign..]);
      var end := sign + digits;
      if digits == 0 || end == |rest| || rest[end] != QUOTE then None else
        Some(rest[..end])
  }

  /** `text.replace(/"mark(-?\d+)"/g, "$1")`. */
  function Splice(text: Text, mark: Text): (r: Text)
    decreases |text|
  {
    if text == [] then [] else
      var m := MatchDigits(text, mark);
      if m.Some? then m.value + Splice(text[2 + |mark| + |m.value|..], mark)
      else [text[0]] + Splice(text[1..], mark)
  }

  // ----- occurrences of the mark

  predicate At(text: Text, k: nat, part: Text) {
    k + |part| <= |text| && text[k..k + |part|] == part
  }

  ghost predicate Contains(text: Text, part: Text) {
    exists k: nat :: At(text, k, part)
  }

  lemma ContainsStep(text: Text, part: Text)
    requires text != []
    ensures Contains(text, part) <==> At(text, 0, part) || Contains(text[1..], part)
  {
    if k: nat :| At(text, k, part) {
      if k > 0 {
        assert text[1..][k - 1..k - 1 + |part|] == text[k..k + |part|];
        assert At(text[1..], k - 1, part);
      }
    }
    if k: nat :| At(text[1..], k, part) {
      assert text[1..][k..k + |part|] == text[k + 1..k + 1 + |part|];
      assert At(text, k + 1, part);
    }
  }

  lemma {:induction false} CountsNoneExactlyWhenAbsent(text: Text, mark: Text)
    requires mark != []
    ensures SplitCount(text, mark) == 0 <==> !Contains(text, mark)
  {
    if |text| >= |mark| {
      ContainsStep(text, mark);
      if mark <= text {
        assert At(text, 0, mark);
      } else {
        CountsNoneExactlyWhenAbsent(text[1..], mark);
      }
    }
  }

  /** A separator that is not in the mark cuts the count in two. */
  lemma {:induction false} CountAcross(a: Text, sep: Unit, b: Text, mark: Text)
    requires mark != [] && sep !in mark
    ensures SplitCount(a + [sep] + b, mark) == SplitCount(a, mark) + SplitCount(b, mark)
    decreases |a|
  {
    var text := a + [sep] + b;
    if |text| < |mark| {
    } else if mark <= text {
      assert text[|a|] == sep;
      assert forall j :: 0 <= j < |mark| ==> mark[j] == text[j];
      assert mark <= a;
      assert text[|mark|..] == a[|mark|..] + [sep] + b;
      CountAcross(a[|mark|..], sep, b, mark);
    } else if a == [] {
      assert text[1..] == b;
    } else {
      assert text[1..] == a[1..] + [sep] + b;
      CountAcross(a[1..], sep, b, mark);
      assert a <= text;
    }
  }

  /** Text without the mark's first letter cannot begin an occurrence. */
  lemma {:induction false} CountAfter(a: Text, b: Text, mark: Text)
    requires mark != [] && mark[0] !in a
    ensures SplitCount(a + b, mark) == SplitCount(b, mark)
  {
    if a == [] {
      assert a + b == b;
    } else {
      assert (a + b)[1..] == a[1..] + b;
      CountAfter(a[1..], b, mark);
      assert !(mark <= a + b);
    }
  }

  // ----- strings in between

  /** Plain text at the front of an escaped string was there before escaping. */
  lemma {:induction false} PlainPrefixSurvives(s: Text, part: Text)
    requires forall k :: 0 <= k < |part| ==> IsPlain(part[k])
    ensures part <= Escape(s) <==> part <= s
  {
    if part != [] && s != [] {
      PlainPrefixSurvives(s[1..], part[1..]);
      var e := Escape(s);
      assert e != [];
      if StartsWithPair(s) {
        assert e[0] == s[0];
      } else if EscapeUnit(s[0]) == [s[0]] {
        assert e == [s[0]] + Escape(s[1..]);
        PrefixStep(part, e);
        PrefixStep(part, s);
      } else {
        assert e[0] == BACKSLASH;
        assert !IsPlain(s[0]) by { PlainStaysPlain(s[0]); }
      }
    }
  }

  lemma PrefixStep(part: Text, text: Text)
    requires part != [] && text != []
    ensures part <= text <==> part[0] == text[0] && part[1..] <= text[1..]
  {
    if part[0] == text[0] && part[1..] <= text[1..] {
      assert part == [part[0]] + part[1..];
      assert text == [text[0]] + text[1..];
    }
  }

  lemma PlainStaysPlain(u: Unit)
    ensures IsPlain(u) ==> EscapeUnit(u) == [u]
  {
  }

  lemma {:induction false} ContainsAfter(a: Text, b: Text, part: Text)
    requires part != [] && part[0] !in a
    ensures Contains(a + b, part) <==> Contains(b, part)
  {
    if a == [] {
      assert a + b == b;
    } else {
      ContainsStep(a + b, part);
      assert (a + b)[1..] == a[1..] + b;
      AgreesAt(a + b, 0, part, 0);
      ContainsAfter(a[1..], b, part);
    }
  }

  lemma EscapesHoldNoG(u: Unit)
    ensures LETTER_G in EscapeUnit(u) ==> EscapeUnit(u) == [u]
  {
  }

  lemma UnitKeepsMarks(s: Text, mark: Text)
    requires IsMark(mark) && s != [] && !StartsWithPair(s)
    requires Contains(Escape(s[1..]), mark) <==> Contains(s[1..], mark)
    ensures Contains(Escape(s), mark) <==> Contains(s, mark)
  {
    MarkIsPlain(mark);
    var e, rest := EscapeUnit(s[0]), Escape(s[1..]);
    assert Escape(s) == e + rest;
    ContainsStep(s, mark);
    if e == [s[0]] {
      assert (e + rest)[1..] == rest;
      ContainsStep(e + rest, mark);
      PlainPrefixSurvives(s, mark);
      assert At(s, 0, mark) <==> mark <= s;
      assert At(e + rest, 0, mark) <==> mark <= e + rest;
    } else {
      EscapesHoldNoG(s[0]);
      ContainsAfter(e, rest, mark);
      PlainStaysPlain(s[0]);
      AgreesAt(s, 0, mark, 0);
    }
  }

  /** Escaping neither creates nor destroys an occurrence of a mark. */
  lemma {:induction false} EscapeKeepsMarks(s: Text, mark: Text)
    requires IsMark(mark)
    ensures Contains(Escape(s), mark) <==> Contains(s, mark)
  {
    if s == [] {
    } else if StartsWithPair(s) {
      MarkIsPlain(mark);
      EscapeKeepsMarks(s[2..], mark);
      assert s == s[..2] + s[2..];
      ContainsAfter(s[..2], Escape(s[2..]), mark);
      ContainsAfter(s[..2], s[2..], mark);
    } else {
      EscapeKeepsMarks(s[1..], mark);
      UnitKeepsMarks(s, mark);
    }
  }

  lemma {:induction false} EscapePlain(s: Text)
    requires forall k :: 0 <= k < |s| ==> IsPlain(s[k])
    ensures Escape(s) == s
  {
    if s != [] {
      EscapePlain(s[1..]);
    }
  }

  lemma MarkedStringIsPlain(i: int, mark: Text)
    requires IsMark(mark)
    ensures Escape(mark + Decimal(i)) == mark + Decimal(i)
  {
    MarkIsPlain(mark);
    EscapePlain(mark + Decimal(i));
  }

  lemma MarkedDigitsCountOnce(i: int, mark: Text)
    requires IsMark(mark)
    ensures SplitCount(mark + Decimal(i), mark) == 1
  {
    MarkIsPlain(mark);
    var text := mark + Decimal(i);
    assert text[|mark|..] == Decimal(i);
    assert Decimal(i) + [] == Decimal(i);
    CountAfter(Decimal(i), [], mark);
  }

  lemma QuotedCount(content: Text, rest: Text, mark: Text)
    requires IsMark(mark)
    ensures SplitCount([QUOTE] + content + [QUOTE] + rest, mark) == SplitCount(content, mark) + SplitCount(rest, mark)
  {
    MarkIsPlain(mark);
    assert [QUOTE] + content + [QUOTE] + rest == [] + [QUOTE] + (content + [QUOTE] + rest);
    CountAcross([], QUOTE, content + [QUOTE] + rest, mark);
    CountAcross(content, QUOTE, rest, mark);
  }

  // ----- replacing

  lemma MarkFollows(text: Text, mark: Text)
    ensures [QUOTE] + mark <= text ==> text[0] == QUOTE && At(text, 1, mark)
  {
    if [QUOTE] + mark <= text {
      assert text[1..1 + |mark|] == ([QUOTE] + mark)[1..];
    }
  }

  /** An occurrence agrees in every unit, so one differing unit rules it out. */
  lemma AgreesAt(text: Text, k: nat, part: Text, j: nat)
    requires j < |part|
    ensures At(text, k, part) ==> text[k + j] == part[j]
  {
    if At(text, k, part) {
      assert text[k..k + |part|][j] == text[k + j];
    }
  }

  lemma AtBehind(text: Text, k: nat, part: Text)
    requires text != []
    ensures At(text[1..], k, part) <==> At(text, k + 1, part)
  {
    if k + 1 + |part| <= |text| {
      assert text[k + 1..k + 1 + |part|] == text[1..][k..k + |part|];
    }
  }

  lemma CopyFirst(text: Text, mark: Text)
    requires text != [] && (text[0] == QUOTE ==> !At(text, 1, mark))
    ensures Splice(text, mark) == [text[0]] + Splice(text[1..], mark)
  {
    MarkFollows(text, mark);
  }

  lemma FirstInFront(a: Text, b: Text)
    requires a != []
    ensures [a[0]] + (a[1..] + b) == a + b
  {
  }

  lemma NoMarkBehind(a: Text, rest: Text, mark: Text)
    requires a != [] && forall k :: 0 <= k < |a| && a[k] == QUOTE ==> !At(a + rest, k + 1, mark)
    ensures (a + rest)[1..] == a[1..] + rest
    ensures forall k :: 0 <= k < |a[1..]| && a[1..][k] == QUOTE ==> !At(a[1..] + rest, k + 1, mark)
  {
    hide At;
    var text := a + rest;
    assert text[1..] == a[1..] + rest;
    forall k | 0 <= k < |a[1..]| && a[1..][k] == QUOTE
      ensures !At(a[1..] + rest, k + 1, mark)
    {
      assert a[k + 1] == QUOTE;
      AtBehind(text, k + 1, mark);
    }
  }

  /** Text in which no quote is followed by the mark is copied. */
  lemma {:induction false} SpliceCopies(a: Text, rest: Text, mark: Text)
    requires forall k :: 0 <= k < |a| && a[k] == QUOTE ==> !At(a + rest, k + 1, mark)
    ensures Splice(a + rest, mark) == a + Splice(rest, mark)
  {
    if a == [] {
      assert a + rest == rest;
    } else {
      hide Splice, At;
      var text := a + rest;
      assert a[0] == QUOTE ==> !At(text, 0 + 1, mark);
      NoMarkBehind(a, rest, mark);
      SpliceCopies(a[1..], rest, mark);
      CopyFirst(text, mark);
      FirstInFront(a, Splice(rest, mark));
    }
  }

  lemma QuotedHoldsNoMark(content: Text, rest: Text, mark: Text, k: nat)
    requires IsMark(mark) && !Contains(content, mark) && k <= |content| + 1
    requires rest == [] || rest[0] != LETTER_G
    ensures !At([QUOTE] + content + [QUOTE] + rest, k + 1, mark)
  {
    MarkIsPlain(mark);
    var text := [QUOTE] + content + [QUOTE] + rest;
    if k == |content| + 1 {
      AgreesAt(text, k + 1, mark, 0);
    } else if k + |mark| > |content| {
      AgreesAt(text, k + 1, mark, |content| - k);
    } else {
      assert content[k..k + |mark|] == text[k + 1..k + 1 + |mark|];
      assert !At(content, k, mark);
    }
  }

  lemma SpliceQuoted(content: Text, rest: Text, mark: Text)
    requires IsMark(mark) && !Contains(content, mark)
    requires rest == [] || rest[0] != LETTER_G
    ensures Splice([QUOTE] + content + [QUOTE] + rest, mark) == [QUOTE] + content + [QUOTE] + Splice(rest, mark)
  {
    var a := [QUOTE] + content + [QUOTE];
    forall k | 0 <= k < |a| && a[k] == QUOTE
      ensures !At(a + rest, k + 1, mark)
    {
      QuotedHoldsNoMark(content, rest, mark, k);
    }
    SpliceCopies(a, rest, mark);
  }

  lemma {:induction false} DigitRunStops(ds: Text, rest: Text)
    requires forall k :: 0 <= k < |ds| ==> IsDigit(ds[k])
    requires rest != [] && !IsDigit(rest[0])
    ensures DigitRun(ds + rest) == |ds|
  {
    if ds != [] {
      assert (ds + rest)[1..] == ds[1..] + rest;
      DigitRunStops(ds[1..], rest);
    } else {
      assert ds + rest == rest;
    }
  }

  lemma DecimalMatches(i: int, rest: Text, mark: Text)
    ensures MatchDigits([QUOTE] + mark + Decimal(i) + [QUOTE] + rest, mark) == Some(Decimal(i))
  {
    hide Decimal;
    var d := Decimal(i);
    var text := [QUOTE] + mark + d + [QUOTE] + rest;
    assert [QUOTE] + mark <= text;
    var after := text[1 + |mark|..];
    assert after == d + ([QUOTE] + rest);
    var sign := if after[0] == MINUS then 1 else 0;
    assert after[sign..] == d[sign..] + ([QUOTE] + rest);
    DigitRunStops(d[sign..], [QUOTE] + rest);
    assert after[..|d|] == d;
  }

  /** A marked string becomes its bare digits. */
  lemma SpliceBig(i: int, rest: Text, mark: Text)
    ensures Splice([QUOTE] + (mark + Decimal(i)) + [QUOTE] + rest, mark) == Decimal(i) + Splice(rest, mark)
  {
    var d := Decimal(i);
    var text := [QUOTE] + mark + d + [QUOTE] + rest;
    assert [QUOTE] + (mark + d) + [QUOTE] + rest == text;
    DecimalMatches(i, rest, mark);
    assert text[2 + |mark| + |d|..] == rest;
  }

  // ----- making a mark

  function LowHex(d: nat): (r: Unit)
    requires d < 16
  {
    if d < 10 then '0' as int + d else 'a' as int + (d - 10)
  }

  /** Bytes as two hexadecimal digits each. */
  function Hex(bytes: seq<nat>): (r: Text)
    requires forall i :: 0 <= i < |bytes| ==> bytes[i] < 256
    ensures |r| == 2 * |bytes|
  {
    if bytes == [] then [] else Hex(bytes[..|bytes| - 1]) + [LowHex(bytes[|bytes| - 1] / 16), LowHex(bytes[|bytes| - 1] % 16)]
  }

  /** `gf-bigint-`, the bytes in hexadecimal and a colon. */
  function Marker(bytes: seq<nat>): (r: Text)
    requires forall i :: 0 <= i < |bytes| ==> bytes[i] < 256
  {
    U("gf-bigint-") + Hex(bytes) + U(":")
  }

  lemma {:induction false} HexIsHex(bytes: seq<nat>)
    requires forall i :: 0 <= i < |bytes| ==> bytes[i] < 256
    ensures forall k :: 0 <= k < |Hex(bytes)| ==> IsHex(Hex(bytes)[k])
    decreases |bytes|
  {
    if bytes != [] {
      HexIsHex(bytes[..|bytes| - 1]);
    }
  }

  /** Whatever sixteen bytes are drawn, the marker is a mark. */
  lemma MarkersAreMarks(bytes: seq<nat>)
    requires |bytes| == 16 && forall i :: 0 <= i < |bytes| ==> bytes[i] < 256
    ensures IsMark(Marker(bytes))
  {
    hide Hex;
    HexIsHex(bytes);
    var mark := Marker(bytes);
    assert mark[..10] == U("gf-bigint-");
    forall k | 10 <= k < 42
      ensures IsHex(mark[k])
    {
      assert mark[k] == Hex(bytes)[k - 10];
    }
  }
}
