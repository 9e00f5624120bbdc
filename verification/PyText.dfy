/** The Python text operations the coverage report code relies on: lines, fields and integers. */
module PyText {
  import opened Results
  import opened Numerals

  // ----- lines

  /** The characters `str.splitlines` breaks at. */
  predicate IsBreak(c: char) {
    || '\n' <= c <= '\r' || '\U{1C}' <= c <= '\U{1E}'
    || c == '\U{85}' || c == '\U{2028}' || c == '\U{2029}'
  }

  predicate OneLine(t: string) {
    forall i :: 0 <= i < |t| ==> !IsBreak(t[i])
  }

  function FirstBreak(t: string): (r: nat)
    ensures r <= |t| && (forall i :: 0 <= i < r ==> !IsBreak(t[i])) && (r < |t| ==> IsBreak(t[r]))
  {
    if t == [] || IsBreak(t[0]) then 0 else 1 + FirstBreak(t[1..])
  }

  /** `\r\n` is one break. */
  function BreakWidth(t: string, e: nat): (r: nat)
    requires e < |t|
    ensures 1 <= r <= 2 && e + r <= |t|
  {
    if t[e] == '\r' && e + 1 < |t| && t[e + 1] == '\n' then 2 else 1
  }

  function SplitLines(t: string): (r: seq<string>)
    decreases |t|
  {
    if t == [] then [] else
      var e := FirstBreak(t);
      if e == |t| then [t] else [t[..e]] + SplitLines(t[e + BreakWidth(t, e)..])
  }

  lemma SplitLinesStep(t: string)
    ensures t == [] ==> SplitLines(t) == []
    ensures var e := FirstBreak(t);
            e < |t| ==> SplitLines(t) == [t[..e]] + SplitLines(t[e + BreakWidth(t, e)..])
  {
  }

  lemma FirstBreakIs(t: string, e: nat)
    requires e < |t| && (forall i :: 0 <= i < e ==> !IsBreak(t[i])) && IsBreak(t[e])
    ensures FirstBreak(t) == e
  {
    hide IsBreak;
  }

  lemma LineThenRest(line: string, rest: string)
    requires OneLine(line)
    ensures SplitLines(line + "\n" + rest) == [line] + SplitLines(rest)
  {
    var t := line + "\n" + rest;
    assert t[..|line|] == line;
    FirstBreakIs(t, |line|);
    assert t[|line| + 1..] == rest;
  }

  /** Lines of a text and a continuation, when the text ends in a newline. */
  lemma {:induction false} SplitLinesConcat(a: string, b: string)
    requires a == [] || a[|a| - 1] == '\n'
    ensures SplitLines(a + b) == SplitLines(a) + SplitLines(b)
    decreases |a|
  {
    hide SplitLines, FirstBreak;
    if a == [] {
      assert a + b == b;
      SplitLinesStep(a);
    } else {
      var e := FirstBreak(a);
      assert e < |a|;
      FirstBreakIs(a + b, e);
      var w := BreakWidth(a, e);
      assert (a + b)[e + w..] == a[e + w..] + b;
      SplitLinesConcat(a[e + w..], b);
      SplitLinesStep(a);
      SplitLinesStep(a + b);
      assert (a + b)[..e] == a[..e];
    }
  }

  /** `"\n".join(lines)`. */
  function JoinLines(lines: seq<string>): (r: string) {
    if lines == [] then [] else if |lines| == 1 then lines[0] else lines[0] + "\n" + JoinLines(lines[1..])
  }

  lemma {:induction false} JoinedLinesSplit(lines: seq<string>)
    requires forall k :: 0 <= k < |lines| ==> OneLine(lines[k])
    ensures SplitLines(JoinLines(lines + [""])) == lines
    decreases |lines|
  {
    if lines != [] {
      assert (lines + [""])[1..] == lines[1..] + [""];
      JoinedLinesSplit(lines[1..]);
      LineThenRest(lines[0], JoinLines(lines[1..] + [""]));
    }
  }

  // ----- fields

  function FirstOf(t: string, c: char): (r: nat)
    ensures r <= |t| && (forall i :: 0 <= i < r ==> t[i] != c) && (r < |t| ==> t[r] == c)
  {
    if t == [] || t[0] == c then 0 else 1 + FirstOf(t[1..], c)
  }

  lemma FirstOfIs(t: string, c: char, e: nat)
    requires e < |t| && (forall i :: 0 <= i < e ==> t[i] != c) && t[e] == c
    ensures FirstOf(t, c) == e
  {
  }

  /** `t.split(c)`. */
  function Split(t: string, c: char): (r: seq<string>)
    ensures |r| >= 1
    decreases |t|
  {
    var e := FirstOf(t, c);
    if e == |t| then [t] else [t[..e]] + Split(t[e + 1..], c)
  }

  lemma SplitOne(t: string, c: char)
    requires c !in t
    ensures Split(t, c) == [t]
  {
  }

  lemma SplitFirst(a: string, c: char, b: string)
    requires c !in a
    ensures Split(a + [c] + b, c) == [a] + Split(b, c)
  {
    var t := a + [c] + b;
    assert t[..|a|] == a;
    FirstOfIs(t, c, |a|);
    assert t[|a| + 1..] == b;
  }

  // ----- integers

  /** Whitespace that `int` and `str.strip` drop at either end. */
  predicate IsSpace(c: char) {
    || '\t' <= c <= '\r' || '\U{1C}' <= c <= ' ' || c == '\U{85}' || c == '\U{A0}' || c == '\U{1680}'
    || '\U{2000}' <= c <= '\U{200A}' || c == '\U{2028}' || c == '\U{2029}' || c == '\U{202F}'
    || c == '\U{205F}' || c == '\U{3000}'
  }

  function Strip(t: string): (r: string)
    ensures r != [] ==> !IsSpace(r[0]) && !IsSpace(r[|r| - 1])
    decreases |t|
  {
    if t == [] then t
    else if IsSpace(t[0]) then Strip(t[1..])
    else if IsSpace(t[|t| - 1]) then Strip(t[..|t| - 1])
    else t
  }

  predicate IsDigit(c: char) {
    '0' <= c <= '9'
  }

  function DigitChar(d: nat): (r: char)
    requires d < 10
    ensures IsDigit(r) && r as int - '0' as int == d
  {
    ('0' as int + d) as char
  }

  /** Digits, with single underscores allowed between them. */
  predicate IsNumeral(t: string) {
    && t != [] && IsDigit(t[0]) && IsDigit(t[|t| - 1])
    && forall i :: 0 < i < |t| - 1 ==> IsDigit(t[i]) || (t[i] == '_' && IsDigit(t[i + 1]))
  }

  /** The digit values in a numeral, underscores dropped. */
  function DigitsOf(t: string): (r: seq<nat>) {
    if t == [] then []
    else DigitsOf(t[..|t| - 1]) + if IsDigit(t[|t| - 1]) then [t[|t| - 1] as int - '0' as int] else []
  }

  /** `int(t)` over ASCII digits; None is the `ValueError`. */
  function ReadInt(t: string): (r: Option<int>) {
    var s := Strip(t);
    var signed := s != [] && (s[0] == '-' || s[0] == '+');
    var body := if signed then s[1..] else s;
    if !IsNumeral(body) then None
    else
      var v: int := Value(DigitsOf(body), 10);
      Some(if s[0] == '-' then -v else v)
  }

  function DigitChars(ds: seq<nat>): (r: string)
    requires forall i :: 0 <= i < |ds| ==> ds[i] < 10
    ensures |r| == |ds| && forall i :: 0 <= i < |r| ==> IsDigit(r[i]) && r[i] as int - '0' as int == ds[i]
  {
    seq(|ds|, i requires 0 <= i < |ds| => DigitChar(ds[i]))
  }

  /** `str(n)`. */
  function Show(n: int): (r: string)
    ensures r != [] && forall i :: 0 <= i < |r| ==> IsDigit(r[i]) || r[i] == '-'
  {
    if n < 0 then "-" + DigitChars(Digits(-n, 10)) else DigitChars(Digits(n, 10))
  }

  lemma {:induction false} DigitsOfChars(t: string, ds: seq<nat>)
    requires |t| == |ds| && forall i :: 0 <= i < |t| ==> IsDigit(t[i]) && t[i] as int - '0' as int == ds[i]
    ensures DigitsOf(t) == ds
    decreases |t|
  {
    if t != [] {
      DigitsOfChars(t[..|t| - 1], ds[..|ds| - 1]);
      assert ds == ds[..|ds| - 1] + [ds[|ds| - 1]];
    }
  }

  lemma StripNothing(t: string)
    requires t != [] ==> !IsSpace(t[0]) && !IsSpace(t[|t| - 1])
    ensures Strip(t) == t
  {
  }

  /** Reading a printed integer gives it back. */
  lemma ShownIntReads(n: int)
    ensures ReadInt(Show(n)) == Some(n)
  {
    hide Digits, Value, DigitsOf, Strip;
    var m: nat := if n < 0 then -n else n;
    var ds := Digits(m, 10);
    var body := DigitChars(ds);
    StripNothing(Show(n));
    DigitsOfChars(body, ds);
    DigitsDenote(m, 10);
    if n < 0 {
      assert Show(n)[1..] == body;
    } else {
      assert Show(n) == body;
    }
  }

  // ----- which characters

  /** Line breaks by code point. */
  lemma BreakCodes(c: char)
    ensures IsBreak(c) <==> c as int in {0x0A, 0x0B, 0x0C, 0x0D, 0x1C, 0x1D, 0x1E, 0x85, 0x2028, 0x2029}
  {
  }

  /** White space by code point: the line breaks, and the unit, no-break and typographic blanks. */
  lemma SpaceCodes(c: char)
    ensures IsSpace(c) <==>
            || IsBreak(c) || c as int in {0x09, 0x1F, 0x20, 0xA0, 0x1680, 0x202F, 0x205F, 0x3000}
            || 0x2000 <= c as int < 0x200B
  {
  }
}
