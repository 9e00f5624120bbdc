/**
 * A reader for JSON text by the grammar of RFC 8259 (sections 2 to 7), over UTF-16 code units and
 * written without reference to the writer. Integers are read exactly, other numbers as their text.
 */
module JsonReader {
  import opened Results
  import opened Numerals
  import opened Utf16

  datatype Member = Member(key: Text, value: Json)

  datatype Json =
    | Null
    | Bool(b: bool)
    | Integer(i: int)
    | Number(text: Text)
    | String(s: Text)
    | Array(items: seq<Json>)
    | Object(members: seq<Member>)

  function Code(c: char): (r: Unit)
    requires c as int < 128
  {
    c as int
  }

  predicate StartsWith(t: Text, c: char)
    requires c as int < 128
  {
    t != [] && t[0] == Code(c)
  }

  // ----- white space (section 2)

  predicate IsBlank(u: Unit) {
    u == Code(' ') || u == Code('\t') || u == Code('\n') || u == Code('\r')
  }

  function SkipBlanks(t: Text): (r: Text)
    ensures |r| <= |t|
  {
    if t != [] && IsBlank(t[0]) then SkipBlanks(t[1..]) else t
  }

  // ----- numbers (section 6)

  predicate IsDigit(u: Unit) {
    Code('0') <= u <= Code('9')
  }

  predicate InNumber(u: Unit) {
    IsDigit(u) || u == Code('-') || u == Code('+') || u == Code('.') || u == Code('e') || u == Code('E')
  }

  function NumberRun(t: Text): (r: nat)
    ensures r <= |t|
  {
    if t == [] || !InNumber(t[0]) then 0 else 1 + NumberRun(t[1..])
  }

  function DigitRun(t: Text): (r: nat)
    ensures r <= |t| && forall k :: 0 <= k < r ==> IsDigit(t[k])
  {
    if t == [] || !IsDigit(t[0]) then 0 else 1 + DigitRun(t[1..])
  }

  function Unsigned(t: Text): (r: Text) {
    if StartsWith(t, '-') then t[1..] else t
  }

  predicate IsExponent(t: Text) {
    t == [] ||
      var sign := if StartsWith(t[1..], '+') || StartsWith(t[1..], '-') then 2 else 1;
      (StartsWith(t, 'e') || StartsWith(t, 'E')) && sign < |t| && DigitRun(t[sign..]) == |t| - sign
  }

  predicate IsFraction(t: Text) {
    if StartsWith(t, '.') then
      var n := DigitRun(t[1..]);
      n > 0 && IsExponent(t[1 + n..])
    else IsExponent(t)
  }

  /** An integer part without a leading zero, then perhaps a fraction and an exponent. */
  predicate IsNumber(t: Text) {
    var u := Unsigned(t);
    var n := DigitRun(u);
    n > 0 && (n > 1 ==> u[0] != Code('0')) && IsFraction(u[n..])
  }

  function DigitValue(u: Unit): (r: nat)
    requires IsDigit(u)
  {
    u - Code('0')
  }

  function DigitValues(t: Text): (r: seq<nat>)
    requires forall k :: 0 <= k < |t| ==> IsDigit(t[k])
    ensures |r| == |t| && forall k :: 0 <= k < |r| ==> r[k] == DigitValue(t[k])
  {
    seq(|t|, k requires 0 <= k < |t| => DigitValue(t[k]))
  }

  /** What a number's text stands for. */
  function Numeral(t: Text): (r: Json) {
    var u := Unsigned(t);
    if DigitRun(u) < |u| then Number(t)
    else
      var n: int := Value(DigitValues(u), 10);
      Integer(if StartsWith(t, '-') then -n else n)
  }

  // ----- strings (section 7)

  function HexValue(u: Unit): (r: Option<nat>) {
    if IsDigit(u) then Some(u - Code('0'))
    else if Code('a') <= u <= Code('f') then Some(u - Code('a') + 10)
    else if Code('A') <= u <= Code('F') then Some(u - Code('A') + 10)
    else None
  }

  /** Four hexadecimal digits. */
  function ReadHex(t: Text): (r: Option<Unit>)
    requires |t| >= 4
  {
    var a, b, c, d := HexValue(t[0]), HexValue(t[1]), HexValue(t[2]), HexValue(t[3]);
    if a.None? || b.None? || c.None? || d.None? then None else
      HexBound(t);
      Some(((a.value * 16 + b.value) * 16 + c.value) * 16 + d.value)
  }

  lemma HexBound(t: Text)
    requires |t| >= 4 && forall k :: 0 <= k < 4 ==> HexValue(t[k]).Some?
    ensures forall k :: 0 <= k < 4 ==> HexValue(t[k]).value < 16
  {
  }

  /** The character behind a backslash, unless it is `u`. */
  function Escaped(u: Unit): (r: Option<Unit>) {
    if u == Code('"') || u == Code('\\') || u == Code('/') then Some(u)
    else if u == Code('b') then Some(8)
    else if u == Code('f') then Some(12)
    else if u == Code('n') then Some(10)
    else if u == Code('r') then Some(13)
    else if u == Code('t') then Some(9)
    else None
  }

  /** One character of a string, and how long its text is. */
  function ReadCharacter(t: Text): (r: Option<(Unit, nat)>)
    ensures r.Some? ==> 0 < r.value.1 <= |t|
  {
    if t == [] || t[0] < 32 || t[0] == Code('"') then None
    else if t[0] != Code('\\') then Some((t[0], 1))
    else if |t| < 2 then None
    else if t[1] == Code('u') then
      if |t| < 6 || ReadHex(t[2..]).None? then None else Some((ReadHex(t[2..]).value, 6))
    else if Escaped(t[1]).None? then None
    else Some((Escaped(t[1]).value, 2))
  }

  /** A string behind its opening quote, and what follows its closing one. */
  function ReadString(t: Text): (r: Option<(Text, Text)>)
    ensures r.Some? ==> |r.value.1| < |t|
    decreases |t|
  {
    if StartsWith(t, '"') then Some(([], t[1..])) else
      var c := ReadCharacter(t);
      if c.None? then None else
        var rest := ReadString(t[c.value.1..]);
        if rest.None? then None else Some(([c.value.0] + rest.value.0, rest.value.1))
  }

  // ----- values (sections 3 to 5)

  function Word(s: string): (r: Text)
    requires forall i :: 0 <= i < |s| ==> s[i] as int < 128
    ensures |r| == |s| && forall i :: 0 <= i < |s| ==> r[i] == Code(s[i])
  {
    seq(|s|, i requires 0 <= i < |s| => Code(s[i]))
  }

  const NULL: Text := Word("null")
  const TRUE: Text := Word("true")
  const FALSE: Text := Word("false")

  /** A value at the front of the text, and what follows it. */
  function ReadValue(text: Text): (r: Option<(Json, Text)>)
    ensures r.Some? ==> |r.value.1| < |text|
    decreases |text|, 0
  {
    var t := SkipBlanks(text);
    if t == [] then None
    else if StartsWith(t, '"') then
      var s := ReadString(t[1..]);
      if s.None? then None else Some((String(s.value.0), s.value.1))
    else if StartsWith(t, '[') then
      var u := SkipBlanks(t[1..]);
      if StartsWith(u, ']') then Some((Array([]), u[1..])) else
        var items := ReadItems(u);
        if items.None? then None else Some((Array(items.value.0), items.value.1))
    else if StartsWith(t, '{') then
      var u := SkipBlanks(t[1..]);
      if StartsWith(u, '}') then Some((Object([]), u[1..])) else
        var members := ReadMembers(u);
        if members.None? then None else Some((Object(members.value.0), members.value.1))
    else if NULL <= t then Some((Null, t[4..]))
    else if TRUE <= t then Some((Bool(true), t[4..]))
    else if FALSE <= t then Some((Bool(false), t[5..]))
    else
      var n := NumberRun(t);
      if n == 0 || !IsNumber(t[..n]) then None else Some((Numeral(t[..n]), t[n..]))
  }

  /** One or more values between commas, up to the closing bracket. */
  function ReadItems(t: Text): (r: Option<(seq<Json>, Text)>)
    ensures r.Some? ==> |r.value.1| < |t|
    decreases |t|, 1
  {
    var first := ReadValue(t);
    if first.None? then None else
      var u := SkipBlanks(first.value.1);
      if StartsWith(u, ']') then Some(([first.value.0], u[1..]))
      else if !StartsWith(u, ',') then None
      else
        var rest := ReadItems(u[1..]);
        if rest.None? then None else Some(([first.value.0] + rest.value.0, rest.value.1))
  }

  /** A name, a colon and a value. */
  function ReadMember(text: Text): (r: Option<(Member, Text)>)
    ensures r.Some? ==> |r.value.1| < |text|
    decreases |text|, 1
  {
    var t := SkipBlanks(text);
    if !StartsWith(t, '"') then None else
      var key := ReadString(t[1..]);
      if key.None? then None else
        var u := SkipBlanks(key.value.1);
        if !StartsWith(u, ':') then None else
          var value := ReadValue(u[1..]);
          if value.None? then None else Some((Member(key.value.0, value.value.0), value.value.1))
  }

  function ReadMembers(t: Text): (r: Option<(seq<Member>, Text)>)
    ensures r.Some? ==> |r.value.1| < |t|
    decreases |t|, 2
  {
    var first := ReadMember(t);
    if first.None? then None else
      var u := SkipBlanks(first.value.1);
      if StartsWith(u, '}') then Some(([first.value.0], u[1..]))
      else if !StartsWith(u, ',') then None
      else
        var rest := ReadMembers(u[1..]);
        if rest.None? then None else Some(([first.value.0] + rest.value.0, rest.value.1))
  }

  /** A whole JSON text: one value and blanks. */
  function ReadJson(t: Text): (r: Option<Json>) {
    var v := ReadValue(t);
    if v.None? || SkipBlanks(v.value.1) != [] then None else Some(v.value.0)
  }
}
