/**
 * JavaScript values as `JSON.stringify` reads them (ECMA-262, section 25.5.2), over UTF-16 code
 * units. A `bigint` is rendered here as its bare decimal digits: that is the text a conversion
 * with exact integers has to produce.
 */
module JsonText {
  import opened Results
  import opened Numerals
  import opened Utf16

  const QUOTE: Unit := 34
  const BACKSLASH: Unit := 92
  const MINUS: Unit := 45

  /** The code units of an ASCII literal. */
  function U(s: string): (r: Text)
    requires forall i :: 0 <= i < |s| ==> s[i] as int < 128
    ensures |r| == |s|
    ensures forall i :: 0 <= i < |s| ==> r[i] == s[i] as int
  {
    seq(|s|, i requires 0 <= i < |s| => s[i] as int)
  }

  /** A number is not finite, or has the text that `Number::toString` gives it. */
  datatype Number = NotFinite | Finite(text: Text, integer: bool, safe: bool)

  datatype Member = Member(key: Text, value: Value)

  /** An argument that has already been read; `Absent` is undefined, a function or a symbol. */
  datatype Value =
    | Absent
    | Null
    | Boolean(b: bool)
    | Num(n: Number)
    | Str(s: Text)
    | BigInt(i: int)
    | Array(items: seq<Value>)
    | Object(members: seq<Member>)

  // ----- strings

  predicate IsDigit(u: Unit) {
    48 <= u <= 57
  }

  predicate IsLeading(u: Unit) {
    0xD800 <= u <= 0xDBFF
  }

  predicate IsTrailing(u: Unit) {
    0xDC00 <= u <= 0xDFFF
  }

  predicate StartsWithPair(s: Text) {
    |s| >= 2 && IsLeading(s[0]) && IsTrailing(s[1])
  }

  predicate IsWellFormed(s: Text) {
    s == [] ||
    if StartsWithPair(s) then IsWellFormed(s[2..])
    else !IsLeading(s[0]) && !IsTrailing(s[0]) && IsWellFormed(s[1..])
  }

  function HexDigit(d: nat): (r: Unit)
    requires d < 16
  {
    if d < 10 then 48 + d else 87 + d
  }

  /** `\uXXXX`, with lower-case hexadecimal digits. */
  function UnicodeEscape(u: Unit): (r: Text) {
    [BACKSLASH, 117, HexDigit(u / 4096), HexDigit(u / 256 % 16), HexDigit(u / 16 % 16), HexDigit(u % 16)]
  }

  /** One code unit that is not part of a surrogate pair. */
  function EscapeUnit(u: Unit): (r: Text)
    ensures r == [u] || (|r| >= 2 && r[0] == BACKSLASH)
  {
    if u == 8 then [BACKSLASH, 98]
    else if u == 9 then [BACKSLASH, 116]
    else if u == 10 then [BACKSLASH, 110]
    else if u == 12 then [BACKSLASH, 102]
    else if u == 13 then [BACKSLASH, 114]
    else if u == QUOTE || u == BACKSLASH then [BACKSLASH, u]
    else if u < 32 || IsLeading(u) || IsTrailing(u) then UnicodeEscape(u)
    else [u]
  }

  function Escape(s: Text): (r: Text) {
    if s == [] then []
    else if StartsWithPair(s) then s[..2] + Escape(s[2..])
    else EscapeUnit(s[0]) + Escape(s[1..])
  }

  /** The decimal text of an integer. */
  function Decimal(i: int): (r: Text)
    ensures r != []
    ensures IsDigit(r[|r| - 1])
    ensures forall k :: 0 <= k < |r| ==> IsDigit(r[k]) || (k == 0 && r[k] == MINUS && |r| >= 2)
  {
    var ds := Digits(if i < 0 then -i else i, 10);
    var text := seq(|ds|, k requires 0 <= k < |ds| => 48 + ds[k]);
    if i < 0 then [MINUS] + text else text
  }

  // ----- values

  datatype Symbol = NullWord | TrueWord | FalseWord | Comma | Colon | OpenArray | CloseArray | OpenObject | CloseObject

  /** A piece of JSON text. */
  datatype Token = Sym(symbol: Symbol) | NumberText(text: Text) | Quoted(s: Text) | Big(i: int)

  function SymbolText(symbol: Symbol): (r: Text) {
    match symbol
    case NullWord => U("null")
    case TrueWord => U("true")
    case FalseWord => U("false")
    case Comma => U(",")
    case Colon => U(":")
    case OpenArray => U("[")
    case CloseArray => U("]")
    case OpenObject => U("{")
    case CloseObject => U("}")
  }

  function TokenText(t: Token): (r: Text) {
    match t
    case Sym(symbol) => SymbolText(symbol)
    case NumberText(text) => text
    case Quoted(s) => [QUOTE] + Escape(s) + [QUOTE]
    case Big(i) => Decimal(i)
  }

  function Flatten(ts: seq<Token>): (r: Text) {
    if ts == [] then [] else TokenText(ts[0]) + Flatten(ts[1..])
  }

  /** The tokens of a value that is present. */
  function Tokens(v: Value): (r: seq<Token>)
    decreases v, 1
  {
    match v
    case Absent => []
    case Null => [Sym(NullWord)]
    case Boolean(b) => [Sym(if b then TrueWord else FalseWord)]
    case Num(NotFinite) => [Sym(NullWord)]
    case Num(Finite(text, _, _)) => [NumberText(text)]
    case Str(s) => [Quoted(s)]
    case BigInt(i) => [Big(i)]
    case Array(items) => [Sym(OpenArray)] + ItemTokens(items) + [Sym(CloseArray)]
    case Object(members) => [Sym(OpenObject)] + MemberTokens(members) + [Sym(CloseObject)]
  }

  /** Array elements separated by commas; an absent element is written as null. */
  function ItemTokens(items: seq<Value>): (r: seq<Token>)
    decreases items, 0
  {
    if items == [] then [] else
      (if items[0].Absent? then [Sym(NullWord)] else Tokens(items[0]))
      + (if |items| == 1 then [] else [Sym(Comma)])
      + ItemTokens(items[1..])
  }

  /** Object members separated by commas; a member with an absent value is left out. */
  function MemberTokens(members: seq<Member>): (r: seq<Token>)
    decreases members, 0
  {
    if members == [] then []
    else if members[0].value.Absent? then MemberTokens(members[1..])
    else
      [Quoted(members[0].key), Sym(Colon)] + Tokens(members[0].value)
      + (if AnyPresent(members[1..]) then [Sym(Comma)] else [])
      + MemberTokens(members[1..])
  }

  predicate AnyPresent(members: seq<Member>) {
    exists k :: 0 <= k < |members| && !members[k].value.Absent?
  }

  /** The JSON text of a value, or nothing when it is absent. */
  function Stringify(v: Value): (r: Option<Text>) {
    if v.Absent? then None else Some(Flatten(Tokens(v)))
  }

  /** Number texts are made of digits, signs, a point and an exponent letter. */
  predicate IsNumberText(text: Text) {
    forall k :: 0 <= k < |text| ==> IsDigit(text[k]) || text[k] in {43, 45, 46, 101}
  }

  /** Every number carries a number's text. */
  predicate NumbersHaveNumberText(ts: seq<Token>) {
    forall k :: 0 <= k < |ts| && ts[k].NumberText? ==> IsNumberText(ts[k].text)
  }
}
