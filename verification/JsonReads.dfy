/** What the exact serialization says to a JSON reader (packages/protocol-wasm/index.js). */
module JsonReads {
  import opened Results
  import opened Numerals
  import opened Utf16
  import opened JsonText
  import R = JsonReader

  // ----- what a value means

  /** The JSON value of a value that is present. */
  function Meant(v: Value): (r: R.Json)
    decreases v, 1
  {
    match v
    case Absent => R.Null
    case Null => R.Null
    case Boolean(b) => R.Bool(b)
    case Num(n) => if n.NotFinite? then R.Null else R.Numeral(n.text)
    case Str(s) => R.String(s)
    case BigInt(i) => R.Integer(i)
    case Array(items) => R.Array(MeantItems(items))
    case Object(members) => R.Object(MeantMembers(members))
  }

  /** An absent element is null. */
  function MeantItems(items: seq<Value>): (r: seq<R.Json>)
    ensures |r| == |items|
    decreases items, 0
  {
    if items == [] then [] else [Meant(items[0])] + MeantItems(items[1..])
  }

  /** A member whose value is absent is not there. */
  function MeantMembers(members: seq<Member>): (r: seq<R.Member>)
    decreases members, 0
  {
    if members == [] then []
    else if members[0].value.Absent? then MeantMembers(members[1..])
    else [R.Member(members[0].key, Meant(members[0].value))] + MeantMembers(members[1..])
  }

  /** Every finite number has the text of a JSON number, as `Number::toString` gives it. */
  predicate NumbersAreNumbers(ts: seq<Token>) {
    forall k :: 0 <= k < |ts| && ts[k].NumberText? ==> R.IsNumber(ts[k].text)
  }

  lemma NumbersSplit(a: seq<Token>, b: seq<Token>)
    requires NumbersAreNumbers(a + b)
    ensures NumbersAreNumbers(a) && NumbersAreNumbers(b)
  {
    hide R.IsNumber;
    assert forall k :: 0 <= k < |a| ==> (a + b)[k] == a[k];
    assert forall k :: 0 <= k < |b| ==> (a + b)[|a| + k] == b[k];
  }

  lemma {:induction false} FlattenConcat(a: seq<Token>, b: seq<Token>)
    ensures Flatten(a + b) == Flatten(a) + Flatten(b)
  {
    hide TokenText;
    if a == [] {
      assert a + b == b;
    } else {
      assert (a + b)[1..] == a[1..] + b;
      FlattenConcat(a[1..], b);
    }
  }

  lemma FlattenOne(t: Token)
    ensures Flatten([t]) == TokenText(t)
  {
    hide TokenText;
    assert [t][1..] == [];
    assert TokenText(t) + [] == TokenText(t);
  }

  // ----- strings

  lemma HexReads(d: nat)
    requires d < 16
    ensures R.HexValue(HexDigit(d)) == Some(d)
  {
  }

  lemma HexParts(u: nat)
    ensures u == ((u / 4096 * 16 + u / 256 % 16) * 16 + u / 16 % 16) * 16 + u % 16
  {
    assert u / 4096 == u / 256 / 16 && u / 256 == u / 16 / 16;
  }

  lemma FourHexReads(u: Unit, rest: Text)
    ensures var t := UnicodeEscape(u)[2..] + rest; |t| >= 4 && R.ReadHex(t) == Some(u)
  {
    hide R.HexValue, HexDigit;
    var a, b, c, d := u / 4096, u / 256 % 16, u / 16 % 16, u % 16;
    HexReads(a);
    HexReads(b);
    HexReads(c);
    HexReads(d);
    HexParts(u);
    var t := UnicodeEscape(u)[2..] + rest;
    assert t[0] == HexDigit(a) && t[1] == HexDigit(b) && t[2] == HexDigit(c) && t[3] == HexDigit(d);
  }

  lemma UnitReads(u: Unit, rest: Text)
    ensures var e := EscapeUnit(u); R.ReadCharacter(e + rest) == Some((u, |e|))
  {
    hide R.ReadHex;
    FourHexReads(u, rest);
    var e := EscapeUnit(u);
    if e == UnicodeEscape(u) {
      assert (e + rest)[2..] == UnicodeEscape(u)[2..] + rest;
    }
  }

  lemma CharacterThenString(t: Text, u: Unit, n: nat, s: Text, rest: Text)
    requires R.ReadCharacter(t) == Some((u, n)) && n <= |t| && R.ReadString(t[n..]) == Some((s, rest))
    ensures R.ReadString(t) == Some(([u] + s, rest))
  {
  }

  lemma RawReads(u: Unit, behind: Text)
    requires u >= 128
    ensures R.ReadCharacter([u] + behind) == Some((u, 1))
  {
  }

  /** A surrogate pair is written as it is. */
  lemma PairReads(s: Text, behind: Text, rest: Text)
    requires StartsWithPair(s) && R.ReadString(behind) == Some((s[2..], rest))
    ensures R.ReadString([s[0], s[1]] + behind) == Some((s, rest))
  {
    hide R.ReadCharacter, R.ReadString;
    var text := [s[0], s[1]] + behind;
    RawReads(s[1], behind);
    assert ([s[1]] + behind)[1..] == behind;
    CharacterThenString([s[1]] + behind, s[1], 1, s[2..], rest);
    assert text == [s[0]] + ([s[1]] + behind) && text[1..] == [s[1]] + behind;
    RawReads(s[0], [s[1]] + behind);
    CharacterThenString(text, s[0], 1, [s[1]] + s[2..], rest);
    assert s == [s[0]] + ([s[1]] + s[2..]);
  }

  lemma QuoteEnds(rest: Text)
    ensures R.ReadString([QUOTE] + rest) == Some(([], rest))
  {
    assert ([QUOTE] + rest)[1..] == rest;
  }

  /** A quoted string reads back, whatever it holds. */
  lemma {:induction false} StringReads(s: Text, rest: Text)
    ensures R.ReadString(Escape(s) + [QUOTE] + rest) == Some((s, rest))
    decreases |s|
  {
    hide R.ReadCharacter, R.ReadString, EscapeUnit, StartsWithPair;
    var text := Escape(s) + [QUOTE] + rest;
    if s == [] {
      QuoteEnds(rest);
      assert text == [QUOTE] + rest;
    } else if StartsWithPair(s) {
      PairIsTwo(s);
      var behind := Escape(s[2..]) + [QUOTE] + rest;
      StringReads(s[2..], rest);
      PairReads(s, behind, rest);
      assert text == [s[0], s[1]] + behind;
    } else {
      var e, behind := EscapeUnit(s[0]), Escape(s[1..]) + [QUOTE] + rest;
      StringReads(s[1..], rest);
      assert text == e + behind && text[|e|..] == behind;
      UnitReads(s[0], behind);
      CharacterThenString(text, s[0], |e|, s[1..], rest);
      assert s == [s[0]] + s[1..];
    }
  }

  lemma PairIsTwo(s: Text)
    requires StartsWithPair(s)
    ensures |s| >= 2
  {
  }

  // ----- numbers

  lemma {:induction false} DigitsRun(t: Text, rest: Text)
    requires forall k :: 0 <= k < |t| ==> R.IsDigit(t[k])
    requires rest == [] || !R.IsDigit(rest[0])
    ensures R.DigitRun(t + rest) == |t|
  {
    if t == [] {
      assert t + rest == rest;
    } else {
      assert (t + rest)[1..] == t[1..] + rest;
      DigitsRun(t[1..], rest);
    }
  }

  lemma {:induction false} NumberRuns(t: Text, rest: Text)
    requires forall k :: 0 <= k < |t| ==> R.InNumber(t[k])
    requires rest == [] || !R.InNumber(rest[0])
    ensures R.NumberRun(t + rest) == |t|
  {
    if t == [] {
      assert t + rest == rest;
    } else {
      assert (t + rest)[1..] == t[1..] + rest;
      NumberRuns(t[1..], rest);
    }
  }

  lemma ExponentIsInNumber(t: Text)
    requires R.IsExponent(t)
    ensures forall k :: 0 <= k < |t| ==> R.InNumber(t[k])
  {
    if t != [] {
      var sign := if R.StartsWith(t[1..], '+') || R.StartsWith(t[1..], '-') then 2 else 1;
      assert forall k :: sign <= k < |t| ==> t[k] == t[sign..][k - sign];
      assert sign == 2 ==> t[1] == t[1..][0];
    }
  }

  lemma FractionIsInNumber(t: Text)
    requires R.IsFraction(t)
    ensures forall k :: 0 <= k < |t| ==> R.InNumber(t[k])
  {
    hide R.IsExponent;
    if R.StartsWith(t, '.') {
      var n := R.DigitRun(t[1..]);
      ExponentIsInNumber(t[1 + n..]);
      assert forall k :: 1 <= k < 1 + n ==> t[k] == t[1..][k - 1];
      assert forall k :: 1 + n <= k < |t| ==> t[k] == t[1 + n..][k - 1 - n];
    } else {
      ExponentIsInNumber(t);
    }
  }

  /** A number is made of its characters and begins with a digit or a minus. */
  lemma NumberIsInNumber(t: Text)
    requires R.IsNumber(t)
    ensures t != [] && (R.IsDigit(t[0]) || t[0] == R.Code('-')) && forall k :: 0 <= k < |t| ==> R.InNumber(t[k])
  {
    hide R.IsFraction;
    var u := R.Unsigned(t);
    var n := R.DigitRun(u);
    var from := |t| - |u|;
    FractionIsInNumber(u[n..]);
    assert forall k :: from <= k < |t| ==> t[k] == u[k - from];
    assert forall k :: n <= k < |u| ==> u[k] == u[n..][k - n];
  }

  function Digital(ds: seq<nat>): (r: Text)
    requires forall k :: 0 <= k < |ds| ==> ds[k] < 10
    ensures |r| == |ds| && forall k :: 0 <= k < |r| ==> r[k] == 48 + ds[k]
  {
    seq(|ds|, k requires 0 <= k < |ds| => 48 + ds[k])
  }

  lemma DigitalReads(ds: seq<nat>)
    requires forall k :: 0 <= k < |ds| ==> ds[k] < 10
    ensures R.DigitRun(Digital(ds)) == |ds| && R.DigitValues(Digital(ds)) == ds
  {
    assert Digital(ds) + [] == Digital(ds);
    DigitsRun(Digital(ds), []);
  }

  lemma SignReads(n: nat, ds: seq<nat>)
    requires ds == Digits(n, 10)
    ensures R.Unsigned([45] + Digital(ds)) == Digital(ds) == R.Unsigned(Digital(ds))
    ensures R.StartsWith([45] + Digital(ds), '-') && !R.StartsWith(Digital(ds), '-')
  {
    hide Digits;
    assert ([45] + Digital(ds))[1..] == Digital(ds);
  }

  lemma UnsignedReads(t: Text, n: nat)
    requires R.Unsigned(t) == Digital(Digits(n, 10))
    ensures R.IsNumber(t) && R.Numeral(t) == R.Integer(if R.StartsWith(t, '-') then -(n as int) else n as int)
  {
    hide Digits, R.Unsigned, R.StartsWith;
    var ds := Digits(n, 10);
    NoLeadingZero(n, 10);
    DigitsDenote(n, 10);
    DigitalReads(ds);
    assert Digital(ds)[|ds|..] == [];
    NothingIsFraction();
  }

  lemma NothingIsFraction()
    ensures R.IsFraction([])
  {
  }

  /** The decimal text of an integer is a JSON number and reads back as that integer, sign and all. */
  lemma DecimalReads(i: int)
    ensures R.IsNumber(Decimal(i)) && R.Numeral(Decimal(i)) == R.Integer(i)
  {
    hide Digits, R.IsNumber, R.Numeral, R.Unsigned, R.StartsWith, Decimal;
    var n: nat := if i < 0 then -i else i;
    SignReads(n, Digits(n, 10));
    DecimalIs(i);
    UnsignedReads(Decimal(i), n);
  }

  lemma DecimalIs(i: int)
    ensures var ds := Digits(if i < 0 then -i else i, 10);
            Decimal(i) == if i < 0 then [45] + Digital(ds) else Digital(ds)
  {
    hide Digits;
  }

  // ----- values

  /** What may follow a value inside a text. */
  predicate Stops(rest: Text) {
    rest == [] || rest[0] == R.Code(',') || rest[0] == R.Code(']') || rest[0] == R.Code('}')
  }

  lemma NothingToSkip(t: Text)
    requires t == [] || !R.IsBlank(t[0])
    ensures R.SkipBlanks(t) == t
  {
  }

  lemma NumberReads(t: Text, rest: Text)
    requires R.IsNumber(t) && Stops(rest)
    ensures R.ReadValue(t + rest) == Some((R.Numeral(t), rest))
  {
    hide R.IsNumber, R.Numeral;
    NumberIsInNumber(t);
    NumberRuns(t, rest);
    var text := t + rest;
    assert text[0] == t[0] && text[..|t|] == t && text[|t|..] == rest;
  }

  lemma WordsRead(rest: Text)
    ensures R.ReadValue(SymbolText(NullWord) + rest) == Some((R.Null, rest))
    ensures R.ReadValue(SymbolText(TrueWord) + rest) == Some((R.Bool(true), rest))
    ensures R.ReadValue(SymbolText(FalseWord) + rest) == Some((R.Bool(false), rest))
  {
    WordReads(SymbolText(NullWord), R.NULL, rest);
    WordReads(SymbolText(TrueWord), R.TRUE, rest);
    WordReads(SymbolText(FalseWord), R.FALSE, rest);
  }

  lemma WordReads(t: Text, word: Text, rest: Text)
    requires t == word && (word == R.NULL || word == R.TRUE || word == R.FALSE)
    ensures R.ReadValue(t + rest)
         == Some((if word == R.NULL then R.Null else if word == R.TRUE then R.Bool(true) else R.Bool(false), rest))
  {
    var text := t + rest;
    assert text[0] == word[0] && text[|word|..] == rest && word <= text;
  }

  lemma QuotedReads(s: Text, rest: Text)
    ensures R.ReadValue(TokenText(Quoted(s)) + rest) == Some((R.String(s), rest))
  {
    hide R.ReadString;
    var text := TokenText(Quoted(s)) + rest;
    StringReads(s, rest);
    assert text[0] == R.Code('"') && text[1..] == Escape(s) + [QUOTE] + rest;
  }

  // ----- arrays and objects

  const COMMA: Unit := 44
  const COLON: Unit := 58
  const OPEN_ARRAY: Unit := 91
  const CLOSE_ARRAY: Unit := 93
  const OPEN_OBJECT: Unit := 123
  const CLOSE_OBJECT: Unit := 125

  lemma SymbolsAre()
    ensures SymbolText(Comma) == [COMMA] && SymbolText(Colon) == [COLON]
    ensures SymbolText(OpenArray) == [OPEN_ARRAY] && SymbolText(CloseArray) == [CLOSE_ARRAY]
    ensures SymbolText(OpenObject) == [OPEN_OBJECT] && SymbolText(CloseObject) == [CLOSE_OBJECT]
  {
  }

  /** The text begins like a value. */
  predicate Begins(t: Text) {
    t != [] && !R.IsBlank(t[0]) && t[0] != CLOSE_ARRAY && t[0] != CLOSE_OBJECT
  }

  lemma LastItem(text: Text, j: R.Json, rest: Text)
    requires R.ReadValue(text) == Some((j, [CLOSE_ARRAY] + rest))
    ensures R.ReadItems(text) == Some(([j], rest))
  {
    hide R.ReadValue;
    NothingToSkip([CLOSE_ARRAY] + rest);
    assert ([CLOSE_ARRAY] + rest)[1..] == rest;
  }

  lemma ItemAndMore(text: Text, j: R.Json, behind: Text, js: seq<R.Json>, rest: Text)
    requires R.ReadValue(text) == Some((j, [COMMA] + behind)) && R.ReadItems(behind) == Some((js, rest))
    ensures R.ReadItems(text) == Some(([j] + js, rest))
  {
    hide R.ReadValue;
    NothingToSkip([COMMA] + behind);
    assert ([COMMA] + behind)[1..] == behind;
  }

  lemma ArrayReads(t: Text, js: seq<R.Json>, rest: Text)
    requires Begins(t) && R.ReadItems(t) == Some((js, rest))
    ensures R.ReadValue([OPEN_ARRAY] + t) == Some((R.Array(js), rest))
  {
    hide R.ReadItems;
    NothingToSkip(t);
    NothingToSkip([OPEN_ARRAY] + t);
    assert ([OPEN_ARRAY] + t)[1..] == t;
  }

  lemma EmptyArrayReads(rest: Text)
    ensures R.ReadValue([OPEN_ARRAY] + ([CLOSE_ARRAY] + rest)) == Some((R.Array([]), rest))
  {
    var t := [CLOSE_ARRAY] + rest;
    NothingToSkip(t);
    assert ([OPEN_ARRAY] + t)[1..] == t && t[1..] == rest;
  }

  lemma KeyAndValue(text: Text, t: Text, key: Text, value: Text, j: R.Json, rest: Text)
    requires text != [] && text[0] == R.Code('"') && text[1..] == t
    requires R.ReadString(t) == Some((key, [COLON] + value)) && R.ReadValue(value) == Some((j, rest))
    ensures R.ReadMember(text) == Some((R.Member(key, j), rest))
  {
    hide R.ReadValue, R.ReadString;
    NothingToSkip(text);
    NothingToSkip([COLON] + value);
    assert ([COLON] + value)[1..] == value;
  }

  lemma MemberReads(key: Text, value: Text, j: R.Json, rest: Text)
    requires R.ReadValue(value) == Some((j, rest))
    ensures R.ReadMember(TokenText(Quoted(key)) + ([COLON] + value)) == Some((R.Member(key, j), rest))
  {
    hide R.ReadValue, R.ReadString, R.ReadMember, Escape;
    var text, behind := TokenText(Quoted(key)) + ([COLON] + value), [COLON] + value;
    StringReads(key, behind);
    assert text == [QUOTE] + (Escape(key) + [QUOTE] + behind);
    KeyAndValue(text, Escape(key) + [QUOTE] + behind, key, value, j, rest);
  }

  lemma LastMember(text: Text, m: R.Member, rest: Text)
    requires R.ReadMember(text) == Some((m, [CLOSE_OBJECT] + rest))
    ensures R.ReadMembers(text) == Some(([m], rest))
  {
    hide R.ReadMember;
    NothingToSkip([CLOSE_OBJECT] + rest);
    assert ([CLOSE_OBJECT] + rest)[1..] == rest;
  }

  lemma MemberAndMore(text: Text, m: R.Member, behind: Text, ms: seq<R.Member>, rest: Text)
    requires R.ReadMember(text) == Some((m, [COMMA] + behind)) && R.ReadMembers(behind) == Some((ms, rest))
    ensures R.ReadMembers(text) == Some(([m] + ms, rest))
  {
    hide R.ReadMember;
    NothingToSkip([COMMA] + behind);
    assert ([COMMA] + behind)[1..] == behind;
  }

  lemma ObjectReads(t: Text, ms: seq<R.Member>, rest: Text)
    requires Begins(t) && R.ReadMembers(t) == Some((ms, rest))
    ensures R.ReadValue([OPEN_OBJECT] + t) == Some((R.Object(ms), rest))
  {
    hide R.ReadMembers;
    NothingToSkip(t);
    NothingToSkip([OPEN_OBJECT] + t);
    assert ([OPEN_OBJECT] + t)[1..] == t;
  }

  lemma EmptyObjectReads(rest: Text)
    ensures R.ReadValue([OPEN_OBJECT] + ([CLOSE_OBJECT] + rest)) == Some((R.Object([]), rest))
  {
    var t := [CLOSE_OBJECT] + rest;
    NothingToSkip(t);
    assert ([OPEN_OBJECT] + t)[1..] == t && t[1..] == rest;
  }

  // ----- the whole value

  lemma TokenBegins(t: Token)
    requires t.Quoted? || t.Big? || (t.NumberText? && R.IsNumber(t.text))
             || (t.Sym? && t.symbol in {NullWord, TrueWord, FalseWord, OpenArray, OpenObject})
    ensures Begins(TokenText(t))
  {
    hide R.IsNumber, Escape, Decimal, SymbolText;
    match t
    case Big(i) =>
      DecimalReads(i);
      NumberIsInNumber(Decimal(i));
    case NumberText(text) => NumberIsInNumber(text);
    case Sym(symbol) => SymbolBegins(symbol);
    case Quoted(s) =>
  }

  lemma SymbolBegins(symbol: Symbol)
    requires symbol in {NullWord, TrueWord, FalseWord, OpenArray, OpenObject}
    ensures Begins(SymbolText(symbol))
  {
  }

  lemma {:induction false} FirstToken(v: Value)
    requires !v.Absent?
    ensures Tokens(v) != [] && (var t := Tokens(v)[0]; !t.Sym? || t.symbol in {NullWord, TrueWord, FalseWord, OpenArray, OpenObject})
  {
  }

  lemma {:induction false} ValueBegins(v: Value, rest: Text)
    requires !v.Absent? && NumbersAreNumbers(Tokens(v))
    ensures Begins(Flatten(Tokens(v)) + rest)
  {
    hide Tokens, TokenText, R.IsNumber, R.IsBlank;
    FirstToken(v);
    TokenBegins(Tokens(v)[0]);
  }

  /** The text of a value reads back as what the value means. */
  lemma {:induction false} ValueReads(v: Value, rest: Text)
    requires !v.Absent? && NumbersAreNumbers(Tokens(v)) && Stops(rest)
    ensures R.ReadValue(Flatten(Tokens(v)) + rest) == Some((Meant(v), rest))
    decreases v, 1
  {
    hide R.ReadValue, Flatten, TokenText, R.IsNumber, R.Numeral, NumbersAreNumbers, Stops, SymbolText;
    match v
    case Null =>
      FlattenOne(Sym(NullWord));
      NullReads(rest);
    case Boolean(b) =>
      FlattenOne(Sym(if b then TrueWord else FalseWord));
      BoolReads(b, rest);
    case Num(n) =>
      if n.NotFinite? {
        FlattenOne(Sym(NullWord));
        NullReads(rest);
      } else {
        FlattenOne(NumberText(n.text));
        NumberTextReads(n.text, rest);
      }
    case Str(s) =>
      FlattenOne(Quoted(s));
      QuotedReads(s, rest);
    case BigInt(i) =>
      FlattenOne(Big(i));
      BigReads(i, rest);
    case Array(items) => ArrayTextReads(items, rest);
    case Object(members) => ObjectTextReads(members, rest);
  }

  lemma NullReads(rest: Text)
    ensures R.ReadValue(TokenText(Sym(NullWord)) + rest) == Some((R.Null, rest))
  {
    hide R.ReadValue;
    WordsRead(rest);
  }

  lemma BoolReads(b: bool, rest: Text)
    ensures R.ReadValue(TokenText(Sym(if b then TrueWord else FalseWord)) + rest) == Some((R.Bool(b), rest))
  {
    hide R.ReadValue;
    WordsRead(rest);
  }

  lemma NumberTextReads(t: Text, rest: Text)
    requires NumbersAreNumbers([NumberText(t)]) && Stops(rest)
    ensures R.ReadValue(TokenText(NumberText(t)) + rest) == Some((R.Numeral(t), rest))
  {
    hide R.ReadValue, R.IsNumber, R.Numeral;
    assert [NumberText(t)][0] == NumberText(t);
    NumberReads(t, rest);
  }

  lemma BigReads(i: int, rest: Text)
    requires Stops(rest)
    ensures R.ReadValue(TokenText(Big(i)) + rest) == Some((R.Integer(i), rest))
  {
    hide R.ReadValue, R.IsNumber, R.Numeral, Decimal;
    DecimalReads(i);
    NumberReads(Decimal(i), rest);
  }

  /** Tokens between two symbols. */
  lemma FlattenEnclosed(open: Symbol, ts: seq<Token>, close: Symbol, rest: Text)
    ensures Flatten([Sym(open)] + ts + [Sym(close)]) + rest == SymbolText(open) + (Flatten(ts) + (SymbolText(close) + rest))
  {
    hide Flatten, SymbolText;
    FlattenConcat([Sym(open)] + ts, [Sym(close)]);
    FlattenConcat([Sym(open)], ts);
    FlattenOne(Sym(open));
    FlattenOne(Sym(close));
  }

  lemma {:induction false} ArrayTextReads(items: seq<Value>, rest: Text)
    requires NumbersAreNumbers([Sym(OpenArray)] + ItemTokens(items) + [Sym(CloseArray)])
    ensures R.ReadValue(Flatten([Sym(OpenArray)] + ItemTokens(items) + [Sym(CloseArray)]) + rest)
         == Some((R.Array(MeantItems(items)), rest))
    decreases items, 3
  {
    hide R.ReadValue, R.ReadItems, Flatten, NumbersAreNumbers, SymbolText;
    var ts := ItemTokens(items);
    NumbersSplit([Sym(OpenArray)] + ts, [Sym(CloseArray)]);
    NumbersSplit([Sym(OpenArray)], ts);
    FlattenEnclosed(OpenArray, ts, CloseArray, rest);
    SymbolsAre();
    if items == [] {
      FlattenNothing();
      assert [] + ([CLOSE_ARRAY] + rest) == [CLOSE_ARRAY] + rest;
      EmptyArrayReads(rest);
    } else {
      ItemsRead(items, rest);
      ItemsBegin(items, [CLOSE_ARRAY] + rest);
      ArrayReads(Flatten(ts) + ([CLOSE_ARRAY] + rest), MeantItems(items), rest);
    }
  }

  lemma FlattenNothing()
    ensures Flatten([]) == []
  {
  }

  /** The tokens of one element. */
  function ItemToken(v: Value): (r: seq<Token>) {
    if v.Absent? then [Sym(NullWord)] else Tokens(v)
  }

  lemma {:induction false} ItemsSplit(items: seq<Value>)
    requires items != []
    ensures ItemTokens(items) == ItemToken(items[0]) + (if |items| == 1 then [] else [Sym(Comma)] + ItemTokens(items[1..]))
  {
    hide Tokens;
    var rest := ItemTokens(items[1..]);
    if |items| == 1 {
      assert rest == [];
    } else {
      assert ItemToken(items[0]) + [Sym(Comma)] + rest == ItemToken(items[0]) + ([Sym(Comma)] + rest);
    }
  }

  lemma {:induction false} ItemsBegin(items: seq<Value>, rest: Text)
    requires items != [] && NumbersAreNumbers(ItemTokens(items))
    ensures Begins(Flatten(ItemTokens(items)) + rest)
  {
    hide Tokens, Flatten, NumbersAreNumbers, Begins, ItemTokens;
    var more := if |items| == 1 then [] else [Sym(Comma)] + ItemTokens(items[1..]);
    ItemsSplit(items);
    NumbersSplit(ItemToken(items[0]), more);
    FlattenConcat(ItemToken(items[0]), more);
    assert Flatten(ItemToken(items[0])) + Flatten(more) + rest == Flatten(ItemToken(items[0])) + (Flatten(more) + rest);
    if items[0].Absent? {
      NullBegins(Flatten(more) + rest);
    } else {
      ValueBegins(items[0], Flatten(more) + rest);
    }
  }

  lemma NullBegins(rest: Text)
    ensures Begins(Flatten([Sym(NullWord)]) + rest)
  {
    FlattenOne(Sym(NullWord));
  }

  /** One element reads, absent or not. */
  lemma {:induction false} ItemReads(v: Value, rest: Text)
    requires NumbersAreNumbers(ItemToken(v)) && Stops(rest)
    ensures R.ReadValue(Flatten(ItemToken(v)) + rest) == Some((Meant(v), rest))
    decreases v, 2
  {
    hide R.ReadValue, Flatten, NumbersAreNumbers, Tokens, Stops;
    if v.Absent? {
      FlattenOne(Sym(NullWord));
      NullReads(rest);
    } else {
      ValueReads(v, rest);
    }
  }

  lemma {:induction false} ItemsRead(items: seq<Value>, rest: Text)
    requires items != [] && NumbersAreNumbers(ItemTokens(items))
    ensures R.ReadItems(Flatten(ItemTokens(items)) + ([CLOSE_ARRAY] + rest)) == Some((MeantItems(items), rest))
    decreases items, 0
  {
    hide R.ReadValue, R.ReadItems, Flatten, NumbersAreNumbers, ItemToken, ItemTokens, SymbolText;
    var end := [CLOSE_ARRAY] + rest;
    ItemsSplit(items);
    var first := ItemToken(items[0]);
    if |items| == 1 {
      assert first + [] == first;
      ItemReads(items[0], end);
      LastItem(Flatten(first) + end, Meant(items[0]), rest);
      assert items[1..] == [] && MeantItems(items[1..]) == [];
      assert MeantItems(items) == [Meant(items[0])] + [] == [Meant(items[0])];
    } else {
      var more := ItemTokens(items[1..]);
      NumbersSplit(first, [Sym(Comma)] + more);
      NumbersSplit([Sym(Comma)], more);
      ItemsRead(items[1..], rest);
      FlattenConcat(first, [Sym(Comma)] + more);
      FlattenConcat([Sym(Comma)], more);
      FlattenOne(Sym(Comma));
      SymbolsAre();
      var behind := Flatten(more) + end;
      ItemReads(items[0], [COMMA] + behind);
      assert Flatten(ItemTokens(items)) + end == Flatten(first) + ([COMMA] + behind);
      ItemAndMore(Flatten(first) + ([COMMA] + behind), Meant(items[0]), behind, MeantItems(items[1..]), rest);
    }
  }

  // ----- members

  lemma {:induction false} ObjectTextReads(members: seq<Member>, rest: Text)
    requires NumbersAreNumbers([Sym(OpenObject)] + MemberTokens(members) + [Sym(CloseObject)])
    ensures R.ReadValue(Flatten([Sym(OpenObject)] + MemberTokens(members) + [Sym(CloseObject)]) + rest)
         == Some((R.Object(MeantMembers(members)), rest))
    decreases members, 3
  {
    hide R.ReadValue, R.ReadMembers, Flatten, NumbersAreNumbers, SymbolText, MemberTokens, MeantMembers;
    var ts := MemberTokens(members);
    NumbersSplit([Sym(OpenObject)] + ts, [Sym(CloseObject)]);
    NumbersSplit([Sym(OpenObject)], ts);
    FlattenEnclosed(OpenObject, ts, CloseObject, rest);
    SymbolsAre();
    if AnyPresent(members) {
      MembersRead(members, rest);
      MembersBegin(members, [CLOSE_OBJECT] + rest);
      ObjectReads(Flatten(ts) + ([CLOSE_OBJECT] + rest), MeantMembers(members), rest);
    } else {
      NoMembers(members);
      FlattenNothing();
      assert [] + ([CLOSE_OBJECT] + rest) == [CLOSE_OBJECT] + rest;
      EmptyObjectReads(rest);
    }
  }

  lemma {:induction false} NoMembers(members: seq<Member>)
    requires !AnyPresent(members)
    ensures MemberTokens(members) == [] && MeantMembers(members) == []
    decreases |members|
  {
    if members != [] {
      assert forall k :: 0 <= k < |members[1..]| ==> members[1..][k] == members[k + 1];
      NoMembers(members[1..]);
    }
  }

  /** What stands behind the first present member. */
  function MoreMembers(members: seq<Member>): (r: seq<Token>)
    requires members != []
  {
    if AnyPresent(members[1..]) then [Sym(Comma)] + MemberTokens(members[1..]) else []
  }

  lemma {:induction false} MembersSplit(members: seq<Member>)
    requires members != [] && !members[0].value.Absent?
    ensures MemberTokens(members)
         == [Quoted(members[0].key)] + ([Sym(Colon)] + (Tokens(members[0].value) + MoreMembers(members)))
  {
    hide Tokens, AnyPresent;
    if !AnyPresent(members[1..]) {
      NoMembers(members[1..]);
    }
  }

  lemma {:induction false} MembersBegin(members: seq<Member>, rest: Text)
    requires AnyPresent(members)
    ensures Begins(Flatten(MemberTokens(members)) + rest)
    decreases |members|
  {
    hide Tokens, TokenText;
    if members[0].value.Absent? {
      assert AnyPresent(members[1..]) by { PresentBehind(members); }
      MembersBegin(members[1..], rest);
    } else {
      MembersSplit(members);
      TokenBegins(Quoted(members[0].key));
    }
  }

  lemma {:induction false} PresentBehind(members: seq<Member>)
    requires members != [] && members[0].value.Absent?
    ensures AnyPresent(members) <==> AnyPresent(members[1..])
  {
    if AnyPresent(members) {
      var k :| 0 <= k < |members| && !members[k].value.Absent?;
      assert members[1..][k - 1] == members[k];
    }
    if AnyPresent(members[1..]) {
      var k :| 0 <= k < |members[1..]| && !members[1..][k].value.Absent?;
      assert members[k + 1] == members[1..][k];
    }
  }

  /** The text of a first member and what follows it. */
  lemma FlattenMember(key: Text, value: seq<Token>, more: seq<Token>, end: Text)
    ensures Flatten([Quoted(key)] + ([Sym(Colon)] + (value + more))) + end
         == TokenText(Quoted(key)) + ([COLON] + (Flatten(value) + (Flatten(more) + end)))
  {
    hide Flatten, TokenText;
    FlattenConcat([Quoted(key)], [Sym(Colon)] + (value + more));
    FlattenConcat([Sym(Colon)], value + more);
    FlattenConcat(value, more);
    FlattenOne(Quoted(key));
    FlattenOne(Sym(Colon));
    ColonIs();
  }

  lemma ColonIs()
    ensures TokenText(Sym(Colon)) == [COLON] && TokenText(Sym(Comma)) == [COMMA]
  {
  }

  lemma {:induction false} MembersNumbers(members: seq<Member>)
    requires members != [] && !members[0].value.Absent? && NumbersAreNumbers(MemberTokens(members))
    ensures NumbersAreNumbers(Tokens(members[0].value)) && NumbersAreNumbers(MoreMembers(members))
    ensures AnyPresent(members[1..]) ==> NumbersAreNumbers(MemberTokens(members[1..]))
  {
    hide Tokens, NumbersAreNumbers, MemberTokens, AnyPresent;
    var value, more := Tokens(members[0].value), MoreMembers(members);
    MembersSplit(members);
    NumbersSplit([Quoted(members[0].key)], [Sym(Colon)] + (value + more));
    NumbersSplit([Sym(Colon)], value + more);
    NumbersSplit(value, more);
    if AnyPresent(members[1..]) {
      NumbersSplit([Sym(Comma)], MemberTokens(members[1..]));
    }
  }

  lemma {:induction false} MembersRead(members: seq<Member>, rest: Text)
    requires AnyPresent(members) && NumbersAreNumbers(MemberTokens(members))
    ensures R.ReadMembers(Flatten(MemberTokens(members)) + ([CLOSE_OBJECT] + rest)) == Some((MeantMembers(members), rest))
    decreases members, 1
  {
    if members[0].value.Absent? {
      PresentBehind(members);
      MembersRead(members[1..], rest);
    } else {
      PresentMembersRead(members, rest);
    }
  }

  lemma {:induction false} PresentMembersRead(members: seq<Member>, rest: Text)
    requires members != [] && !members[0].value.Absent? && NumbersAreNumbers(MemberTokens(members))
    ensures R.ReadMembers(Flatten(MemberTokens(members)) + ([CLOSE_OBJECT] + rest)) == Some((MeantMembers(members), rest))
    decreases members, 0
  {
    hide R.ReadValue, R.ReadMember, R.ReadMembers, Flatten, NumbersAreNumbers, MemberTokens, TokenText, Tokens, AnyPresent;
    var key, value, more, end := members[0].key, members[0].value, MoreMembers(members), [CLOSE_OBJECT] + rest;
    MembersSplit(members);
    MembersNumbers(members);
    FlattenMember(key, Tokens(value), more, end);
    var m := R.Member(key, Meant(value));
    if AnyPresent(members[1..]) {
      MembersRead(members[1..], rest);
      FlattenConcat([Sym(Comma)], MemberTokens(members[1..]));
      FlattenOne(Sym(Comma));
      ColonIs();
      var behind := Flatten(MemberTokens(members[1..])) + end;
      assert Flatten(more) + end == [COMMA] + behind;
      ValueReads(value, [COMMA] + behind);
      MemberReads(key, Flatten(Tokens(value)) + ([COMMA] + behind), Meant(value), [COMMA] + behind);
      MemberAndMore(Flatten(MemberTokens(members)) + end, m, behind, MeantMembers(members[1..]), rest);
    } else {
      NoMembers(members[1..]);
      FlattenNothing();
      assert [] + end == end;
      ValueReads(value, end);
      MemberReads(key, Flatten(Tokens(value)) + end, Meant(value), end);
      LastMember(Flatten(MemberTokens(members)) + end, m, rest);
      assert MeantMembers(members) == [m] + [] == [m];
    }
  }

  /** The exact serialization of a value is a JSON text, and reads back as what the value means. */
  lemma {:induction false} TextReads(v: Value)
    requires !v.Absent? && NumbersAreNumbers(Tokens(v))
    ensures R.ReadJson(Flatten(Tokens(v))) == Some(Meant(v))
  {
    hide R.ReadValue, Flatten, Tokens, NumbersAreNumbers;
    ValueReads(v, []);
    assert Flatten(Tokens(v)) + [] == Flatten(Tokens(v));
  }

  /** A JSON number with a small exponent letter is made of the characters a number's text is made of. */
  lemma NumberIsNumberText(t: Text)
    requires R.IsNumber(t) && R.Code('E') !in t
    ensures IsNumberText(t)
  {
    hide R.IsNumber;
    NumberIsInNumber(t);
  }
}
