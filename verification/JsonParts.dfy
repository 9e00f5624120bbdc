/** What decides whether a value can be converted exactly (packages/protocol-wasm/index.js). */
module JsonParts {
  import opened Results
  import opened Utf16
  import opened JsonText
  import opened MarkedText
  import opened JsonReads
  import opened BigintTokens
  import R = JsonReader

  /** `x` stands somewhere in `v`. */
  ghost predicate Part(x: Value, v: Value)
    decreases v
  {
    || x == v
    || (v.Array? && exists k :: 0 <= k < |v.items| && Part(x, v.items[k]))
    || (v.Object? && exists k :: 0 <= k < |v.members| && Part(x, v.members[k].value))
  }

  /** Not finite, or an integer beyond the safe ones. */
  ghost predicate HoldsInexact(v: Value) {
    exists n :: Part(Num(n), v) && (n.NotFinite? || (n.integer && !n.safe))
  }

  lemma {:induction false} RefusedExactly(v: Value)
    ensures HasRefused(v) <==> HoldsInexact(v)
    decreases v
  {
    match v
    case Num(n) =>
      assert Part(Num(n), v);
    case Array(items) =>
      forall k | 0 <= k < |items|
        ensures HasRefused(items[k]) <==> HoldsInexact(items[k])
      {
        RefusedExactly(items[k]);
      }
      InexactItem(items);
    case Object(members) =>
      forall k | 0 <= k < |members|
        ensures HasRefused(members[k].value) <==> HoldsInexact(members[k].value)
      {
        RefusedExactly(members[k].value);
      }
      InexactMember(members);
    case _ =>
  }

  lemma {:induction false} InexactItem(items: seq<Value>)
    ensures HoldsInexact(Array(items)) <==> exists k :: 0 <= k < |items| && HoldsInexact(items[k])
  {
    var v := Array(items);
    if n :| Part(Num(n), v) && (n.NotFinite? || (n.integer && !n.safe)) {
      var k :| 0 <= k < |items| && Part(Num(n), items[k]);
      assert HoldsInexact(items[k]);
    }
    if k :| 0 <= k < |items| && HoldsInexact(items[k]) {
      var n :| Part(Num(n), items[k]) && (n.NotFinite? || (n.integer && !n.safe));
      assert Part(Num(n), v);
    }
  }

  lemma {:induction false} InexactMember(members: seq<Member>)
    ensures HoldsInexact(Object(members)) <==> exists k :: 0 <= k < |members| && HoldsInexact(members[k].value)
  {
    var v := Object(members);
    if n :| Part(Num(n), v) && (n.NotFinite? || (n.integer && !n.safe)) {
      var k :| 0 <= k < |members| && Part(Num(n), members[k].value);
      assert HoldsInexact(members[k].value);
    }
    if k :| 0 <= k < |members| && HoldsInexact(members[k].value) {
      var n :| Part(Num(n), members[k].value) && (n.NotFinite? || (n.integer && !n.safe));
      assert Part(Num(n), v);
    }
  }

  // ----- bigints

  ghost predicate HoldsBigint(v: Value) {
    exists i :: Part(BigInt(i), v)
  }

  lemma {:induction false} BigTokensConcat(a: seq<Token>, b: seq<Token>)
    ensures BigTokens(a + b) == BigTokens(a) + BigTokens(b)
  {
    if a == [] {
      assert a + b == b;
    } else {
      assert (a + b)[1..] == a[1..] + b;
      BigTokensConcat(a[1..], b);
    }
  }

  lemma SmallToken(t: Token)
    requires !t.Big?
    ensures BigTokens([t]) == 0
  {
    assert [t][1..] == [];
  }

  lemma EnclosedBigs(open: Token, ts: seq<Token>, close: Token)
    requires !open.Big? && !close.Big?
    ensures BigTokens([open] + ts + [close]) == BigTokens(ts)
  {
    BigTokensConcat([open] + ts, [close]);
    BigTokensConcat([open], ts);
    SmallToken(open);
    SmallToken(close);
  }

  /** A value leaves a bigint in the text exactly when it holds one. */
  lemma {:induction false} BigExactly(v: Value)
    ensures BigTokens(Tokens(v)) > 0 <==> HoldsBigint(v)
    decreases v, 1
  {
    match v
    case BigInt(i) =>
      assert Part(BigInt(i), v);
    case Array(items) =>
      BigItems(items);
      EnclosedBigs(Sym(OpenArray), ItemTokens(items), Sym(CloseArray));
      BigintItem(items);
    case Object(members) =>
      BigMembers(members);
      EnclosedBigs(Sym(OpenObject), MemberTokens(members), Sym(CloseObject));
      BigintMember(members);
    case _ =>
  }

  lemma {:induction false} BigintItem(items: seq<Value>)
    ensures HoldsBigint(Array(items)) <==> exists k :: 0 <= k < |items| && HoldsBigint(items[k])
  {
    var v := Array(items);
    if i :| Part(BigInt(i), v) {
      var k :| 0 <= k < |items| && Part(BigInt(i), items[k]);
      assert HoldsBigint(items[k]);
    }
    if k :| 0 <= k < |items| && HoldsBigint(items[k]) {
      var i :| Part(BigInt(i), items[k]);
      assert Part(BigInt(i), v);
    }
  }

  lemma {:induction false} BigintMember(members: seq<Member>)
    ensures HoldsBigint(Object(members)) <==> exists k :: 0 <= k < |members| && HoldsBigint(members[k].value)
  {
    var v := Object(members);
    if i :| Part(BigInt(i), v) {
      var k :| 0 <= k < |members| && Part(BigInt(i), members[k].value);
      assert HoldsBigint(members[k].value);
    }
    if k :| 0 <= k < |members| && HoldsBigint(members[k].value) {
      var i :| Part(BigInt(i), members[k].value);
      assert Part(BigInt(i), v);
    }
  }

  lemma {:induction false} BigItems(items: seq<Value>)
    ensures BigTokens(ItemTokens(items)) > 0 <==> exists k :: 0 <= k < |items| && HoldsBigint(items[k])
    decreases items, 0
  {
    if items != [] {
      hide Tokens, BigTokens, HoldsBigint;
      var first, comma, rest := ItemToken(items[0]), if |items| == 1 then [] else [Sym(Comma)], ItemTokens(items[1..]);
      assert ItemTokens(items) == first + comma + rest;
      BigTokensConcat(first + comma, rest);
      BigTokensConcat(first, comma);
      NoBigs(comma);
      BigItems(items[1..]);
      BigItem(items[0]);
      FirstOrBehind(items);
    }
  }

  lemma NoBigs(ts: seq<Token>)
    requires ts == [] || ts == [Sym(Comma)]
    ensures BigTokens(ts) == 0
  {
    SmallToken(Sym(Comma));
  }

  lemma {:induction false} BigItem(v: Value)
    ensures BigTokens(ItemToken(v)) > 0 <==> HoldsBigint(v)
    decreases v, 2
  {
    if v.Absent? {
      SmallToken(Sym(NullWord));
    } else {
      BigExactly(v);
    }
  }

  lemma {:induction false} FirstOrBehind(items: seq<Value>)
    requires items != []
    ensures (exists k :: 0 <= k < |items| && HoldsBigint(items[k]))
       <==> HoldsBigint(items[0]) || exists k :: 0 <= k < |items[1..]| && HoldsBigint(items[1..][k])
  {
    hide HoldsBigint;
    if k :| 0 <= k < |items| && HoldsBigint(items[k]) {
      assert k > 0 ==> items[1..][k - 1] == items[k];
    }
    if k :| 0 <= k < |items[1..]| && HoldsBigint(items[1..][k]) {
      assert items[k + 1] == items[1..][k];
    }
  }

  lemma {:induction false} FirstMemberOrBehind(members: seq<Member>)
    requires members != []
    ensures (exists k :: 0 <= k < |members| && HoldsBigint(members[k].value))
       <==> HoldsBigint(members[0].value) || exists k :: 0 <= k < |members[1..]| && HoldsBigint(members[1..][k].value)
  {
    hide HoldsBigint;
    if k :| 0 <= k < |members| && HoldsBigint(members[k].value) {
      assert k > 0 ==> members[1..][k - 1] == members[k];
    }
    if k :| 0 <= k < |members[1..]| && HoldsBigint(members[1..][k].value) {
      assert members[k + 1] == members[1..][k];
    }
  }

  lemma {:induction false} BigMembers(members: seq<Member>)
    ensures BigTokens(MemberTokens(members)) > 0 <==> exists k :: 0 <= k < |members| && HoldsBigint(members[k].value)
    decreases members, 0
  {
    if members != [] {
      hide Tokens, BigTokens, AnyPresent, HoldsBigint;
      BigMembers(members[1..]);
      FirstMemberOrBehind(members);
      var value := members[0].value;
      if value.Absent? {
        AbsentHoldsNone(value);
      } else {
        BigExactly(value);
        var key, comma := [Quoted(members[0].key), Sym(Colon)], if AnyPresent(members[1..]) then [Sym(Comma)] else [];
        BigTokensConcat(key + Tokens(value) + comma, MemberTokens(members[1..]));
        BigTokensConcat(key + Tokens(value), comma);
        BigTokensConcat(key, Tokens(value));
        NoBigs(comma);
        KeyIsSmall(members[0].key);
      }
    }
  }

  lemma AbsentHoldsNone(v: Value)
    requires v.Absent?
    ensures !HoldsBigint(v)
  {
  }

  lemma KeyIsSmall(key: Text)
    ensures BigTokens([Quoted(key), Sym(Colon)]) == 0
  {
    assert [Quoted(key), Sym(Colon)] == [Quoted(key)] + [Sym(Colon)];
    BigTokensConcat([Quoted(key)], [Sym(Colon)]);
    SmallToken(Quoted(key));
    SmallToken(Sym(Colon));
  }

  // ----- marks in strings and names

  /** Some string or member name of the JSON value holds the mark. */
  ghost predicate Speaks(j: R.Json, mark: Text)
    decreases j
  {
    match j
    case String(s) => Contains(s, mark)
    case Array(items) => exists k :: 0 <= k < |items| && Speaks(items[k], mark)
    case Object(members) => exists k :: 0 <= k < |members| && (Contains(members[k].key, mark) || Speaks(members[k].value, mark))
    case _ => false
  }

  lemma MentionsConcat(a: seq<Token>, b: seq<Token>, mark: Text)
    ensures Mentions(a + b, mark) <==> Mentions(a, mark) || Mentions(b, mark)
  {
    hide Contains;
    var c := a + b;
    if k :| 0 <= k < |c| && c[k].Quoted? && Contains(c[k].s, mark) {
      assert k < |a| ==> c[k] == a[k];
      assert k >= |a| ==> c[k] == b[k - |a|];
    }
    if k :| 0 <= k < |a| && a[k].Quoted? && Contains(a[k].s, mark) {
      assert c[k] == a[k];
    }
    if k :| 0 <= k < |b| && b[k].Quoted? && Contains(b[k].s, mark) {
      assert c[|a| + k] == b[k];
    }
  }

  lemma MentionsOne(t: Token, mark: Text)
    ensures Mentions([t], mark) <==> t.Quoted? && Contains(t.s, mark)
  {
    hide Contains;
    assert [t][0] == t;
  }

  lemma EnclosedMentions(open: Symbol, ts: seq<Token>, close: Symbol, mark: Text)
    ensures Mentions([Sym(open)] + ts + [Sym(close)], mark) <==> Mentions(ts, mark)
  {
    hide Mentions, Contains;
    MentionsConcat([Sym(open)] + ts, [Sym(close)], mark);
    MentionsConcat([Sym(open)], ts, mark);
    MentionsOne(Sym(open), mark);
    MentionsOne(Sym(close), mark);
  }

  /** The text mentions a mark exactly when what it means does. */
  lemma {:induction false} MentionsExactly(v: Value, mark: Text)
    ensures Mentions(Tokens(v), mark) <==> !v.Absent? && Speaks(Meant(v), mark)
    decreases v, 1
  {
    hide Contains;
    match v
    case Absent =>
    case Null => MentionsOne(Sym(NullWord), mark);
    case Boolean(b) => MentionsOne(Sym(if b then TrueWord else FalseWord), mark);
    case Num(n) =>
      NumeralIsSilent(n, mark);
      MentionsOne(if n.NotFinite? then Sym(NullWord) else NumberText(n.text), mark);
    case Str(s) => MentionsOne(Quoted(s), mark);
    case BigInt(i) => MentionsOne(Big(i), mark);
    case Array(items) =>
      ItemsMention(items, mark);
      EnclosedMentions(OpenArray, ItemTokens(items), CloseArray, mark);
    case Object(members) =>
      MembersMention(members, mark);
      EnclosedMentions(OpenObject, MemberTokens(members), CloseObject, mark);
  }

  lemma NumeralIsSilent(n: Number, mark: Text)
    ensures !Speaks(Meant(Num(n)), mark)
  {
  }

  ghost predicate SomeItem(items: seq<R.Json>, mark: Text) {
    exists k :: 0 <= k < |items| && Speaks(items[k], mark)
  }

  ghost predicate SomeMember(members: seq<R.Member>, mark: Text) {
    exists k :: 0 <= k < |members| && (Contains(members[k].key, mark) || Speaks(members[k].value, mark))
  }

  lemma SomeItemStep(first: R.Json, rest: seq<R.Json>, mark: Text)
    ensures SomeItem([first] + rest, mark) <==> Speaks(first, mark) || SomeItem(rest, mark)
  {
    hide Speaks;
    var all := [first] + rest;
    if k :| 0 <= k < |all| && Speaks(all[k], mark) {
      assert k > 0 ==> all[k] == rest[k - 1];
    }
    if k :| 0 <= k < |rest| && Speaks(rest[k], mark) {
      assert all[k + 1] == rest[k];
    }
    assert all[0] == first;
  }

  lemma SomeMemberStep(first: R.Member, rest: seq<R.Member>, mark: Text)
    ensures SomeMember([first] + rest, mark) <==>
            Contains(first.key, mark) || Speaks(first.value, mark) || SomeMember(rest, mark)
  {
    hide Speaks, Contains;
    var all := [first] + rest;
    if k :| 0 <= k < |all| && (Contains(all[k].key, mark) || Speaks(all[k].value, mark)) {
      assert k > 0 ==> all[k] == rest[k - 1];
    }
    if k :| 0 <= k < |rest| && (Contains(rest[k].key, mark) || Speaks(rest[k].value, mark)) {
      assert all[k + 1] == rest[k];
    }
    assert all[0] == first;
  }

  lemma {:induction false} ItemsMention(items: seq<Value>, mark: Text)
    ensures Mentions(ItemTokens(items), mark) <==> SomeItem(MeantItems(items), mark)
    decreases items, 0
  {
    if items != [] {
      hide Tokens, Mentions, Meant, Speaks, Contains;
      var first, comma, rest := ItemToken(items[0]), if |items| == 1 then [] else [Sym(Comma)], ItemTokens(items[1..]);
      assert ItemTokens(items) == first + comma + rest;
      MentionsConcat(first + comma, rest, mark);
      MentionsConcat(first, comma, mark);
      CommaIsSilent(comma, mark);
      ItemsMention(items[1..], mark);
      ItemMentions(items[0], mark);
      SomeItemStep(Meant(items[0]), MeantItems(items[1..]), mark);
    }
  }

  lemma CommaIsSilent(ts: seq<Token>, mark: Text)
    requires ts == [] || ts == [Sym(Comma)]
    ensures !Mentions(ts, mark)
  {
  }

  lemma {:induction false} ItemMentions(v: Value, mark: Text)
    ensures Mentions(ItemToken(v), mark) <==> Speaks(Meant(v), mark)
    decreases v, 2
  {
    if v.Absent? {
      MentionsOne(Sym(NullWord), mark);
    } else {
      MentionsExactly(v, mark);
    }
  }

  lemma {:induction false} MembersMention(members: seq<Member>, mark: Text)
    ensures Mentions(MemberTokens(members), mark) <==> SomeMember(MeantMembers(members), mark)
    decreases members, 0
  {
    if members != [] {
      hide Tokens, Mentions, Meant, Speaks, Contains, AnyPresent;
      MembersMention(members[1..], mark);
      var value, name := members[0].value, members[0].key;
      if !value.Absent? {
        MentionsExactly(value, mark);
        var key, comma := [Quoted(name), Sym(Colon)], if AnyPresent(members[1..]) then [Sym(Comma)] else [];
        MentionsConcat(key + Tokens(value) + comma, MemberTokens(members[1..]), mark);
        MentionsConcat(key + Tokens(value), comma, mark);
        MentionsConcat(key, Tokens(value), mark);
        CommaIsSilent(comma, mark);
        KeyMentions(name, mark);
        SomeMemberStep(R.Member(name, Meant(value)), MeantMembers(members[1..]), mark);
      }
    }
  }

  lemma KeyMentions(key: Text, mark: Text)
    ensures Mentions([Quoted(key), Sym(Colon)], mark) <==> Contains(key, mark)
  {
    hide Mentions, Contains;
    assert [Quoted(key), Sym(Colon)] == [Quoted(key)] + [Sym(Colon)];
    MentionsConcat([Quoted(key)], [Sym(Colon)], mark);
    MentionsOne(Quoted(key), mark);
    MentionsOne(Sym(Colon), mark);
  }

  // ----- surrogates

  predicate High(u: Unit) {
    0xD800 <= u < 0xDC00
  }

  predicate Low(u: Unit) {
    0xDC00 <= u < 0xE000
  }

  predicate PairedAt(s: Text, k: nat)
    requires k < |s|
  {
    (High(s[k]) ==> k + 1 < |s| && Low(s[k + 1])) && (Low(s[k]) ==> k > 0 && High(s[k - 1]))
  }

  /** Every high surrogate is followed by a low one, and every low one follows a high one. */
  ghost predicate SurrogatesPaired(s: Text) {
    forall k :: 0 <= k < |s| ==> PairedAt(s, k)
  }

  lemma {:induction false} WellFormedExactly(s: Text)
    ensures IsWellFormed(s) <==> SurrogatesPaired(s)
    decreases |s|
  {
    if s != [] {
      assert SurrogatesPaired(s) ==> PairedAt(s, 0);
      if StartsWithPair(s) {
        WellFormedExactly(s[2..]);
        PairedBehind(s, 2);
      } else if !IsLeading(s[0]) && !IsTrailing(s[0]) {
        WellFormedExactly(s[1..]);
        PairedBehind(s, 1);
      }
    }
  }

  /** One unit that is no surrogate, or one pair. */
  predicate Character(s: Text, n: nat) {
    0 < n <= |s| && if n == 1 then !High(s[0]) && !Low(s[0]) else n == 2 && High(s[0]) && Low(s[1])
  }

  lemma PairedShift(s: Text, n: nat, k: nat)
    requires Character(s, n) && n <= k < |s| && (k == n ==> !Low(s[k]))
    ensures PairedAt(s, k) <==> PairedAt(s[n..], k - n)
  {
    assert s[n..][k - n] == s[k];
    assert k + 1 < |s| ==> s[n..][k + 1 - n] == s[k + 1];
    assert k > n ==> s[n..][k - 1 - n] == s[k - 1];
  }

  lemma FrontIsPaired(s: Text, n: nat)
    requires Character(s, n)
    ensures forall k :: 0 <= k < n ==> PairedAt(s, k)
  {
  }

  lemma PairedBehind(s: Text, n: nat)
    requires Character(s, n)
    ensures SurrogatesPaired(s) <==> SurrogatesPaired(s[n..])
  {
    hide PairedAt;
    FrontIsPaired(s, n);
    if n < |s| {
      NextIsNotLow(s, n);
      if !Low(s[n]) {
        forall k | n <= k < |s|
          ensures PairedAt(s, k) <==> PairedAt(s[n..], k - n)
        {
          PairedShift(s, n, k);
        }
        if SurrogatesPaired(s) {
          forall k | 0 <= k < |s[n..]|
            ensures PairedAt(s[n..], k)
          {
            assert PairedAt(s, k + n);
          }
        }
        if SurrogatesPaired(s[n..]) {
          forall k | n <= k < |s|
            ensures PairedAt(s, k)
          {
            assert PairedAt(s[n..], k - n);
          }
        }
      }
    }
  }

  lemma NextIsNotLow(s: Text, n: nat)
    requires Character(s, n) && n < |s|
    ensures Low(s[n]) ==> !PairedAt(s, n) && !PairedAt(s[n..], 0)
  {
  }
}
