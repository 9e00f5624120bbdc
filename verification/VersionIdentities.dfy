/** Which release versions share one PEP 440 identity (scripts/set_release_version.py). */
module VersionIdentities {
  import opened Results
  import opened PyText
  import opened Versions
  import N = Numerals

  /** What PEP 440 compares: three numbers, whether it is a development version, and the candidate's number. */
  datatype Identity = Identity(major: nat, minor: nat, patch: nat, dev: bool, candidate: Option<nat>)

  function NumberOf(t: string): (r: nat) {
    N.Value(DigitsOf(t), 10)
  }

  function IdentityOf(v: Version): (r: Identity)
    requires IsBase(v.base)
  {
    var parts := Split(v.base, '.');
    Identity(NumberOf(parts[0]), NumberOf(parts[1]), NumberOf(parts[2]), v.dev,
             if v.candidate.Some? then Some(NumberOf(v.candidate.value)) else None)
  }

  /** Without its leading zeros. */
  function Significant(t: string): (r: string) {
    if |t| > 1 && t[0] == '0' then Significant(t[1..]) else t
  }

  // ----- numbers and their digits

  function Unit(c: char): (r: nat)
    requires IsDigit(c)
    ensures r < 10 && r == c as int - '0' as int
  {
    c as int - '0' as int
  }

  function Units(t: string): (r: seq<nat>)
    requires forall i :: 0 <= i < |t| ==> IsDigit(t[i])
    ensures |r| == |t| && forall i :: 0 <= i < |r| ==> r[i] == Unit(t[i])
  {
    seq(|t|, i requires 0 <= i < |t| => Unit(t[i]))
  }

  lemma UnitsDiffer(a: string, b: string)
    requires (forall i :: 0 <= i < |a| ==> IsDigit(a[i])) && (forall i :: 0 <= i < |b| ==> IsDigit(b[i])) && Units(a) == Units(b)
    ensures a == b
  {
    forall i | 0 <= i < |a|
      ensures a[i] == b[i]
    {
      assert Unit(a[i]) == Units(a)[i] == Unit(b[i]);
    }
  }

  lemma NumberOfUnits(t: string)
    requires AllDigits(t)
    ensures NumberOf(t) == N.Value(Units(t), 10)
  {
    DigitsOfChars(t, Units(t));
  }

  /** Digits without a leading zero are the digits of their number. */
  lemma {:induction false} DigitsAreDetermined(ds: seq<nat>)
    requires ds != [] && (forall i :: 0 <= i < |ds| ==> ds[i] < 10) && (|ds| > 1 ==> ds[0] != 0)
    ensures N.Digits(N.Value(ds, 10), 10) == ds
    ensures ds[0] != 0 ==> N.Value(ds, 10) > 0
    decreases |ds|
  {
    var init, last := ds[..|ds| - 1], ds[|ds| - 1];
    if init == [] {
      assert N.Value(init, 10) == 0;
    } else {
      DigitsAreDetermined(init);
      var high, n := N.Value(init, 10), N.Value(ds, 10);
      assert n == high * 10 + last && n / 10 == high && n % 10 == last;
      assert ds == init + [last];
    }
  }

  lemma ZeroInFront(t: string)
    requires AllDigits(t) && |t| > 1 && t[0] == '0'
    ensures NumberOf(t) == NumberOf(t[1..])
  {
    hide NumberOf;
    NumberOfUnits(t);
    NumberOfUnits(t[1..]);
    assert Units(t) == N.Zeros(1) + Units(t[1..]);
    N.PaddingIsSilent(1, Units(t[1..]), 10);
  }

  lemma {:induction false} SignificantDenotes(t: string)
    requires AllDigits(t)
    ensures IsCounter(Significant(t)) && NumberOf(Significant(t)) == NumberOf(t)
    decreases |t|
  {
    hide NumberOf;
    if |t| > 1 && t[0] == '0' {
      ZeroInFront(t);
      SignificantDenotes(t[1..]);
    }
  }

  lemma CountersDiffer(a: string, b: string)
    requires IsCounter(a) && IsCounter(b)
    ensures NumberOf(a) == NumberOf(b) <==> a == b
  {
    hide NumberOf;
    NumberOfUnits(a);
    NumberOfUnits(b);
    DigitsAreDetermined(Units(a));
    DigitsAreDetermined(Units(b));
    if NumberOf(a) == NumberOf(b) {
      UnitsDiffer(a, b);
    }
  }

  /** Two numerals denote one number exactly when they agree up to leading zeros. */
  lemma SameNumberExactly(a: string, b: string)
    requires AllDigits(a) && AllDigits(b)
    ensures NumberOf(a) == NumberOf(b) <==> Significant(a) == Significant(b)
  {
    hide NumberOf, Significant;
    SignificantDenotes(a);
    SignificantDenotes(b);
    CountersDiffer(Significant(a), Significant(b));
  }

  // ----- versions

  predicate SameUpToZeros(a: string, b: string)
    requires IsBase(a) && IsBase(b)
  {
    var p, q := Split(a, '.'), Split(b, '.');
    Significant(p[0]) == Significant(q[0]) && Significant(p[1]) == Significant(q[1]) && Significant(p[2]) == Significant(q[2])
  }

  /** The fields of a text, joined by the separator again. */
  function Joined(parts: seq<string>, c: char): (r: string)
    requires parts != []
  {
    if |parts| == 1 then parts[0] else parts[0] + [c] + Joined(parts[1..], c)
  }

  lemma {:induction false} SplitThenJoined(t: string, c: char)
    ensures Joined(Split(t, c), c) == t
    decreases |t|
  {
    hide Joined;
    var e := FirstOf(t, c);
    if e == |t| {
      JoinOne(t, c);
    } else {
      var rest := t[e + 1..];
      SplitThenJoined(rest, c);
      JoinFirst(t[..e], Split(rest, c), c);
      assert t == t[..e] + [c] + rest;
    }
  }

  lemma JoinOne(t: string, c: char)
    ensures Joined([t], c) == t
  {
  }

  lemma JoinFirst(first: string, rest: seq<string>, c: char)
    requires rest != []
    ensures Joined([first] + rest, c) == first + [c] + Joined(rest, c)
  {
    assert ([first] + rest)[1..] == rest;
  }

  lemma NormalBasesDiffer(a: string, b: string)
    requires IsBase(a) && IsBase(b) && IsNormal(a) && IsNormal(b) && SameUpToZeros(a, b)
    ensures a == b
  {
    hide Split;
    var p, q := Split(a, '.'), Split(b, '.');
    assert p == [p[0], p[1], p[2]] && q == [q[0], q[1], q[2]];
    SplitThenJoined(a, '.');
    SplitThenJoined(b, '.');
  }

  /**
   * Two canonical versions share an identity exactly when they differ in nothing but leading zeros of
   * their release numbers. Where those are written normally, as in every release candidate, they are equal.
   */
  lemma SameIdentityExactly(v: Version, w: Version)
    requires Canonical(v) && Canonical(w)
    ensures IdentityOf(v) == IdentityOf(w) <==> v.dev == w.dev && v.candidate == w.candidate && SameUpToZeros(v.base, w.base)
    ensures IdentityOf(v) == IdentityOf(w) && (v.candidate.Some? || (IsNormal(v.base) && IsNormal(w.base))) ==> v == w
  {
    hide Split, NumberOf, Significant, AllDigits;
    var p, q := Split(v.base, '.'), Split(w.base, '.');
    SameNumberExactly(p[0], q[0]);
    SameNumberExactly(p[1], q[1]);
    SameNumberExactly(p[2], q[2]);
    if v.candidate.Some? && w.candidate.Some? {
      CountersDiffer(v.candidate.value, w.candidate.value);
    }
    if SameUpToZeros(v.base, w.base) && IsNormal(v.base) && IsNormal(w.base) {
      NormalBasesDiffer(v.base, w.base);
    }
  }

  /** `01.2.3` and `1.2.3` are both accepted, are spelled differently everywhere, and are one PEP 440 version. */
  lemma LeadingZeroSharesIdentity()
    ensures var v, w := Version("01.2.3", false, None), Version("1.2.3", false, None);
            && ParseBase("01.2.3") == Some(v) && ParseBase("1.2.3") == Some(w) && Canonical(v) && Canonical(w)
            && CargoVersion(v) != CargoVersion(w) && NpmVersion(v) != NpmVersion(w) && PythonVersion(v) != PythonVersion(w)
            && IdentityOf(v) == IdentityOf(w)
  {
    hide ParseBase, NumberOf, Split, AllDigits;
    BothAreBases();
    ReleaseSpelling("01.2.3");
    ReleaseSpelling("1.2.3");
    assert |"01.2.3"| != |"1.2.3"|;
    assert NumberOf("01") == NumberOf("1") by {
      assert AllDigits("01") by {
        TwoDigits();
      }
      ZeroInFront("01");
      assert "01"[1..] == "1";
    }
  }

  lemma TwoDigits()
    ensures AllDigits("01") && AllDigits("1") && AllDigits("2") && AllDigits("3")
  {
  }

  lemma BothAreBases()
    ensures IsBase("01.2.3") && IsBase("1.2.3")
    ensures Split("01.2.3", '.') == ["01", "2", "3"] && Split("1.2.3", '.') == ["1", "2", "3"]
  {
    hide Split, AllDigits;
    TwoDigits();
    ThreeParts("01");
    ThreeParts("1");
    assert "01" + ['.'] + ("2" + ['.'] + "3") == "01.2.3" && "1" + ['.'] + ("2" + ['.'] + "3") == "1.2.3";
  }

  lemma ThreeParts(first: string)
    requires AllDigits(first)
    ensures Split(first + ['.'] + ("2" + ['.'] + "3"), '.') == [first, "2", "3"]
  {
    hide Split;
    SplitFirst(first, '.', "2" + ['.'] + "3");
    SplitFirst("2", '.', "3");
    SplitOne("3", '.');
  }
}
