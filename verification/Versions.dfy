/** The spellings of a release version (scripts/set_release_version.py). */
module Versions {
  import opened Results
  import opened PyText

  /** MAJOR.MINOR.PATCH, whether it is a development version, and the release candidate's number if it is one. */
  datatype Version = Version(base: string, dev: bool, candidate: Option<string>)

  predicate AllDigits(t: string) {
    t != [] && forall i :: 0 <= i < |t| ==> IsDigit(t[i])
  }

  /** No leading zero. */
  predicate IsCounter(t: string) {
    AllDigits(t) && (|t| > 1 ==> t[0] != '0')
  }

  predicate IsBase(t: string) {
    var parts := Split(t, '.');
    |parts| == 3 && AllDigits(parts[0]) && AllDigits(parts[1]) && AllDigits(parts[2])
  }

  /** PEP 440 writes release numbers without leading zeros. */
  predicate IsNormal(t: string)
    requires IsBase(t)
  {
    var parts := Split(t, '.');
    IsCounter(parts[0]) && IsCounter(parts[1]) && IsCounter(parts[2])
  }

  predicate EndsWith(t: string, s: string) {
    |t| >= |s| && t[|t| - |s|..] == s
  }

  /** A `-dev.N` at the end. */
  predicate EndsInNumberedDev(t: string) {
    exists i :: 0 <= i <= |t| && "-dev." <= t[i..] && AllDigits(t[i + 5..])
  }

  predicate IsDev(t: string) {
    EndsWith(t, "-dev") || EndsWith(t, ".dev0") || EndsInNumberedDev(t)
  }

  /** How many digits stand in front. */
  function Digits(t: string): (r: nat)
    ensures r <= |t|
  {
    if t == [] || !IsDigit(t[0]) then 0 else 1 + Digits(t[1..])
  }

  /** Every `-dev` goes, with its number; a final `.dev0` goes too. */
  function WithoutDev(t: string): (r: string)
    decreases |t|
  {
    if t == [] then []
    else if "-dev" <= t then
      var rest := t[4..];
      var n := if rest != [] && rest[0] == '.' then Digits(rest[1..]) else 0;
      WithoutDev(if n > 0 then rest[1 + n..] else rest)
    else if t == ".dev0" then []
    else [t[0]] + WithoutDev(t[1..])
  }

  function FirstDash(t: string): (r: nat)
    ensures r <= |t| && (forall i :: 0 <= i < r ==> t[i] != '-') && (r < |t| ==> t[r] == '-')
  {
    if t == [] || t[0] == '-' then 0 else 1 + FirstDash(t[1..])
  }

  /** The parts of `X.Y.Z-rc.N`. */
  function Candidate(t: string): (r: Option<(string, string)>) {
    var k := FirstDash(t);
    if k < |t| && "-rc." <= t[k..] && IsBase(t[..k]) && IsCounter(t[k + 4..]) then Some((t[..k], t[k + 4..])) else None
  }

  function ParseBase(version: string): (r: Option<Version>) {
    var raw := Strip(version);
    if raw == [] then None else
      var dev := IsDev(raw);
      var rest := if dev then WithoutDev(raw) else raw;
      if IsBase(rest) then Some(Version(rest, dev, None)) else
        var parts := Candidate(rest);
        if parts.None? || dev || !IsNormal(parts.value.0) then None
        else Some(Version(parts.value.0, false, Some(parts.value.1)))
  }

  // ----- spellings

  function CargoVersion(v: Version): (r: string) {
    if v.dev then v.base + "-dev" else if v.candidate.Some? then v.base + "-rc." + v.candidate.value else v.base
  }

  function NpmVersion(v: Version): (r: string) {
    if v.dev then v.base + "-dev.0" else if v.candidate.Some? then v.base + "-rc." + v.candidate.value else v.base
  }

  function PythonVersion(v: Version): (r: string) {
    if v.dev then v.base + ".dev0" else if v.candidate.Some? then v.base + "rc" + v.candidate.value else v.base
  }

  /** A release, a development version or a release candidate that can be published. */
  predicate Canonical(v: Version) {
    IsBase(v.base) && (v.candidate.Some? ==> !v.dev && IsCounter(v.candidate.value) && IsNormal(v.base))
  }

  // ----- facts about bases

  predicate Plain(t: string) {
    forall i :: 0 <= i < |t| ==> IsDigit(t[i]) || t[i] == '.'
  }

  /** Two numbers and a dot. */
  lemma {:induction false} SplitJoins(t: string)
    requires forall k :: 0 <= k < |Split(t, '.')| ==> AllDigits(Split(t, '.')[k])
    ensures Plain(t) && t != [] && IsDigit(t[0]) && IsDigit(t[|t| - 1])
    ensures forall i :: 0 <= i < |t| - 1 && t[i] == '.' ==> IsDigit(t[i + 1])
    decreases |t|
  {
    var e := PyText.FirstOf(t, '.');
    var parts := Split(t, '.');
    if e == |t| {
      assert parts[0] == t;
    } else {
      var rest := t[e + 1..];
      assert parts[0] == t[..e] && parts[1..] == Split(rest, '.');
      SplitJoins(rest);
      assert forall i :: 0 <= i < e ==> t[i] == t[..e][i];
      assert forall i :: e < i < |t| ==> t[i] == rest[i - e - 1];
    }
  }

  lemma BaseIsPlain(t: string)
    requires IsBase(t)
    ensures Plain(t) && t != [] && IsDigit(t[0]) && IsDigit(t[|t| - 1])
    ensures forall i :: 0 <= i < |t| - 1 && t[i] == '.' ==> IsDigit(t[i + 1])
  {
    hide Split;
    SplitJoins(t);
  }

  // ----- reading a spelling back

  lemma KeepFirst(t: string)
    requires t != [] && t[0] != '-' && (t[0] == '.' ==> |t| > 1 && IsDigit(t[1]))
    ensures WithoutDev(t) == [t[0]] + WithoutDev(t[1..])
  {
    assert ".dev0"[1] == 'd';
  }

  lemma {:induction false} BaseSurvives(t: string, suffix: string)
    requires Plain(t) && (t != [] ==> IsDigit(t[|t| - 1]))
    requires forall i :: 0 <= i < |t| - 1 && t[i] == '.' ==> IsDigit(t[i + 1])
    ensures WithoutDev(t + suffix) == t + WithoutDev(suffix)
    decreases |t|
  {
    hide WithoutDev;
    if t == [] {
      assert t + suffix == suffix;
    } else {
      var whole := t + suffix;
      BaseSurvives(t[1..], suffix);
      assert whole[0] == t[0] && whole[1..] == t[1..] + suffix;
      KeepFirst(whole);
    }
  }

  lemma DevGoes()
    ensures WithoutDev("-dev") == [] && WithoutDev("-dev.0") == []
  {
    assert "-dev"[4..] == [] && "-dev.0"[4..] == ".0" && ".0"[1..] == "0" && "0"[1..] == [];
    assert Digits("0") == 1;
    assert ".0"[2..] == [];
  }

  /** Every development suffix has a `d` in it. */
  lemma DevHasD(t: string)
    ensures IsDev(t) ==> 'd' in t
  {
    if EndsWith(t, "-dev") {
      assert t[|t| - 3] == t[|t| - 4..][1] == 'd';
    }
    if EndsWith(t, ".dev0") {
      assert t[|t| - 4] == t[|t| - 5..][1] == 'd';
    }
    if EndsInNumberedDev(t) {
      var i :| 0 <= i <= |t| && "-dev." <= t[i..] && AllDigits(t[i + 5..]);
      assert t[i + 1] == t[i..][1] == 'd';
    }
  }

  lemma DevSuffixesAreDev(base: string)
    ensures IsDev(base + "-dev") && IsDev(base + "-dev.0")
  {
    var t, u := base + "-dev", base + "-dev.0";
    assert t[|t| - 4..] == "-dev";
    assert u[|base|..] == "-dev.0" && u[|base| + 5..] == "0";
    assert "-dev." <= u[|base|..] && AllDigits(u[|base| + 5..]);
  }

  lemma DevSuffixesGo(base: string)
    requires IsBase(base)
    ensures WithoutDev(base + "-dev") == base && WithoutDev(base + "-dev.0") == base
    ensures Strip(base + "-dev") == base + "-dev" && Strip(base + "-dev.0") == base + "-dev.0"
  {
    hide IsBase, WithoutDev, Strip;
    BaseIsPlain(base);
    DevGoes();
    BaseSurvives(base, "-dev");
    BaseSurvives(base, "-dev.0");
    assert base + [] == base;
    StripNothing(base + "-dev");
    StripNothing(base + "-dev.0");
  }

  lemma DevSpelling(base: string)
    requires IsBase(base)
    ensures ParseBase(base + "-dev") == Some(Version(base, true, None))
    ensures ParseBase(base + "-dev.0") == Some(Version(base, true, None))
  {
    hide IsBase, Candidate, IsNormal, IsDev, WithoutDev, Strip;
    DevSuffixesAreDev(base);
    DevSuffixesGo(base);
  }

  lemma ReleaseSpelling(base: string)
    requires IsBase(base)
    ensures ParseBase(base) == Some(Version(base, false, None))
  {
    hide Split, IsBase, Candidate, IsNormal, IsDev;
    BaseIsPlain(base);
    StripNothing(base);
    DevHasD(base);
  }

  lemma CandidateSpelling(base: string, counter: string)
    requires IsBase(base) && IsNormal(base) && IsCounter(counter)
    ensures ParseBase(base + "-rc." + counter) == Some(Version(base, false, Some(counter)))
  {
    hide Split, IsBase, IsNormal, IsDev, Candidate, Strip;
    CandidateIsRead(base, counter);
    CandidateIsPlainText(base, counter);
  }

  lemma CandidateIsRead(base: string, counter: string)
    requires IsBase(base) && IsCounter(counter)
    ensures Candidate(base + "-rc." + counter) == Some((base, counter))
  {
    hide Split, IsBase;
    BaseIsPlain(base);
    var t := base + "-rc." + counter;
    assert t[|base|] == '-' && FirstDash(t) == |base|;
    assert t[..|base|] == base && t[|base|..] == "-rc." + counter && t[|base| + 4..] == counter;
  }

  /** It is trimmed, is no development version and is no plain release. */
  lemma CandidateIsPlainText(base: string, counter: string)
    requires IsBase(base) && IsCounter(counter)
    ensures var t := base + "-rc." + counter; Strip(t) == t && !IsDev(t) && !IsBase(t)
  {
    hide Split, IsBase, IsDev, Strip;
    BaseIsPlain(base);
    var t := base + "-rc." + counter;
    StripNothing(t);
    DevHasD(t);
    assert t[|base|] == '-';
    if IsBase(t) {
      BaseIsPlain(t);
    }
  }

  /** Reading the cargo or npm spelling of a canonical version gives the version back. */
  lemma SpellingsReadBack(v: Version)
    requires Canonical(v)
    ensures ParseBase(CargoVersion(v)) == Some(v) && ParseBase(NpmVersion(v)) == Some(v)
  {
    hide ParseBase, IsBase, IsNormal;
    if v.dev {
      DevSpelling(v.base);
    } else if v.candidate.Some? {
      CandidateSpelling(v.base, v.candidate.value);
    } else {
      ReleaseSpelling(v.base);
    }
  }

  // ----- one spelling, one version

  /** How far digits and dots go. */
  lemma PlainPrefix(a: string, b: string, x: string, y: string)
    requires Plain(a) && Plain(b) && a + x == b + y
    requires x != [] ==> !IsDigit(x[0]) && x[0] != '.'
    requires y != [] ==> !IsDigit(y[0]) && y[0] != '.'
    ensures a == b && x == y
  {
    var t := a + x;
    assert forall i :: 0 <= i < |a| ==> t[i] == a[i];
    assert forall i :: 0 <= i < |b| ==> t[i] == b[i];
    assert x != [] ==> t[|a|] == x[0];
    assert y != [] ==> t[|b|] == y[0];
    assert a == t[..|a|] && b == t[..|b|] && x == t[|a|..] && y == t[|b|..];
  }

  /** What follows the digits and dots of a Python spelling. */
  function Tail(v: Version): (r: string) {
    if v.dev then "dev0" else if v.candidate.Some? then "rc" + v.candidate.value else ""
  }

  lemma SameTail(v: Version, w: Version)
    requires Tail(v) == Tail(w) && (v.candidate.Some? ==> !v.dev) && (w.candidate.Some? ==> !w.dev)
    ensures v.dev == w.dev && v.candidate == w.candidate
  {
    if v.candidate.Some? {
      assert Tail(v)[0] == 'r' && Tail(v)[2..] == v.candidate.value;
    }
    if w.candidate.Some? {
      assert Tail(w)[0] == 'r' && Tail(w)[2..] == w.candidate.value;
    }
  }

  lemma PythonParts(v: Version)
    requires Canonical(v)
    ensures Plain(v.base) && v.base != [] && IsDigit(v.base[|v.base| - 1])
    ensures PythonVersion(v) == (if v.dev then v.base + "." else v.base) + Tail(v)
  {
    hide IsBase, IsNormal;
    BaseIsPlain(v.base);
    assert v.dev ==> v.base + ".dev0" == v.base + "." + "dev0";
    assert v.base + "" == v.base;
  }

  /** No two canonical versions share a cargo, npm or Python spelling. */
  lemma SpellingsAreInjective(v: Version, w: Version)
    requires Canonical(v) && Canonical(w)
    ensures CargoVersion(v) == CargoVersion(w) ==> v == w
    ensures NpmVersion(v) == NpmVersion(w) ==> v == w
    ensures PythonVersion(v) == PythonVersion(w) ==> v == w
  {
    hide ParseBase, IsBase, IsNormal, CargoVersion, NpmVersion, PythonVersion;
    SpellingsReadBack(v);
    SpellingsReadBack(w);
    PythonParts(v);
    PythonParts(w);
    if PythonVersion(v) == PythonVersion(w) {
      var a, b := if v.dev then v.base + "." else v.base, if w.dev then w.base + "." else w.base;
      PlainPrefix(a, b, Tail(v), Tail(w));
      SameTail(v, w);
      assert v.dev ==> a[..|a| - 1] == v.base && b[..|b| - 1] == w.base;
    }
  }

  // ----- which spelling is whose

  /** The spellings of a release, a development version and a candidate, as the tool documents them. */
  lemma DocumentedSpellings()
    ensures var v := Version("0.6.0", false, None);
            CargoVersion(v) == "0.6.0" && NpmVersion(v) == "0.6.0" && PythonVersion(v) == "0.6.0"
    ensures var v := Version("0.6.0", true, None);
            CargoVersion(v) == "0.6.0-dev" && NpmVersion(v) == "0.6.0-dev.0" && PythonVersion(v) == "0.6.0.dev0"
    ensures var v := Version("0.6.0", false, Some("1"));
            CargoVersion(v) == "0.6.0-rc.1" && NpmVersion(v) == "0.6.0-rc.1" && PythonVersion(v) == "0.6.0rc1"
  {
  }

  /** npm numbers its development versions, and otherwise spells a version like cargo. */
  lemma NpmDiffersExactly(v: Version)
    ensures NpmVersion(v) == CargoVersion(v) + (if v.dev then ".0" else "")
    ensures NpmVersion(v) == CargoVersion(v) <==> !v.dev
  {
    assert v.dev ==> v.base + "-dev" + ".0" == v.base + "-dev.0";
    assert CargoVersion(v) + "" == CargoVersion(v);
    assert v.dev ==> |NpmVersion(v)| == |CargoVersion(v)| + 2;
  }

  // ----- which spellings are read

  lemma CandidateIs(t: string)
    requires Candidate(t).Some?
    ensures t == Candidate(t).value.0 + "-rc." + Candidate(t).value.1
  {
    hide IsBase, IsCounter;
    var k := FirstDash(t);
    var tail := t[k..];
    assert tail[..4] == "-rc.";
    assert t == t[..k] + tail && tail == tail[..4] + tail[4..] && tail[4..] == t[k + 4..];
  }

  /** A release or candidate has only its cargo spelling, white space around it aside. */
  lemma OnlySpelling(t: string)
    requires ParseBase(t).Some? && !ParseBase(t).value.dev
    ensures Canonical(ParseBase(t).value) && Strip(t) == CargoVersion(ParseBase(t).value)
  {
    hide IsBase, IsNormal, IsDev, Strip, Candidate;
    var raw := Strip(t);
    if !IsBase(raw) {
      CandidateIs(raw);
      CandidateParts(raw);
    }
  }

  lemma CandidateParts(t: string)
    requires Candidate(t).Some?
    ensures IsBase(Candidate(t).value.0) && IsCounter(Candidate(t).value.1)
  {
  }

  lemma DotDevGoes()
    ensures WithoutDev(".dev0") == []
  {
    assert ".dev0"[0] == '.' && "-dev"[0] == '-';
  }

  lemma DotDevStays(base: string)
    requires IsBase(base)
    ensures IsDev(base + ".dev0") && WithoutDev(base + ".dev0") == base && Strip(base + ".dev0") == base + ".dev0"
  {
    hide IsBase, WithoutDev, Strip;
    BaseIsPlain(base);
    DotDevGoes();
    BaseSurvives(base, ".dev0");
    var t := base + ".dev0";
    assert t[|t| - 5..] == ".dev0" && base + [] == base;
    StripNothing(t);
  }

  /** The Python spelling is read for releases and development versions, and refused for candidates. */
  lemma PythonSpellingReadsExactly(v: Version)
    requires Canonical(v)
    ensures ParseBase(PythonVersion(v)) == if v.candidate.Some? then None else Some(v)
  {
    hide IsBase, IsNormal, IsDev, WithoutDev, Strip, Candidate, IsCounter;
    if v.dev {
      DotDevStays(v.base);
    } else if v.candidate.Some? {
      PythonCandidateIsNone(v.base, v.candidate.value);
    } else {
      ReleaseSpelling(v.base);
    }
  }

  lemma PythonCandidateIsNone(base: string, counter: string)
    requires IsBase(base) && IsCounter(counter)
    ensures ParseBase(base + "rc" + counter).None?
  {
    hide IsBase, IsNormal, IsDev, WithoutDev, Strip;
    var t := base + "rc" + counter;
    BaseIsPlain(base);
    assert t[|base|] == 'r';
    StripNothing(t);
    DevHasD(t);
    NoDashNoCandidate(t);
    if IsBase(t) {
      BaseIsPlain(t);
    }
  }

  lemma NoDashNoCandidate(t: string)
    requires '-' !in t
    ensures Candidate(t).None?
  {
  }
}
