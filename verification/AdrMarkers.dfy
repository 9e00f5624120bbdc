/** Which titles put a marker into a generated region (scripts/ci/adr-index.py). */
module AdrMarkers {
  import opened Results
  import opened PyText
  import opened AdrRegions
  import opened AdrIndex
  import opened AdrSite

  const MARKERS: Markers :=
    Markers("BEGIN" + GENERATED + " \U{2014} " + "scripts/ci/" + "adr-index.py" + " generate", "END" + GENERATED)

  const GENERATED := " generated " + "ADR records"

  /** Begins with a capital, and is not changed by quoting. */
  predicate Distinctive(m: string) {
    m != [] && 'A' <= m[0] <= 'Z' && Unquoted(m)
  }

  predicate Unquoted(t: string) {
    '\'' !in t && '\\' !in t
  }

  lemma WordsAreUnquoted()
    ensures Unquoted("BEGIN") && Unquoted("END") && Unquoted(" generated ") && Unquoted("ADR records")
  {
  }

  lemma PathIsUnquoted()
    ensures Unquoted(" \U{2014} ") && Unquoted("scripts/ci/") && Unquoted("adr-index.py") && Unquoted(" generate")
  {
  }

  lemma UnquotedConcat(a: string, b: string)
    requires Unquoted(a) && Unquoted(b)
    ensures Unquoted(a + b)
  {
  }

  lemma MarkersAreDistinctive()
    ensures Distinctive(MARKERS.begin) && Distinctive(MARKERS.end)
  {
    hide Unquoted;
    WordsAreUnquoted();
    PathIsUnquoted();
    UnquotedConcat(" generated ", "ADR records");
    UnquotedConcat("END", GENERATED);
    var a := "BEGIN" + GENERATED;
    UnquotedConcat("BEGIN", GENERATED);
    UnquotedConcat(a, " \U{2014} ");
    UnquotedConcat(a + " \U{2014} ", "scripts/ci/");
    UnquotedConcat(a + " \U{2014} " + "scripts/ci/", "adr-index.py");
    UnquotedConcat(a + " \U{2014} " + "scripts/ci/" + "adr-index.py", " generate");
  }

  // ----- looking for a marker in a text made of pieces

  lemma ContainsAt(t: string, m: string, i: nat)
    requires i + |m| <= |t| && t[i..i + |m|] == m
    ensures Contains(t, m)
  {
    assert t[i..][..|m|] == m;
    assert m <= t[i..];
  }

  lemma FoundAt(t: string, m: string) returns (i: nat)
    requires Contains(t, m)
    ensures i + |m| <= |t| && t[i..i + |m|] == m && forall k :: i <= k < i + |m| ==> t[k] == m[k - i] && t[k] in m
  {
    i :| 0 <= i <= |t| && m <= t[i..];
    assert t[i..][..|m|] == m;
  }

  lemma StartsElsewhere(t: string, m: string)
    requires m != [] && m[0] !in t
    ensures !Contains(t, m)
  {
    if Contains(t, m) {
      var i := FoundAt(t, m);
    }
  }

  lemma ContainedBefore(a: string, b: string, m: string)
    requires Contains(a, m)
    ensures Contains(a + b, m)
  {
    hide Contains;
    var i := FoundAt(a, m);
    assert (a + b)[i..i + |m|] == a[i..i + |m|];
    ContainsAt(a + b, m, i);
  }

  lemma ContainedBehind(a: string, b: string, m: string)
    requires Contains(b, m)
    ensures Contains(a + b, m)
  {
    hide Contains;
    var i := FoundAt(b, m);
    assert (a + b)[|a| + i..|a| + i + |m|] == b[i..i + |m|];
    ContainsAt(a + b, m, |a| + i);
  }

  /** A character the marker lacks keeps its two sides apart. */
  lemma ContainedBeside(a: string, c: char, b: string, m: string)
    requires m != [] && c !in m
    ensures Contains(a + [c] + b, m) <==> Contains(a, m) || Contains(b, m)
  {
    hide Contains;
    var t := a + [c] + b;
    if Contains(a, m) {
      ContainedBefore(a, [c] + b, m);
      assert a + ([c] + b) == t;
    }
    if Contains(b, m) {
      ContainedBehind(a + [c], b, m);
    }
    if Contains(t, m) {
      var i := FoundAt(t, m);
      assert t[|a|] == c;
      if i + |m| <= |a| {
        assert a[i..i + |m|] == t[i..i + |m|];
        ContainsAt(a, m, i);
      } else {
        var j := i - |a| - 1;
        assert b[j..j + |m|] == t[i..i + |m|];
        ContainsAt(b, m, j);
      }
    }
  }

  /** A front in which the marker cannot begin adds nothing. */
  lemma ContainedBehindOnly(a: string, b: string, m: string)
    requires m != [] && m[0] !in a
    ensures Contains(a + b, m) <==> Contains(b, m)
  {
    hide Contains;
    if Contains(b, m) {
      ContainedBehind(a, b, m);
    }
    if Contains(a + b, m) {
      var i := FoundAt(a + b, m);
      assert m[0] == (a + b)[i];
      assert i >= |a|;
      assert b[i - |a|..i - |a| + |m|] == (a + b)[i..i + |m|];
      ContainsAt(b, m, i - |a|);
    }
  }

  // ----- quoting

  predicate IsQuoted(c: char) {
    c == '\\' || c == '\''
  }

  lemma {:induction false} EscapeConcat(a: string, b: string)
    ensures JsEscape(a + b) == JsEscape(a) + JsEscape(b)
  {
    if a == [] {
      assert a + b == b;
    } else {
      assert (a + b)[1..] == a[1..] + b;
      EscapeConcat(a[1..], b);
    }
  }

  lemma {:induction false} NothingToEscape(t: string)
    requires forall i :: 0 <= i < |t| ==> !IsQuoted(t[i])
    ensures JsEscape(t) == t
  {
    if t != [] {
      NothingToEscape(t[1..]);
    }
  }

  lemma EscapeAround(a: string, c: char, b: string)
    requires IsQuoted(c)
    ensures JsEscape(a + [c] + b) == JsEscape(a) + ['\\'] + ([] + [c] + JsEscape(b))
  {
    EscapeConcat(a + [c], b);
    EscapeConcat(a, [c]);
    assert JsEscape([c]) == ['\\', c] + JsEscape([c][1..]);
  }

  /** Quoting a text neither hides nor makes a marker. */
  lemma {:induction false} EscapeKeepsMarkers(t: string, m: string)
    requires Distinctive(m)
    ensures Contains(JsEscape(t), m) <==> Contains(t, m)
    decreases |t|
  {
    hide Contains, JsEscape;
    if i :| 0 <= i < |t| && IsQuoted(t[i]) {
      var a, c, b := t[..i], t[i], t[i + 1..];
      assert t == a + [c] + b;
      EscapeAround(a, c, b);
      EscapeKeepsMarkers(a, m);
      EscapeKeepsMarkers(b, m);
      ContainedBeside(a, c, b, m);
      ContainedBeside(JsEscape(a), '\\', [] + [c] + JsEscape(b), m);
      ContainedBeside([], c, JsEscape(b), m);
      StartsElsewhere([], m);
    } else {
      NothingToEscape(t);
    }
  }

  /** A quoted text between two pieces without capitals. */
  lemma ContainedInQuotes(a: string, t: string, b: string, m: string)
    requires Distinctive(m) && m[0] !in a
    ensures Contains(a + JsString(t) + b, m) <==> Contains(t, m) || Contains(b, m)
  {
    hide Contains, JsEscape;
    assert a + JsString(t) + b == a + ['\''] + (JsEscape(t) + ['\''] + b);
    ContainedBeside(a, '\'', JsEscape(t) + ['\''] + b, m);
    ContainedBeside(JsEscape(t), '\'', b, m);
    EscapeKeepsMarkers(t, m);
    StartsElsewhere(a, m);
  }

  // ----- the generated lines

  function Label(r: Record): (t: string) {
    r.number + " \U{2014} " + r.title
  }

  function Stem(r: Record): (t: string) {
    if |r.filename| < 3 then "" else r.filename[..|r.filename| - 3]
  }

  predicate NoCapital(t: string) {
    forall i :: 0 <= i < |t| ==> !('A' <= t[i] <= 'Z')
  }

  lemma NoCapitalConcat(a: string, b: string)
    requires NoCapital(a) && NoCapital(b)
    ensures NoCapital(a + b)
  {
  }

  lemma LabelHolds(r: Record, m: string)
    requires Loaded(r) && Distinctive(m)
    ensures Contains(Label(r), m) <==> Contains(r.title, m)
  {
    hide Contains, OneLine;
    var front := r.number + " \U{2014} ";
    assert NoCapital(front);
    ContainedBehindOnly(front, r.title, m);
  }

  /** Neither name of the page holds a marker. */
  lemma NamesHoldNone(r: Record, m: string)
    requires Loaded(r) && Distinctive(m)
    ensures !Contains("adr/" + r.filename, m) && !Contains("adr/" + Stem(r), m)
  {
    hide Contains, OneLine;
    assert NoCapital("adr/" + r.filename) && NoCapital("adr/" + Stem(r));
    StartsElsewhere("adr/" + r.filename, m);
    StartsElsewhere("adr/" + Stem(r), m);
  }

  lemma SyncLineHoldsNone(r: Record, m: string)
    requires Loaded(r) && Distinctive(m)
    ensures !Contains(Spaces(2) + JsString("adr/" + r.filename) + ",", m)
  {
    hide Contains, JsString;
    NamesHoldNone(r, m);
    StartsElsewhere(",", m);
    ContainedInQuotes(Spaces(2), "adr/" + r.filename, ",", m);
  }

  lemma SingleHolds(name: string, slug: string, m: string)
    requires Distinctive(m) && !Contains(slug, m)
    ensures Contains(Spaces(16) + "{ label: " + JsString(name) + ", slug: " + JsString(slug) + " },", m) <==> Contains(name, m)
  {
    hide Contains, JsString;
    var rest := ", slug: " + JsString(slug) + " },";
    var front := Spaces(16) + "{ label: ";
    assert front + JsString(name) + rest == Spaces(16) + "{ label: " + JsString(name) + ", slug: " + JsString(slug) + " },";
    NoCapitalConcat(Spaces(16), "{ label: ");
    ContainedInQuotes(front, name, rest, m);
    ContainedInQuotes(", slug: ", slug, " },", m);
    StartsElsewhere(" },", m);
  }

  lemma DoubleHolds(name: string, slug: string, m: string)
    requires Distinctive(m) && !Contains(slug, m)
    ensures !Contains(Spaces(16) + "{", m) && !Contains(Spaces(16) + "},", m)
    ensures Contains(Spaces(16) + "  label: " + JsString(name) + ",", m) <==> Contains(name, m)
    ensures !Contains(Spaces(16) + "  slug: " + JsString(slug) + ",", m)
  {
    hide Contains, JsString;
    StartsElsewhere(Spaces(16) + "{", m);
    StartsElsewhere(Spaces(16) + "},", m);
    StartsElsewhere(",", m);
    NoCapitalConcat(Spaces(16), "  label: ");
    NoCapitalConcat(Spaces(16), "  slug: ");
    ContainedInQuotes(Spaces(16) + "  label: ", name, ",", m);
    ContainedInQuotes(Spaces(16) + "  slug: ", slug, ",", m);
  }

  ghost predicate Free(lines: seq<string>, m: string) {
    forall i :: 0 <= i < |lines| ==> !Contains(lines[i], m)
  }

  lemma EntryHolds(r: Record, m: string)
    requires Loaded(r) && Distinctive(m)
    ensures Free(SidebarEntry(r), m) <==> !Contains(r.title, m)
  {
    hide Contains, JsString, Loaded, Spaces, Distinctive;
    NamesHoldNone(r, m);
    LabelHolds(r, m);
    SingleHolds(Label(r), "adr/" + Stem(r), m);
    DoubleHolds(Label(r), "adr/" + Stem(r), m);
    var lines := SidebarEntry(r);
    if |lines| == 1 {
      assert Free(lines, m) <==> !Contains(lines[0], m);
    } else {
      assert Free(lines, m) <==> !Contains(lines[0], m) && !Contains(lines[1], m) && !Contains(lines[2], m) && !Contains(lines[3], m);
    }
  }

  lemma FreeConcat(a: seq<string>, b: seq<string>, m: string)
    ensures Free(a + b, m) <==> Free(a, m) && Free(b, m)
  {
    hide Contains;
    if Free(a + b, m) {
      assert forall i :: 0 <= i < |a| ==> a[i] == (a + b)[i];
      assert forall i :: 0 <= i < |b| ==> b[i] == (a + b)[|a| + i];
    }
  }

  /** The publication list never holds a marker; the sidebar does exactly when a title does. */
  lemma {:induction false} RegionsHold(records: seq<Record>, m: string)
    requires Distinctive(m) && forall r :: r in records ==> Loaded(r)
    ensures Free(SyncRegion(records), m)
    ensures Free(SidebarRegion(records), m) <==> forall r :: r in records ==> !Contains(r.title, m)
    decreases |records|
  {
    hide Contains, Loaded, JsString, Spaces, SidebarEntry, Distinctive;
    if records != [] {
      var n := |records| - 1;
      var init, last := records[..n], records[n];
      RegionsHold(init, m);
      SyncLineHoldsNone(last, m);
      EntryHolds(last, m);
      FreeConcat(SidebarRegion(init), SidebarEntry(last), m);
      assert forall r :: r in records <==> r in init || r == last;
    }
  }

  /** No title of an active record holds a marker. */
  ghost predicate TitlesQuiet(mk: Markers, records: seq<Record>) {
    forall r :: r in records && !r.superseded ==> !Contains(r.title, mk.begin) && !Contains(r.title, mk.end)
  }

  ghost predicate MarkersApart(mk: Markers, text: string) {
    var region := Region(SplitLines(text), mk);
    region.Some? && region.value.0 < region.value.1
  }

  /** The regions last exactly when the markers of each file are on two lines and no active title holds one. */
  lemma RegionsLastExactly(mk: Markers, site: Site, records: seq<Record>)
    requires RecordsReady(records) && Distinctive(mk.begin) && Distinctive(mk.end)
    ensures RegionsLast(mk, site, records) <==> MarkersApart(mk, site.sync) && MarkersApart(mk, site.sidebar) && TitlesQuiet(mk, records)
  {
    hide Contains, Loaded, SyncRegion, SidebarRegion, Distinctive, Region, SplitLines;
    var active := Active(records);
    RegionsHold(active, mk.begin);
    RegionsHold(active, mk.end);
  }
}
