/** Rewriting the region between two marker lines of a file (scripts/ci/adr-index.py). */
module AdrRegions {
  import opened Results
  import opened PyText

  datatype Markers = Markers(begin: string, end: string)

  predicate Contains(t: string, part: string) {
    exists i :: 0 <= i <= |t| && part <= t[i..]
  }

  /** The lines that contain `part`. */
  function Indices(lines: seq<string>, part: string): (r: seq<nat>) {
    if lines == [] then [] else
      Indices(lines[..|lines| - 1], part) + if Contains(lines[|lines| - 1], part) then [|lines| - 1] else []
  }

  /** Line `i` and no other contains `part`. */
  ghost predicate OnlyAt(lines: seq<string>, part: string, i: nat) {
    i < |lines| && Contains(lines[i], part) && forall j :: 0 <= j < |lines| && j != i ==> !Contains(lines[j], part)
  }

  /** Where the region begins and ends. */
  function Region(lines: seq<string>, mk: Markers): (r: Option<(nat, nat)>) {
    var begins, ends := Indices(lines, mk.begin), Indices(lines, mk.end);
    if |begins| != 1 || |ends| != 1 || ends[0] < begins[0] then None else Some((begins[0], ends[0]))
  }

  ghost predicate Nowhere(lines: seq<string>, part: string) {
    forall j :: 0 <= j < |lines| ==> !Contains(lines[j], part)
  }

  lemma OnlyStep(lines: seq<string>, part: string, i: nat)
    requires lines != []
    ensures var n, init := |lines| - 1, lines[..|lines| - 1];
            && (Nowhere(lines, part) <==> Nowhere(init, part) && !Contains(lines[n], part))
            && (OnlyAt(lines, part, i) <==> if Contains(lines[n], part) then i == n && Nowhere(init, part) else OnlyAt(init, part, i))
  {
    hide Contains;
    var n, init := |lines| - 1, lines[..|lines| - 1];
    assert forall j :: 0 <= j < n ==> init[j] == lines[j];
  }

  lemma OneMoreIs(found: seq<nat>, n: nat, i: nat)
    ensures found + [n] == [i] <==> found == [] && n == i
  {
    assert (found + [n])[|found|] == n;
  }

  lemma {:induction false} IndicesExactly(lines: seq<string>, part: string, i: nat)
    ensures Indices(lines, part) == [] <==> Nowhere(lines, part)
    ensures Indices(lines, part) == [i] <==> OnlyAt(lines, part, i)
    decreases |lines|
  {
    if lines != [] {
      hide Contains, Nowhere, OnlyAt;
      var init := lines[..|lines| - 1];
      IndicesExactly(init, part, i);
      OnlyStep(lines, part, i);
      OneMoreIs(Indices(init, part), |lines| - 1, i);
    }
  }

  lemma RegionExactly(lines: seq<string>, mk: Markers, b: nat, e: nat)
    ensures Region(lines, mk) == Some((b, e)) <==> OnlyAt(lines, mk.begin, b) && OnlyAt(lines, mk.end, e) && b <= e
  {
    hide Indices, OnlyAt;
    IndicesExactly(lines, mk.begin, b);
    IndicesExactly(lines, mk.end, e);
  }

  ghost predicate MarkerFree(lines: seq<string>, mk: Markers) {
    forall i :: 0 <= i < |lines| ==> !Contains(lines[i], mk.begin) && !Contains(lines[i], mk.end)
  }

  /** The lines with the region's body replaced. */
  function Refilled(lines: seq<string>, b: nat, e: nat, body: seq<string>): (r: seq<string>)
    requires b < |lines| && e < |lines|
  {
    lines[..b + 1] + body + lines[e..]
  }

  function Render(mk: Markers, text: string, body: seq<string>): (r: Option<string>)
  {
    var lines := SplitLines(text);
    var region := Region(lines, mk);
    if region.None? then None else
      RegionBounds(lines, mk);
      Some(JoinLines(Refilled(lines, region.value.0, region.value.1, body) + [""]))
  }

  lemma RegionBounds(lines: seq<string>, mk: Markers)
    ensures Region(lines, mk).Some? ==> Region(lines, mk).value.0 < |lines| && Region(lines, mk).value.1 < |lines|
  {
    hide Contains, Indices;
    var region := Region(lines, mk);
    if region.Some? {
      RegionExactly(lines, mk, region.value.0, region.value.1);
    }
  }

  /** A refilled region can be found again exactly when its markers are on two lines and the body holds none. */
  lemma RefilledRegionExactly(lines: seq<string>, mk: Markers, b: nat, e: nat, body: seq<string>)
    requires Region(lines, mk) == Some((b, e)) && b < |lines| && e < |lines|
    ensures var next := Refilled(lines, b, e, body);
            && (Region(next, mk).Some? <==> b < e && MarkerFree(body, mk))
            && (Region(next, mk).Some? ==> Region(next, mk) == Some((b, b + 1 + |body|))
                                           && Refilled(next, b, b + 1 + |body|, body) == next)
  {
    hide Contains, Region;
    RegionExactly(lines, mk, b, e);
    var next, f := Refilled(lines, b, e, body), b + 1 + |body|;
    assert next[b] == lines[b] && next[f] == lines[e];
    if b < e && MarkerFree(body, mk) {
      RegionExactly(next, mk, b, f);
    }
    if Region(next, mk).Some? {
      var c, g := Region(next, mk).value.0, Region(next, mk).value.1;
      RegionExactly(next, mk, c, g);
      assert c == b && g == f;
      forall i | 0 <= i < |body|
        ensures !Contains(body[i], mk.begin) && !Contains(body[i], mk.end)
      {
        assert next[b + 1 + i] == body[i];
      }
    }
    assert next[..b + 1] == lines[..b + 1] && next[f..] == lines[e..];
  }
}
