/** The summary of a heap trace in terms of its records (benchmarks/diagnostics/heaptrack_summary.py). */
module HeapRecords {
  import opened Results
  import opened HeapTrace

  // ----- what the records say

  /** The allocation with the given number, counted from the front. */
  function Declaration(records: seq<Record>, index: nat): (r: Option<Record>)
    ensures r.Some? ==> r.value.Allocation?
  {
    if records == [] then None
    else if !records[0].Allocation? then Declaration(records[1..], index)
    else if index == 0 then Some(records[0])
    else Declaration(records[1..], index - 1)
  }

  /** Record `i` is an event of the given sign; `None` is no event. */
  predicate IsEvent(records: seq<Record>, i: nat, grow: bool)
    requires i < |records|
  {
    if grow then records[i].Grow? else records[i].Shrink?
  }

  /** The allocation that event `i` refers to. */
  function Declared(records: seq<Record>, i: nat): (r: Option<Record>)
    requires i < |records| && (records[i].Grow? || records[i].Shrink?)
    ensures r.Some? ==> r.value.Allocation?
  {
    Declaration(records[..i], records[i].index)
  }

  /** Bytes of all events of one sign before record `n`, of one category or of all. */
  function Moved(records: seq<Record>, n: nat, grow: bool, tag: Option<string>): (r: int)
    requires n <= |records|
  {
    if n == 0 then 0 else
      Moved(records, n - 1, grow, tag)
      + if IsEvent(records, n - 1, grow) && Counts(records, n - 1, tag) then Declared(records, n - 1).value.size else 0
  }

  predicate Counts(records: seq<Record>, i: nat, tag: Option<string>)
    requires i < |records| && (records[i].Grow? || records[i].Shrink?)
  {
    Declared(records, i).Some? && (tag.Some? ==> Declared(records, i).value.tag == tag.value)
  }

  /** Bytes allocated and not yet released. */
  function LiveBytes(records: seq<Record>, n: nat, tag: Option<string>): (r: int)
    requires n <= |records|
  {
    Moved(records, n, true, tag) - Moved(records, n, false, tag)
  }

  /** How often a category was allocated. */
  function Calls(records: seq<Record>, n: nat, tag: string): (r: int)
    requires n <= |records|
  {
    if n == 0 then 0 else
      Calls(records, n - 1, tag) + if records[n - 1].Grow? && Counts(records, n - 1, Some(tag)) then 1 else 0
  }

  /** Every event refers to an allocation before it. */
  ghost predicate AllDeclared(records: seq<Record>) {
    forall i :: 0 <= i < |records| && (records[i].Grow? || records[i].Shrink?) ==> Declared(records, i).Some?
  }

  /** No category ever has fewer than no bytes. */
  ghost predicate NeverBelowZero(records: seq<Record>) {
    forall n, tag :: 0 <= n <= |records| ==> LiveBytes(records, n, Some(tag)) >= 0
  }

  ghost predicate Highest(records: seq<Record>, tag: Option<string>, h: int) {
    && (forall n :: 0 <= n <= |records| ==> LiveBytes(records, n, tag) <= h)
    && (exists n :: 0 <= n <= |records| && LiveBytes(records, n, tag) == h)
  }

  /** The highest total was first reached after `n` records, and the categories then stood as in `m`. */
  ghost predicate FirstHighest(records: seq<Record>, h: int, m: map<string, int>, n: nat) {
    && n <= |records| && LiveBytes(records, n, None) == h && (forall tag :: Get(m, tag) == LiveBytes(records, n, Some(tag)))
    && (forall k :: 0 <= k < n ==> LiveBytes(records, k, None) < h)
  }

  /** Live bytes, peaks, calls and the categories at the first global peak, all over the records. */
  ghost predicate IsReport(records: seq<Record>, s: Summary) {
    && (forall tag :: Get(s.live, tag) == LiveBytes(records, |records|, Some(tag)))
    && s.globalLive == LiveBytes(records, |records|, None)
    && (forall tag :: Get(s.counts, tag) == Calls(records, |records|, tag))
    && (forall tag :: Highest(records, Some(tag), Get(s.peak, tag)))
    && Highest(records, None, s.globalPeak)
    && exists n: nat :: FirstHighest(records, s.globalPeak, s.atPeak, n)
  }

  // ----- declarations

  lemma {:induction false} KindsInFront(first: Record, rest: seq<Record>)
    ensures Kinds([first] + rest) == (if first.Allocation? then [first] else []) + Kinds(rest)
    decreases |rest|
  {
    var all := [first] + rest;
    if rest == [] {
      assert all[..0] == [];
    } else {
      var before, last := rest[..|rest| - 1], rest[|rest| - 1];
      KindsInFront(first, before);
      assert all[..|all| - 1] == [first] + before && all[|all| - 1] == last;
      var front, back := if first.Allocation? then [first] else [], if last.Allocation? then [last] else [];
      assert (front + Kinds(before)) + back == front + (Kinds(before) + back);
    }
  }

  lemma {:induction false} DeclarationIs(records: seq<Record>, index: nat)
    ensures Declaration(records, index) == if index < |Kinds(records)| then Some(Kinds(records)[index]) else None
    decreases |records|
  {
    if records != [] {
      assert records == [records[0]] + records[1..];
      KindsInFront(records[0], records[1..]);
      DeclarationIs(records[1..], index);
      if records[0].Allocation? && index > 0 {
        DeclarationIs(records[1..], index - 1);
      }
    }
  }

  // ----- from changes to records

  lemma ChangesAt(records: seq<Record>, n: nat)
    requires n < |records|
    ensures var before := Changes(records[..n]);
            Changes(records[..n + 1]) ==
            if before.None? || records[n].Allocation? || records[n].Other? then before
            else if Declared(records, n).None? then None
            else Some(before.value + [Made(records, n)])
  {
    hide Changes, Kinds, Declaration;
    RecordStep(records, n);
    if records[n].Grow? || records[n].Shrink? {
      DeclarationIs(records[..n], records[n].index);
    }
  }

  /** The change event `n` makes. */
  function Made(records: seq<Record>, n: nat): (c: Change)
    requires n < |records| && (records[n].Grow? || records[n].Shrink?) && Declared(records, n).Some?
  {
    var d := Declared(records, n).value;
    Change(d.tag, if records[n].Grow? then d.size else 0 - d.size, records[n].Grow?)
  }

  /** After `n` records the changes are those bytes and calls. */
  ghost predicate Matches(records: seq<Record>, n: nat, cs: seq<Change>)
    requires n <= |records|
  {
    && (forall tag :: Live(cs, tag) == LiveBytes(records, n, Some(tag)) && Grows(cs, tag) == Calls(records, n, tag))
    && Total(cs) == LiveBytes(records, n, None)
  }

  lemma MatchesStep(records: seq<Record>, n: nat, cs: seq<Change>)
    requires n < |records| && Matches(records, n, cs)
    ensures records[n].Allocation? || records[n].Other? ==> Matches(records, n + 1, cs)
    ensures (records[n].Grow? || records[n].Shrink?) && Declared(records, n).Some? ==> Matches(records, n + 1, cs + [Made(records, n)])
  {
    hide Live, Total, Grows, Declaration;
    if (records[n].Grow? || records[n].Shrink?) && Declared(records, n).Some? {
      OneMore(cs, Made(records, n));
    }
  }

  lemma {:induction false} ChangesMatch(records: seq<Record>, n: nat)
    requires n <= |records|
    ensures Changes(records[..n]).Some? <==>
            forall i :: 0 <= i < n && (records[i].Grow? || records[i].Shrink?) ==> Declared(records, i).Some?
    ensures Changes(records[..n]).Some? ==> Matches(records, n, Changes(records[..n]).value)
    decreases n
  {
    hide Changes, Declaration, Matches;
    if n == 0 {
      Nothing(records[..0]);
      NothingMatches(records);
    } else {
      ChangesMatch(records, n - 1);
      ChangesAt(records, n - 1);
      if Changes(records[..n - 1]).Some? {
        MatchesStep(records, n - 1, Changes(records[..n - 1]).value);
      }
    }
  }

  lemma NothingMatches(records: seq<Record>)
    ensures Matches(records, 0, [])
  {
  }

  lemma {:induction false} ChangesGrow(records: seq<Record>, n: nat, m: nat)
    requires n <= m <= |records| && Changes(records[..m]).Some?
    ensures Changes(records[..n]).Some? && Changes(records[..n]).value <= Changes(records[..m]).value
    decreases m
  {
    hide Changes, Declaration;
    if n < m {
      ChangesAt(records, m - 1);
      ChangesGrow(records, n, m - 1);
    }
  }

  /** Every stage of the changes is reached after some number of records, and no earlier one has more. */
  lemma {:induction false} StageReached(records: seq<Record>, m: nat, k: nat) returns (n: nat)
    requires m <= |records| && Changes(records[..m]).Some? && k <= |Changes(records[..m]).value|
    ensures n <= m && Changes(records[..n]).Some? && Changes(records[..n]).value == Changes(records[..m]).value[..k]
    ensures forall j :: 0 <= j < n ==> Changes(records[..j]).Some? && |Changes(records[..j]).value| < k
    decreases m
  {
    hide Changes, Declaration;
    var cs := Changes(records[..m]).value;
    if m == 0 {
      Nothing(records[..0]);
      n := 0;
    } else {
      ChangesAt(records, m - 1);
      ChangesGrow(records, m - 1, m);
      var before := Changes(records[..m - 1]).value;
      if k <= |before| {
        n := StageReached(records, m - 1, k);
        assert before[..k] == cs[..k];
      } else {
        n := m;
        assert cs[..k] == cs;
        forall j | 0 <= j < m
          ensures Changes(records[..j]).Some? && |Changes(records[..j]).value| < k
        {
          ChangesGrow(records, j, m - 1);
        }
      }
    }
  }

  /** The trace is accepted exactly when every event is declared and no category falls below zero. */
  lemma AcceptedExactly(records: seq<Record>)
    ensures Accepted(records) <==> AllDeclared(records) && NeverBelowZero(records)
  {
    hide Changes, Declared, LiveBytes, Live;
    var m := |records|;
    assert records[..m] == records;
    ChangesMatch(records, m);
    if Changes(records).Some? {
      var cs := Changes(records).value;
      if NeverNegative(cs) {
        forall n, tag | 0 <= n <= m
          ensures LiveBytes(records, n, Some(tag)) >= 0
        {
          StageIs(records, n);
          assert NotNegative(cs[..|Changes(records[..n]).value|]);
        }
      }
      if NeverBelowZero(records) {
        forall k | 0 <= k <= |cs|
          ensures NotNegative(cs[..k])
        {
          var n := StageReached(records, m, k);
          StageIs(records, n);
          assert forall tag :: LiveBytes(records, n, Some(tag)) >= 0;
        }
      }
    }
  }

  /** The changes after `n` records are a stage of all of them, and match. */
  lemma StageIs(records: seq<Record>, n: nat)
    requires n <= |records| && Changes(records).Some?
    ensures Changes(records[..n]).Some?
    ensures var cs, now := Changes(records).value, Changes(records[..n]).value;
            |now| <= |cs| && now == cs[..|now|] && Matches(records, n, now)
  {
    hide Changes, Declared, Matches;
    assert records[..|records|] == records;
    ChangesGrow(records, n, |records|);
    ChangesMatch(records, n);
  }

  lemma HighestIs(records: seq<Record>, tag: Option<string>, h: int)
    requires Changes(records).Some?
    requires var cs := Changes(records).value;
             && (forall k :: 0 <= k <= |cs| ==> Stage(cs[..k], tag) <= h)
             && (exists k :: 0 <= k <= |cs| && Stage(cs[..k], tag) == h)
    ensures Highest(records, tag, h)
  {
    hide Changes, Declared, LiveBytes, Live, Total;
    var cs := Changes(records).value;
    assert records[..|records|] == records;
    forall n | 0 <= n <= |records|
      ensures LiveBytes(records, n, tag) <= h
    {
      StageIs(records, n);
      assert Stage(cs[..|Changes(records[..n]).value|], tag) <= h;
    }
    var k :| 0 <= k <= |cs| && Stage(cs[..k], tag) == h;
    var n := StageReached(records, |records|, k);
    StageIs(records, n);
    assert LiveBytes(records, n, tag) == h;
  }

  function Stage(cs: seq<Change>, tag: Option<string>): (r: int) {
    if tag.Some? then Live(cs, tag.value) else Total(cs)
  }

  /** A summary of the changes is a report on the records. */
  lemma SummaryReports(records: seq<Record>, s: Summary)
    requires Changes(records).Some? && IsSummary(Changes(records).value, s)
    ensures IsReport(records, s)
  {
    hide Changes, Declared, LiveBytes, Live, Total, Grows, Calls, Tags, Highest, FirstHighest;
    var cs, m := Changes(records).value, |records|;
    assert records[..m] == records;
    StageIs(records, m);
    assert cs[..|cs|] == cs;
    forall tag
      ensures Get(s.live, tag) == LiveBytes(records, m, Some(tag))
    {
      GetLive(cs, s.live, tag);
    }
    forall tag
      ensures Highest(records, Some(tag), Get(s.peak, tag))
    {
      PeakOf(cs, s, tag);
      HighestIs(records, Some(tag), Get(s.peak, tag));
    }
    var k: nat :| PeakedAt(cs, s.globalPeak, s.atPeak, k);
    GlobalPeak(cs, s.globalPeak, s.atPeak, k);
    HighestIs(records, None, s.globalPeak);
    FirstPeakReached(records, s, k);
  }

  lemma GetLive(cs: seq<Change>, m: map<string, int>, tag: string)
    requires LiveAre(cs, m)
    ensures Get(m, tag) == Live(cs, tag)
  {
    hide Live;
    if tag !in m {
      Untouched(cs, tag);
    }
  }

  lemma PeakOf(cs: seq<Change>, s: Summary, tag: string)
    requires IsSummary(cs, s)
    ensures forall k :: 0 <= k <= |cs| ==> Stage(cs[..k], Some(tag)) <= Get(s.peak, tag)
    ensures exists k :: 0 <= k <= |cs| && Stage(cs[..k], Some(tag)) == Get(s.peak, tag)
  {
    hide Live, Total, Grows, PeakedAt;
    if tag !in s.peak {
      FirstPeak(cs, tag);
    }
    assert IsPeakOf(cs, tag, Get(s.peak, tag));
    var k :| 0 <= k <= |cs| && Live(cs[..k], tag) == Get(s.peak, tag);
    assert Stage(cs[..k], Some(tag)) == Get(s.peak, tag);
  }

  lemma GlobalPeak(cs: seq<Change>, h: int, m: map<string, int>, k: nat)
    requires PeakedAt(cs, h, m, k)
    ensures forall j :: 0 <= j <= |cs| ==> Stage(cs[..j], None) <= h
    ensures exists j :: 0 <= j <= |cs| && Stage(cs[..j], None) == h
  {
    hide Live, Total;
    assert Stage(cs[..k], None) == h;
  }

  lemma FirstPeakReached(records: seq<Record>, s: Summary, k: nat)
    requires Changes(records).Some? && PeakedAt(Changes(records).value, s.globalPeak, s.atPeak, k)
    ensures exists n: nat :: FirstHighest(records, s.globalPeak, s.atPeak, n)
  {
    hide Changes, Declared, LiveBytes, Live, Total, Tags;
    var cs, m := Changes(records).value, |records|;
    assert records[..m] == records;
    var n := StageReached(records, m, k);
    StageIs(records, n);
    forall tag
      ensures Get(s.atPeak, tag) == LiveBytes(records, n, Some(tag))
    {
      GetLive(cs[..k], s.atPeak, tag);
    }
    forall j | 0 <= j < n
      ensures LiveBytes(records, j, None) < s.globalPeak
    {
      StageIs(records, j);
    }
    assert FirstHighest(records, s.globalPeak, s.atPeak, n);
  }

  // ----- the event loop

  /** The first record that cannot be taken, and what is wrong with it. */
  ghost predicate FailsAt(records: seq<Record>, i: nat, error: HeapError) {
    && i < |records| && Accepted(records[..i]) && (records[i].Grow? || records[i].Shrink?)
    && match error
       case UnknownAllocation => Declared(records, i).None?
       case NegativeLive(tag) =>
         && Declared(records, i).Some? && Declared(records, i).value.tag == tag
         && LiveBytes(records, i + 1, Some(tag)) < 0
  }

  method Summarize(records: seq<Record>) returns (r: Result<Summary, HeapError>)
    ensures r.Ok? <==> AllDeclared(records) && NeverBelowZero(records)
    ensures r.Ok? ==> IsReport(records, r.value)
    ensures r.Ok? ==> Changes(records).Some? && IsSummary(Changes(records).value, r.value)
    ensures r.Err? ==> exists i: nat :: FailsAt(records, i, r.error)
  {
    hide ChangeOf, IsSummary, NeverNegative, NotNegative, Kinds, Changes, Live, Grows, Total, IsReport, AllDeclared, NeverBelowZero,
         Declared, LiveBytes;
    AcceptedExactly(records);
    var kinds: seq<Record> := [];
    var s := Summary(map[], map[], map[], 0, 0, map[]);
    ghost var cs: seq<Change> := [];
    Nothing(records[..0]);
    for i := 0 to |records|
      invariant kinds == Kinds(records[..i])
      invariant Changes(records[..i]) == Some(cs) && NeverNegative(cs) && IsSummary(cs, s)
    {
      RecordStep(records, i);
      assert Accepted(records[..i]);
      var record := records[i];
      if record.Allocation? {
        kinds := kinds + [record];
      } else if !record.Other? {
        var change := ChangeOf(kinds, record);
        if change.None? {
          FailureStays(records, i + 1);
          ChangesAt(records, i);
          assert FailsAt(records, i, UnknownAllocation);
          return Err(UnknownAllocation);
        }
        var c := change.value;
        StepSummarizes(cs, s, c);
        s := Step(s, c);
        NeverNegativeStep(cs, c);
        LiveOfStep(cs, c, s);
        cs := cs + [c];
        if s.live[c.tag] < 0 {
          FailureStays(records, i + 1);
          ChangesAt(records, i);
          ChangesMatch(records, i + 1);
          assert cs[|cs| - 1] == c == Made(records, i);
          assert FailsAt(records, i, NegativeLive(c.tag));
          return Err(NegativeLive(c.tag));
        }
      }
    }
    assert records[..|records|] == records;
    SummaryReports(records, s);
    r := Ok(s);
  }
}
