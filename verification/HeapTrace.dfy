/** Peak accounting over a heap trace (benchmarks/diagnostics/heaptrack_summary.py). */
module HeapTrace {
  import opened Results
  import opened Sums

  /** The records that matter: an allocation kind, and events that refer to one. */
  datatype Record = Allocation(size: nat, tag: string) | Grow(index: nat) | Shrink(index: nat) | Other

  datatype HeapError = UnknownAllocation | NegativeLive(tag: string)

  datatype Change = Change(tag: string, delta: int, grow: bool)

  datatype Summary = Summary(live: map<string, int>, peak: map<string, int>, counts: map<string, int>,
                             globalLive: int, globalPeak: int, atPeak: map<string, int>)

  /** A counter reads zero where it has no entry. */
  function Get(m: map<string, int>, tag: string): (r: int) {
    if tag in m then m[tag] else 0
  }

  // ----- what a trace says

  /** The allocation kinds declared so far. */
  function Kinds(records: seq<Record>): (r: seq<Record>)
    ensures forall k :: 0 <= k < |r| ==> r[k].Allocation?
  {
    if records == [] then [] else
      Kinds(records[..|records| - 1]) + if records[|records| - 1].Allocation? then [records[|records| - 1]] else []
  }

  /** The change an event makes, given the kinds declared before it. */
  function ChangeOf(kinds: seq<Record>, e: Record): (r: Option<Change>)
    requires (e.Grow? || e.Shrink?) && forall k :: 0 <= k < |kinds| ==> kinds[k].Allocation?
  {
    if e.index >= |kinds| then None
    else
      var size: int := kinds[e.index].size;
      Some(Change(kinds[e.index].tag, if e.Grow? then size else -size, e.Grow?))
  }

  /** The changes of a trace in order, unless an event refers to an undeclared kind. */
  function Changes(records: seq<Record>): (r: Option<seq<Change>>) {
    if records == [] then Some([]) else
      var init, last := records[..|records| - 1], records[|records| - 1];
      var before := Changes(init);
      if before.None? || last.Allocation? || last.Other? then before else
        var c := ChangeOf(Kinds(init), last);
        if c.None? then None else Some(before.value + [c.value])
  }

  function Tags(cs: seq<Change>): (r: set<string>) {
    set c | c in cs :: c.tag
  }

  function Live(cs: seq<Change>, tag: string): (r: int) {
    if cs == [] then 0 else
      Live(cs[..|cs| - 1], tag) + if cs[|cs| - 1].tag == tag then cs[|cs| - 1].delta else 0
  }

  function Total(cs: seq<Change>): (r: int) {
    if cs == [] then 0 else Total(cs[..|cs| - 1]) + cs[|cs| - 1].delta
  }

  function Grows(cs: seq<Change>, tag: string): (r: int) {
    if cs == [] then 0 else
      Grows(cs[..|cs| - 1], tag) + if cs[|cs| - 1].tag == tag && cs[|cs| - 1].grow then 1 else 0
  }

  ghost predicate NotNegative(cs: seq<Change>) {
    forall t :: Live(cs, t) >= 0
  }

  /** No category's live bytes ever go below zero. */
  ghost predicate NeverNegative(cs: seq<Change>) {
    forall n :: 0 <= n <= |cs| ==> NotNegative(cs[..n])
  }

  // ----- what a summary must say

  ghost predicate IsPeakOf(cs: seq<Change>, tag: string, h: int) {
    && (forall n :: 0 <= n <= |cs| ==> Live(cs[..n], tag) <= h)
    && (exists n :: 0 <= n <= |cs| && Live(cs[..n], tag) == h)
  }

  ghost predicate LiveAre(cs: seq<Change>, m: map<string, int>) {
    m.Keys == Tags(cs) && forall t :: t in m ==> m[t] == Live(cs, t)
  }

  /** The highest total was first reached after `n` events, when the categories stood as in `m`. */
  ghost predicate PeakedAt(cs: seq<Change>, h: int, m: map<string, int>, n: nat) {
    && n <= |cs| && Total(cs[..n]) == h && LiveAre(cs[..n], m)
    && (forall k :: 0 <= k < n ==> Total(cs[..k]) < h)
    && (forall k :: n <= k <= |cs| ==> Total(cs[..k]) <= h)
  }

  ghost predicate IsSummary(cs: seq<Change>, s: Summary) {
    && LiveAre(cs, s.live) && s.globalLive == Total(cs)
    && s.peak.Keys == Tags(cs) && (forall t :: t in s.peak ==> IsPeakOf(cs, t, s.peak[t]))
    && (forall t :: Get(s.counts, t) == Grows(cs, t))
    && exists n: nat :: PeakedAt(cs, s.globalPeak, s.atPeak, n)
  }

  // ----- one event

  lemma OneMore(cs: seq<Change>, c: Change)
    ensures (cs + [c])[..|cs|] == cs
    ensures Tags(cs + [c]) == Tags(cs) + {c.tag} && Total(cs + [c]) == Total(cs) + c.delta
    ensures forall t :: Live(cs + [c], t) == Live(cs, t) + if c.tag == t then c.delta else 0
    ensures forall t :: Grows(cs + [c], t) == Grows(cs, t) + if c.tag == t && c.grow then 1 else 0
  {
    var next := cs + [c];
    assert next[..|next| - 1] == cs;
    assert forall x :: x in next <==> x in cs || x == c;
  }

  lemma {:induction false} Untouched(cs: seq<Change>, t: string)
    requires t !in Tags(cs)
    ensures Live(cs, t) == 0
    decreases |cs|
  {
    if cs != [] {
      assert cs[|cs| - 1] in cs;
      Untouched(cs[..|cs| - 1], t);
    }
  }

  lemma PeakStep(cs: seq<Change>, c: Change, t: string, h: int)
    requires IsPeakOf(cs, t, h)
    ensures IsPeakOf(cs + [c], t, if Live(cs + [c], t) > h then Live(cs + [c], t) else h)
  {
    hide Live;
    var next := cs + [c];
    assert forall n :: 0 <= n <= |cs| ==> next[..n] == cs[..n];
    assert next[..|next|] == next;
  }

  lemma FirstPeak(cs: seq<Change>, t: string)
    requires t !in Tags(cs)
    ensures IsPeakOf(cs, t, 0)
  {
    forall n | 0 <= n <= |cs|
      ensures Live(cs[..n], t) == 0
    {
      assert forall x :: x in cs[..n] ==> x in cs;
      Untouched(cs[..n], t);
    }
    assert Live(cs[..0], t) == 0;
  }

  lemma PeakedStep(cs: seq<Change>, c: Change, h: int, m: map<string, int>, n: nat, live: map<string, int>)
    requires PeakedAt(cs, h, m, n) && LiveAre(cs + [c], live)
    ensures var next := cs + [c];
            if Total(next) > h then PeakedAt(next, Total(next), live, |next|) else PeakedAt(next, h, m, n)
  {
    hide Live, Total, Tags;
    var next := cs + [c];
    assert forall k :: 0 <= k <= |cs| ==> next[..k] == cs[..k];
    assert next[..|next|] == next;
  }

  /** The summary after one more change. */
  function Step(s: Summary, c: Change): (r: Summary) {
    var live := s.live[c.tag := Get(s.live, c.tag) + c.delta];
    var total := s.globalLive + c.delta;
    Summary(live,
            s.peak[c.tag := if live[c.tag] > Get(s.peak, c.tag) then live[c.tag] else Get(s.peak, c.tag)],
            if c.grow then s.counts[c.tag := Get(s.counts, c.tag) + 1] else s.counts,
            total,
            if total > s.globalPeak then total else s.globalPeak,
            if total > s.globalPeak then live else s.atPeak)
  }

  lemma StepSummarizes(cs: seq<Change>, s: Summary, c: Change)
    requires IsSummary(cs, s)
    ensures IsSummary(cs + [c], Step(s, c))
  {
    hide Live, Total, Tags, Grows, IsPeakOf, PeakedAt;
    var next, after := cs + [c], Step(s, c);
    OneMore(cs, c);
    if c.tag !in Tags(cs) {
      Untouched(cs, c.tag);
      FirstPeak(cs, c.tag);
    }
    forall t | t in after.peak
      ensures IsPeakOf(next, t, after.peak[t])
    {
      PeakStep(cs, c, t, Get(s.peak, t));
      if t != c.tag {
        PeakBounds(cs, t, s.peak[t]);
      }
    }
    var n: nat :| PeakedAt(cs, s.globalPeak, s.atPeak, n);
    PeakedStep(cs, c, s.globalPeak, s.atPeak, n, after.live);
  }

  lemma PeakBounds(cs: seq<Change>, t: string, h: int)
    requires IsPeakOf(cs, t, h)
    ensures Live(cs, t) <= h && 0 <= h
  {
    assert cs[..|cs|] == cs;
    assert Live(cs[..0], t) == 0;
  }

  // ----- the event loop

  /** The trace can be summarized: every event refers to a declared kind and no category goes negative. */
  ghost predicate Accepted(records: seq<Record>) {
    Changes(records).Some? && NeverNegative(Changes(records).value)
  }

  lemma NeverNegativeStep(cs: seq<Change>, c: Change)
    ensures NeverNegative(cs + [c]) <==> NeverNegative(cs) && NotNegative(cs + [c])
  {
    hide NotNegative;
    var next := cs + [c];
    assert forall n :: 0 <= n <= |cs| ==> next[..n] == cs[..n];
    assert next[..|next|] == next;
  }

  lemma RecordStep(records: seq<Record>, i: nat)
    requires i < |records|
    ensures Kinds(records[..i + 1]) == Kinds(records[..i]) + if records[i].Allocation? then [records[i]] else []
    ensures Changes(records[..i + 1]) ==
            var before := Changes(records[..i]);
            if before.None? || records[i].Allocation? || records[i].Other? then before else
              var c := ChangeOf(Kinds(records[..i]), records[i]);
              if c.None? then None else Some(before.value + [c.value])
  {
    hide ChangeOf;
    assert records[..i + 1][..i] == records[..i];
  }

  /** A trace that fails early stays unacceptable. */
  lemma {:induction false} FailureStays(records: seq<Record>, i: nat)
    requires i <= |records| && !Accepted(records[..i])
    ensures !Accepted(records)
    decreases |records| - i
  {
    hide ChangeOf, NeverNegative, Kinds;
    if i == |records| {
      assert records[..i] == records;
    } else {
      RecordStep(records, i);
      var next := Changes(records[..i + 1]);
      if next.Some? && next != Changes(records[..i]) {
        NeverNegativeStep(Changes(records[..i]).value, next.value[|next.value| - 1]);
      }
      FailureStays(records, i + 1);
    }
  }

  lemma Nothing(records: seq<Record>)
    requires records == []
    ensures Kinds(records) == [] && Changes(records) == Some([]) && NeverNegative([])
    ensures IsSummary([], Summary(map[], map[], map[], 0, 0, map[]))
  {
    assert PeakedAt([], 0, map[], 0);
  }

  /** Only the event's own category can have gone negative. */
  lemma LiveOfStep(cs: seq<Change>, c: Change, s: Summary)
    requires NeverNegative(cs) && IsSummary(cs + [c], s)
    ensures c.tag in s.live && s.live[c.tag] == Live(cs + [c], c.tag)
    ensures s.live[c.tag] >= 0 <==> NotNegative(cs + [c])
  {
    hide Live, Grows, Total, IsPeakOf, PeakedAt;
    OneMore(cs, c);
    assert cs[..|cs|] == cs;
    assert NotNegative(cs);
  }

  // ----- what the peaks mean

  lemma {:induction false} TotalIsSumOfLive(cs: seq<Change>, m: map<string, int>)
    requires LiveAre(cs, m)
    ensures Sum(m.Keys, m) == Total(cs)
    decreases |cs|
  {
    hide Live, Tags;
    if cs == [] {
      NoTags(cs);
    } else {
      var n := |cs| - 1;
      var init, c := cs[..n], cs[n];
      assert cs == init + [c];
      OneMore(init, c);
      var before := map t | t in Tags(init) :: Live(init, t);
      TotalIsSumOfLive(init, before);
      if c.tag !in before {
        Untouched(init, c.tag);
      }
      SumPick(m.Keys, m, c.tag);
      assert m.Keys - {c.tag} == before.Keys - {c.tag};
      SumSame(m.Keys - {c.tag}, m, before);
      if c.tag in before {
        SumPick(before.Keys, before, c.tag);
      } else {
        assert before.Keys - {c.tag} == before.Keys;
      }
    }
  }

  lemma NoTags(cs: seq<Change>)
    requires cs == []
    ensures Tags(cs) == {}
  {
  }

  /** The categories as they stood at the peak, with zero for those not seen yet. */
  ghost function Shares(s: Summary): (r: map<string, int>) {
    map t | t in s.peak :: Get(s.atPeak, t)
  }

  /**
   * The categories at the peak add up to it, each is at most its own peak, and the peaks add up to
   * the global peak exactly when every category peaked together.
   */
  lemma PeaksBoundTheGlobalPeak(cs: seq<Change>, s: Summary)
    requires IsSummary(cs, s)
    ensures Sum(s.live.Keys, s.live) == s.globalLive
    ensures Sum(s.atPeak.Keys, s.atPeak) == s.globalPeak
    ensures forall t :: t in s.peak ==> Get(s.atPeak, t) <= s.peak[t]
    ensures s.globalPeak <= Sum(s.peak.Keys, s.peak)
    ensures s.globalPeak == Sum(s.peak.Keys, s.peak) <==> forall t :: t in s.peak ==> s.peak[t] == Get(s.atPeak, t)
  {
    hide Live, Total, Grows, Tags;
    TotalIsSumOfLive(cs, s.live);
    var n: nat :| PeakedAt(cs, s.globalPeak, s.atPeak, n);
    TotalIsSumOfLive(cs[..n], s.atPeak);
    TagsGrow(cs, n);
    var shares := Shares(s);
    SharesAddUp(s);
    forall t | t in s.peak
      ensures Get(s.atPeak, t) <= s.peak[t]
    {
      ShareBound(cs, s, t, n);
    }
    SumAtMost(s.peak.Keys, shares, s.peak);
    SumEqualExactly(s.peak.Keys, shares, s.peak);
  }

  lemma TagsGrow(cs: seq<Change>, n: nat)
    requires n <= |cs|
    ensures Tags(cs[..n]) <= Tags(cs)
  {
  }

  lemma ShareBound(cs: seq<Change>, s: Summary, t: string, n: nat)
    requires t in s.peak && IsPeakOf(cs, t, s.peak[t]) && n <= |cs| && LiveAre(cs[..n], s.atPeak)
    ensures Get(s.atPeak, t) <= s.peak[t]
  {
    hide Live, Tags;
    PeakBounds(cs, t, s.peak[t]);
  }

  lemma SharesAddUp(s: Summary)
    requires s.atPeak.Keys <= s.peak.Keys
    ensures Sum(s.peak.Keys, Shares(s)) == Sum(s.atPeak.Keys, s.atPeak)
  {
    var shares, rest := Shares(s), s.peak.Keys - s.atPeak.Keys;
    assert s.peak.Keys == s.atPeak.Keys + rest && s.atPeak.Keys * rest == {};
    SumUnion(s.atPeak.Keys, rest, shares);
    SumSame(s.atPeak.Keys, shares, s.atPeak);
    SumZeroExactly(rest, shares);
  }
}
