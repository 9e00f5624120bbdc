/**
 * The counting oracle for one-hop and two-hop queries (benchmarks/diagnostics/rss_diagnostic.py)
 * against the quadratic one (benchmarks/diagnostics/ingestion_measurements.py). Identifiers are
 * integers: sixteen-byte identifiers compare like the big-endian numbers they spell.
 */
module TwoHop {
  import opened IntegerSets

  datatype Edge = Edge(source: int, target: int)

  // ----- sorted lists

  ghost predicate IsSorted(s: seq<int>) {
    forall i, j :: 0 <= i < j < |s| ==> s[i] <= s[j]
  }

  function Insert(x: int, s: seq<int>): (r: seq<int>) {
    if s == [] || x <= s[0] then [x] + s else [s[0]] + Insert(x, s[1..])
  }

  /** `sorted(s)`. */
  function Sort(s: seq<int>): (r: seq<int>)
    ensures IsSorted(r) && multiset(r) == multiset(s)
  {
    if s == [] then [] else
      InsertKeepsSorted(s[0], Sort(s[1..]));
      assert s == [s[0]] + s[1..];
      Insert(s[0], Sort(s[1..]))
  }

  lemma {:induction false} InsertKeepsSorted(x: int, s: seq<int>)
    requires IsSorted(s)
    ensures IsSorted(Insert(x, s)) && multiset(Insert(x, s)) == multiset{x} + multiset(s)
  {
    if s == [] || x <= s[0] {
      assert Insert(x, s) == [x] + s;
    } else {
      var rest := Insert(x, s[1..]);
      assert s == [s[0]] + s[1..];
      InsertKeepsSorted(x, s[1..]);
      forall i | 0 <= i < |rest|
        ensures s[0] <= rest[i]
      {
        assert rest[i] in multiset(rest);
        assert rest[i] == x || rest[i] in s[1..];
      }
      PrependKeepsSorted(s[0], rest);
      assert Insert(x, s) == [s[0]] + rest;
    }
  }

  lemma PrependKeepsSorted(x: int, s: seq<int>)
    requires IsSorted(s) && forall i :: 0 <= i < |s| ==> x <= s[i]
    ensures IsSorted([x] + s)
  {
  }

  lemma SameLeast(a: seq<int>, b: seq<int>)
    requires IsSorted(a) && IsSorted(b) && multiset(a) == multiset(b) && a != [] && b != []
    ensures a[0] == b[0]
  {
    assert a[0] in multiset(b) && b[0] in multiset(a);
    var i :| 0 <= i < |b| && b[i] == a[0];
    var j :| 0 <= j < |a| && a[j] == b[0];
  }

  lemma WithoutFirst(a: seq<int>)
    requires a != []
    ensures multiset(a[1..]) == multiset(a) - multiset{a[0]}
  {
    assert a == [a[0]] + a[1..];
  }

  /** A sorted list is determined by how often each element occurs. */
  lemma {:induction false} SortedUnique(a: seq<int>, b: seq<int>)
    requires IsSorted(a) && IsSorted(b) && multiset(a) == multiset(b)
    ensures a == b
  {
    if a == [] {
      assert |multiset(b)| == 0;
    } else {
      assert |multiset(a)| == |a| && |multiset(b)| == |b|;
      SameLeast(a, b);
      WithoutFirst(a);
      WithoutFirst(b);
      SortedUnique(a[1..], b[1..]);
      assert a == [a[0]] + a[1..] && b == [b[0]] + b[1..];
    }
  }

  function Take(s: seq<int>, n: nat): (r: seq<int>) {
    if |s| <= n then s else s[..n]
  }

  // ----- the quadratic oracle

  function Targets(edges: seq<Edge>): (r: seq<int>)
    ensures |r| == |edges| && forall i :: 0 <= i < |r| ==> r[i] == edges[i].target
  {
    seq(|edges|, i requires 0 <= i < |edges| => edges[i].target)
  }

  /** Edge `i` followed by the different edge `j`. */
  predicate Follows(edges: seq<Edge>, i: nat, j: nat)
    requires i < |edges| && j < |edges|
  {
    i != j && edges[i].target == edges[j].source
  }

  /** Ends of the two-hop paths that start with edge `i` and go on with one of the first `m` edges. */
  function EndsAfter(edges: seq<Edge>, i: nat, m: nat): (r: seq<int>)
    requires i < |edges| && m <= |edges|
  {
    if m == 0 then [] else
      EndsAfter(edges, i, m - 1) + if Follows(edges, i, m - 1) then [edges[m - 1].target] else []
  }

  /** Ends of the two-hop paths that start with one of the first `n` edges. */
  function Ends(edges: seq<Edge>, n: nat): (r: seq<int>)
    requires n <= |edges|
  {
    if n == 0 then [] else Ends(edges, n - 1) + EndsAfter(edges, n - 1, |edges|)
  }

  const LIMIT: nat := 1000

  function NaiveOneHop(edges: seq<Edge>): (r: seq<int>) {
    Take(Sort(Targets(edges)), LIMIT)
  }

  function NaiveTwoHop(edges: seq<Edge>): (r: seq<int>) {
    Take(Sort(Ends(edges, |edges|)), LIMIT)
  }

  // ----- counting the same paths column by column

  /** One when edge `i` and then edge `j` is a path that ends at `t`. */
  function Hit(edges: seq<Edge>, i: nat, j: nat, t: int): (r: nat)
    requires i < |edges| && j < |edges|
  {
    if Follows(edges, i, j) && edges[j].target == t then 1 else 0
  }

  ghost function RowHits(edges: seq<Edge>, i: nat, m: nat, t: int): (r: nat)
    requires i < |edges| && m <= |edges|
  {
    if m == 0 then 0 else RowHits(edges, i, m - 1, t) + Hit(edges, i, m - 1, t)
  }

  ghost function HitsByRow(edges: seq<Edge>, n: nat, m: nat, t: int): (r: nat)
    requires n <= |edges| && m <= |edges|
  {
    if n == 0 then 0 else HitsByRow(edges, n - 1, m, t) + RowHits(edges, n - 1, m, t)
  }

  ghost function ColumnHits(edges: seq<Edge>, n: nat, j: nat, t: int): (r: nat)
    requires n <= |edges| && j < |edges|
  {
    if n == 0 then 0 else ColumnHits(edges, n - 1, j, t) + Hit(edges, n - 1, j, t)
  }

  ghost function HitsByColumn(edges: seq<Edge>, n: nat, m: nat, t: int): (r: nat)
    requires n <= |edges| && m <= |edges|
  {
    if m == 0 then 0 else HitsByColumn(edges, n, m - 1, t) + ColumnHits(edges, n, m - 1, t)
  }

  lemma {:induction false} AddRow(edges: seq<Edge>, n: nat, m: nat, t: int)
    requires n < |edges| && m <= |edges|
    ensures HitsByColumn(edges, n + 1, m, t) == HitsByColumn(edges, n, m, t) + RowHits(edges, n, m, t)
  {
    if m > 0 {
      AddRow(edges, n, m - 1, t);
    }
  }

  lemma {:induction false} NoRows(edges: seq<Edge>, m: nat, t: int)
    requires m <= |edges|
    ensures HitsByColumn(edges, 0, m, t) == 0
  {
    if m > 0 {
      NoRows(edges, m - 1, t);
    }
  }

  /** Summing over first edges or over second edges counts the same pairs. */
  lemma {:induction false} RowsAreColumns(edges: seq<Edge>, n: nat, m: nat, t: int)
    requires n <= |edges| && m <= |edges|
    ensures HitsByRow(edges, n, m, t) == HitsByColumn(edges, n, m, t)
  {
    if n == 0 {
      NoRows(edges, m, t);
    } else {
      RowsAreColumns(edges, n - 1, m, t);
      AddRow(edges, n - 1, m, t);
    }
  }

  lemma {:induction false} RowListed(edges: seq<Edge>, i: nat, m: nat, t: int)
    requires i < |edges| && m <= |edges|
    ensures multiset(EndsAfter(edges, i, m))[t] == RowHits(edges, i, m, t)
  {
    if m > 0 {
      RowListed(edges, i, m - 1, t);
    }
  }

  lemma {:induction false} RowsListed(edges: seq<Edge>, n: nat, t: int)
    requires n <= |edges|
    ensures multiset(Ends(edges, n))[t] == HitsByRow(edges, n, |edges|, t)
  {
    hide EndsAfter, RowHits;
    if n > 0 {
      RowsListed(edges, n - 1, t);
      RowListed(edges, n - 1, |edges|, t);
      var before, row := Ends(edges, n - 1), EndsAfter(edges, n - 1, |edges|);
      assert multiset(before + row) == multiset(before) + multiset(row);
    }
  }

  /** How many of the first `n` edges end at `s`. */
  ghost function Incoming(edges: seq<Edge>, n: nat, s: int): (r: nat)
    requires n <= |edges|
  {
    if n == 0 then 0 else Incoming(edges, n - 1, s) + if edges[n - 1].target == s then 1 else 0
  }

  /** A column counts the edges into its source, without the edge itself when that is a loop. */
  lemma {:induction false} ColumnCount(edges: seq<Edge>, n: nat, j: nat, t: int)
    requires n <= |edges| && j < |edges|
    ensures edges[j].target != t ==> ColumnHits(edges, n, j, t) == 0
    ensures edges[j].target == t ==>
              ColumnHits(edges, n, j, t)
              == Incoming(edges, n, edges[j].source) - if j < n && edges[j].source == edges[j].target then 1 else 0
  {
    if n > 0 {
      ColumnCount(edges, n - 1, j, t);
    }
  }

  // ----- the counting oracle

  type Counter = map<int, int>

  function Count(counts: Counter, key: int): (r: int) {
    if key in counts then counts[key] else 0
  }

  function Flat(batches: seq<seq<Edge>>): (r: seq<Edge>) {
    if batches == [] then [] else batches[0] + Flat(batches[1..])
  }

  lemma {:induction false} FlatAt(batches: seq<seq<Edge>>, b: nat, r: nat)
    requires b < |batches| && r < |batches[b]|
    ensures |Flat(batches[..b])| + r < |Flat(batches)|
    ensures Flat(batches)[|Flat(batches[..b])| + r] == batches[b][r]
  {
    if b > 0 {
      assert batches[..b][1..] == batches[1..][..b - 1];
      FlatAt(batches[1..], b - 1, r);
    }
  }

  lemma {:induction false} FlatNext(batches: seq<seq<Edge>>, b: nat)
    requires b < |batches|
    ensures |Flat(batches[..b + 1])| == |Flat(batches[..b])| + |batches[b]|
  {
    if b > 0 {
      assert batches[..b][1..] == batches[1..][..b - 1];
      assert batches[..b + 1][1..] == batches[1..][..b];
      FlatNext(batches[1..], b - 1);
    } else {
      assert batches[..1][1..] == [];
    }
  }

  /** First pass: how many edges end at each vertex. */
  method CountIncoming(batches: seq<seq<Edge>>) returns (incoming: Counter)
    ensures var edges := Flat(batches); forall k :: Count(incoming, k) == Incoming(edges, |edges|, k)
    ensures forall k :: k in incoming ==> incoming[k] >= 0
  {
    ghost var edges := Flat(batches);
    incoming := map[];
    ghost var n := 0;
    for b := 0 to |batches|
      invariant n == |Flat(batches[..b])| <= |edges|
      invariant forall k :: Count(incoming, k) == Incoming(edges, n, k)
      invariant forall k :: k in incoming ==> incoming[k] >= 0
    {
      for r := 0 to |batches[b]|
        invariant n == |Flat(batches[..b])| + r <= |edges|
        invariant forall k :: Count(incoming, k) == Incoming(edges, n, k)
        invariant forall k :: k in incoming ==> incoming[k] >= 0
      {
        FlatAt(batches, b, r);
        var target := batches[b][r].target;
        incoming := incoming[target := Count(incoming, target) + 1];
        n := n + 1;
      }
      FlatNext(batches, b);
    }
    assert batches[..|batches|] == batches;
  }

  /** Second pass: how many two-hop paths end at each vertex. */
  method CountPaths(batches: seq<seq<Edge>>, incoming: Counter) returns (paths: Counter)
    requires var edges := Flat(batches); forall k :: Count(incoming, k) == Incoming(edges, |edges|, k)
    ensures var edges := Flat(batches); forall t :: Count(paths, t) == HitsByColumn(edges, |edges|, |edges|, t)
  {
    ghost var edges := Flat(batches);
    paths := map[];
    ghost var n := 0;
    for b := 0 to |batches|
      invariant n == |Flat(batches[..b])| <= |edges|
      invariant forall t :: Count(paths, t) == HitsByColumn(edges, |edges|, n, t)
    {
      for r := 0 to |batches[b]|
        invariant n == |Flat(batches[..b])| + r <= |edges|
        invariant forall t :: Count(paths, t) == HitsByColumn(edges, |edges|, n, t)
      {
        FlatAt(batches, b, r);
        var source, target := batches[b][r].source, batches[b][r].target;
        var more := Count(incoming, source) - if source == target then 1 else 0;
        forall t
          ensures ColumnHits(edges, |edges|, n, t) == if t == target then more else 0
        {
          ColumnCount(edges, |edges|, n, t);
        }
        paths := paths[target := Count(paths, target) + more];
        n := n + 1;
      }
      FlatNext(batches, b);
    }
    assert batches[..|batches|] == batches;
  }

  // ----- listing the counts

  function Repeat(x: int, n: int): (r: seq<int>)
    ensures |r| == if n < 0 then 0 else n
    ensures forall i :: 0 <= i < |r| ==> r[i] == x
  {
    seq(if n < 0 then 0 else n, _ => x)
  }

  /** Every key as often as it was counted. */
  ghost function Expand(keys: seq<int>, counts: Counter): (r: seq<int>) {
    if keys == [] then [] else Expand(keys[..|keys| - 1], counts) + Repeat(keys[|keys| - 1], Count(counts, keys[|keys| - 1]))
  }

  /** The loop that lists at most `LIMIT` values and stops as soon as it has them. */
  method FirstValues(counts: Counter) returns (values: seq<int>)
    ensures values == Take(Expand(Ascending(counts.Keys), counts), LIMIT)
  {
    hide Ascending;
    var keys := Ascending(counts.Keys);
    values := [];
    assert Expand(keys[..0], counts) == [];
    for i := 0 to |keys|
      invariant values == Take(Expand(keys[..i], counts), LIMIT) && |values| < LIMIT
    {
      var count := Count(counts, keys[i]);
      var room := LIMIT - |values|;
      ExpandNext(keys, i, counts);
      TakeStep(Expand(keys[..i], counts), keys[i], count);
      values := values + Repeat(keys[i], if count < room then count else room);
      if |values| == LIMIT {
        ExpandGrows(keys, i + 1, counts);
        TakePrefix(Expand(keys[..i + 1], counts), Expand(keys, counts));
        return;
      }
    }
    assert keys[..|keys|] == keys;
    assert values == Take(Expand(keys, counts), LIMIT);
  }

  lemma ExpandNext(keys: seq<int>, i: nat, counts: Counter)
    requires i < |keys|
    ensures Expand(keys[..i + 1], counts) == Expand(keys[..i], counts) + Repeat(keys[i], Count(counts, keys[i]))
  {
    assert keys[..i + 1][..i] == keys[..i];
  }

  lemma TakeStep(before: seq<int>, key: int, count: int)
    requires |before| < LIMIT
    ensures var room := LIMIT - |before|;
            Take(before + Repeat(key, count), LIMIT) == before + Repeat(key, if count < room then count else room)
  {
  }

  lemma TakePrefix(a: seq<int>, b: seq<int>)
    requires a <= b && |Take(a, LIMIT)| == LIMIT
    ensures Take(b, LIMIT) == Take(a, LIMIT)
  {
    assert a == b[..|a|];
  }

  lemma {:induction false} ExpandGrows(keys: seq<int>, i: nat, counts: Counter)
    requires i <= |keys|
    ensures Expand(keys[..i], counts) <= Expand(keys, counts)
    decreases |keys|
  {
    if i == |keys| {
      assert keys[..i] == keys;
    } else {
      var rest := keys[..|keys| - 1];
      assert rest[..i] == keys[..i];
      ExpandGrows(rest, i, counts);
    }
  }

  lemma {:induction false} ExpandCounts(keys: seq<int>, counts: Counter, k: int)
    requires forall i, j :: 0 <= i < j < |keys| ==> keys[i] < keys[j]
    requires forall i :: 0 <= i < |keys| ==> Count(counts, keys[i]) >= 0
    ensures multiset(Expand(keys, counts))[k] == if k in keys then Count(counts, k) else 0
  {
    if keys != [] {
      var rest, last := keys[..|keys| - 1], keys[|keys| - 1];
      ExpandCounts(rest, counts, k);
      RepeatCounts(last, Count(counts, last), k);
      assert keys == rest + [last];
      var before, more := Expand(rest, counts), Repeat(last, Count(counts, last));
      assert multiset(before + more) == multiset(before) + multiset(more);
    }
  }

  lemma {:induction false} RepeatCounts(x: int, n: nat, k: int)
    ensures multiset(Repeat(x, n))[k] == if k == x then n else 0
  {
    if n > 0 {
      RepeatCounts(x, n - 1, k);
      assert Repeat(x, n) == Repeat(x, n - 1) + [x];
    }
  }

  lemma AppendKeepsSorted(before: seq<int>, more: seq<int>, x: int)
    requires IsSorted(before) && forall i :: 0 <= i < |before| ==> before[i] <= x
    requires forall i :: 0 <= i < |more| ==> more[i] == x
    ensures IsSorted(before + more)
  {
  }

  lemma {:induction false} ExpandSorted(keys: seq<int>, counts: Counter)
    requires forall i, j :: 0 <= i < j < |keys| ==> keys[i] < keys[j]
    ensures IsSorted(Expand(keys, counts))
    ensures forall x :: x in Expand(keys, counts) ==> x in keys
  {
    if keys != [] {
      var rest, last := keys[..|keys| - 1], keys[|keys| - 1];
      ExpandSorted(rest, counts);
      var before, more := Expand(rest, counts), Repeat(last, Count(counts, last));
      forall i | 0 <= i < |before|
        ensures before[i] <= last
      {
        assert before[i] in before;
        assert before[i] in rest;
      }
      AppendKeepsSorted(before, more, last);
    }
  }

  lemma CountedIsSorted(counts: Counter, values: seq<int>)
    requires forall k :: Count(counts, k) == multiset(values)[k]
    ensures Expand(Ascending(counts.Keys), counts) == Sort(values)
  {
    var keys := Ascending(counts.Keys);
    var listed := Expand(keys, counts);
    ExpandSorted(keys, counts);
    forall k
      ensures multiset(listed)[k] == multiset(values)[k]
    {
      ExpandCounts(keys, counts, k);
    }
    assert multiset(listed) == multiset(values);
    SortedUnique(listed, Sort(values));
  }

  lemma {:induction false} TargetsCounted(edges: seq<Edge>, n: nat, k: int)
    requires n <= |edges|
    ensures multiset(Targets(edges)[..n])[k] == Incoming(edges, n, k)
  {
    if n > 0 {
      TargetsCounted(edges, n - 1, k);
      assert Targets(edges)[..n] == Targets(edges)[..n - 1] + [edges[n - 1].target];
    }
  }

  /** The counting oracle returns what the quadratic one does, however the edges are batched. */
  method InputOracle(batches: seq<seq<Edge>>) returns (oneHop: seq<int>, twoHop: seq<int>)
    ensures oneHop == NaiveOneHop(Flat(batches)) == Take(Sort(Targets(Flat(batches))), 1000)
    ensures twoHop == NaiveTwoHop(Flat(batches)) == Take(Sort(Ends(Flat(batches), |Flat(batches)|)), 1000)
  {
    ghost var edges := Flat(batches);
    var incoming := CountIncoming(batches);
    var paths := CountPaths(batches, incoming);
    oneHop := FirstValues(incoming);
    forall k
      ensures Count(incoming, k) == multiset(Targets(edges))[k]
    {
      TargetsCounted(edges, |edges|, k);
      assert Targets(edges)[..|edges|] == Targets(edges);
    }
    CountedIsSorted(incoming, Targets(edges));
    twoHop := FirstValues(paths);
    forall t
      ensures Count(paths, t) == multiset(Ends(edges, |edges|))[t]
    {
      RowsListed(edges, |edges|, t);
      RowsAreColumns(edges, |edges|, |edges|, t);
    }
    CountedIsSorted(paths, Ends(edges, |edges|));
  }
}
