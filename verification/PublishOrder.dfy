/**
 * The layered topological sort that fixes the crates.io publish order
 * (scripts/ci/crate-publish-plan.py).
 */
module PublishOrder {
  import opened Results
  import opened Orders

  type Graph = map<string, set<string>>

  /** Crates that are published through language registries instead. */
  const EXCLUDED: set<string> := {"graphforge-bindings-py", "graphforge-bindings-node", "graphforge-protocol-wasm"}

  /** The candidates and, for each, the candidates it depends on. */
  function Candidates(crates: Graph): (g: Graph)
    ensures g.Keys == crates.Keys - EXCLUDED
    ensures forall n :: n in g ==> g[n] == crates[n] * g.Keys
  {
    map n | n in crates && n !in EXCLUDED :: set d | d in crates[n] && d in crates && d !in EXCLUDED
  }

  /** Everything is a candidate but the three crates that other registries carry. */
  lemma CandidatesExactly(crates: Graph, n: string)
    ensures n in Candidates(crates) <==>
            n in crates && n != "graphforge-bindings-py" && n != "graphforge-bindings-node" && n != "graphforge-protocol-wasm"
  {
  }

  /** The second filtering pass over the dependency sets. */
  function Refilter(g: Graph): (r: Graph) {
    map n | n in g :: set d | d in g[n] && d in g
  }

  /** ... which finds nothing left to drop. */
  lemma RefilterIsRedundant(crates: Graph)
    ensures Refilter(Candidates(crates)) == Candidates(crates)
  {
    var g := Candidates(crates);
    forall n | n in g
      ensures Refilter(g)[n] == g[n]
    {
      assert g[n] == set d | d in g[n] && d in g;
    }
  }

  // ----- what an order has to be

  /** A path that follows dependencies. */
  ghost predicate IsPath(g: Graph, p: seq<string>) {
    forall i :: 0 <= i < |p| - 1 ==> p[i] in g && p[i + 1] in g[p[i]]
  }

  ghost predicate IsCycle(g: Graph, p: seq<string>) {
    |p| >= 2 && p[0] == p[|p| - 1] && IsPath(g, p)
  }

  ghost predicate HasCycle(g: Graph) {
    exists p :: IsCycle(g, p)
  }

  /** A crate on a level above the lowest has a dependency on the level just below. */
  ghost predicate Supported(g: Graph, rank: map<string, nat>, n: string, level: nat)
    requires n in g
  {
    level > 0 ==> exists d :: d in g[n] && d in rank && rank[d] == level - 1
  }

  /** `rank` is the length of the longest dependency chain below each crate. */
  ghost predicate IsRank(g: Graph, rank: map<string, nat>) {
    && rank.Keys == g.Keys
    && (forall n, d :: n in g && d in g[n] ==> d in rank && rank[d] < rank[n])
    && (forall n {:trigger Supported(g, rank, n, rank[n])} :: n in g ==> Supported(g, rank, n, rank[n]))
  }

  /** Earlier in a lower layer, or alphabetically earlier in the same one. */
  ghost predicate Before(rank: map<string, nat>, a: string, b: string)
    requires a in rank && b in rank
  {
    rank[a] < rank[b] || (rank[a] == rank[b] && Less(a, b))
  }

  ghost predicate OrderedBy(rank: map<string, nat>, order: seq<string>) {
    && Elements(order) == rank.Keys
    && (forall i, j :: 0 <= i < j < |order| ==> order[i] in rank && order[j] in rank && Before(rank, order[i], order[j]))
  }

  /** The order that publication must follow. */
  ghost predicate IsPublishOrder(g: Graph, order: seq<string>) {
    exists rank :: IsRank(g, rank) && OrderedBy(rank, order)
  }

  ghost predicate Waits(g: Graph, names: set<string>, n: string) {
    n in g && exists d :: d in g[n] && d in names
  }

  /** Every listed crate waits for a listed crate. */
  ghost predicate IsStuck(g: Graph, names: set<string>) {
    names != {} && forall n {:trigger Waits(g, names, n)} :: n in names ==> Waits(g, names, n)
  }

  // ----- the sort

  /** State of the sort after `layer` rounds. */
  ghost predicate Progress(g: Graph, remaining: Graph, rank: map<string, nat>, order: seq<string>, layer: nat) {
    && rank.Keys + remaining.Keys == g.Keys && rank.Keys !! remaining.Keys
    && OrderedBy(rank, order)
    && (forall n :: n in remaining ==> remaining[n] == g[n] - rank.Keys)
    && (forall n :: n in rank ==> rank[n] < layer)
    && (forall n, d :: n in rank && d in g[n] ==> d in rank && rank[d] < rank[n])
    && (forall n {:trigger Supported(g, rank, n, rank[n])} :: n in rank ==> Supported(g, rank, n, rank[n]))
    && (forall n {:trigger Supported(g, rank, n, layer)} :: n in remaining && remaining[n] == {} ==> Supported(g, rank, n, layer))
  }

  /** Crates with no dependency left to wait for. */
  function Ready(remaining: Graph): (r: set<string>) {
    set n | n in remaining && remaining[n] == {}
  }

  lemma StuckRemains(g: Graph, remaining: Graph, rank: map<string, nat>, order: seq<string>, layer: nat)
    requires Progress(g, remaining, rank, order, layer) && remaining != map[]
    requires Ready(remaining) == {}
    requires forall n :: n in g ==> g[n] <= g.Keys
    ensures IsStuck(g, remaining.Keys)
  {
    hide OrderedBy, Supported;
    assert remaining.Keys != {};
    forall n | n in remaining
      ensures Waits(g, remaining.Keys, n)
    {
      assert n !in Ready(remaining);
      var d :| d in remaining[n];
      assert d in g[n] && d in remaining;
    }
  }

  /** No member of a stuck set ever gets a rank. */
  lemma StuckNeverRanked(g: Graph, remaining: Graph, rank: map<string, nat>, order: seq<string>, layer: nat, names: set<string>)
    requires Progress(g, remaining, rank, order, layer) && IsStuck(g, names)
    ensures names <= remaining.Keys
  {
    hide OrderedBy, Supported;
    forall n | n in names
      ensures n in remaining
    {
      assert Waits(g, names, n);
      if n in rank {
        RankedIsFree(g, rank, names, n);
      }
    }
  }

  lemma {:induction false} RankedIsFree(g: Graph, rank: map<string, nat>, names: set<string>, n: string)
    requires rank.Keys <= g.Keys && n in rank
    requires forall m, d :: m in rank && d in g[m] ==> d in rank && rank[d] < rank[m]
    requires forall m :: m in names ==> Waits(g, names, m)
    ensures n !in names
    decreases rank[n]
  {
    forall d | d in g[n]
      ensures d !in names
    {
      RankedIsFree(g, rank, names, d);
    }
    assert !Waits(g, names, n);
  }

  /** The crates that are ready form the next layer. */
  ghost predicate IsLayer(remaining: Graph, ready: seq<string>) {
    StrictlySorted(ready) && forall n :: n in ready <==> n in Ready(remaining)
  }

  lemma LayerKeepsOrder(rank: map<string, nat>, order: seq<string>, layer: nat, ready: seq<string>, rank': map<string, nat>)
    requires OrderedBy(rank, order) && StrictlySorted(ready)
    requires forall n :: n in rank ==> rank[n] < layer
    requires forall n :: n in ready ==> n !in rank
    requires rank'.Keys == rank.Keys + Elements(ready)
    requires forall n :: n in rank' ==> rank'[n] == if n in rank then rank[n] else layer
    ensures OrderedBy(rank', order + ready)
  {
    var all := order + ready;
    assert Elements(all) == Elements(order) + Elements(ready);
    forall i, j | 0 <= i < j < |all|
      ensures all[i] in rank' && all[j] in rank' && Before(rank', all[i], all[j])
    {
      assert all[i] in Elements(all) && all[j] in Elements(all);
      if i < |order| {
        assert all[i] in Elements(order);
        if j < |order| {
          assert all[j] in Elements(order);
        } else {
          assert all[j] == ready[j - |order|];
        }
      } else {
        assert all[i] == ready[i - |order|] && all[j] == ready[j - |order|];
      }
    }
  }

  /** One round: the ready crates leave `remaining` and get the rank of this layer. */
  ghost predicate IsStep(remaining: Graph, rank: map<string, nat>, layer: nat, ready: seq<string>,
                         remaining': Graph, rank': map<string, nat>) {
    && IsLayer(remaining, ready)
    && remaining'.Keys == remaining.Keys - Elements(ready)
    && (forall n :: n in remaining' ==> remaining'[n] == remaining[n] - Elements(ready))
    && rank'.Keys == rank.Keys + Elements(ready)
    && (forall n :: n in rank' ==> rank'[n] == if n in rank then rank[n] else layer)
  }

  lemma StepRanksFall(g: Graph, remaining: Graph, rank: map<string, nat>, order: seq<string>, layer: nat,
                      ready: seq<string>, remaining': Graph, rank': map<string, nat>)
    requires Progress(g, remaining, rank, order, layer) && IsStep(remaining, rank, layer, ready, remaining', rank')
    ensures forall n, d :: n in rank' && d in g[n] ==> d in rank' && rank'[d] < rank'[n]
  {
    hide OrderedBy, StrictlySorted, Supported;
    forall n, d | n in rank' && d in g[n]
      ensures d in rank' && rank'[d] < rank'[n]
    {
      if n !in rank {
        assert n in ready;
        assert d !in remaining[n];
      }
    }
  }

  lemma StepIsSupported(g: Graph, remaining: Graph, rank: map<string, nat>, order: seq<string>, layer: nat,
                        ready: seq<string>, remaining': Graph, rank': map<string, nat>)
    requires Progress(g, remaining, rank, order, layer) && IsStep(remaining, rank, layer, ready, remaining', rank')
    ensures forall n :: n in rank' ==> Supported(g, rank', n, rank'[n])
    ensures forall n :: n in remaining' && remaining'[n] == {} ==> Supported(g, rank', n, layer + 1)
  {
    hide OrderedBy, StrictlySorted;
    forall n | n in rank'
      ensures Supported(g, rank', n, rank'[n])
    {
      if n in rank {
        assert Supported(g, rank, n, rank[n]);
      } else {
        assert n in ready;
        assert Supported(g, rank, n, layer);
      }
      StaysSupported(g, rank, rank', n, rank'[n]);
    }
    forall n | n in remaining' && remaining'[n] == {}
      ensures Supported(g, rank', n, layer + 1)
    {
      assert n !in ready;
      var d :| d in remaining[n];
      assert d !in remaining'[n];
      assert rank'[d] == layer;
    }
  }

  lemma StepDivides(g: Graph, remaining: Graph, rank: map<string, nat>, order: seq<string>, layer: nat,
                    ready: seq<string>, remaining': Graph, rank': map<string, nat>)
    requires Progress(g, remaining, rank, order, layer) && IsStep(remaining, rank, layer, ready, remaining', rank')
    ensures rank'.Keys + remaining'.Keys == g.Keys && rank'.Keys !! remaining'.Keys
    ensures forall n :: n in remaining' ==> remaining'[n] == g[n] - rank'.Keys
    ensures forall n :: n in rank' ==> rank'[n] < layer + 1
    ensures forall n :: n in ready ==> n !in rank
  {
    hide OrderedBy, Supported, StrictlySorted;
    assert forall n :: n in ready ==> n in Elements(ready);
  }

  lemma LayerStep(g: Graph, remaining: Graph, rank: map<string, nat>, order: seq<string>, layer: nat,
                  ready: seq<string>, remaining': Graph, rank': map<string, nat>)
    requires Progress(g, remaining, rank, order, layer) && IsStep(remaining, rank, layer, ready, remaining', rank')
    ensures Progress(g, remaining', rank', order + ready, layer + 1)
  {
    hide OrderedBy, Supported, StrictlySorted, Elements;
    StepDivides(g, remaining, rank, order, layer, ready, remaining', rank');
    LayerKeepsOrder(rank, order, layer, ready, rank');
    StepRanksFall(g, remaining, rank, order, layer, ready, remaining', rank');
    StepIsSupported(g, remaining, rank, order, layer, ready, remaining', rank');
  }

  lemma StaysSupported(g: Graph, rank: map<string, nat>, rank': map<string, nat>, n: string, level: nat)
    requires n in g && Supported(g, rank, n, level)
    requires forall m :: m in rank ==> m in rank' && rank'[m] == rank[m]
    ensures Supported(g, rank', n, level)
  {
    if level > 0 {
      var d :| d in g[n] && d in rank && rank[d] == level - 1;
      assert rank'[d] == level - 1;
    }
  }

  lemma RoundIsStep(g: Graph, remaining: Graph, rank: map<string, nat>, order: seq<string>, layer: nat,
                    ready: seq<string>, remaining': Graph, rank': map<string, nat>)
    requires Progress(g, remaining, rank, order, layer)
    requires StrictlySorted(ready) && Elements(ready) == Ready(remaining)
    requires remaining'.Keys == remaining.Keys - Elements(ready)
    requires forall n :: n in remaining' ==> remaining'[n] == remaining[n] - Elements(ready)
    requires rank' == rank + map n | n in Ready(remaining) :: layer
    ensures IsStep(remaining, rank, layer, ready, remaining', rank')
  {
    hide OrderedBy, Supported, StrictlySorted;
    assert forall n :: n in ready <==> n in Elements(ready);
    assert IsLayer(remaining, ready);
    hide IsLayer;
    assert rank'.Keys == rank.Keys + Elements(ready);
  }

  lemma Finished(g: Graph, rank: map<string, nat>, order: seq<string>, layer: nat)
    requires Progress(g, map[], rank, order, layer)
    ensures IsPublishOrder(g, order)
  {
    hide OrderedBy, Supported;
    assert IsRank(g, rank) && OrderedBy(rank, order);
  }

  lemma Started(g: Graph)
    ensures Progress(g, g, map[], [], 0)
  {
  }

  /** Appends the ready crates and forgets them, as crates and as dependencies. */
  method TakeLayer(order: seq<string>, remaining: Graph, ready: seq<string>)
    returns (order': seq<string>, remaining': Graph)
    ensures order' == order + ready
    ensures remaining'.Keys == remaining.Keys - Elements(ready)
    ensures forall n :: n in remaining' ==> remaining'[n] == remaining[n] - Elements(ready)
  {
    order', remaining' := order, remaining;
    for k := 0 to |ready|
      invariant order' == order + ready[..k]
      invariant remaining' == remaining - Elements(ready[..k])
    {
      order' := order' + [ready[k]];
      remaining' := remaining' - {ready[k]};
      assert Elements(ready[..k + 1]) == Elements(ready[..k]) + {ready[k]};
    }
    assert ready[..|ready|] == ready;
    remaining' := map n | n in remaining' :: set d | d in remaining'[n] && d !in ready;
  }

  method TopologicalPublishOrder(crates: Graph) returns (r: Result<seq<string>, seq<string>>)
    ensures r.Ok? ==> IsPublishOrder(Candidates(crates), r.value)
    ensures r.Err? ==> StrictlySorted(r.error) && IsStuck(Candidates(crates), Elements(r.error))
    ensures r.Err? ==> forall names :: IsStuck(Candidates(crates), names) ==> names <= Elements(r.error)
    ensures r.Err? <==> HasCycle(Candidates(crates))
  {
    hide Progress, IsStep, IsStuck, IsPublishOrder, HasCycle, StrictlySorted, Sorted, Elements, Ready;
    var remaining := Candidates(crates);
    ghost var g := remaining;
    remaining := Refilter(remaining);
    RefilterIsRedundant(crates);
    var order := [];
    ghost var rank, layer := map[], 0;
    Started(g);
    while remaining != map[]
      invariant Progress(g, remaining, rank, order, layer)
      decreases |remaining|
    {
      var ready := Sorted(Ready(remaining));
      ReadyListed(remaining);
      if ready == [] {
        StuckRemains(g, remaining, rank, order, layer);
        r := Err(Sorted(remaining.Keys));
        SortedElements(remaining.Keys);
        StuckMeansCycle(g, remaining.Keys);
        forall names | IsStuck(g, names)
          ensures names <= remaining.Keys
        {
          StuckNeverRanked(g, remaining, rank, order, layer, names);
        }
        return;
      }
      var order', remaining' := TakeLayer(order, remaining, ready);
      ghost var rank' := rank + map n | n in Ready(remaining) :: layer;
      RoundIsStep(g, remaining, rank, order, layer, ready, remaining', rank');
      LayerStep(g, remaining, rank, order, layer, ready, remaining', rank');
      SmallerSet(remaining'.Keys, remaining.Keys);
      order, remaining, rank, layer := order', remaining', rank', layer + 1;
    }
    Finished(g, rank, order, layer);
    OrderMeansAcyclic(g, order);
    return Ok(order);
  }

  lemma SortedElements(s: set<string>)
    ensures StrictlySorted(Sorted(s)) && Elements(Sorted(s)) == s
  {
    hide Sorted, StrictlySorted;
  }

  lemma ReadyListed(remaining: Graph)
    ensures var ready := Sorted(Ready(remaining));
            && StrictlySorted(ready) && Elements(ready) == Ready(remaining) && Ready(remaining) <= remaining.Keys
            && (ready == [] <==> Ready(remaining) == {})
  {
    hide Sorted, StrictlySorted;
    SortedElements(Ready(remaining));
    FirstIsIn(Sorted(Ready(remaining)));
  }

  lemma SmallerSet(a: set<string>, b: set<string>)
    requires a < b
    ensures |a| < |b|
  {
    assert |b| == |a| + |b - a| by { assert b == a + (b - a); }
    assert b - a != {};
  }

  // ----- cycles

  /** A sequence longer than the set it draws from repeats an element. */
  lemma {:induction false} Pigeonhole(p: seq<string>, s: set<string>)
    requires |p| > |s| && forall x :: x in p ==> x in s
    ensures exists i, j :: 0 <= i < j < |p| && p[i] == p[j]
  {
    var last := p[|p| - 1];
    var rest := p[..|p| - 1];
    if last in rest {
      var i :| 0 <= i < |rest| && rest[i] == last;
      assert p[i] == p[|p| - 1];
    } else {
      assert |s - {last}| == |s| - 1;
      assert forall x :: x in rest ==> x in s - {last};
      Pigeonhole(rest, s - {last});
      var i, j :| 0 <= i < j < |rest| && rest[i] == rest[j];
      assert p[i] == p[j];
    }
  }

  /** From a stuck set one can follow dependencies for any number of steps. */
  lemma {:induction false} Walk(g: Graph, names: set<string>, length: nat) returns (p: seq<string>)
    requires IsStuck(g, names) && length >= 1
    ensures |p| == length && IsPath(g, p) && forall x :: x in p ==> x in names
    decreases length
  {
    if length == 1 {
      var n :| n in names;
      p := [n];
    } else {
      var q := Walk(g, names, length - 1);
      var n := q[|q| - 1];
      assert n in names;
      assert Waits(g, names, n);
      var d :| d in g[n] && d in names;
      p := q + [d];
    }
  }

  lemma StuckMeansCycle(g: Graph, names: set<string>)
    requires IsStuck(g, names)
    ensures HasCycle(g)
  {
    var p := Walk(g, names, |names| + 1);
    Pigeonhole(p, names);
    var i, j :| 0 <= i < j < |p| && p[i] == p[j];
    var c := p[i..j + 1];
    forall k | 0 <= k < |c| - 1
      ensures c[k] in g && c[k + 1] in g[c[k]]
    {
      assert c[k] == p[i + k] && c[k + 1] == p[i + k + 1];
    }
    assert IsCycle(g, c);
  }

  lemma {:induction false} RankFallsAlongPath(g: Graph, rank: map<string, nat>, p: seq<string>)
    requires IsRank(g, rank) && |p| >= 2 && IsPath(g, p)
    ensures p[0] in rank && p[|p| - 1] in rank && rank[p[|p| - 1]] < rank[p[0]]
  {
    assert p[0 + 1] in g[p[0]];
    if |p| > 2 {
      var q := p[1..];
      forall i | 0 <= i < |q| - 1
        ensures q[i] in g && q[i + 1] in g[q[i]]
      {
        assert q[i] == p[i + 1] && q[i + 1] == p[i + 1 + 1];
      }
      RankFallsAlongPath(g, rank, q);
    }
  }

  /** A publishable graph has no dependency cycle. */
  lemma OrderMeansAcyclic(g: Graph, order: seq<string>)
    requires IsPublishOrder(g, order)
    ensures !HasCycle(g)
  {
    var rank :| IsRank(g, rank) && OrderedBy(rank, order);
    forall p
      ensures !IsCycle(g, p)
    {
      if |p| >= 2 && IsPath(g, p) {
        RankFallsAlongPath(g, rank, p);
      }
    }
  }

  // ----- what the order guarantees

  /** Every dependency comes strictly before its dependent, and every crate comes once. */
  ghost predicate DependenciesFirst(g: Graph, order: seq<string>) {
    && Elements(order) == g.Keys
    && (forall i, j :: 0 <= i < j < |order| ==> order[i] != order[j])
    && (forall i :: 0 <= i < |order| ==> order[i] in g && g[order[i]] <= Elements(order[..i]))
  }

  lemma NotBefore(rank: map<string, nat>, order: seq<string>, i: nat, j: nat)
    requires OrderedBy(rank, order) && i < |order| && j < |order|
    requires order[i] in rank && order[j] in rank && rank[order[j]] < rank[order[i]]
    ensures j < i
  {
    assert i != j;
    assert !Before(rank, order[i], order[j]);
  }

  lemma OrderPutsDependenciesFirst(g: Graph, order: seq<string>)
    requires IsPublishOrder(g, order)
    ensures DependenciesFirst(g, order)
  {
    var rank :| IsRank(g, rank) && OrderedBy(rank, order);
    hide Leq, Supported;
    forall i, d | 0 <= i < |order| && order[i] in g && d in g[order[i]]
      ensures d in order[..i]
    {
      assert d in Elements(order);
      var j :| 0 <= j < |order| && order[j] == d;
      assert rank[d] < rank[order[i]];
      NotBefore(rank, order, i, j);
    }
    assert forall i :: 0 <= i < |order| ==> order[i] in Elements(order);
  }

  lemma {:induction false} RankUnique(g: Graph, a: map<string, nat>, b: map<string, nat>, n: string)
    requires IsRank(g, a) && IsRank(g, b) && n in g
    ensures a[n] <= b[n]
    decreases a[n]
  {
    if a[n] > 0 {
      assert Supported(g, a, n, a[n]);
      var d :| d in g[n] && d in a && a[d] == a[n] - 1;
      RankUnique(g, a, b, d);
    }
  }

  lemma {:induction false} SameOrder(rank: map<string, nat>, a: seq<string>, b: seq<string>)
    requires OrderedBy(rank, a) && OrderedBy(rank, b)
    ensures a == b
    decreases |a|
  {
    NoElements(a);
    NoElements(b);
    if a == [] {
    } else {
      assert a[0] in Elements(a) && b != [];
      assert b[0] in Elements(b);
      Total(a[0], b[0]);
      FirstIsLeast(rank, a, b[0]);
      FirstIsLeast(rank, b, a[0]);
      var rest := map n | n in rank && n != a[0] :: rank[n];
      DropFirst(rank, rest, a);
      DropFirst(rank, rest, b);
      SameOrder(rest, a[1..], b[1..]);
    }
  }

  lemma NoElements(a: seq<string>)
    ensures a == [] <==> Elements(a) == {}
  {
    if a != [] {
      assert a[0] in Elements(a);
    }
  }

  lemma FirstIsLeast(rank: map<string, nat>, a: seq<string>, n: string)
    requires OrderedBy(rank, a) && a != [] && n in a
    ensures a[0] in rank && n in rank && (n == a[0] || Before(rank, a[0], n))
  {
    assert n in Elements(a) && a[0] in Elements(a);
  }

  lemma DropFirst(rank: map<string, nat>, rest: map<string, nat>, a: seq<string>)
    requires OrderedBy(rank, a) && a != [] && rest == map n | n in rank && n != a[0] :: rank[n]
    ensures OrderedBy(rest, a[1..])
  {
    Total(a[0], a[0]);
    forall i, j | 0 <= i < j < |a[1..]|
      ensures a[1..][i] in rest && a[1..][j] in rest && Before(rest, a[1..][i], a[1..][j])
    {
      assert Before(rank, a[i + 1], a[j + 1]) && Before(rank, a[0], a[i + 1]) && Before(rank, a[0], a[j + 1]);
    }
    forall n
      ensures n in Elements(a[1..]) <==> n in rest.Keys
    {
      if n in rest {
        assert n in Elements(a);
        var i :| 0 <= i < |a| && a[i] == n;
        assert a[1..][i - 1] == n;
      }
      if n in a[1..] {
        var i :| 0 <= i < |a[1..]| && a[1..][i] == n;
        assert Before(rank, a[0], a[i + 1]);
      }
    }
  }

  /** The specification leaves no choice: layers and alphabet fix the whole order. */
  lemma OrderIsDetermined(g: Graph, a: seq<string>, b: seq<string>)
    requires IsPublishOrder(g, a) && IsPublishOrder(g, b)
    ensures a == b
  {
    hide OrderedBy;
    var ra :| IsRank(g, ra) && OrderedBy(ra, a);
    var rb :| IsRank(g, rb) && OrderedBy(rb, b);
    forall n | n in g
      ensures ra[n] == rb[n]
    {
      RankUnique(g, ra, rb, n);
      RankUnique(g, rb, ra, n);
    }
    assert ra == rb;
    SameOrder(ra, a, b);
  }
}
