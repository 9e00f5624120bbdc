/**
 * Publishing in dependency order, restarted any number of times (scripts/publish_crates.py).
 * The registry is what crates.io records for the version being released.
 */
module PublishRuns {
  import opened Orders
  import opened PublishOrder

  /**
   * What the world does while a run handles one crate: it lets the run go on, or stops it
   * while looking the version up, before the upload, or after the upload was recorded.
   */
  datatype Fate = Proceeds | LookupFails | UploadFails | UploadsThenStops

  datatype State = State(recorded: set<string>, uploads: seq<string>)

  function Upload(s: State, name: string): (r: State) {
    State(s.recorded + {name}, s.uploads + [name])
  }

  datatype Outcome = Outcome(state: State, completed: bool)

  /** One run over the rest of the order. */
  function Run(order: seq<string>, fates: seq<Fate>, s: State): (r: Outcome)
    requires |fates| == |order|
  {
    if order == [] then Outcome(s, true)
    else if fates[0] == LookupFails then Outcome(s, false)
    else if order[0] in s.recorded then Run(order[1..], fates[1..], s)
    else match fates[0]
      case UploadFails => Outcome(s, false)
      case UploadsThenStops => Outcome(Upload(s, order[0]), false)
      case Proceeds => Run(order[1..], fates[1..], Upload(s, order[0]))
  }

  class Registry {
    var recorded: set<string>
    /** Every upload made so far, in order. */
    var uploads: seq<string>

    constructor (initial: set<string>)
      ensures recorded == initial && uploads == []
    {
      recorded, uploads := initial, [];
    }

    ghost function Contents(): (s: State)
      reads this
    {
      State(recorded, uploads)
    }

    /** One run of the publisher: recorded crates are skipped, the first failure ends the run. */
    method Publish(order: seq<string>, fates: seq<Fate>) returns (completed: bool)
      requires |fates| == |order|
      modifies this
      ensures Outcome(Contents(), completed) == Run(order, fates, old(Contents()))
    {
      for i := 0 to |order|
        invariant Run(order[i..], fates[i..], Contents()) == Run(order, fates, old(Contents()))
      {
        var name := order[i];
        assert order[i..][1..] == order[i + 1..] && fates[i..][1..] == fates[i + 1..];
        if fates[i] == LookupFails {
          return false;
        }
        if name in recorded {
          continue;
        }
        if fates[i] == UploadFails {
          return false;
        }
        recorded, uploads := recorded + {name}, uploads + [name];
        if fates[i] == UploadsThenStops {
          return false;
        }
      }
      return true;
    }
  }

  /** Whatever is recorded has its dependencies recorded. */
  ghost predicate Closed(g: Graph, recorded: set<string>) {
    forall n :: n in g && n in recorded ==> g[n] <= recorded
  }

  /** The history of a registry that held `initial` before the first run. */
  ghost predicate IsHistory(g: Graph, initial: set<string>, s: State) {
    && s.recorded == initial + Elements(s.uploads)
    && (forall i :: 0 <= i < |s.uploads| ==> s.uploads[i] !in initial)
    && (forall i, j :: 0 <= i < j < |s.uploads| ==> s.uploads[i] != s.uploads[j])
    && (forall i :: 0 <= i < |s.uploads| ==>
          s.uploads[i] in g && g[s.uploads[i]] <= initial + Elements(s.uploads[..i]))
  }

  lemma UploadKeepsHistory(g: Graph, initial: set<string>, s: State, name: string)
    requires IsHistory(g, initial, s) && name !in s.recorded
    requires name in g && g[name] <= s.recorded
    ensures IsHistory(g, initial, Upload(s, name))
  {
    hide Elements;
    var uploads := s.uploads + [name];
    UploadedElements(s.uploads, name);
    forall i | 0 <= i < |uploads|
      ensures uploads[i] in g && g[uploads[i]] <= initial + Elements(uploads[..i])
    {
      if i < |s.uploads| {
        assert uploads[i] == s.uploads[i] && uploads[..i] == s.uploads[..i];
      } else {
        assert uploads[..i] == s.uploads;
      }
    }
  }

  lemma UploadedElements(uploads: seq<string>, name: string)
    ensures Elements(uploads + [name]) == Elements(uploads) + {name}
    ensures forall i :: 0 <= i < |uploads| ==> uploads[i] in Elements(uploads)
  {
  }

  /** A run that has already passed the crates in `order[..k]`. */
  lemma {:induction false} RestOfRunKeepsHistory(g: Graph, initial: set<string>, order: seq<string>, k: nat,
                                                 fates: seq<Fate>, s: State)
    requires DependenciesFirst(g, order) && k <= |order| && |fates| == |order| - k
    requires IsHistory(g, initial, s) && Elements(order[..k]) <= s.recorded
    ensures IsHistory(g, initial, Run(order[k..], fates, s).state)
    decreases |order| - k
  {
    if k == |order| {
      assert order[..k] == order;
    } else if fates[0] != LookupFails {
      var name := order[k];
      assert order[k..][1..] == order[k + 1..];
      assert Elements(order[..k + 1]) == Elements(order[..k]) + {name};
      if name in s.recorded {
        RestOfRunKeepsHistory(g, initial, order, k + 1, fates[1..], s);
      } else if fates[0] != UploadFails {
        UploadKeepsHistory(g, initial, s, name);
        if fates[0] == Proceeds {
          RestOfRunKeepsHistory(g, initial, order, k + 1, fates[1..], Upload(s, name));
        }
      }
    }
  }

  /** Any number of runs, each stopped wherever its fates say. */
  function Runs(order: seq<string>, runs: seq<seq<Fate>>, s: State): (r: State)
    requires forall fates :: fates in runs ==> |fates| == |order|
  {
    if runs == [] then s else Runs(order, runs[1..], Run(order, runs[0], s).state)
  }

  /** Restarts never upload a version twice, nor a crate before what it depends on. */
  lemma {:induction false} RunsKeepHistory(g: Graph, initial: set<string>, order: seq<string>, runs: seq<seq<Fate>>, s: State)
    requires forall fates :: fates in runs ==> |fates| == |order|
    requires IsPublishOrder(g, order) && IsHistory(g, initial, s)
    ensures IsHistory(g, initial, Runs(order, runs, s))
    decreases |runs|
  {
    if runs != [] {
      OrderPutsDependenciesFirst(g, order);
      assert order[0..] == order;
      RestOfRunKeepsHistory(g, initial, order, 0, runs[0], s);
      RunsKeepHistory(g, initial, order, runs[1..], Run(order, runs[0], s).state);
    }
  }

  lemma HistoryKeepsClosed(g: Graph, initial: set<string>, s: State)
    requires IsHistory(g, initial, s) && Closed(g, initial)
    ensures Closed(g, s.recorded)
  {
    forall n | n in g && n in s.recorded
      ensures g[n] <= s.recorded
    {
      if n !in initial {
        assert n in Elements(s.uploads);
        var i :| 0 <= i < |s.uploads| && s.uploads[i] == n;
        assert g[s.uploads[i]] <= initial + Elements(s.uploads[..i]);
        assert Elements(s.uploads[..i]) <= Elements(s.uploads);
      }
    }
  }

  /** After any runs from a closed registry, the registry is closed and no upload was repeated. */
  lemma AnyRunsAreSafe(g: Graph, initial: set<string>, order: seq<string>, runs: seq<seq<Fate>>)
    requires forall fates :: fates in runs ==> |fates| == |order|
    requires IsPublishOrder(g, order) && Closed(g, initial)
    ensures var s := Runs(order, runs, State(initial, []));
            IsHistory(g, initial, s) && Closed(g, s.recorded)
  {
    var start := State(initial, []);
    assert Elements(start.uploads) == {};
    RunsKeepHistory(g, initial, order, runs, start);
    HistoryKeepsClosed(g, initial, Runs(order, runs, start));
  }

  /** Once everything is recorded, a run changes nothing. */
  lemma {:induction false} NothingLeftToUpload(order: seq<string>, fates: seq<Fate>, s: State)
    requires |fates| == |order| && Elements(order) <= s.recorded
    ensures Run(order, fates, s).state == s
  {
    if order != [] && fates[0] != LookupFails {
      assert order[0] in Elements(order);
      assert Elements(order[1..]) <= Elements(order);
      NothingLeftToUpload(order[1..], fates[1..], s);
    }
  }

  lemma {:induction false} CompletedRunRecordsAll(order: seq<string>, fates: seq<Fate>, s: State)
    requires |fates| == |order| && Run(order, fates, s).completed
    ensures s.recorded + Elements(order) <= Run(order, fates, s).state.recorded
  {
    if order != [] {
      assert Elements(order) == {order[0]} + Elements(order[1..]);
      var s' := if order[0] in s.recorded then s else Upload(s, order[0]);
      CompletedRunRecordsAll(order[1..], fates[1..], s');
    }
  }

  /** Rerunning after a completed run uploads nothing, however the rerun fares. */
  lemma RerunIsIdempotent(order: seq<string>, fates: seq<Fate>, again: seq<Fate>, s: State)
    requires |fates| == |order| == |again| && Run(order, fates, s).completed
    ensures Run(order, again, Run(order, fates, s).state).state == Run(order, fates, s).state
  {
    CompletedRunRecordsAll(order, fates, s);
    NothingLeftToUpload(order, again, Run(order, fates, s).state);
  }

  /** An undisturbed run completes, so repeated failures only delay the release. */
  lemma {:induction false} UndisturbedRunCompletes(order: seq<string>, fates: seq<Fate>, s: State)
    requires |fates| == |order| && forall i :: 0 <= i < |fates| ==> fates[i] == Proceeds
    ensures Run(order, fates, s).completed
    ensures Run(order, fates, s).state.recorded == s.recorded + Elements(order)
  {
    if order != [] {
      assert Elements(order) == {order[0]} + Elements(order[1..]);
      var s' := if order[0] in s.recorded then s else Upload(s, order[0]);
      UndisturbedRunCompletes(order[1..], fates[1..], s');
    }
  }

  // ----- where a run stops

  /** The run cannot get past crate `i`: its lookup fails, or it is missing and its upload does not simply succeed. */
  ghost predicate StopsAt(order: seq<string>, fates: seq<Fate>, recorded: set<string>, i: nat)
    requires |fates| == |order| && i < |order|
  {
    fates[i] == LookupFails || (order[i] !in recorded + Elements(order[..i]) && (fates[i] == UploadFails || fates[i] == UploadsThenStops))
  }

  /** The run gets past the first `n` crates and no further. */
  ghost predicate Passes(order: seq<string>, fates: seq<Fate>, recorded: set<string>, n: nat)
    requires |fates| == |order|
  {
    && n <= |order| && (forall i :: 0 <= i < n ==> !StopsAt(order, fates, recorded, i))
    && (n < |order| ==> StopsAt(order, fates, recorded, n))
  }

  lemma PassesOn(order: seq<string>, fates: seq<Fate>, recorded: set<string>, n: nat)
    requires |fates| == |order| && order != [] && n > 0 && Passes(order, fates, recorded, n)
    ensures Passes(order[1..], fates[1..], recorded + {order[0]}, n - 1)
    ensures n <= |order| && Elements(order[..n]) == {order[0]} + Elements(order[1..][..n - 1])
  {
    forall i | 0 <= i < |order| - 1
      ensures StopsAt(order[1..], fates[1..], recorded + {order[0]}, i) <==> StopsAt(order, fates, recorded, i + 1)
    {
      assert order[..i + 1] == [order[0]] + order[1..][..i];
      assert Elements(order[..i + 1]) == {order[0]} + Elements(order[1..][..i]);
    }
    assert order[..n] == [order[0]] + order[1..][..n - 1];
  }

  /** What a run records: the crates it passes, and one more when it stops right behind an upload. */
  lemma {:induction false} RunRecordsExactly(order: seq<string>, fates: seq<Fate>, s: State, n: nat)
    requires |fates| == |order| && Passes(order, fates, s.recorded, n)
    ensures var r := Run(order, fates, s);
            && (r.completed <==> n == |order|)
            && r.state.recorded == s.recorded + Elements(order[..n])
                                   + (if n < |order| && fates[n] == UploadsThenStops then {order[n]} else {})
    decreases |order|
  {
    if order == [] {
      assert Elements(order[..n]) == {};
    } else if n == 0 {
      assert StopsAt(order, fates, s.recorded, 0);
      assert order[..0] == [] && Elements(order[..0]) == {};
    } else {
      assert !StopsAt(order, fates, s.recorded, 0);
      assert Elements(order[..0]) == {};
      PassesOn(order, fates, s.recorded, n);
      var next := if order[0] in s.recorded then s else Upload(s, order[0]);
      assert next.recorded == s.recorded + {order[0]};
      RunRecordsExactly(order[1..], fates[1..], next, n - 1);
    }
  }
}
