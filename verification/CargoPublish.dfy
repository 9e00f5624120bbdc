/**
 * Publishing one crate through rate limits (scripts/publish_crates.py). What cargo, the token
 * service and the clock do are arbitrary outcomes, one per attempt; seconds are reals. 481 outcomes always suffice.
 */
module CargoPublish {
  import opened Results

  const BUFFER := 15.0
  const MAX_SINGLE := 1200.0
  const MAX_TOTAL := 7200.0

  /** What cargo's output says: no 429, a 429 with a date or a delay to wait for, or a bare 429. */
  datatype Hint = NotLimited | TryAgainIn(seconds: real) | RetryAfter(delay: nat) | NoHint

  /** How long the registry says to wait; a date may already have passed. */
  function Announced(hint: Hint): (r: real)
    requires hint.TryAgainIn? || hint.RetryAfter?
  {
    if hint.TryAgainIn? then hint.seconds else hint.delay as real
  }

  /** How long to sleep before retrying, if the output allows a retry at all. */
  function RetryWait(hint: Hint): (r: Option<real>)
    ensures r.Some? <==> hint.TryAgainIn? || hint.RetryAfter?
    ensures r.Some? ==> r.value >= BUFFER && r.value >= Announced(hint) + BUFFER
    ensures r.Some? ==> r.value == BUFFER || r.value == Announced(hint) + BUFFER
  {
    match hint
    case TryAgainIn(seconds) => Some(if seconds + BUFFER > BUFFER then seconds + BUFFER else BUFFER)
    case RetryAfter(delay) => Some(delay as real + BUFFER)
    case _ => None
  }

  datatype Cargo = Succeeds | Fails(hint: Hint) | Raises

  datatype Revocation = Revoked | Warned | RevocationRaises

  datatype Attempt = Attempt(tokenGranted: bool, cargo: Cargo, revocation: Revocation)

  datatype Event = Acquire(k: nat) | RunCargo(k: nat) | Revoke(k: nat) | Sleep(seconds: real)

  datatype Verdict = Published | Failed | WaitTooLong | BudgetExhausted | Raised | Retry(wait: real)

  /** What one attempt leads to when `waited` seconds have been slept already. */
  function Judge(trusted: bool, a: Attempt, waited: real): (r: Verdict) {
    if trusted && !a.tokenGranted then Raised
    else if a.cargo.Raises? || (trusted && a.revocation.RevocationRaises?) then Raised
    else if a.cargo.Succeeds? then Published
    else
      match RetryWait(a.cargo.hint)
      case None => Failed
      case Some(wait) =>
        if wait > MAX_SINGLE then WaitTooLong
        else if waited + wait > MAX_TOTAL then BudgetExhausted
        else Retry(wait)
  }

  /** What one attempt does: a granted token is used once and then given back. */
  function Events(trusted: bool, a: Attempt, k: nat): (r: seq<Event>) {
    if !trusted then [RunCargo(k)]
    else if !a.tokenGranted then []
    else [Acquire(k), RunCargo(k), Revoke(k)]
  }

  function WaitOf(a: Attempt): (r: real)
    ensures r == 0.0 || r >= BUFFER
  {
    if a.cargo.Fails? && RetryWait(a.cargo.hint).Some? then RetryWait(a.cargo.hint).value else 0.0
  }

  /** Seconds slept before attempt `n`. */
  function Waited(env: seq<Attempt>, n: nat): (r: real)
    requires n <= |env|
  {
    if n == 0 then 0.0 else Waited(env, n - 1) + WaitOf(env[n - 1])
  }

  /** The log of the first `n` attempts, each followed by its sleep. */
  function Transcript(trusted: bool, env: seq<Attempt>, n: nat): (r: seq<Event>)
    requires n <= |env|
  {
    if n == 0 then [] else
      Transcript(trusted, env, n - 1) + Events(trusted, env[n - 1], n - 1) + [Sleep(WaitOf(env[n - 1]))]
  }

  ghost predicate Retried(trusted: bool, env: seq<Attempt>, k: nat)
    requires k < |env|
  {
    Judge(trusted, env[k], Waited(env, k)).Retry?
  }

  /** Attempt `n` is the first that is not retried. */
  ghost predicate EndsAt(trusted: bool, env: seq<Attempt>, n: nat)
    requires n < |env|
  {
    !Retried(trusted, env, n) && forall k :: 0 <= k < n ==> Retried(trusted, env, k)
  }

  lemma RetryIsBounded(trusted: bool, a: Attempt, waited: real)
    requires Judge(trusted, a, waited).Retry?
    ensures BUFFER <= WaitOf(a) <= MAX_SINGLE && waited + WaitOf(a) <= MAX_TOTAL
  {
  }

  /** The token service, cargo or the revocation raised. */
  predicate SomethingRaised(trusted: bool, a: Attempt) {
    a.cargo.Raises? || (trusted && (!a.tokenGranted || a.revocation.RevocationRaises?))
  }

  /** Cargo failed, and its output says how long to wait. */
  predicate ToldToWait(a: Attempt) {
    a.cargo.Fails? && (a.cargo.hint.TryAgainIn? || a.cargo.hint.RetryAfter?)
  }

  /** A quarter of a minute longer than announced, and at least that. */
  function Pause(a: Attempt): (r: real)
    requires ToldToWait(a)
  {
    var announced := Announced(a.cargo.hint);
    if announced > 0.0 then announced + 15.0 else 15.0
  }

  /** Which verdict an attempt gets, case by case. */
  lemma JudgedExactly(trusted: bool, a: Attempt, waited: real)
    ensures var v, raised := Judge(trusted, a, waited), SomethingRaised(trusted, a);
            && (v == Raised <==> raised)
            && (v == Published <==> !raised && a.cargo.Succeeds?)
            && (v == Failed <==> !raised && a.cargo.Fails? && !ToldToWait(a))
            && (v == WaitTooLong <==> !raised && ToldToWait(a) && Pause(a) > 1200.0)
            && (v == BudgetExhausted <==> !raised && ToldToWait(a) && Pause(a) <= 1200.0 && waited + Pause(a) > 7200.0)
            && (v.Retry? <==> !raised && ToldToWait(a) && Pause(a) <= 1200.0 && waited + Pause(a) <= 7200.0)
  {
  }

  /** The loop: attempts until one is not retried. */
  method Attempts(trusted: bool, env: seq<Attempt>) returns (verdict: Verdict, log: seq<Event>, last: nat)
    requires |env| == 481
    ensures last < |env| && EndsAt(trusted, env, last)
    ensures verdict == Judge(trusted, env[last], Waited(env, last))
    ensures log == Transcript(trusted, env, last) + Events(trusted, env[last], last)
  {
    var waited := 0.0;
    log, last := [], 0;
    while true
      invariant last <= 480
      invariant waited == Waited(env, last)
      invariant 15.0 * last as real <= waited <= MAX_TOTAL
      invariant forall k :: 0 <= k < last ==> Retried(trusted, env, k)
      invariant log == Transcript(trusted, env, last)
      decreases 480 - last
    {
      var a := env[last];
      if trusted {
        if !a.tokenGranted {
          return Raised, log, last;
        }
        log := log + [Acquire(last)];
      }
      log := log + [RunCargo(last)];
      if trusted {
        log := log + [Revoke(last)];
      }
      assert log == Transcript(trusted, env, last) + Events(trusted, a, last);
      if a.cargo.Raises? || (trusted && a.revocation.RevocationRaises?) {
        return Raised, log, last;
      }
      if a.cargo.Succeeds? {
        return Published, log, last;
      }
      var wait := RetryWait(a.cargo.hint);
      if wait.None? {
        return Failed, log, last;
      }
      if wait.value > MAX_SINGLE {
        return WaitTooLong, log, last;
      }
      if waited + wait.value > MAX_TOTAL {
        return BudgetExhausted, log, last;
      }
      log := log + [Sleep(wait.value)];
      waited := waited + wait.value;
      last := last + 1;
    }
  }

  // ----- what the log shows

  ghost predicate TokenReturned(log: seq<Event>, i: nat)
    requires i < |log| && log[i].Acquire?
  {
    i + 2 < |log| && log[i + 1] == RunCargo(log[i].k) && log[i + 2] == Revoke(log[i].k)
  }

  /** Every granted token is used for its one attempt and given back right after it. */
  ghost predicate TokensReturned(log: seq<Event>) {
    && (forall i :: 0 <= i < |log| && log[i].Acquire? ==> TokenReturned(log, i))
    && (forall i :: 0 <= i < |log| && log[i].Revoke? ==> i >= 2 && log[i - 2] == Acquire(log[i].k))
  }

  lemma TokensReturnedConcat(a: seq<Event>, b: seq<Event>)
    requires TokensReturned(a) && TokensReturned(b)
    ensures TokensReturned(a + b)
  {
    var c := a + b;
    forall i | 0 <= i < |c| && c[i].Acquire?
      ensures TokenReturned(c, i)
    {
      if i < |a| {
        assert TokenReturned(a, i);
      } else {
        assert b[i - |a|] == c[i] && TokenReturned(b, i - |a|);
      }
    }
    forall i | 0 <= i < |c| && c[i].Revoke?
      ensures i >= 2 && c[i - 2] == Acquire(c[i].k)
    {
      if i >= |a| {
        assert b[i - |a|] == c[i];
      }
    }
  }

  lemma {:induction false} LogReturnsTokens(trusted: bool, env: seq<Attempt>, n: nat)
    requires n < |env|
    ensures TokensReturned(Transcript(trusted, env, n))
    ensures TokensReturned(Transcript(trusted, env, n) + Events(trusted, env[n], n))
  {
    assert TokensReturned(Events(trusted, env[n], n));
    if n > 0 {
      LogReturnsTokens(trusted, env, n - 1);
      var before := Transcript(trusted, env, n - 1) + Events(trusted, env[n - 1], n - 1);
      TokensReturnedConcat(before, [Sleep(WaitOf(env[n - 1]))]);
    }
    TokensReturnedConcat(Transcript(trusted, env, n), Events(trusted, env[n], n));
  }

  /** The seconds slept in a log. */
  function Slept(log: seq<Event>): (r: real) {
    if log == [] then 0.0 else
      Slept(log[..|log| - 1]) + if log[|log| - 1].Sleep? then log[|log| - 1].seconds else 0.0
  }

  lemma {:induction false} SleptConcat(a: seq<Event>, b: seq<Event>)
    ensures Slept(a + b) == Slept(a) + Slept(b)
    decreases |b|
  {
    if b == [] {
      assert a + b == a;
    } else {
      assert (a + b)[..|a + b| - 1] == a + b[..|b| - 1];
      SleptConcat(a, b[..|b| - 1]);
    }
  }

  lemma AttemptsDoNotSleep(trusted: bool, a: Attempt, k: nat)
    ensures Slept(Events(trusted, a, k)) == 0.0 && forall e :: e in Events(trusted, a, k) ==> !e.Sleep?
  {
    SleptConcat([Acquire(k)], [RunCargo(k)]);
    SleptConcat([Acquire(k)] + [RunCargo(k)], [Revoke(k)]);
    assert [Acquire(k)] + [RunCargo(k)] + [Revoke(k)] == [Acquire(k), RunCargo(k), Revoke(k)];
  }

  /**
   * Sleeps are never shorter than the buffer nor longer than the single-wait limit, and together they
   * are the seconds waited, which stay within the budget.
   */
  lemma {:induction false} SleepsAreBounded(trusted: bool, env: seq<Attempt>, n: nat)
    requires n <= |env|
    requires forall k :: 0 <= k < n ==> Retried(trusted, env, k)
    ensures forall e :: e in Transcript(trusted, env, n) && e.Sleep? ==> BUFFER <= e.seconds <= MAX_SINGLE
    ensures Slept(Transcript(trusted, env, n)) == Waited(env, n) <= MAX_TOTAL
    ensures n < |env| ==> Slept(Transcript(trusted, env, n) + Events(trusted, env[n], n)) == Waited(env, n)
  {
    hide Judge, WaitOf, Events, Slept;
    if n > 0 {
      SleepsAreBounded(trusted, env, n - 1);
      assert Retried(trusted, env, n - 1);
      RetryIsBounded(trusted, env[n - 1], Waited(env, n - 1));
      var before, now, sleep := Transcript(trusted, env, n - 1), Events(trusted, env[n - 1], n - 1), Sleep(WaitOf(env[n - 1]));
      assert Transcript(trusted, env, n) == before + now + [sleep];
      AttemptsDoNotSleep(trusted, env[n - 1], n - 1);
      SleptConcat(before, now);
      SleptConcat(before + now, [sleep]);
      OneSleep(sleep);
    } else {
      NoSleep();
    }
    if n < |env| {
      AttemptsDoNotSleep(trusted, env[n], n);
      SleptConcat(Transcript(trusted, env, n), Events(trusted, env[n], n));
    }
  }

  lemma OneSleep(e: Event)
    requires e.Sleep?
    ensures Slept([e]) == e.seconds
  {
    assert [e][..0] == [];
  }

  lemma NoSleep()
    ensures Slept([]) == 0.0
  {
  }

  /** Cargo runs in every attempt that has what it needs, and tokens are acquired exactly in trusted ones. */
  lemma {:induction false} LogRunsCargo(trusted: bool, env: seq<Attempt>, n: nat, k: nat)
    requires n <= |env|
    ensures RunCargo(k) in Transcript(trusted, env, n) <==> k < n && (trusted ==> env[k].tokenGranted)
    ensures Acquire(k) in Transcript(trusted, env, n) <==> k < n && trusted && env[k].tokenGranted
  {
    if n > 0 {
      LogRunsCargo(trusted, env, n - 1, k);
    }
  }

  lemma LastAttempt(trusted: bool, a: Attempt, n: nat, k: nat)
    ensures RunCargo(k) in Events(trusted, a, n) <==> k == n && (trusted ==> a.tokenGranted)
    ensures Acquire(k) in Events(trusted, a, n) <==> k == n && trusted && a.tokenGranted
  {
  }

  lemma EarlierAttempts(trusted: bool, env: seq<Attempt>, n: nat, k: nat)
    requires k < n < |env| && EndsAt(trusted, env, n)
    ensures !SomethingRaised(trusted, env[k]) && ToldToWait(env[k]) && Pause(env[k]) <= 1200.0 && WaitOf(env[k]) == Pause(env[k])
  {
    assert Retried(trusted, env, k);
    JudgedExactly(trusted, env[k], Waited(env, k));
  }

  /**
   * Publishes one crate. Every attempt but the last was told to wait and could; the verdict is
   * what became of the last one.
   */
  method CargoPublish(trusted: bool, env: seq<Attempt>) returns (verdict: Verdict, log: seq<Event>, last: nat)
    requires |env| == 481
    ensures last < |env| && EndsAt(trusted, env, last)
    ensures forall k :: 0 <= k < last ==>
              !SomethingRaised(trusted, env[k]) && ToldToWait(env[k]) && Pause(env[k]) <= 1200.0 && WaitOf(env[k]) == Pause(env[k])
    ensures verdict == Raised <==> SomethingRaised(trusted, env[last])
    ensures verdict == Published <==> !SomethingRaised(trusted, env[last]) && env[last].cargo.Succeeds?
    ensures verdict == Failed <==> !SomethingRaised(trusted, env[last]) && env[last].cargo.Fails? && !ToldToWait(env[last])
    ensures verdict == WaitTooLong <==> !SomethingRaised(trusted, env[last]) && ToldToWait(env[last]) && Pause(env[last]) > 1200.0
    ensures verdict == BudgetExhausted <==>
              && !SomethingRaised(trusted, env[last]) && ToldToWait(env[last])
              && Pause(env[last]) <= 1200.0 && Slept(log) + Pause(env[last]) > 7200.0
    ensures !verdict.Retry? && Slept(log) <= 7200.0
    ensures log == Transcript(trusted, env, last) + Events(trusted, env[last], last)
    ensures Waited(env, last) == Slept(log)
    ensures forall k: nat :: RunCargo(k) in log <==> k <= last && (trusted ==> env[k].tokenGranted)
    ensures forall k: nat :: Acquire(k) in log <==> k <= last && trusted && env[k].tokenGranted
  {
    hide Judge, SomethingRaised, ToldToWait, Pause, Transcript, Events, Slept, WaitOf;
    verdict, log, last := Attempts(trusted, env);
    forall k | 0 <= k < last
      ensures !SomethingRaised(trusted, env[k]) && ToldToWait(env[k]) && Pause(env[k]) <= 1200.0 && WaitOf(env[k]) == Pause(env[k])
    {
      EarlierAttempts(trusted, env, last, k);
    }
    forall k: nat
      ensures RunCargo(k) in log <==> k <= last && (trusted ==> env[k].tokenGranted)
      ensures Acquire(k) in log <==> k <= last && trusted && env[k].tokenGranted
    {
      LogRunsCargo(trusted, env, last, k);
      LastAttempt(trusted, env[last], last, k);
    }
    JudgedExactly(trusted, env[last], Waited(env, last));
    SleepsAreBounded(trusted, env, last);
  }

  /** All 481 attempts can happen: a registry that always answers `Retry-After: 0`. */
  lemma BoundIsReached(trusted: bool)
    ensures var env := seq(481, _ => Attempt(true, Fails(RetryAfter(0)), Revoked));
            EndsAt(trusted, env, 480) && Judge(trusted, env[480], Waited(env, 480)) == BudgetExhausted
  {
    var env := seq(481, _ => Attempt(true, Fails(RetryAfter(0)), Revoked));
    forall k | 0 <= k <= 480
      ensures Waited(env, k) == 15.0 * k as real
    {
      ZeroDelays(env, k);
    }
    forall k | 0 <= k < 480
      ensures Retried(trusted, env, k)
    {
      assert k as real <= 479.0;
    }
  }

  lemma {:induction false} ZeroDelays(env: seq<Attempt>, n: nat)
    requires n <= |env| && forall k :: 0 <= k < |env| ==> env[k] == Attempt(true, Fails(RetryAfter(0)), Revoked)
    ensures Waited(env, n) == 15.0 * n as real
  {
    if n > 0 {
      ZeroDelays(env, n - 1);
    }
  }
}
