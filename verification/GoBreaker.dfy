/**
 The API server's circuit breaker with overlapping calls: a call is admitted or rejected in one critical section and,
 if admitted, reports its outcome in another, any number of other sections coming between.
 */
module GoBreaker {

  datatype Status = Closed | Open | HalfOpen

  datatype Config = Config(failureThreshold: nat, successThreshold: nat, timeout: int)

  datatype State = State(status: Status, failureCount: nat, halfOpenSuccesses: nat, lastFailureTime: int)

  const INIT := State(Closed, 0, 0, 0)

  datatype Event =
    | Start(at: int)     // the first section of Execute
    | Failure(at: int)   // the second, with an error
    | Success(at: int)   // the second, without
    | Reset(at: int)

  /** time.Since(lastFailureTime) > timeout while open */
  predicate TimedOut(s: State, cfg: Config, at: int) {
    s.status == Open && at - s.lastFailureTime > cfg.timeout
  }

  predicate Admits(s: State, cfg: Config, at: int) {
    s.status != Open || TimedOut(s, cfg, at)
  }

  function OnFailure(s: State, cfg: Config, at: int): State {
    State(if s.failureCount + 1 >= cfg.failureThreshold then Open else s.status,
          s.failureCount + 1, s.halfOpenSuccesses, at)
  }

  function OnSuccess(s: State, cfg: Config): State {
    match s.status
    case Closed => s.(failureCount := 0)
    case HalfOpen =>
      var n := s.halfOpenSuccesses + 1;
      if n >= cfg.successThreshold then State(Closed, 0, n, s.lastFailureTime) else s.(halfOpenSuccesses := n)
    case Open => s
  }

  function Step(s: State, cfg: Config, e: Event): State {
    match e
    case Start(at) => if TimedOut(s, cfg, at) then s.(status := HalfOpen, halfOpenSuccesses := 0) else s
    case Failure(at) => OnFailure(s, cfg, at)
    case Success(_) => OnSuccess(s, cfg)
    case Reset(_) => State(Closed, 0, 0, s.lastFailureTime)
  }

  function Run(cfg: Config, run: seq<Event>): State {
    if run == [] then INIT else Step(Run(cfg, run[..|run|-1]), cfg, run[|run|-1])
  }

  class CircuitBreaker {
    var status: Status
    var failureCount: nat
    var halfOpenSuccesses: nat
    var lastFailureTime: int
    const cfg: Config

    function Now(): State
      reads this
    {
      State(status, failureCount, halfOpenSuccesses, lastFailureTime)
    }

    constructor (cfg: Config)
      ensures Now() == Run(cfg, []) && this.cfg == cfg
    {
      this.cfg := cfg;
      status, failureCount, halfOpenSuccesses, lastFailureTime := Closed, 0, 0, 0;
    }

    method Begin(at: int) returns (admitted: bool)
      modifies this
      ensures Now() == Step(old(Now()), cfg, Start(at))
      ensures admitted == Admits(old(Now()), cfg, at)
    {
      if status == Open && at - lastFailureTime > cfg.timeout {
        status := HalfOpen;
        halfOpenSuccesses := 0;
      }
      return status != Open;
    }

    method Fail(at: int)
      modifies this
      ensures Now() == Step(old(Now()), cfg, Failure(at))
    {
      failureCount := failureCount + 1;
      lastFailureTime := at;
      if failureCount >= cfg.failureThreshold {
        status := Open;
      }
    }

    method Succeed(at: int)
      modifies this
      ensures Now() == Step(old(Now()), cfg, Success(at))
    {
      if status == Closed {
        failureCount := 0;
        return;
      }
      if status == HalfOpen {
        halfOpenSuccesses := halfOpenSuccesses + 1;
        if halfOpenSuccesses >= cfg.successThreshold {
          status := Closed;
          failureCount := 0;
        }
      }
    }

    method DoReset(at: int)
      modifies this
      ensures Now() == Step(old(Now()), cfg, Reset(at))
    {
      status, failureCount, halfOpenSuccesses := Closed, 0, 0;
    }
  }

  // ---- Closed and the failure count -------------------------------------------------------------------

  ghost predicate CountAgrees(s: State, cfg: Config) {
    s.status == Closed <==> s.failureCount < cfg.failureThreshold
  }

  lemma {:induction false} CountAgreesAlways(cfg: Config, run: seq<Event>)
    requires cfg.failureThreshold >= 1
    ensures CountAgrees(Run(cfg, run), cfg)
  {
    if run != [] {
      CountAgreesAlways(cfg, run[..|run|-1]);
    }
  }

  /** On every run the breaker is closed exactly when its failure count is below the threshold, provided the threshold
      is positive; with a threshold of 0 it is not so from the start. */
  lemma ClosedIffBelowThreshold(cfg: Config)
    ensures (forall run :: CountAgrees(Run(cfg, run), cfg)) <==> cfg.failureThreshold >= 1
  {
    if cfg.failureThreshold >= 1 {
      forall run ensures CountAgrees(Run(cfg, run), cfg) {
        CountAgreesAlways(cfg, run);
      }
    } else {
      assert !CountAgrees(Run(cfg, []), cfg);
    }
  }

  // ---- Tripping ---------------------------------------------------------------------------------------

  /** Failures reported since the last success or reset. */
  function Streak(run: seq<Event>): nat {
    if run == [] then 0
    else
      match run[|run|-1]
      case Failure(_) => Streak(run[..|run|-1]) + 1
      case Start(_) => Streak(run[..|run|-1])
      case _ => 0
  }

  lemma {:induction false} CountIsStreak(cfg: Config, run: seq<Event>)
    requires cfg.failureThreshold >= 1
    ensures Run(cfg, run).status == Closed ==> Run(cfg, run).failureCount == Streak(run)
  {
    if run != [] {
      CountIsStreak(cfg, run[..|run|-1]);
      CountAgreesAlways(cfg, run[..|run|-1]);
    }
  }

  /** A closed breaker trips exactly on the report that completes failureThreshold consecutive failures. */
  lemma TripsOnConsecutiveFailures(cfg: Config, run: seq<Event>, e: Event)
    requires cfg.failureThreshold >= 1 && Run(cfg, run).status == Closed
    ensures Run(cfg, run + [e]).status != Closed <==> e.Failure? && Streak(run + [e]) == cfg.failureThreshold
    ensures Run(cfg, run + [e]).status != HalfOpen
  {
    assert (run + [e])[..|run|] == run;
    CountIsStreak(cfg, run);
    CountAgreesAlways(cfg, run);
  }

  // ---- Closing again ----------------------------------------------------------------------------------

  /** The part of the run after the start that last turned the breaker half-open. */
  function SinceHalfOpen(cfg: Config, run: seq<Event>): seq<Event> {
    if run == [] then []
    else
      var before, e := run[..|run|-1], run[|run|-1];
      if e.Start? && TimedOut(Run(cfg, before), cfg, e.at) then [] else SinceHalfOpen(cfg, before) + [e]
  }

  function Successes(run: seq<Event>): nat {
    if run == [] then 0 else Successes(run[..|run|-1]) + if run[|run|-1].Success? then 1 else 0
  }

  ghost predicate NoFailure(run: seq<Event>) {
    forall e :: e in run ==> !e.Failure?
  }

  lemma {:induction false} HalfOpenCountsSuccesses(cfg: Config, run: seq<Event>)
    requires cfg.failureThreshold >= 1 && Run(cfg, run).status == HalfOpen
    ensures var since := SinceHalfOpen(cfg, run);
            && NoFailure(since)
            && Run(cfg, run).halfOpenSuccesses == Successes(since)
  {
    var before, e := run[..|run|-1], run[|run|-1];
    CountAgreesAlways(cfg, before);
    if Run(cfg, before).status == HalfOpen {
      HalfOpenCountsSuccesses(cfg, before);
      var since := SinceHalfOpen(cfg, before);
      assert (since + [e])[..|since|] == since;
    }
  }

  /** While half-open, the successes counted are still too few. */
  lemma {:induction false} TooFewWhileHalfOpen(cfg: Config, run: seq<Event>)
    requires cfg.successThreshold >= 1 && Run(cfg, run).status == HalfOpen
    ensures Run(cfg, run).halfOpenSuccesses < cfg.successThreshold
  {
    if Run(cfg, run[..|run|-1]).status == HalfOpen {
      TooFewWhileHalfOpen(cfg, run[..|run|-1]);
    }
  }

  /** Resets aside, the breaker closes again exactly on the success that brings the successes since it turned
      half-open to successThreshold, none of the reports since then being a failure. */
  lemma ClosesAfterSuccesses(cfg: Config, run: seq<Event>, e: Event)
    requires cfg.failureThreshold >= 1 && cfg.successThreshold >= 1
    requires Run(cfg, run).status != Closed && !e.Reset?
    ensures var since := SinceHalfOpen(cfg, run + [e]);
            Run(cfg, run + [e]).status == Closed
            <==> Run(cfg, run).status == HalfOpen && e.Success? && NoFailure(since) && Successes(since) == cfg.successThreshold
  {
    assert (run + [e])[..|run|] == run;
    CountAgreesAlways(cfg, run);
    if Run(cfg, run).status == HalfOpen {
      HalfOpenCountsSuccesses(cfg, run);
      TooFewWhileHalfOpen(cfg, run);
      var since := SinceHalfOpen(cfg, run);
      assert (since + [e])[..|since|] == since;
    }
  }

  // ---- Rejecting --------------------------------------------------------------------------------------

  ghost predicate Ordered(run: seq<Event>) {
    forall i, j :: 0 <= i <= j < |run| ==> run[i].at <= run[j].at
  }

  lemma {:induction false} StaysOpen(cfg: Config, run: seq<Event>, more: seq<Event>, failedAt: int)
    requires Run(cfg, run).status == Open && Run(cfg, run).lastFailureTime >= failedAt
    requires forall e :: e in more ==> !e.Reset? && failedAt <= e.at && (e.Start? ==> e.at - failedAt <= cfg.timeout)
    ensures Run(cfg, run + more).status == Open && Run(cfg, run + more).lastFailureTime >= failedAt
  {
    if more == [] {
      assert run + more == run;
    } else {
      var init, e := more[..|more|-1], more[|more|-1];
      assert more == init + [e];
      StaysOpen(cfg, run, init, failedAt);
      assert (run + more)[..|run + more|-1] == run + init;
    }
  }

  /** No call starts within `timeout` of a failure that left the breaker open, unless it is reset. */
  lemma NoStartWithinTimeout(cfg: Config, run: seq<Event>, failedAt: int, more: seq<Event>, at: int)
    requires Run(cfg, run + [Failure(failedAt)]).status == Open
    requires Ordered(run + [Failure(failedAt)] + more + [Start(at)])
    requires (forall e :: e in more ==> !e.Reset?) && at - failedAt <= cfg.timeout
    ensures !Admits(Run(cfg, run + [Failure(failedAt)] + more), cfg, at)
  {
    var failed := run + [Failure(failedAt)];
    var all := failed + more + [Start(at)];
    assert failed[..|run|] == run;
    forall e | e in more ensures failedAt <= e.at <= at {
      var i :| 0 <= i < |more| && more[i] == e;
      assert all[|run|] == Failure(failedAt) && all[|failed| + i] == e && all[|all|-1] == Start(at);
    }
    StaysOpen(cfg, failed, more, failedAt);
  }

  /** While open, a start is admitted exactly when more than `timeout` has passed since the latest failure report. */
  function LatestFailure(run: seq<Event>): int {
    if run == [] then 0 else if run[|run|-1].Failure? then run[|run|-1].at else LatestFailure(run[..|run|-1])
  }

  lemma {:induction false} RejectsExactlyDuringTimeout(cfg: Config, run: seq<Event>, at: int)
    ensures Admits(Run(cfg, run), cfg, at) <==>
            Run(cfg, run).status != Open || at - LatestFailure(run) > cfg.timeout
    ensures Run(cfg, run).lastFailureTime == LatestFailure(run)
  {
    if run != [] {
      RejectsExactlyDuringTimeout(cfg, run[..|run|-1], at);
    }
  }

  // ---- Recovering -------------------------------------------------------------------------------------

  /** A start turns the breaker half-open, with no success counted, exactly when it was open and more than `timeout` has
      passed since the latest failure report; otherwise it changes nothing. */
  lemma StartTurnsHalfOpen(cfg: Config, run: seq<Event>, at: int)
    ensures var s, after := Run(cfg, run), Run(cfg, run + [Start(at)]);
            if s.status == Open && at - LatestFailure(run) > cfg.timeout then
              after.status == HalfOpen && after.halfOpenSuccesses == 0
              && after.failureCount == s.failureCount && after.lastFailureTime == s.lastFailureTime
            else after == s
  {
    assert (run + [Start(at)])[..|run|] == run;
    RejectsExactlyDuringTimeout(cfg, run, at);
  }

  lemma {:induction false} CountsWhileTrying(cfg: Config, run: seq<Event>, more: seq<Event>)
    requires Run(cfg, run).status == HalfOpen && Run(cfg, run).halfOpenSuccesses == 0
    requires forall e :: e in more ==> e.Start? || e.Success?
    ensures var s, needed := Run(cfg, run + more), if cfg.successThreshold == 0 then 1 else cfg.successThreshold;
            if Successes(more) >= needed then s.status == Closed && s.failureCount == 0
            else s.status == HalfOpen && s.halfOpenSuccesses == Successes(more)
  {
    if more == [] {
      assert run + more == run;
    } else {
      var init, e := more[..|more|-1], more[|more|-1];
      assert more == init + [e];
      CountsWhileTrying(cfg, run, init);
      assert (run + more)[..|run + more|-1] == run + init;
    }
  }

  /** An open breaker recovers: once a start comes after the timeout, successThreshold successes without a failure or a
      reset close it, with nothing counted, and fewer leave it half-open; other starts may come in between. */
  lemma Recovers(cfg: Config, run: seq<Event>, at: int, more: seq<Event>)
    requires cfg.successThreshold >= 1
    requires Run(cfg, run).status == Open && at - LatestFailure(run) > cfg.timeout
    requires forall e :: e in more ==> e.Start? || e.Success?
    ensures var s := Run(cfg, run + [Start(at)] + more);
            && s.status == (if Successes(more) >= cfg.successThreshold then Closed else HalfOpen)
            && (s.status == Closed ==> s.failureCount == 0)
            && forall next :: Admits(s, cfg, next)
  {
    StartTurnsHalfOpen(cfg, run, at);
    CountsWhileTrying(cfg, run + [Start(at)], more);
  }

  /** One failure while the breaker is not closed leaves it open, for `timeout` from then on. */
  lemma FailureReopens(cfg: Config, run: seq<Event>, failedAt: int, at: int)
    requires cfg.failureThreshold >= 1 && Run(cfg, run).status != Closed
    ensures Run(cfg, run + [Failure(failedAt)]).status == Open
    ensures Admits(Run(cfg, run + [Failure(failedAt)]), cfg, at) <==> at - failedAt > cfg.timeout
  {
    CountAgreesAlways(cfg, run);
    var failed := run + [Failure(failedAt)];
    assert failed[..|run|] == run;
    RejectsExactlyDuringTimeout(cfg, failed, at);
  }

  /** Two states that no later answer tells apart: the failure time matters only once open. */
  ghost predicate Alike(s: State, t: State) {
    && s.status == t.status && s.failureCount == t.failureCount && s.halfOpenSuccesses == t.halfOpenSuccesses
    && (s.status == Closed || s.lastFailureTime == t.lastFailureTime)
  }

  /** A reset breaker is as good as new: on every continuation it is where a new one would be. */
  lemma {:induction false} ResetIsFresh(cfg: Config, run: seq<Event>, now: int, more: seq<Event>)
    ensures Alike(Run(cfg, run + [Reset(now)] + more), Run(cfg, more))
    ensures forall at :: Admits(Run(cfg, run + [Reset(now)] + more), cfg, at) <==> Admits(Run(cfg, more), cfg, at)
  {
    var reset := run + [Reset(now)];
    if more == [] {
      assert reset[..|run|] == run && reset + more == reset;
    } else {
      var init := more[..|more|-1];
      ResetIsFresh(cfg, run, now, init);
      assert (reset + more)[..|reset + more|-1] == reset + init;
    }
  }
}
