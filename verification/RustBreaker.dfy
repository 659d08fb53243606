/**
 The charging engine's circuit breaker: three states in the program, two to an observer. Checking the timeout and
 reading the state are separate steps, so other calls may come between them.
 */
module RustBreaker {
  import opened Basics

  datatype Status = Closed | Open | HalfOpen

  datatype Config = Config(failureThreshold: nat, timeout: int)

  datatype State = State(status: Status, failureCount: nat, lastFailureTime: Option<int>)

  const INIT := State(Closed, 0, None)

  datatype Event =
    | CheckState(at: int)
    | Enter                 // reads the state: rejects or runs the operation
    | OnSuccess
    | OnFailure(at: int)
    | Reset

  predicate TimedOut(last: Option<int>, cfg: Config, at: int) {
    last.Some? && at - last.value > cfg.timeout
  }

  function Step(s: State, cfg: Config, e: Event): State {
    match e
    case CheckState(at) =>
      if s.status == Open && TimedOut(s.lastFailureTime, cfg, at) then s.(status := HalfOpen, failureCount := 0) else s
    case Enter => s
    case OnSuccess =>
      (match s.status
       case HalfOpen => s.(status := Closed, failureCount := 0)
       case Closed => s.(failureCount := 0)
       case Open => s)
    case OnFailure(at) =>
      var n := s.failureCount + 1;
      if n >= cfg.failureThreshold then State(Open, n, Some(at)) else s.(failureCount := n)
    case Reset => INIT
  }

  function Run(cfg: Config, run: seq<Event>): State {
    if run == [] then INIT else Step(Run(cfg, run[..|run|-1]), cfg, run[|run|-1])
  }

  predicate Admits(s: State) {
    s.status != Open
  }

  class CircuitBreaker {
    var status: Status
    var failureCount: nat
    var lastFailureTime: Option<int>
    const cfg: Config

    function Now(): State
      reads this
    {
      State(status, failureCount, lastFailureTime)
    }

    constructor (cfg: Config)
      ensures Now() == Run(cfg, []) && this.cfg == cfg
    {
      this.cfg := cfg;
      status, failureCount, lastFailureTime := Closed, 0, None;
    }

    method CheckState(at: int)
      modifies this
      ensures Now() == Step(old(Now()), cfg, Event.CheckState(at))
    {
      if status == Open && lastFailureTime.Some? {
        if at - lastFailureTime.value > cfg.timeout {
          status := HalfOpen;
          failureCount := 0;
        }
      }
    }

    method Enter() returns (admitted: bool)
      ensures admitted == Admits(Now())
    {
      return status != Open;
    }

    method OnSuccess()
      modifies this
      ensures Now() == Step(old(Now()), cfg, Event.OnSuccess)
    {
      match status
      case HalfOpen =>
        status := Closed;
        failureCount := 0;
      case Closed =>
        failureCount := 0;
      case Open =>
    }

    method OnFailure(at: int)
      modifies this
      ensures Now() == Step(old(Now()), cfg, Event.OnFailure(at))
    {
      failureCount := failureCount + 1;
      if failureCount >= cfg.failureThreshold {
        status := Open;
        lastFailureTime := Some(at);
      }
    }

    method Reset()
      modifies this
      ensures Now() == Step(old(Now()), cfg, Event.Reset)
    {
      status, failureCount, lastFailureTime := Closed, 0, None;
    }
  }

  // ---- The two-state breaker --------------------------------------------------------------------------

  /** Open or not; a timeout takes it straight back to not open with nothing counted. */
  datatype Simple = Simple(open: bool, failures: nat, openedAt: int)

  function SimpleStep(s: Simple, cfg: Config, e: Event): Simple {
    match e
    case CheckState(at) => if s.open && at - s.openedAt > cfg.timeout then Simple(false, 0, s.openedAt) else s
    case Enter => s
    case OnSuccess => if s.open then s else s.(failures := 0)
    case OnFailure(at) =>
      var n := s.failures + 1;
      if n >= cfg.failureThreshold then Simple(true, n, at) else s.(failures := n)
    case Reset => Simple(false, 0, s.openedAt)
  }

  function SimpleRun(cfg: Config, run: seq<Event>): Simple {
    if run == [] then Simple(false, 0, 0) else SimpleStep(SimpleRun(cfg, run[..|run|-1]), cfg, run[|run|-1])
  }

  ghost predicate Matches(s: State, t: Simple) {
    && (s.status == Open <==> t.open)
    && s.failureCount == t.failures
    && (t.open ==> s.lastFailureTime == Some(t.openedAt))
  }

  /** Every run admits and rejects exactly the calls that the two-state breaker does. */
  lemma {:induction false} BehavesAsTwoStates(cfg: Config, run: seq<Event>)
    ensures Matches(Run(cfg, run), SimpleRun(cfg, run))
    ensures Admits(Run(cfg, run)) <==> !SimpleRun(cfg, run).open
  {
    if run != [] {
      BehavesAsTwoStates(cfg, run[..|run|-1]);
    }
  }

  /** Replacing half-open by closed in any reachable state changes no later admission. */
  lemma {:induction false} HalfOpenIsClosed(cfg: Config, s: State, more: seq<Event>)
    requires s.status == HalfOpen
    ensures var a, b := RunFrom(cfg, s, more), RunFrom(cfg, s.(status := Closed), more);
            && (Admits(a) <==> Admits(b))
            && a.(status := Closed) == b.(status := Closed)
  {
    if more != [] {
      HalfOpenIsClosed(cfg, s, more[..|more|-1]);
    }
  }

  function RunFrom(cfg: Config, s: State, run: seq<Event>): State {
    if run == [] then s else Step(RunFrom(cfg, s, run[..|run|-1]), cfg, run[|run|-1])
  }

  ghost predicate OpenMeansTripped(s: State, cfg: Config) {
    && (s.status == Open <==> s.failureCount >= cfg.failureThreshold)
    && (s.status == Open ==> s.lastFailureTime.Some?)
  }

  lemma {:induction false} TrippedAlways(cfg: Config, run: seq<Event>)
    requires cfg.failureThreshold >= 1
    ensures OpenMeansTripped(Run(cfg, run), cfg)
  {
    if run != [] {
      TrippedAlways(cfg, run[..|run|-1]);
    }
  }

  /** Open holds exactly when the count has reached the threshold, with a failure time recorded, on every run and just
      for the positive thresholds. */
  lemma OpenIffTripped(cfg: Config)
    ensures (forall run :: OpenMeansTripped(Run(cfg, run), cfg)) <==> cfg.failureThreshold >= 1
  {
    if cfg.failureThreshold >= 1 {
      forall run ensures OpenMeansTripped(Run(cfg, run), cfg) {
        TrippedAlways(cfg, run);
      }
    } else {
      assert !OpenMeansTripped(Run(cfg, []), cfg);
    }
  }

  // ---- Read off the events ----------------------------------------------------------------------------

  /** When the breaker was last opened, or opened further, since the last reset. */
  function LastOpening(cfg: Config, run: seq<Event>): Option<int>
    decreases |run|, 0
  {
    if run == [] then None
    else
      var before, e := run[..|run|-1], run[|run|-1];
      match e
      case OnFailure(at) => if Failures(cfg, before) + 1 >= cfg.failureThreshold then Some(at) else LastOpening(cfg, before)
      case Reset => None
      case _ => LastOpening(cfg, before)
  }

  /** Failures since the last success while not open, since the last check that found the timeout over, or since the last
      reset. */
  function Failures(cfg: Config, run: seq<Event>): nat
    decreases |run|, 0
  {
    if run == [] then 0
    else
      var before, e := run[..|run|-1], run[|run|-1];
      match e
      case OnFailure(_) => Failures(cfg, before) + 1
      case OnSuccess => if IsOpen(cfg, before) then Failures(cfg, before) else 0
      case CheckState(at) => if IsOpen(cfg, before) && TimeIsUp(cfg, before, at) then 0 else Failures(cfg, before)
      case Reset => 0
      case Enter => Failures(cfg, before)
  }

  predicate TimeIsUp(cfg: Config, run: seq<Event>, at: int)
    decreases |run|, 1
  {
    LastOpening(cfg, run).Some? && at - LastOpening(cfg, run).value > cfg.timeout
  }

  predicate IsOpen(cfg: Config, run: seq<Event>)
    decreases |run|, 1
  {
    Failures(cfg, run) >= cfg.failureThreshold
  }

  /** For positive thresholds the state is what the events say: open exactly after threshold failures without a success,
      an expired timeout or a reset in between, and the time kept is that of the failure that last opened it. */
  lemma {:induction false} StateFromEvents(cfg: Config, run: seq<Event>)
    requires cfg.failureThreshold >= 1
    ensures var s := Run(cfg, run);
            && s.failureCount == Failures(cfg, run) && s.lastFailureTime == LastOpening(cfg, run)
            && (Admits(s) <==> Failures(cfg, run) < cfg.failureThreshold)
  {
    TrippedAlways(cfg, run);
    if run != [] {
      StateFromEvents(cfg, run[..|run|-1]);
      TrippedAlways(cfg, run[..|run|-1]);
    }
  }

  /** A check turns an open breaker half-open, with nothing counted and the time kept, exactly when more than `timeout` has
      passed since it was last opened; otherwise it changes nothing. */
  lemma CheckTurnsHalfOpen(cfg: Config, run: seq<Event>, at: int)
    requires cfg.failureThreshold >= 1
    ensures var s, after := Run(cfg, run), Run(cfg, run + [CheckState(at)]);
            if s.status == Open && TimeIsUp(cfg, run, at) then
              after.status == HalfOpen && after.failureCount == 0 && after.lastFailureTime == s.lastFailureTime
            else after == s
  {
    StateFromEvents(cfg, run);
    TrippedAlways(cfg, run);
    assert (run + [CheckState(at)])[..|run|] == run;
  }

  function FailuresOf(more: seq<Event>): nat {
    if more == [] then 0 else FailuresOf(more[..|more|-1]) + if more[|more|-1].OnFailure? then 1 else 0
  }

  /** After the timeout the next call is admitted; its success closes the breaker with nothing counted; without a success
      it takes threshold failures, not one, to open it again. */
  lemma {:induction false} RecoversAfterTimeout(cfg: Config, run: seq<Event>, at: int, more: seq<Event>)
    requires cfg.failureThreshold >= 1 && Run(cfg, run).status == Open && TimeIsUp(cfg, run, at)
    requires forall e :: e in more ==> e.OnFailure? || e.Enter?
    ensures var checked := run + [CheckState(at)];
            && Run(cfg, checked + [OnSuccess]).status == Closed && Run(cfg, checked + [OnSuccess]).failureCount == 0
            && Run(cfg, checked + more).failureCount == FailuresOf(more)
            && (Admits(Run(cfg, checked + more)) <==> FailuresOf(more) < cfg.failureThreshold)
  {
    var checked := run + [CheckState(at)];
    CheckTurnsHalfOpen(cfg, run, at);
    assert (checked + [OnSuccess])[..|checked|] == checked;
    if more == [] {
      assert checked + more == checked;
    } else {
      var init := more[..|more|-1];
      RecoversAfterTimeout(cfg, run, at, init);
      assert (checked + more)[..|checked + more|-1] == checked + init;
    }
    TrippedAlways(cfg, checked + more);
  }

  /** A reset forgets everything: what follows it is all that counts. */
  lemma {:induction false} ResetIsFresh(cfg: Config, run: seq<Event>, more: seq<Event>)
    ensures Run(cfg, run + [Reset] + more) == Run(cfg, more)
  {
    var reset := run + [Reset];
    if more == [] {
      assert reset[..|run|] == run && reset + more == reset;
    } else {
      ResetIsFresh(cfg, run, more[..|more|-1]);
      assert (reset + more)[..|reset + more|-1] == reset + more[..|more|-1];
    }
  }
}
