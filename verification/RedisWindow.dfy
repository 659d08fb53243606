/**
 The Redis sliding window: one sorted set per key whose members and scores are whole seconds, trimmed and read by
 an atomic script, and dropped by Redis when its expiry fires. Instants are nanoseconds of one clock; the script
 sees the whole second. An empty sorted set is a key that does not exist.
 */
module RedisWindow {
  import opened Basics
  import opened RedisCalls

  /** The window is a Go Duration, in nanoseconds. */
  datatype Config = Config(limit: int, window: nat)

  datatype Zset = Zset(members: set<nat>, deadline: nat)

  const ABSENT := Zset({}, 0)

  datatype Answer = Answer(allowed: bool, remaining: int, resetAt: nat, retryAfter: nat)

  /** Scores above now - window are kept by ZREMRANGEBYSCORE key 0 (now - window). */
  predicate Live(cfg: Config, m: nat, now: nat) {
    m * NS + cfg.window > now * NS
  }

  function Trim(cfg: Config, members: set<nat>, now: nat): set<nat> {
    set m | m in members && Live(cfg, m, now)
  }

  /** math.ceil(window), in seconds. */
  function Ttl(cfg: Config): nat {
    (cfg.window + NS - 1) / NS
  }

  function Present(z: Zset, call: Call): set<nat> {
    if call.expired && call.at >= z.deadline then {} else z.members
  }

  /** The script. Redis truncates the numbers it returns to integers. */
  function Script(z: Zset, cfg: Config, call: Call): (Zset, Answer) {
    var now := call.Second();
    var members := Trim(cfg, Present(z, call), now);
    var resetAt := (now * NS + cfg.window) / NS;
    if |members| < cfg.limit then
      (Zset(members + {now}, call.at + Ttl(cfg) * NS), Answer(true, cfg.limit - |members| - 1, resetAt, 0))
    else
      var retry := if members == {} then 0 else (Least(members) * NS + cfg.window - now * NS) / NS;
      (Zset(members, z.deadline), Answer(false, 0, resetAt, retry))
  }

  function Run(cfg: Config, calls: seq<Call>): Zset {
    if calls == [] then ABSENT else Script(Run(cfg, calls[..|calls|-1]), cfg, calls[|calls|-1]).0
  }

  function Ask(cfg: Config, calls: seq<Call>, call: Call): Answer {
    Script(Run(cfg, calls), cfg, call).1
  }

  class RedisRateLimiter {
    var zsets: map<string, Zset>
    const cfg: Config

    constructor (limit: int, window: nat)
      ensures cfg == Config(limit, window) && zsets == map[]
    {
      cfg := Config(limit, window);
      zsets := map[];
    }

    function Stored(key: string): Zset
      reads this
    {
      if key in zsets then zsets[key] else ABSENT
    }

    method Allow(key: string, at: nat, expired: bool) returns (answer: Answer)
      modifies this
      ensures (Stored(key), answer) == Script(old(Stored(key)), cfg, Call(at, expired))
      ensures forall other :: other != key ==> Stored(other) == old(Stored(other))
    {
      var z := Stored(key);
      if expired && at >= z.deadline {
        z := z.(members := {});
      }
      var now := at / NS;
      assert z.members == Present(old(Stored(key)), Call(at, expired));
      // ZREMRANGEBYSCORE, then ZCARD
      z := z.(members := set m | m in z.members && m * NS + cfg.window > now * NS);
      assert z.members == Trim(cfg, Present(old(Stored(key)), Call(at, expired)), now);
      var current := |z.members|;
      if current < cfg.limit {
        z := Zset(z.members + {now}, at + (cfg.window + NS - 1) / NS * NS);
        answer := Answer(true, cfg.limit - current - 1, (now * NS + cfg.window) / NS, 0);
      } else {
        var retryAfter := 0;
        if current > 0 {
          retryAfter := (Least(z.members) * NS + cfg.window - now * NS) / NS;
        }
        answer := Answer(false, 0, (now * NS + cfg.window) / NS, retryAfter);
      }
      zsets := zsets[key := z];
    }

    method Reset(key: string)
      modifies this
      ensures Stored(key) == Run(cfg, [])
      ensures forall other :: other != key ==> Stored(other) == old(Stored(other))
    {
      zsets := zsets - {key};
    }

    /** ZCOUNT counts both ends of the range from now - window to now, and nothing of a key that has been dropped. */
    method GetStats(key: string, at: nat, expired: bool) returns (allowed: bool, remaining: nat)
      ensures (allowed, remaining) == Stats(Stored(key), cfg, Call(at, expired))
    {
      var z := Stored(key);
      if expired && at >= z.deadline {
        z := z.(members := {});
      }
      assert z.members == Present(Stored(key), Call(at, expired));
      var count := |set m | m in z.members && (at - cfg.window) / NS <= m <= at / NS|;
      remaining := if cfg.limit - count > 0 then cfg.limit - count else 0;
      allowed := remaining > 0;
    }
  }

  function Counted(members: set<nat>, cfg: Config, at: nat): set<nat> {
    set m | m in members && (at - cfg.window) / NS <= m <= at / NS
  }

  function Stats(z: Zset, cfg: Config, call: Call): (bool, nat) {
    var remaining := cfg.limit - |Counted(Present(z, call), cfg, call.at)|;
    (remaining > 0, if remaining > 0 then remaining else 0)
  }

  // ---- The reference: which seconds were ever admitted ----------------------------------------------

  function GrantedSeconds(cfg: Config, calls: seq<Call>): set<nat> {
    if calls == [] then {}
    else
      var before, call := calls[..|calls|-1], calls[|calls|-1];
      if Ask(cfg, before, call).allowed then GrantedSeconds(cfg, before) + {call.Second()} else GrantedSeconds(cfg, before)
  }

  lemma SecondsOrdered(a: nat, b: nat)
    requires a <= b
    ensures a / NS <= b / NS
  {}

  /** Once the deadline has passed, everything the set holds has left the window. */
  lemma ExpiredMeansEmpty(z: Zset, cfg: Config, at: nat)
    requires forall m :: m in z.members ==> (m + Ttl(cfg)) * NS <= z.deadline
    requires at >= z.deadline
    ensures Trim(cfg, z.members, at / NS) == {}
  {
    forall m | m in z.members ensures !Live(cfg, m, at / NS) {
      assert (m + Ttl(cfg)) * NS <= at;
      assert m + Ttl(cfg) <= at / NS;
      assert cfg.window <= Ttl(cfg) * NS;
    }
  }

  /** From any instant on, the set is the granted seconds still in the window, and the deadline covers them all. */
  ghost predicate Tracks(z: Zset, granted: set<nat>, cfg: Config, at: nat) {
    && (forall later :: later >= at / NS ==> Trim(cfg, z.members, later) == Trim(cfg, granted, later))
    && (forall m :: m in z.members ==> (m + Ttl(cfg)) * NS <= z.deadline)
    && (forall m :: m in granted ==> m <= at / NS)
    && (forall m :: m in z.members ==> m <= at / NS)
  }

  lemma TrimTwice(cfg: Config, s: set<nat>, now: nat, later: nat)
    requires now <= later
    ensures Trim(cfg, Trim(cfg, s, now), later) == Trim(cfg, s, later)
  {}

  lemma TrimAdd(cfg: Config, s: set<nat>, x: nat, later: nat)
    ensures Trim(cfg, s + {x}, later) == Trim(cfg, s, later) + Trim(cfg, {x}, later)
  {}

  lemma Later(z: Zset, granted: set<nat>, cfg: Config, at: nat, later: nat)
    requires Tracks(z, granted, cfg, at) && at <= later
    ensures Tracks(z, granted, cfg, later)
  {
    SecondsOrdered(at, later);
  }

  lemma PresentTrimmed(z: Zset, granted: set<nat>, cfg: Config, call: Call)
    requires Tracks(z, granted, cfg, call.at)
    ensures var found := Trim(cfg, Present(z, call), call.Second());
            && found == Trim(cfg, granted, call.Second())
            && found == Trim(cfg, z.members, call.Second())
  {
    if call.at >= z.deadline {
      ExpiredMeansEmpty(z, cfg, call.at);
    }
  }

  lemma DeadlineCovers(cfg: Config, m: nat, at: nat)
    requires m <= at / NS
    ensures (m + Ttl(cfg)) * NS <= at + Ttl(cfg) * NS
  {}

  lemma TracksTrimmed(z: Zset, granted: set<nat>, cfg: Config, at: nat)
    requires Tracks(z, granted, cfg, at)
    ensures Tracks(Zset(Trim(cfg, z.members, at / NS), z.deadline), granted, cfg, at)
  {
    forall later | later >= at / NS
      ensures Trim(cfg, Trim(cfg, z.members, at / NS), later) == Trim(cfg, granted, later)
    {
      TrimTwice(cfg, z.members, at / NS, later);
    }
  }

  lemma TracksAdmission(z: Zset, granted: set<nat>, cfg: Config, at: nat)
    requires Tracks(z, granted, cfg, at)
    ensures Tracks(Zset(z.members + {at / NS}, at + Ttl(cfg) * NS), granted + {at / NS}, cfg, at)
  {
    var now := at / NS;
    forall later | later >= now
      ensures Trim(cfg, z.members + {now}, later) == Trim(cfg, granted + {now}, later)
    {
      TrimAdd(cfg, z.members, now, later);
      TrimAdd(cfg, granted, now, later);
    }
    forall m | m in z.members + {now} ensures (m + Ttl(cfg)) * NS <= at + Ttl(cfg) * NS {
      assert m in z.members || m == now;
      DeadlineCovers(cfg, m, at);
    }
  }

  lemma TracksStep(z: Zset, granted: set<nat>, cfg: Config, call: Call)
    requires Tracks(z, granted, cfg, call.at)
    ensures var (z', answer) := Script(z, cfg, call);
            Tracks(z', if answer.allowed then granted + {call.Second()} else granted, cfg, call.at)
  {
    PresentTrimmed(z, granted, cfg, call);
    TracksTrimmed(z, granted, cfg, call.at);
    TracksAdmission(Zset(Trim(cfg, z.members, call.Second()), z.deadline), granted, cfg, call.at);
  }

  /** The sorted set is, at any later instant, exactly the admitted seconds that are still in the window. */
  lemma {:induction false} HoldsExactlyTheLiveGrants(cfg: Config, calls: seq<Call>, at: nat)
    requires NotAfter(calls, at)
    ensures Tracks(Run(cfg, calls), GrantedSeconds(cfg, calls), cfg, at)
  {
    if calls != [] {
      var before, call := calls[..|calls|-1], calls[|calls|-1];
      HoldsExactlyTheLiveGrants(cfg, before, call.at);
      TracksStep(Run(cfg, before), GrantedSeconds(cfg, before), cfg, call);
      Later(Run(cfg, calls), GrantedSeconds(cfg, calls), cfg, call.at, at);
    }
  }

  /** What a call finds in the set, whether or not Redis expired the key first. */
  lemma FindsLiveGrants(cfg: Config, calls: seq<Call>, call: Call)
    requires NotAfter(calls, call.at)
    ensures var found := Trim(cfg, Present(Run(cfg, calls), call), call.Second());
            && found == Trim(cfg, GrantedSeconds(cfg, calls), call.Second())
            && found == Trim(cfg, Run(cfg, calls).members, call.Second())
  {
    HoldsExactlyTheLiveGrants(cfg, calls, call.at);
    PresentTrimmed(Run(cfg, calls), GrantedSeconds(cfg, calls), cfg, call);
  }

  // ---- The guarantees -----------------------------------------------------------------------------

  lemma SameScript(z: Zset, cfg: Config, call: Call, call': Call)
    requires call.at == call'.at
    requires Trim(cfg, Present(z, call), call.Second()) == Trim(cfg, Present(z, call'), call.Second())
    ensures Script(z, cfg, call) == Script(z, cfg, call')
  {}

  /** Whether Redis has dropped an expired key or not makes no difference: any two histories that differ only in
      when expiry fired give the next call the same answer and leave the same set. */
  lemma {:induction false} ExpiryIsUnobservable(cfg: Config, calls: seq<Call>, other: seq<Call>, next: Call, next': Call)
    requires |calls| == |other| && Ordered(calls + [next]) && next.at == next'.at
    requires forall i :: 0 <= i < |calls| ==> calls[i].at == other[i].at
    ensures Run(cfg, calls) == Run(cfg, other)
    ensures Script(Run(cfg, calls), cfg, next) == Script(Run(cfg, other), cfg, next')
  {
    Prefix(calls, next);
    if calls != [] {
      var n := |calls| - 1;
      assert calls == calls[..n] + [calls[n]];
      ExpiryIsUnobservable(cfg, calls[..n], other[..n], calls[n], other[n]);
    }
    FindsLiveGrants(cfg, calls, next);
    FindsLiveGrants(cfg, calls, next');
    SameScript(Run(cfg, calls), cfg, next, next');
  }

  function Between(s: set<nat>, lo: nat, hi: nat): set<nat> {
    set m | m in s && lo <= m <= hi
  }

  lemma BetweenAdd(s: set<nat>, x: nat, lo: nat, hi: nat)
    ensures Between(s + {x}, lo, hi) == Between(s, lo, hi) + if lo <= x <= hi then {x} else {}
  {}

  /** At most `limit` distinct seconds are admitted in any span shorter than the window. */
  lemma {:induction false} WindowBound(cfg: Config, calls: seq<Call>, lo: nat, hi: nat)
    requires Ordered(calls) && (hi - lo) * NS < cfg.window
    ensures |Between(GrantedSeconds(cfg, calls), lo, hi)| <= if cfg.limit < 0 then 0 else cfg.limit
  {
    if calls == [] {
      assert Between({}, lo, hi) == {};
    } else {
      var before, call := calls[..|calls|-1], calls[|calls|-1];
      var granted, now := GrantedSeconds(cfg, before), call.Second();
      WindowBound(cfg, before, lo, hi);
      if Ask(cfg, before, call).allowed {
        BetweenAdd(granted, now, lo, hi);
        if lo <= now <= hi {
          FindsLiveGrants(cfg, before, call);
          SpanIsLive(cfg, granted, lo, hi, now);
          SubsetSize(Between(granted, lo, hi), Trim(cfg, granted, now));
        }
      } else {
        assert GrantedSeconds(cfg, calls) == granted;
      }
    }
  }

  lemma SpanIsLive(cfg: Config, s: set<nat>, lo: nat, hi: nat, now: nat)
    requires lo <= now <= hi && (hi - lo) * NS < cfg.window
    ensures Between(s, lo, hi) <= Trim(cfg, s, now)
  {}

  lemma {:induction false} NeverOverfull(cfg: Config, calls: seq<Call>)
    ensures |Run(cfg, calls).members| <= if cfg.limit < 0 then 0 else cfg.limit
  {
    if calls != [] {
      var before, call := calls[..|calls|-1], calls[|calls|-1];
      NeverOverfull(cfg, before);
      var z := Run(cfg, before);
      SubsetSize(Trim(cfg, Present(z, call), call.Second()), z.members);
    }
  }

  /** While its oldest member is in the window, a full set denies and is left as it was. */
  lemma StillFull(cfg: Config, calls: seq<Call>, call: Call, run: seq<Call>, next: Call)
    requires Ordered(run + [next])
    requires !Ask(cfg, calls, call).allowed && Run(cfg, run) == Run(cfg, calls + [call])
    requires next.Second() < call.Second() + Ask(cfg, calls, call).retryAfter
    ensures Script(Run(cfg, run), cfg, next).0 == Run(cfg, run)
    ensures !Ask(cfg, run, next).allowed
  {
    assert (calls + [call])[..|calls|] == calls;
    var z := Run(cfg, run);
    if cfg.limit < 1 {
      NeverOverfull(cfg, run);
      assert z.members == {} && Trim(cfg, {}, next.Second()) == {};
    } else {
      Prefix(run, next);
      FindsLiveGrants(cfg, run, next);
      var oldest := Least(z.members);
      assert Live(cfg, oldest, next.Second());
      assert Trim(cfg, z.members, next.Second()) == z.members;
    }
  }

  /** Up to the hinted second a denied caller's set is left as it was. */
  lemma {:induction false} UnchangedUntilRetry(cfg: Config, calls: seq<Call>, call: Call, more: seq<Call>)
    requires Ordered(calls + [call] + more)
    requires !Ask(cfg, calls, call).allowed
    requires forall c :: c in more ==> c.Second() < call.Second() + Ask(cfg, calls, call).retryAfter
    ensures Run(cfg, calls + [call] + more) == Run(cfg, calls + [call])
  {
    var run := calls + [call];
    if more == [] {
      assert run + more == run;
    } else {
      var init, last := more[..|more|-1], more[|more|-1];
      AppendSplits(run, more);
      OrderedPart(run, init, [last]);
      UnchangedUntilRetry(cfg, calls, call, init);
      StillFull(cfg, calls, call, run + init, last);
    }
  }

  /** After a denial every request in an earlier second than the hinted one is denied too, and the set left as it was. */
  lemma {:induction false} DeniedUntilRetry(cfg: Config, calls: seq<Call>, call: Call, more: seq<Call>, next: Call)
    requires Ordered(calls + [call] + more + [next])
    requires !Ask(cfg, calls, call).allowed
    requires forall c :: c in more ==> c.Second() < call.Second() + Ask(cfg, calls, call).retryAfter
    requires next.Second() < call.Second() + Ask(cfg, calls, call).retryAfter
    ensures !Ask(cfg, calls + [call] + more, next).allowed
    ensures Run(cfg, calls + [call] + more) == Run(cfg, calls + [call])
  {
    OrderedPart(calls + [call], more, [next]);
    UnchangedUntilRetry(cfg, calls, call, more);
    StillFull(cfg, calls, call, calls + [call] + more, next);
  }

  /** The first request at or after the hinted second is admitted, exactly when a positive limit is configured and
      either the window is a whole number of seconds (the hint is truncated to seconds) or that second has passed. */
  lemma AdmittedAfterRetry(cfg: Config, calls: seq<Call>, call: Call, more: seq<Call>, next: Call)
    requires Ordered(calls + [call] + more + [next])
    requires !Ask(cfg, calls, call).allowed
    requires var hinted := call.Second() + Ask(cfg, calls, call).retryAfter;
             next.Second() >= hinted && forall c :: c in more ==> c.Second() < hinted
    ensures var hinted := call.Second() + Ask(cfg, calls, call).retryAfter;
            Ask(cfg, calls + [call] + more, next).allowed
            <==> cfg.limit >= 1 && (cfg.window % NS == 0 || next.Second() > hinted)
  {
    if cfg.limit >= 1 {
      var run := calls + [call];
      OrderedPart(run, more, [next]);
      UnchangedUntilRetry(cfg, calls, call, more);
      Prefix(run + more, next);
      FindsLiveGrants(cfg, run + more, next);
      DeniedIsFull(cfg, calls, call);
      OldestLeaves(Run(cfg, run), cfg, call.Second(), next.Second());
    }
  }

  /** A denial finds, and leaves, exactly `limit` members, all in the window, and hints at the oldest one's exit. */
  lemma DeniedIsFull(cfg: Config, calls: seq<Call>, call: Call)
    requires cfg.limit >= 1 && !Ask(cfg, calls, call).allowed
    ensures var z := Run(cfg, calls + [call]);
            && |z.members| == cfg.limit && z.members == Trim(cfg, z.members, call.Second())
            && Ask(cfg, calls, call).retryAfter == (Least(z.members) * NS + cfg.window - call.Second() * NS) / NS
  {
    assert (calls + [call])[..|calls|] == calls;
    NeverOverfull(cfg, calls + [call]);
  }

  /** The oldest member leaves a full set, and makes room in it, exactly when the hint says so. */
  lemma OldestLeaves(z: Zset, cfg: Config, now: nat, later: nat)
    requires cfg.limit >= 1 && |z.members| == cfg.limit
    requires z.members == Trim(cfg, z.members, now)
    requires later >= now + (Least(z.members) * NS + cfg.window - now * NS) / NS
    ensures |Trim(cfg, z.members, later)| < cfg.limit
            <==> cfg.window % NS == 0 || later > now + (Least(z.members) * NS + cfg.window - now * NS) / NS
  {
    var oldest := Least(z.members);
    var kept := Trim(cfg, z.members, later);
    assert (oldest * NS + cfg.window - now * NS) / NS == oldest - now + cfg.window / NS;
    if Live(cfg, oldest, later) {
      assert kept == z.members;
    } else {
      SubsetSize(kept, z.members - {oldest});
    }
  }

  /** Of the seconds up to now, stats count those the script counts and at most one more, at the far end. */
  lemma CountedAtMostOneMore(cfg: Config, at: nat, m: nat)
    requires m <= at / NS
    ensures Live(cfg, m, at / NS) ==> (at - cfg.window) / NS <= m
    ensures (at - cfg.window) / NS < m ==> Live(cfg, m, at / NS)
  {}

  /** The second at the far end is a member that stats still count and the script has let go. */
  predicate StillCounted(cfg: Config, members: set<nat>, at: nat) {
    var edge := (at - cfg.window) / NS;
    edge >= 0 && edge in members && !Live(cfg, edge, at / NS)
  }

  lemma CountedIsLiveAndEdge(cfg: Config, members: set<nat>, at: nat)
    requires forall m :: m in members ==> m <= at / NS
    ensures |Counted(members, cfg, at)| == |Trim(cfg, members, at / NS)| + if StillCounted(cfg, members, at) then 1 else 0
  {
    var edge, live, counted := (at - cfg.window) / NS, Trim(cfg, members, at / NS), Counted(members, cfg, at);
    forall m | m in members ensures m in counted <==> m in live || m == edge {
      CountedAtMostOneMore(cfg, at, m);
    }
    if StillCounted(cfg, members, at) {
      assert counted == live + {edge};
    } else {
      assert counted == live;
    }
  }

  lemma StatsAgainstScript(z: Zset, cfg: Config, call: Call)
    requires forall m :: m in z.members ==> m <= call.Second()
    ensures var edge, members := (call.at - cfg.window) / NS, Present(z, call);
            && (Stats(z, cfg, call).0 ==> Script(z, cfg, call).1.allowed)
            && (Stats(z, cfg, call).0 != Script(z, cfg, call).1.allowed
                <==> edge >= 0 && edge in members && !Live(cfg, edge, call.Second())
                     && |Trim(cfg, members, call.Second())| == cfg.limit - 1)
  {
    CountedIsLiveAndEdge(cfg, Present(z, call), call.at);
  }

  /** After every history GetStats never promises more than Allow grants, and the two disagree exactly when one more
      admission would fill the limit and the second at the far end of the window is a member that stats still count and
      the script has let go. This holds for any window, and whether or not Redis has dropped the key. */
  lemma StatsAgainstAllow(cfg: Config, calls: seq<Call>, call: Call)
    requires NotAfter(calls, call.at)
    ensures var z, edge := Run(cfg, calls), (call.at - cfg.window) / NS;
            var members := Present(z, call);
            && (Stats(z, cfg, call).0 ==> Ask(cfg, calls, call).allowed)
            && (Stats(z, cfg, call).0 != Ask(cfg, calls, call).allowed
                <==> edge >= 0 && edge in members && !Live(cfg, edge, call.Second())
                     && |Trim(cfg, members, call.Second())| == cfg.limit - 1)
  {
    HoldsExactlyTheLiveGrants(cfg, calls, call.at);
    StatsAgainstScript(Run(cfg, calls), cfg, call);
  }

  /** Where they disagree: with a limit of one and one admission before, Allow grants what stats deny. For a window of one
      second, admitted at 0.5 and asked at 1.2 seconds; of a second and a half, admitted at 0.9 and asked at 2.3. */
  lemma StatsDenyWhatAllowGrants(cfg: Config, first: Call, next: Call)
    requires || (cfg, first, next) == (Config(1, NS), Call(500_000_000, false), Call(1_200_000_000, false))
             || (cfg, first, next) == (Config(1, 1_500_000_000), Call(900_000_000, false), Call(2_300_000_000, false))
    ensures Ask(cfg, [first], next).allowed && !Stats(Run(cfg, [first]), cfg, next).0
  {
    AdmittedOnce(cfg, first);
    assert first.Second() == 0;
    assert Trim(cfg, {0}, next.Second()) == {};
    StatsAgainstScript(Run(cfg, [first]), cfg, next);
  }

  lemma AdmittedOnce(cfg: Config, call: Call)
    requires cfg.limit >= 1
    ensures Run(cfg, [call]) == Zset({call.Second()}, call.at + Ttl(cfg) * NS)
  {
    assert [call][..0] == [];
    assert Trim(cfg, Present(ABSENT, call), call.Second()) == {};
    assert {} + {call.Second()} == {call.Second()};
  }

  // ---- The numbers in an answer -------------------------------------------------------------------------

  function WithinWindow(cfg: Config, seconds: set<nat>, at: nat): set<nat> {
    set m | m in seconds && at / 1_000_000_000 * 1_000_000_000 - m * 1_000_000_000 < cfg.window
  }

  lemma WithinWindowIsTrim(cfg: Config, seconds: set<nat>, at: nat)
    ensures WithinWindow(cfg, seconds, at) == Trim(cfg, seconds, at / NS)
  {}

  /** The admitted seconds less than a window before the second of the instant. */
  function Recent(cfg: Config, calls: seq<Call>, at: nat): set<nat> {
    WithinWindow(cfg, GrantedSeconds(cfg, calls), at)
  }

  lemma FindsRecent(cfg: Config, calls: seq<Call>, call: Call)
    requires NotAfter(calls, call.at)
    ensures Trim(cfg, Present(Run(cfg, calls), call), call.Second()) == Recent(cfg, calls, call.at)
  {
    FindsLiveGrants(cfg, calls, call);
    WithinWindowIsTrim(cfg, GrantedSeconds(cfg, calls), call.at);
  }

  /** Every answer, from the admitted seconds alone: a call is admitted exactly if fewer than limit of them are recent, and
      is told what remains of the limit after the recent seconds and itself. */
  lemma AnswersExactly(cfg: Config, calls: seq<Call>, call: Call)
    requires NotAfter(calls, call.at)
    ensures var a, recent := Ask(cfg, calls, call), |Recent(cfg, calls, call.at)|;
            && (a.allowed <==> recent < cfg.limit)
            && a.remaining == (if recent < cfg.limit then cfg.limit - recent - 1 else 0)
            && a.resetAt == call.at / 1_000_000_000 + cfg.window / 1_000_000_000
  {
    FindsRecent(cfg, calls, call);
  }

  lemma RecentAfterAdmission(cfg: Config, calls: seq<Call>, call: Call)
    requires Ask(cfg, calls, call).allowed && cfg.window > 0
    ensures Recent(cfg, calls + [call], call.at) == Recent(cfg, calls, call.at) + {call.Second()}
  {
    assert (calls + [call])[..|calls|] == calls;
  }

  /** What remains after an admission is what was told, except that a second already admitted is counted twice: then one
      more second is still to be had. */
  lemma RemainingAfterAdmission(cfg: Config, calls: seq<Call>, call: Call)
    requires NotAfter(calls, call.at) && Ask(cfg, calls, call).allowed && cfg.window > 0
    ensures cfg.limit - |Recent(cfg, calls + [call], call.at)| ==
            Ask(cfg, calls, call).remaining + if call.at / 1_000_000_000 in GrantedSeconds(cfg, calls) then 1 else 0
  {
    AnswersExactly(cfg, calls, call);
    RecentAfterAdmission(cfg, calls, call);
    var now, recent := call.Second(), Recent(cfg, calls, call.at);
    assert now in recent <==> now in GrantedSeconds(cfg, calls);
    if now in recent {
      assert recent + {now} == recent;
    }
  }

  function Remaining(limit: int, counted: nat): (bool, nat) {
    (counted < limit, if counted < limit then limit - counted else 0)
  }

  lemma StatsCount(z: Zset, cfg: Config, call: Call, recent: set<nat>)
    requires forall m :: m in z.members ==> m <= call.Second()
    requires !(call.expired && call.at >= z.deadline) && Trim(cfg, z.members, call.Second()) == recent
    ensures Stats(z, cfg, call) == Remaining(cfg.limit, |recent| + if StillCounted(cfg, z.members, call.at) then 1 else 0)
  {
    CountedIsLiveAndEdge(cfg, z.members, call.at);
  }

  lemma FoundIsRecent(cfg: Config, calls: seq<Call>, at: nat)
    requires NotAfter(calls, at)
    ensures Trim(cfg, Run(cfg, calls).members, at / NS) == Recent(cfg, calls, at)
    ensures forall m :: m in Run(cfg, calls).members ==> m <= at / NS
  {
    HoldsExactlyTheLiveGrants(cfg, calls, at);
    WithinWindowIsTrim(cfg, GrantedSeconds(cfg, calls), at);
  }

  /** What stats say remains is the limit less what they count: the recent seconds, and the one at the far end if it is
      still there. The key has not been dropped. */
  lemma StatsRemaining(cfg: Config, calls: seq<Call>, call: Call)
    requires NotAfter(calls, call.at) && !(call.expired && call.at >= Run(cfg, calls).deadline)
    ensures Stats(Run(cfg, calls), cfg, call) ==
            Remaining(cfg.limit, |Recent(cfg, calls, call.at)| + if StillCounted(cfg, Run(cfg, calls).members, call.at) then 1 else 0)
  {
    FoundIsRecent(cfg, calls, call.at);
    StatsCount(Run(cfg, calls), cfg, call, Recent(cfg, calls, call.at));
  }

  /** Of a key that Redis has dropped stats count nothing. */
  lemma StatsOfDropped(cfg: Config, calls: seq<Call>, call: Call)
    requires call.expired && call.at >= Run(cfg, calls).deadline
    ensures Stats(Run(cfg, calls), cfg, call) == Remaining(cfg.limit, 0)
  {
    assert Counted({}, cfg, call.at) == {};
  }

  /** An admission sets the expiry to the least whole number of seconds that is at least a window. */
  lemma AdmissionExpires(cfg: Config, calls: seq<Call>, call: Call)
    requires Ask(cfg, calls, call).allowed
    ensures var z := Run(cfg, calls + [call]);
            && call.Second() in z.members
            && cfg.window <= z.deadline - call.at < cfg.window + NS && (z.deadline - call.at) % NS == 0
  {
    assert (calls + [call])[..|calls|] == calls;
  }
}
