/**
 The in-memory rate limiter: per key, a log of admitted instants that is pruned on every call. The reference it is
 compared with never forgets: it keeps every admission of one key and looks at no other key.
 */
module SlidingLog {
  datatype Config = Config(limit: int, window: int)

  datatype Call = Call(key: string, at: int)

  /** The instants less than a window before now, in order. */
  function Recent(times: seq<int>, now: int, window: int): (r: seq<int>)
    ensures |r| <= |times|
  {
    if times == [] then []
    else
      var last := times[|times|-1];
      Recent(times[..|times|-1], now, window) + if now - last < window then [last] else []
  }

  // ---- The limiter as written ---------------------------------------------------------------------

  type Table = map<string, seq<int>>

  function LogOf(t: Table, key: string): seq<int> {
    if key in t then t[key] else []
  }

  function Decide(t: Table, cfg: Config, call: Call): bool {
    |Recent(LogOf(t, call.key), call.at, cfg.window)| < cfg.limit
  }

  function Step(t: Table, cfg: Config, call: Call): Table {
    var valid := Recent(LogOf(t, call.key), call.at, cfg.window);
    if |valid| < cfg.limit then t[call.key := valid + [call.at]]
    else if call.key in t then t[call.key := valid]
    else t
  }

  function Run(cfg: Config, calls: seq<Call>): Table {
    if calls == [] then map[] else Step(Run(cfg, calls[..|calls|-1]), cfg, calls[|calls|-1])
  }

  class SimpleRateLimiter {
    var requests: map<string, seq<int>>
    const limit: int
    const window: int

    constructor (limit: int, window: int)
      ensures this.limit == limit && this.window == window && requests == Run(Config(limit, window), [])
    {
      this.limit, this.window := limit, window;
      requests := map[];
    }

    method Allow(key: string, now: int) returns (ok: bool)
      modifies this
      ensures ok == Decide(old(requests), Config(limit, window), Call(key, now))
      ensures requests == Step(old(requests), Config(limit, window), Call(key, now))
    {
      if key in requests {
        var logged, valid := requests[key], [];
        for i := 0 to |logged|
          invariant valid == Recent(logged[..i], now, window)
        {
          assert logged[..i + 1][..i] == logged[..i];
          if now - logged[i] < window {
            valid := valid + [logged[i]];
          }
        }
        assert logged[..|logged|] == logged;
        requests := requests[key := valid];
      }
      var recent := if key in requests then requests[key] else [];
      if |recent| < limit {
        requests := requests[key := recent + [now]];
        return true;
      }
      return false;
    }
  }

  // ---- The reference ------------------------------------------------------------------------------

  /** Every instant at which the key was ever admitted, if nothing is pruned and no other key is looked at. */
  function Admissions(cfg: Config, calls: seq<Call>, key: string): seq<int> {
    if calls == [] then []
    else
      var before, call := Admissions(cfg, calls[..|calls|-1], key), calls[|calls|-1];
      if call.key == key && |Recent(before, call.at, cfg.window)| < cfg.limit then before + [call.at] else before
  }

  ghost predicate Ordered(calls: seq<Call>) {
    forall i, j :: 0 <= i <= j < |calls| ==> calls[i].at <= calls[j].at
  }

  /** How many of the instants lie in the closed span from lo to hi. */
  function InSpan(times: seq<int>, lo: int, hi: int): nat {
    if times == [] then 0
    else InSpan(times[..|times|-1], lo, hi) + if lo <= times[|times|-1] <= hi then 1 else 0
  }

  lemma {:induction false} RecentAppend(times: seq<int>, x: int, now: int, window: int)
    ensures Recent(times + [x], now, window) == Recent(times, now, window) + if now - x < window then [x] else []
  {
    assert (times + [x])[..|times|] == times;
  }

  /** Pruning now loses nothing a later look would count. */
  lemma {:induction false} PruneThenLook(times: seq<int>, now: int, later: int, window: int)
    requires now <= later
    ensures Recent(Recent(times, now, window), later, window) == Recent(times, later, window)
  {
    if times != [] {
      var init, last := times[..|times|-1], times[|times|-1];
      PruneThenLook(init, now, later, window);
      var kept := Recent(init, now, window);
      if now - last < window {
        RecentAppend(kept, last, later, window);
      } else {
        assert Recent(times, now, window) == kept + [] == kept;
      }
    }
  }

  /** One admission or denial keeps two logs alike that looked alike. */
  lemma AlikeAfter(kept: seq<int>, full: seq<int>, at: int, now: int, window: int)
    requires at <= now && Recent(kept, now, window) == Recent(full, now, window)
    ensures Recent(Recent(kept, at, window), now, window) == Recent(full, now, window)
    ensures Recent(Recent(kept, at, window) + [at], now, window) == Recent(full + [at], now, window)
  {
    PruneThenLook(kept, at, now, window);
    RecentAppend(full, at, now, window);
    RecentAppend(Recent(kept, at, window), at, now, window);
  }

  /** The pruned log and the complete history look alike from any later instant. */
  lemma {:induction false} PrunedLogAgrees(cfg: Config, calls: seq<Call>, key: string, now: int)
    requires Ordered(calls)
    requires calls == [] || calls[|calls|-1].at <= now
    ensures Recent(LogOf(Run(cfg, calls), key), now, cfg.window) == Recent(Admissions(cfg, calls, key), now, cfg.window)
  {
    if calls != [] {
      var before, call := calls[..|calls|-1], calls[|calls|-1];
      PrunedLogAgrees(cfg, before, key, now);
      if call.key == key {
        PrunedLogAgrees(cfg, before, key, call.at);
        AlikeAfter(LogOf(Run(cfg, before), key), Admissions(cfg, before, key), call.at, now, cfg.window);
      }
    }
  }

  // ---- The guarantees -----------------------------------------------------------------------------

  /** Every decision is the one the complete, unpruned history of that key alone would give. */
  lemma DecidesAsUnpruned(cfg: Config, calls: seq<Call>, call: Call)
    requires Ordered(calls + [call])
    ensures Decide(Run(cfg, calls), cfg, call)
            <==> |Recent(Admissions(cfg, calls, call.key), call.at, cfg.window)| < cfg.limit
  {
    assert forall i :: 0 <= i < |calls| ==> (calls + [call])[i] == calls[i];
    assert (calls + [call])[|calls|] == call;
    PrunedLogAgrees(cfg, calls, call.key, call.at);
  }

  /** The instants at which the limiter as written answered yes to the key. */
  function Granted(cfg: Config, calls: seq<Call>, key: string): seq<int> {
    if calls == [] then []
    else
      var before, call := calls[..|calls|-1], calls[|calls|-1];
      Granted(cfg, before, key) + if call.key == key && Decide(Run(cfg, before), cfg, call) then [call.at] else []
  }

  lemma {:induction false} GrantedAreAdmissions(cfg: Config, calls: seq<Call>, key: string)
    requires Ordered(calls)
    ensures Granted(cfg, calls, key) == Admissions(cfg, calls, key)
  {
    if calls != [] {
      var before, call := calls[..|calls|-1], calls[|calls|-1];
      GrantedAreAdmissions(cfg, before, key);
      assert calls == before + [call];
      DecidesAsUnpruned(cfg, before, call);
    }
  }

  function Only(calls: seq<Call>, key: string): seq<Call> {
    if calls == [] then []
    else Only(calls[..|calls|-1], key) + if calls[|calls|-1].key == key then [calls[|calls|-1]] else []
  }

  /** Deleting every other key's calls changes neither the key's log nor any answer it got. */
  lemma {:induction false} KeysAreIndependent(cfg: Config, calls: seq<Call>, key: string)
    ensures LogOf(Run(cfg, Only(calls, key)), key) == LogOf(Run(cfg, calls), key)
    ensures Granted(cfg, Only(calls, key), key) == Granted(cfg, calls, key)
  {
    if calls != [] {
      var before, call := calls[..|calls|-1], calls[|calls|-1];
      KeysAreIndependent(cfg, before, key);
      var kept := Only(before, key);
      if call.key == key {
        assert (kept + [call])[..|kept|] == kept;
      } else {
        assert Only(calls, key) == kept + [] == kept;
      }
    }
  }

  lemma {:induction false} SpanWithinRecent(times: seq<int>, lo: int, hi: int, now: int, window: int)
    requires now - lo < window
    ensures InSpan(times, lo, hi) <= |Recent(times, now, window)|
  {
    if times != [] {
      SpanWithinRecent(times[..|times|-1], lo, hi, now, window);
    }
  }

  lemma {:induction false} AdmissionsBound(cfg: Config, calls: seq<Call>, key: string, lo: int, hi: int)
    requires hi - lo < cfg.window
    ensures InSpan(Admissions(cfg, calls, key), lo, hi) <= if cfg.limit < 0 then 0 else cfg.limit
  {
    if calls != [] {
      var before, call := calls[..|calls|-1], calls[|calls|-1];
      AdmissionsBound(cfg, before, key, lo, hi);
      var earlier := Admissions(cfg, before, key);
      if Admissions(cfg, calls, key) != earlier {
        assert (earlier + [call.at])[..|earlier|] == earlier;
        if lo <= call.at <= hi {
          SpanWithinRecent(earlier, lo, hi, call.at, cfg.window);
        }
      }
    }
  }

  /** At most `limit` calls of a key are granted in any span shorter than the window: for integer instants these are
      the half-open spans of length `window`, open at either end. */
  lemma WindowBound(cfg: Config, calls: seq<Call>, key: string, lo: int, hi: int)
    requires Ordered(calls) && hi - lo < cfg.window
    ensures InSpan(Granted(cfg, calls, key), lo, hi) <= if cfg.limit < 0 then 0 else cfg.limit
  {
    GrantedAreAdmissions(cfg, calls, key);
    AdmissionsBound(cfg, calls, key, lo, hi);
  }

  // ---- The decision, from earlier answers alone ----------------------------------------------------------

  /** The earlier calls of the key that were granted less than a window before now. */
  function GrantedWithin(cfg: Config, calls: seq<Call>, key: string, now: int): set<nat> {
    set i: nat | i < |calls| && calls[i].key == key && now - calls[i].at < cfg.window
                 && Decide(Run(cfg, calls[..i]), cfg, calls[i])
  }

  lemma GrantedWithinStep(cfg: Config, calls: seq<Call>, last: Call, key: string, now: int)
    ensures GrantedWithin(cfg, calls + [last], key, now) ==
            if last.key == key && now - last.at < cfg.window && Decide(Run(cfg, calls), cfg, last) then
              GrantedWithin(cfg, calls, key, now) + {|calls|}
            else GrantedWithin(cfg, calls, key, now)
  {
    var longer := calls + [last];
    assert forall i: nat :: i <= |calls| ==> longer[..i] == calls[..i];
    assert calls[..|calls|] == calls;
  }

  lemma {:induction false} RecentCountsGrants(cfg: Config, calls: seq<Call>, key: string, now: int)
    ensures |Recent(Granted(cfg, calls, key), now, cfg.window)| == |GrantedWithin(cfg, calls, key, now)|
  {
    if calls != [] {
      var before, call := calls[..|calls|-1], calls[|calls|-1];
      assert calls == before + [call];
      RecentCountsGrants(cfg, before, key, now);
      GrantedWithinStep(cfg, before, call, key, now);
      if call.key == key && Decide(Run(cfg, before), cfg, call) {
        RecentAppend(Granted(cfg, before, key), call.at, now, cfg.window);
      } else {
        assert Granted(cfg, calls, key) == Granted(cfg, before, key);
      }
    }
  }

  /** A call is granted exactly if fewer than limit earlier calls of its key were granted less than a window before it. */
  lemma DecidesExactly(cfg: Config, calls: seq<Call>, call: Call)
    requires Ordered(calls + [call])
    ensures Decide(Run(cfg, calls), cfg, call) <==> |GrantedWithin(cfg, calls, call.key, call.at)| < cfg.limit
  {
    assert forall i :: 0 <= i < |calls| ==> (calls + [call])[i] == calls[i];
    DecidesAsUnpruned(cfg, calls, call);
    GrantedAreAdmissions(cfg, calls, call.key);
    RecentCountsGrants(cfg, calls, call.key, call.at);
  }
}
