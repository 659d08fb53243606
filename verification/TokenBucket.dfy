/**
 The Redis token bucket: a hash of two fields per key, read and written by one atomic script. Refill is kept as the
 exact fraction limit / window where the program hands Redis a floating-point rate; the script floors it.
 */
module TokenBucket {
  import opened Basics
  import opened RedisCalls

  datatype Settings = Settings(limit: nat, window: nat)

  /** A limiter allows at least one request per window; the window is in nanoseconds. */
  type Config = c: Settings | c.limit >= 1 && c.window >= 1 witness Settings(1, 1)

  datatype Bucket = Missing | Bucket(tokens: int, lastRefill: nat, deadline: nat)

  datatype Answer = Answer(allowed: bool, remaining: int, resetAt: nat, retryAfter: int)

  /** math.floor(seconds * limit / window) */
  function Refill(cfg: Config, seconds: int): int {
    seconds * (NS * cfg.limit) / cfg.window
  }

  /** math.ceil of the seconds that one token takes. */
  function OneToken(cfg: Config): nat {
    (cfg.window + NS * cfg.limit - 1) / (NS * cfg.limit)
  }

  /** math.ceil(capacity / rate): the seconds a full refill takes. */
  function Ttl(cfg: Config): nat {
    (cfg.window + NS - 1) / NS
  }

  function Present(b: Bucket, call: Call): Bucket {
    if b.Bucket? && call.expired && call.at >= b.deadline then Missing else b
  }

  function Available(b: Bucket, cfg: Config, now: nat): int {
    if b.Missing? then cfg.limit
    else
      var filled := b.tokens + Refill(cfg, now - b.lastRefill);
      if filled < cfg.limit then filled else cfg.limit
  }

  function CeilDiv(a: int, b: nat): int
    requires b > 0
  {
    (a + b - 1) / b
  }

  function Script(b: Bucket, cfg: Config, call: Call): (Bucket, Answer) {
    var now := call.Second();
    var tokens := Available(Present(b, call), cfg, now);
    if tokens >= 1 then
      (Bucket(tokens - 1, now, call.at + Ttl(cfg) * NS), Answer(true, tokens - 1, now + 1, 0))
    else
      (Present(b, call), Answer(false, tokens, now + 1, CeilDiv((1 - tokens) * cfg.window, NS * cfg.limit)))
  }

  function Run(cfg: Config, calls: seq<Call>): Bucket {
    if calls == [] then Missing else Script(Run(cfg, calls[..|calls|-1]), cfg, calls[|calls|-1]).0
  }

  function Ask(cfg: Config, calls: seq<Call>, call: Call): Answer {
    Script(Run(cfg, calls), cfg, call).1
  }

  class TokenBucketLimiter {
    var buckets: map<string, Bucket>
    const cfg: Config

    constructor (cfg: Config)
      ensures this.cfg == cfg && buckets == map[]
    {
      this.cfg := cfg;
      buckets := map[];
    }

    function Stored(key: string): Bucket
      reads this
    {
      if key in buckets then buckets[key] else Missing
    }

    method AllowTokenBucket(key: string, at: nat, expired: bool) returns (answer: Answer)
      modifies this
      ensures (Stored(key), answer) == Script(old(Stored(key)), cfg, Call(at, expired))
      ensures forall other :: other != key ==> Stored(other) == old(Stored(other))
    {
      if key in buckets && buckets[key].Bucket? && expired && at >= buckets[key].deadline {
        buckets := buckets - {key};
      }
      var now, tokens, lastRefill := at / NS, cfg.limit as int, at / NS;
      if key in buckets && buckets[key].Bucket? {
        tokens, lastRefill := buckets[key].tokens, buckets[key].lastRefill;
        tokens := tokens + (now - lastRefill) * (NS * cfg.limit) / cfg.window;
        if tokens > cfg.limit {
          tokens := cfg.limit;
        }
      }
      if tokens >= 1 {
        tokens := tokens - 1;
        buckets := buckets[key := Bucket(tokens, now, at + Ttl(cfg) * NS)];
        answer := Answer(true, tokens, now + 1, 0);
      } else {
        answer := Answer(false, tokens, now + 1, CeilDiv((1 - tokens) * cfg.window, NS * cfg.limit));
      }
    }
  }

  // ---- Arithmetic of the refill ---------------------------------------------------------------------

  lemma DivBounds(a: int, w: nat, q: int)
    requires w >= 1
    ensures a / w >= q <==> a >= q * w
  {
    var d := a / w;
    assert d * w <= a < (d + 1) * w;
    if d >= q {
      assert d * w >= q * w;
    } else {
      assert (d + 1) * w <= q * w;
    }
  }

  /** Refilling in two steps never yields more than refilling once. */
  lemma {:induction false} RefillSplits(cfg: Config, a: nat, b: nat)
    ensures Refill(cfg, a) + Refill(cfg, b) <= Refill(cfg, a + b)
    ensures Refill(cfg, a) >= 0
  {
    var k := NS * cfg.limit;
    var x, y := a * k / cfg.window, b * k / cfg.window;
    DivBounds(a * k, cfg.window, x);
    DivBounds(b * k, cfg.window, y);
    assert (a + b) * k == a * k + b * k;
    assert (x + y) * cfg.window == x * cfg.window + y * cfg.window;
    DivBounds((a + b) * k, cfg.window, x + y);
    DivBounds(a * k, cfg.window, 0);
  }

  lemma RefillGrows(cfg: Config, a: nat, b: nat)
    requires a <= b
    ensures 0 <= Refill(cfg, a) <= Refill(cfg, b)
  {
    RefillSplits(cfg, a, b - a);
    RefillSplits(cfg, b - a, 0);
  }

  lemma CeilBounds(w: nat, k: nat)
    requires k >= 1
    ensures var r := (w + k - 1) / k; (r - 1) * k < w <= r * k
  {
    var r := (w + k - 1) / k;
    assert r * k + (w + k - 1) % k == w + k - 1;
    assert (r - 1) * k == r * k - k;
  }

  lemma TimesGrows(x: nat, y: nat, k: nat)
    requires x <= y
    ensures x * k <= y * k
  {}

  lemma CeilReached(w: nat, k: nat, x: nat)
    requires k >= 1
    ensures x * k >= w <==> x >= (w + k - 1) / k
  {
    var r := (w + k - 1) / k;
    CeilBounds(w, k);
    if x >= r {
      TimesGrows(r, x, k);
    } else {
      TimesGrows(x, r - 1, k);
    }
  }

  /** One token is there exactly after the hinted number of seconds. */
  lemma OneTokenTakes(cfg: Config, seconds: nat)
    ensures Refill(cfg, seconds) >= 1 <==> seconds >= OneToken(cfg)
  {
    DivBounds(seconds * (NS * cfg.limit), cfg.window, 1);
    CeilReached(cfg.window, NS * cfg.limit, seconds);
  }

  lemma OneTokenTakesTime(cfg: Config)
    ensures OneToken(cfg) >= 1
  {
    OneTokenTakes(cfg, 0);
    assert Refill(cfg, 0) == 0;
  }

  lemma FullAfterTtl(cfg: Config, seconds: nat)
    requires seconds >= Ttl(cfg)
    ensures Refill(cfg, seconds) >= cfg.limit
  {
    assert seconds * NS >= Ttl(cfg) * NS >= cfg.window;
    assert seconds * (NS * cfg.limit) == (seconds * NS) * cfg.limit;
    assert (seconds * NS) * cfg.limit >= cfg.window * cfg.limit;
    DivBounds(seconds * (NS * cfg.limit), cfg.window, cfg.limit);
  }

  // ---- The invariant ------------------------------------------------------------------------------

  ghost predicate Sound(b: Bucket, cfg: Config, at: nat) {
    b.Bucket? ==>
      && 0 <= b.tokens < cfg.limit
      && b.lastRefill <= at / NS
      && (b.lastRefill + Ttl(cfg)) * NS <= b.deadline
  }

  /** A bucket whose expiry has passed would be full anyway. */
  lemma ExpiredMeansFull(b: Bucket, cfg: Config, call: Call)
    requires Sound(b, cfg, call.at)
    ensures Available(Present(b, call), cfg, call.Second()) == Available(b, cfg, call.Second())
    ensures 0 <= Available(b, cfg, call.Second()) <= cfg.limit
  {
    if b.Bucket? {
      RefillGrows(cfg, 0, call.Second() - b.lastRefill);
      if call.at >= b.deadline {
        FullAfterTtl(cfg, call.Second() - b.lastRefill);
      }
    }
  }

  lemma {:induction false} AlwaysSound(cfg: Config, calls: seq<Call>, at: nat)
    requires NotAfter(calls, at)
    ensures Sound(Run(cfg, calls), cfg, at)
  {
    if calls != [] {
      var before, call := calls[..|calls|-1], calls[|calls|-1];
      AlwaysSound(cfg, before, call.at);
      ExpiredMeansFull(Run(cfg, before), cfg, call);
      assert call.at / NS <= at / NS;
    }
  }

  // ---- The guarantees -----------------------------------------------------------------------------

  lemma AnswerInRange(b: Bucket, cfg: Config, call: Call)
    requires Sound(b, cfg, call.at)
    ensures var a := Script(b, cfg, call).1;
            && 0 <= a.remaining <= cfg.limit
            && (!a.allowed ==> a.remaining == 0 && a.retryAfter == OneToken(cfg))
  {
    ExpiredMeansFull(b, cfg, call);
  }

  /** Every answer leaves between nothing and a full bucket, and a caller is denied only an empty one. */
  lemma TokensStayInRange(cfg: Config, calls: seq<Call>, call: Call)
    requires Ordered(calls + [call])
    ensures var a := Ask(cfg, calls, call);
            && 0 <= a.remaining <= cfg.limit
            && (!a.allowed ==> a.remaining == 0 && a.retryAfter == OneToken(cfg) >= 1)
  {
    Prefix(calls, call);
    AlwaysSound(cfg, calls, call.at);
    AnswerInRange(Run(cfg, calls), cfg, call);
    OneTokenTakesTime(cfg);
  }

  lemma SameScript(b: Bucket, cfg: Config, call: Call, call': Call)
    requires Sound(b, cfg, call.at) && call.at == call'.at
    ensures Script(b, cfg, call) == Script(b, cfg, call')
  {
    ExpiredMeansFull(b, cfg, call);
    ExpiredMeansFull(b, cfg, call');
  }

  /** Two histories that differ only in whether Redis had already dropped expired keys get the same answers, and
      leave the same bucket after every admission. */
  lemma {:induction false} ExpiryIsUnobservable(cfg: Config, calls: seq<Call>, other: seq<Call>, next: Call, next': Call)
    requires |calls| == |other| && Ordered(calls + [next]) && next.at == next'.at
    requires forall i :: 0 <= i < |calls| ==> calls[i].at == other[i].at
    ensures Run(cfg, calls) == Run(cfg, other)
    ensures Script(Run(cfg, calls), cfg, next) == Script(Run(cfg, other), cfg, next')
  {
    Prefix(calls, next);
    if calls != [] {
      var n := |calls| - 1;
      assert calls == calls[..n] + [calls[n]] && other == other[..n] + [other[n]];
      ExpiryIsUnobservable(cfg, calls[..n], other[..n], calls[n], other[n]);
    }
    AlwaysSound(cfg, calls, next.at);
    SameScript(Run(cfg, calls), cfg, next, next');
  }

  /** Admissions in the seconds from lo to hi. */
  function Admitted(cfg: Config, calls: seq<Call>, lo: nat, hi: nat): nat {
    if calls == [] then 0
    else
      var before, call := calls[..|calls|-1], calls[|calls|-1];
      Admitted(cfg, before, lo, hi) +
      if lo <= call.Second() <= hi && Ask(cfg, before, call).allowed then 1 else 0
  }

  /** n admissions in the span from lo were paid for: by a full bucket, or by what has been refilled since. */
  ghost predicate PaidFor(b: Bucket, cfg: Config, n: nat, lo: nat) {
    n > 0 ==> b.Bucket? && lo <= b.lastRefill && n + b.tokens <= cfg.limit + Refill(cfg, b.lastRefill - lo)
  }

  lemma PaidStep(b: Bucket, cfg: Config, call: Call, n: nat, lo: nat)
    requires Sound(b, cfg, call.at) && PaidFor(b, cfg, n, lo)
    ensures var (b', answer) := Script(b, cfg, call);
            PaidFor(b', cfg, n + if lo <= call.Second() && answer.allowed then 1 else 0, lo)
  {
    ExpiredMeansFull(b, cfg, call);
    if Available(b, cfg, call.Second()) >= 1 && lo <= call.Second() {
      RefillGrows(cfg, 0, call.Second() - lo);
      if n > 0 {
        RefillSplits(cfg, b.lastRefill - lo, call.Second() - b.lastRefill);
      }
    }
  }

  lemma {:induction false} Paid(cfg: Config, calls: seq<Call>, lo: nat, hi: nat)
    requires Ordered(calls)
    requires calls != [] ==> calls[|calls|-1].Second() <= hi
    ensures PaidFor(Run(cfg, calls), cfg, Admitted(cfg, calls, lo, hi), lo)
  {
    if calls != [] {
      var before, call := calls[..|calls|-1], calls[|calls|-1];
      if before != [] {
        assert before[|before|-1].at <= call.at;
      }
      Paid(cfg, before, lo, hi);
      AlwaysSound(cfg, before, call.at);
      PaidStep(Run(cfg, before), cfg, call, Admitted(cfg, before, lo, hi), lo);
    }
  }

  /** Any span of T seconds admits at most limit + floor(T * limit / window) requests. */
  lemma {:induction false} SpanBound(cfg: Config, calls: seq<Call>, lo: nat, hi: nat)
    requires Ordered(calls) && lo <= hi
    ensures Admitted(cfg, calls, lo, hi) <= cfg.limit + Refill(cfg, hi - lo)
  {
    RefillGrows(cfg, 0, hi - lo);
    if calls != [] {
      if calls[|calls|-1].Second() > hi {
        SpanBound(cfg, calls[..|calls|-1], lo, hi);
      } else {
        Paid(cfg, calls, lo, hi);
        AlwaysSound(cfg, calls, calls[|calls|-1].at);
        if Admitted(cfg, calls, lo, hi) > 0 {
          RefillGrows(cfg, Run(cfg, calls).lastRefill - lo, hi - lo);
        }
      }
    }
  }

  ghost predicate AllDenied(cfg: Config, calls: seq<Call>, more: seq<Call>)
    decreases |more|
  {
    more == [] || (!Ask(cfg, calls, more[0]).allowed && AllDenied(cfg, calls + [more[0]], more[1..]))
  }

  lemma {:induction false} DenialsChangeNothing(cfg: Config, calls: seq<Call>, more: seq<Call>, next: Call)
    requires Ordered(calls + more + [next]) && AllDenied(cfg, calls, more)
    ensures Run(cfg, calls + more) == Run(cfg, calls)
    decreases |more|
  {
    if more == [] {
      assert calls + more == calls;
    } else {
      var run := calls + [more[0]];
      assert calls + more == run + more[1..];
      DenialsChangeNothing(cfg, run, more[1..], next);
      assert Ordered(run) by {
        assert forall i :: 0 <= i < |run| ==> run[i] == (calls + more + [next])[i];
      }
      Prefix(calls, more[0]);
      AlwaysSound(cfg, calls, more[0].at);
      ExpiredMeansFull(Run(cfg, calls), cfg, more[0]);
    }
  }

  lemma DeniedIsEmpty(b: Bucket, cfg: Config, call: Call)
    requires Sound(b, cfg, call.at) && !Script(b, cfg, call).1.allowed
    ensures b.Bucket? && b.tokens == 0 && Script(b, cfg, call) == (b, Script(b, cfg, call).1)
    ensures Script(b, cfg, call).1.retryAfter == OneToken(cfg)
  {
    ExpiredMeansFull(b, cfg, call);
    EmptyMeansDenied(b, cfg, call.Second());
  }

  lemma EmptyMeansDenied(b: Bucket, cfg: Config, now: nat)
    requires b.Bucket? && 0 <= b.tokens && b.lastRefill <= now && Available(b, cfg, now) == 0
    ensures b.tokens == 0
  {
    RefillGrows(cfg, 0, now - b.lastRefill);
  }

  lemma AdmittedOnceRefilled(b: Bucket, cfg: Config, next: Call)
    requires Sound(b, cfg, next.at) && b.Bucket? && b.tokens == 0
    ensures Script(b, cfg, next).1.allowed <==> next.Second() >= b.lastRefill + OneToken(cfg)
  {
    ExpiredMeansFull(b, cfg, next);
    OneTokenTakes(cfg, next.Second() - b.lastRefill);
  }

  /** A denied caller who waits the returned time, with only denials in between, is admitted. More exactly: it is
      admitted just when that time has passed since the last admission, so the hint is the earliest second only for a
      denial in the same second as that admission, and late by the difference otherwise. */
  lemma {:induction false} RetryAfterSuffices(cfg: Config, calls: seq<Call>, call: Call, more: seq<Call>, next: Call)
    requires Ordered(calls + [call] + more + [next])
    requires !Ask(cfg, calls, call).allowed && AllDenied(cfg, calls + [call], more)
    ensures var b, hint := Run(cfg, calls), Ask(cfg, calls, call).retryAfter;
            && b.Bucket? && b.lastRefill <= call.Second() && LastAdmitted(cfg, calls).Some?
            && b.lastRefill == calls[LastAdmitted(cfg, calls).value].Second()
            && (Ask(cfg, calls + [call] + more, next).allowed <==> next.Second() >= b.lastRefill + hint)
            && (next.Second() >= call.Second() + hint ==> Ask(cfg, calls + [call] + more, next).allowed)
  {
    var run := calls + [call];
    var all := run + more + [next];
    assert Ordered(run) && Ordered(run + more) by {
      assert forall i :: 0 <= i < |run| ==> run[i] == all[i];
      assert forall i :: 0 <= i < |run + more| ==> (run + more)[i] == all[i];
    }
    Prefix(calls, call);
    Prefix(run + more, next);
    AlwaysSound(cfg, calls, call.at);
    var b := Run(cfg, calls);
    DeniedIsEmpty(b, cfg, call);
    assert Run(cfg, run) == b;
    DenialsChangeNothing(cfg, run, more, next);
    AlwaysSound(cfg, run + more, next.at);
    assert call.at <= next.at by {
      assert all[|calls|] == call && all[|all|-1] == next;
    }
    AdmittedOnceRefilled(b, cfg, next);
    OrderedPart(calls, [call], []);
    assert calls + [call] + [] == calls + [call];
    AlwaysRemembers(cfg, calls);
  }

  // ---- How many tokens there are ------------------------------------------------------------------------

  /** The position of the last admitted call. */
  function LastAdmitted(cfg: Config, calls: seq<Call>): (j: Option<nat>)
    ensures j.Some? ==> j.value < |calls| && Ask(cfg, calls[..j.value], calls[j.value]).allowed
  {
    if calls == [] then None
    else
      var n := |calls| - 1;
      if Ask(cfg, calls[..n], calls[n]).allowed then Some(n)
      else
        var j := LastAdmitted(cfg, calls[..n]);
        assert j.Some? ==> calls[..n][..j.value] == calls[..j.value];
        j
  }

  /** What k tokens have grown to between two instants: floor(seconds * limit / window) more, up to the limit. The window
      is in nanoseconds. */
  function Grown(cfg: Config, k: int, since: nat, at: nat): int {
    var seconds := at / 1_000_000_000 - since / 1_000_000_000;
    var tokens := k + seconds * (1_000_000_000 * cfg.limit) / cfg.window;
    if tokens < cfg.limit then tokens else cfg.limit
  }

  /** The tokens a call should find, in terms of earlier answers alone: a full bucket if nothing was admitted before, else
      what has become of those that the last admission left. */
  function Expected(cfg: Config, calls: seq<Call>, call: Call): int {
    var j := LastAdmitted(cfg, calls);
    if j.None? then cfg.limit
    else Grown(cfg, Ask(cfg, calls[..j.value], calls[j.value]).remaining, calls[j.value].at, call.at)
  }

  /** The bucket is what the last admission left. */
  ghost predicate Remembers(b: Bucket, cfg: Config, calls: seq<Call>) {
    var j := LastAdmitted(cfg, calls);
    if j.None? then b.Missing?
    else
      && b.Bucket? && b.tokens == Ask(cfg, calls[..j.value], calls[j.value]).remaining
      && b.lastRefill == calls[j.value].Second()
  }

  lemma LastAdmittedStep(cfg: Config, calls: seq<Call>, call: Call)
    ensures LastAdmitted(cfg, calls + [call]) == if Ask(cfg, calls, call).allowed then Some(|calls|) else LastAdmitted(cfg, calls)
    ensures Run(cfg, calls + [call]) == Script(Run(cfg, calls), cfg, call).0
  {
    assert (calls + [call])[..|calls|] == calls;
  }

  lemma RemembersStep(cfg: Config, calls: seq<Call>, call: Call)
    requires Ordered(calls + [call]) && Remembers(Run(cfg, calls), cfg, calls)
    ensures Remembers(Run(cfg, calls + [call]), cfg, calls + [call])
  {
    var longer := calls + [call];
    LastAdmittedStep(cfg, calls, call);
    Prefix(calls, call);
    AlwaysSound(cfg, calls, call.at);
    var j := LastAdmitted(cfg, calls);
    if Ask(cfg, calls, call).allowed {
      assert longer[|calls|] == call;
    } else {
      DeniedIsEmpty(Run(cfg, calls), cfg, call);
      assert j.Some? ==> longer[..j.value] == calls[..j.value];
    }
  }

  lemma {:induction false} AlwaysRemembers(cfg: Config, calls: seq<Call>)
    requires Ordered(calls)
    ensures Remembers(Run(cfg, calls), cfg, calls)
  {
    if calls != [] {
      var n := |calls| - 1;
      AlwaysRemembers(cfg, calls[..n]);
      assert calls == calls[..n] + [calls[n]];
      RemembersStep(cfg, calls[..n], calls[n]);
    }
  }

  lemma RememberedTokens(b: Bucket, cfg: Config, calls: seq<Call>, call: Call)
    requires Remembers(b, cfg, calls) && Sound(b, cfg, call.at)
    ensures Available(Present(b, call), cfg, call.Second()) == Expected(cfg, calls, call)
  {
    ExpiredMeansFull(b, cfg, call);
  }

  /** Every answer is exactly what the tokens say: a call is admitted if and only if it finds a token, is told how many are
      left after it, and the reset time is the next second. */
  lemma AnswersExactly(cfg: Config, calls: seq<Call>, call: Call)
    requires Ordered(calls + [call])
    ensures var a, found := Ask(cfg, calls, call), Expected(cfg, calls, call);
            && 0 <= found <= cfg.limit
            && (a.allowed <==> found >= 1)
            && a.remaining == (if found >= 1 then found - 1 else 0)
            && a.resetAt == call.at / 1_000_000_000 + 1
  {
    Prefix(calls, call);
    AlwaysSound(cfg, calls, call.at);
    AlwaysRemembers(cfg, calls);
    RememberedTokens(Run(cfg, calls), cfg, calls, call);
    ExpiredMeansFull(Run(cfg, calls), cfg, call);
  }

  /** The key is new, or nothing was admitted for as long as a full refill takes. */
  predicate Rested(cfg: Config, calls: seq<Call>, second: nat) {
    var j := LastAdmitted(cfg, calls);
    j.None? || (second - calls[j.value].Second()) * 1_000_000_000 >= cfg.window
  }

  lemma RestedIsFull(cfg: Config, calls: seq<Call>, call: Call)
    requires Ordered(calls + [call]) && Rested(cfg, calls, call.Second())
    ensures Expected(cfg, calls, call) == cfg.limit
  {
    var j := LastAdmitted(cfg, calls);
    if j.Some? {
      assert forall i :: 0 <= i < j.value + 1 ==> (calls[..j.value] + [calls[j.value]])[i] == (calls + [call])[i];
      AnswersExactly(cfg, calls[..j.value], calls[j.value]);
      var seconds := call.Second() - calls[j.value].Second();
      assert seconds * 1_000_000_000 >= cfg.window;
      assert seconds >= Ttl(cfg);
      FullAfterTtl(cfg, seconds);
    }
  }

  ghost predicate InSecond(calls: seq<Call>, second: nat) {
    forall c :: c in calls ==> c.Second() == second
  }

  /** A burst: of the calls made in one second to a new or rested key, exactly the first `limit` are admitted; they are told
      limit - 1, limit - 2 and so on down to 0. */
  lemma {:induction false} BurstAdmitsLimit(cfg: Config, calls: seq<Call>, burst: seq<Call>, second: nat, call: Call)
    requires Ordered(calls + burst + [call]) && InSecond(burst + [call], second) && Rested(cfg, calls, second)
    ensures Expected(cfg, calls + burst, call) == if |burst| < cfg.limit then cfg.limit - |burst| else 0
    ensures Ask(cfg, calls + burst, call).allowed <==> |burst| < cfg.limit
    ensures Ask(cfg, calls + burst, call).remaining == if |burst| < cfg.limit then cfg.limit - |burst| - 1 else 0
  {
    assert call in burst + [call];
    if burst == [] {
      assert calls + burst == calls;
      RestedIsFull(cfg, calls, call);
    } else {
      var init, last := burst[..|burst|-1], burst[|burst|-1];
      AppendSplits(calls, burst);
      assert forall c :: c in init + [last] ==> c in burst + [call];
      OrderedPart(calls + init, [last], [call]);
      BurstAdmitsLimit(cfg, calls, init, second, last);
      OneSecondLater(cfg, calls + init, last, call);
    }
    AnswersExactly(cfg, calls + burst, call);
  }

  lemma GrownWithinSecond(cfg: Config, k: int, since: nat)
    requires k <= cfg.limit
    ensures Grown(cfg, k, since, since) == k
  {}

  lemma GrownBySecond(cfg: Config, k: int, since: nat, since': nat, at: nat, at': nat)
    requires since / NS == since' / NS && at / NS == at' / NS
    ensures Grown(cfg, k, since, at) == Grown(cfg, k, since', at')
  {}

  lemma ExpectedStep(cfg: Config, calls: seq<Call>, last: Call, call: Call)
    ensures Expected(cfg, calls + [last], call) ==
            if Ask(cfg, calls, last).allowed then Grown(cfg, Ask(cfg, calls, last).remaining, last.at, call.at)
            else Expected(cfg, calls, call)
  {
    var longer, j := calls + [last], LastAdmitted(cfg, calls);
    LastAdmittedStep(cfg, calls, last);
    assert longer[..|calls|] == calls && longer[|calls|] == last;
    assert j.Some? ==> longer[..j.value] == calls[..j.value] && longer[j.value] == calls[j.value];
  }

  /** Within a second nothing is refilled. */
  lemma OneSecondLater(cfg: Config, calls: seq<Call>, last: Call, call: Call)
    requires Ordered(calls + [last]) && last.Second() == call.Second()
    ensures Expected(cfg, calls + [last], call) ==
            if Expected(cfg, calls, last) >= 1 then Expected(cfg, calls, last) - 1 else 0
  {
    var a, j := Ask(cfg, calls, last), LastAdmitted(cfg, calls);
    AnswersExactly(cfg, calls, last);
    ExpectedStep(cfg, calls, last, call);
    if a.allowed {
      GrownBySecond(cfg, a.remaining, last.at, last.at, call.at, last.at);
      GrownWithinSecond(cfg, a.remaining, last.at);
    } else if j.Some? {
      var since := calls[j.value].at;
      GrownBySecond(cfg, Ask(cfg, calls[..j.value], calls[j.value]).remaining, since, since, call.at, last.at);
    }
  }

  /** An admission sets the expiry to the least whole number of seconds that is at least a window. */
  lemma AdmissionExpires(cfg: Config, calls: seq<Call>, call: Call)
    requires Ask(cfg, calls, call).allowed
    ensures var b := Run(cfg, calls + [call]);
            b.Bucket? && cfg.window <= b.deadline - call.at < cfg.window + NS && (b.deadline - call.at) % NS == 0
  {
    assert (calls + [call])[..|calls|] == calls;
  }
}
