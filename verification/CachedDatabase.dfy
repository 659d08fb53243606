/**
 The read-through database on top of the cache. One cached read is three steps that other calls may come between:
 look in the cache, query the database on a miss, store what was read. A row is its JSON encoding; the database's
 answer to a query may change at any time.
 */
module CachedDatabase {
  import opened Basics
  import opened MemoryCache

  type Row = string

  const TTL: nat := 5 * MINUTE

  type CallId = nat

  datatype Event =
    | Write(key: string, row: Option<Row>, at: int)  // the database's answer to the query changes; None is an error
    | Lookup(key: string, at: int)
    | Query(call: CallId, key: string, at: int)
    | Store(call: CallId, order: seq<string>, at: int)
    | Invalidate(at: int)
    | InvalidateKey(key: string, at: int)

  /** A call that has read the database and not stored yet. */
  datatype Flight = Flight(key: string, row: Row)

  function DbAnswer(g: seq<Event>, key: string): Option<Row> {
    if g == [] then None
    else if g[|g|-1].Write? && g[|g|-1].key == key then g[|g|-1].row
    else DbAnswer(g[..|g|-1], key)
  }

  function Flights(g: seq<Event>): map<CallId, Flight> {
    if g == [] then map[]
    else
      var before, e := g[..|g|-1], g[|g|-1];
      match e
      case Query(c, key, _) =>
        if DbAnswer(before, key).Some? then Flights(before)[c := Flight(key, DbAnswer(before, key).value)]
        else Flights(before) - {c}
      case Store(c, _, _) => Flights(before) - {c}
      case _ => Flights(before)
  }

  /** What the event does to the cache. */
  function CacheOp(before: seq<Event>, e: Event): seq<Op<Row>> {
    match e
    case Lookup(key, at) => [Get(key, at)]
    case Store(c, order, at) =>
      if c in Flights(before) then [Set(Flights(before)[c].key, Flights(before)[c].row, TTL, order, at)] else []
    case Invalidate(at) => [Clear(at)]
    case InvalidateKey(key, at) => [Delete(key, at)]
    case _ => []
  }

  function CacheOps(g: seq<Event>): seq<Op<Row>> {
    if g == [] then [] else CacheOps(g[..|g|-1]) + CacheOp(g[..|g|-1], g[|g|-1])
  }

  /** What a lookup now would find. */
  function Found(max: nat, g: seq<Event>, key: string, at: int): Option<Row>
    requires LegalHistory(max, CacheOps(g))
  {
    Answer(Run(max, CacheOps(g)), key, at)
  }

  lemma FlightsStep(g: seq<Event>, e: Event)
    ensures !e.Query? && !e.Store? ==> Flights(g + [e]) == Flights(g)
    ensures e.Store? ==> Flights(g + [e]) == Flights(g) - {e.call}
    ensures e.Query? && DbAnswer(g, e.key).None? ==> Flights(g + [e]) == Flights(g) - {e.call}
    ensures e.Query? && DbAnswer(g, e.key).Some? ==>
              Flights(g + [e]) == Flights(g)[e.call := Flight(e.key, DbAnswer(g, e.key).value)]
  {
    assert (g + [e])[..|g|] == g;
  }

  lemma Unfold(g: seq<Event>, e: Event)
    ensures CacheOps(g + [e]) == CacheOps(g) + CacheOp(g, e)
    ensures forall key :: DbAnswer(g + [e], key) == if e.Write? && e.key == key then e.row else DbAnswer(g, key)
  {
    assert (g + [e])[..|g|] == g;
  }

  /** What was last put in the cache under the key and not invalidated. */
  function Cached(g: seq<Event>, key: string): Option<Entry<Row>> {
    Latest(CacheOps(g), key)
  }

  lemma CachedStep(g: seq<Event>, e: Event, key: string)
    ensures Cached(g + [e], key) ==
            if e.Store? && e.call in Flights(g) && Flights(g)[e.call].key == key then
              Some(Entry(Flights(g)[e.call].row, e.at + TTL))
            else if e.Invalidate? || (e.InvalidateKey? && e.key == key) then None
            else Cached(g, key)
  {
    Unfold(g, e);
    var ops, op := CacheOps(g), CacheOp(g, e);
    if op == [] {
      assert ops + op == ops;
    } else {
      assert op == [op[0]];
      LatestStep(ops, op[0], key);
    }
  }

  /** The events of a miss: the query, and the store if it succeeded. */
  function Miss(call: CallId, key: string, order: seq<string>, ok: bool, at: int): seq<Event> {
    if ok then [Query(call, key, at), Store(call, order, at)] else [Query(call, key, at)]
  }

  lemma UndisturbedError(g: seq<Event>, call: CallId, key: string, at: int)
    requires DbAnswer(g, key).None? && Flights(g) == map[]
    ensures var longer := g + Miss(call, key, [], false, at);
            && CacheOps(longer) == CacheOps(g) && Flights(longer) == map[]
            && forall k :: DbAnswer(longer, k) == DbAnswer(g, k)
  {
    Unfold(g, Query(call, key, at));
    FlightsStep(g, Query(call, key, at));
    assert CacheOps(g) + [] == CacheOps(g);
  }

  /** A miss that nothing comes between stores what the database answers. */
  lemma UndisturbedMiss(g: seq<Event>, call: CallId, key: string, order: seq<string>, at: int)
    requires DbAnswer(g, key).Some? && Flights(g) == map[]
    ensures var longer := g + Miss(call, key, order, true, at);
            && CacheOps(longer) == CacheOps(g) + [Op.Set(key, DbAnswer(g, key).value, TTL, order, at)]
            && Flights(longer) == map[]
            && forall k :: DbAnswer(longer, k) == DbAnswer(g, k)
  {
    var queried := g + [Query(call, key, at)];
    Unfold(g, Query(call, key, at));
    FlightsStep(g, Query(call, key, at));
    Unfold(queried, Store(call, order, at));
    FlightsStep(queried, Store(call, order, at));
    assert CacheOps(queried) == CacheOps(g) + [] == CacheOps(g);
    assert g + Miss(call, key, order, true, at) == queried + [Store(call, order, at)];
  }

  class CachedDb {
    const cache: MemoryCache<Row>
    var db: map<string, Row>
    ghost var trace: seq<Event>

    ghost predicate Valid()
      reads this, cache
    {
      && cache.Valid()
      && cache.history == CacheOps(trace)
      && Flights(trace) == map[]
      && forall key :: DbAnswer(trace, key) == if key in db then Some(db[key]) else None
    }

    constructor (maxSize: nat)
      ensures Valid() && trace == [] && fresh(cache) && cache.maxSize == maxSize
    {
      cache := new MemoryCache<Row>(maxSize);
      db, trace := map[], [];
    }

    /** A cached read that nothing comes between: a hit answers from the cache; a miss answers as the database does
        now, an error being passed on and not cached. */
    method CachedFind(key: string, ghost call: CallId, at: int) returns (answer: Option<Row>, ghost order: seq<string>)
      requires Valid()
      modifies this, cache
      ensures Valid() && db == old(db)
      ensures var hit := Found(cache.maxSize, old(trace), key, at);
              && answer == (if hit.Some? then hit else DbAnswer(old(trace), key))
              && trace == old(trace) + [Lookup(key, at)] +
                 if hit.Some? then [] else Miss(call, key, order, answer.Some?, at)
    {
      Unfold(trace, Lookup(key, at));
      FlightsStep(trace, Lookup(key, at));
      answer := cache.Get(key, at);
      trace := trace + [Lookup(key, at)];
      order := [];
      if answer.None? {
        answer, order := ReadAndStore(key, call, at);
      }
    }

    /** The miss path: query the database and cache what it returned. */
    method ReadAndStore(key: string, ghost call: CallId, at: int) returns (answer: Option<Row>, ghost order: seq<string>)
      requires Valid()
      modifies this, cache
      ensures Valid() && db == old(db) && answer == DbAnswer(old(trace), key)
      ensures trace == old(trace) + Miss(call, key, order, answer.Some?, at)
    {
      order := [];
      if key !in db {
        UndisturbedError(trace, call, key, at);
        trace := trace + Miss(call, key, order, false, at);
        return None, order;
      }
      answer := Some(db[key]);
      order := cache.Set(key, db[key], TTL, at);
      UndisturbedMiss(trace, call, key, order, at);
      trace := trace + Miss(call, key, order, true, at);
    }

    /** Some other writer changes what the database answers; None is a query that now fails. */
    method Write(key: string, row: Option<Row>, at: int)
      requires Valid()
      modifies this
      ensures Valid() && trace == old(trace) + [Event.Write(key, row, at)]
    {
      Unfold(trace, Event.Write(key, row, at));
      FlightsStep(trace, Event.Write(key, row, at));
      assert CacheOps(trace) + [] == CacheOps(trace);
      db := if row.Some? then db[key := row.value] else db - {key};
      trace := trace + [Event.Write(key, row, at)];
    }

    method InvalidateCache(at: int)
      requires Valid()
      modifies this, cache
      ensures Valid() && db == old(db) && trace == old(trace) + [Invalidate(at)]
    {
      Unfold(trace, Invalidate(at));
      FlightsStep(trace, Invalidate(at));
      cache.Clear(at);
      trace := trace + [Invalidate(at)];
    }

    method InvalidateCacheKey(key: string, at: int)
      requires Valid()
      modifies this, cache
      ensures Valid() && db == old(db) && trace == old(trace) + [InvalidateKey(key, at)]
    {
      Unfold(trace, InvalidateKey(key, at));
      FlightsStep(trace, InvalidateKey(key, at));
      cache.Delete(key, at);
      trace := trace + [InvalidateKey(key, at)];
    }
  }

  // ---- Where a cached answer comes from ---------------------------------------------------------------

  predicate OfCall(e: Event, c: CallId) {
    (e.Query? || e.Store?) && e.call == c
  }

  /** The query and the store of one call. */
  ghost predicate QueryAndStore(g: seq<Event>, q: int, s: int) {
    && 0 <= q < s < |g|
    && g[q].Query? && g[s].Store? && g[s].call == g[q].call
    && forall r :: q < r < s ==> !OfCall(g[r], g[q].call)
  }

  lemma {:induction false} FlightWasRead(g: seq<Event>, c: CallId) returns (q: nat)
    requires c in Flights(g)
    ensures q < |g| && g[q].Query? && g[q].call == c && g[q].key == Flights(g)[c].key
    ensures DbAnswer(g[..q], g[q].key) == Some(Flights(g)[c].row)
    ensures forall r :: q < r < |g| ==> !OfCall(g[r], c)
  {
    var before, e := g[..|g|-1], g[|g|-1];
    if e.Query? && e.call == c {
      q := |g| - 1;
    } else {
      q := FlightWasRead(before, c);
      assert before[..q] == g[..q];
    }
  }

  lemma {:induction false} EntryWasStored(g: seq<Event>, key: string) returns (q: nat, s: nat)
    requires Cached(g, key).Some?
    ensures QueryAndStore(g, q, s)
    ensures g[q].key == key && DbAnswer(g[..q], key) == Some(Cached(g, key).value.value)
    ensures g[s].at + TTL == Cached(g, key).value.expiration
  {
    var before, e := g[..|g|-1], g[|g|-1];
    assert g == before + [e];
    CachedStep(before, e, key);
    if e.Store? && e.call in Flights(before) && Flights(before)[e.call].key == key {
      q := FlightWasRead(before, e.call);
      assert before[..q] == g[..q];
      s := |g| - 1;
    } else {
      q, s := EntryWasStored(before, key);
      assert before[..q] == g[..q];
    }
  }

  /** Every cached answer is what the database answered at the instant of some earlier query: an instant in the last
      five minutes plus the longest time a call takes from its query to its store. With `lag` 0, for calls that
      nothing comes between, that is the last five minutes. */
  lemma AnswersAreRecent(max: nat, g: seq<Event>, key: string, at: int, lag: nat)
    requires LegalHistory(max, CacheOps(g)) && Found(max, g, key, at).Some?
    requires forall q, s :: QueryAndStore(g, q, s) ==> g[s].at <= g[q].at + lag
    ensures exists q :: 0 <= q < |g| && DbAnswer(g[..q], key) == Found(max, g, key, at) && at <= g[q].at + 300 * 1_000_000_000 + lag
  {
    HitIsLatest(max, CacheOps(g), key, at);
    var q, s := EntryWasStored(g, key);
  }

  lemma StoreIsLatest(max: nat, g: seq<Event>, c: CallId, order: seq<string>, now: int)
    requires c in Flights(g) && LegalHistory(max, CacheOps(g)) && LegalHistory(max, CacheOps(g + [Store(c, order, now)]))
    ensures var key, longer := Flights(g)[c].key, CacheOps(g + [Store(c, order, now)]);
            longer == CacheOps(g) + [Op.Set(key, Flights(g)[c].row, TTL, order, now)]
            && key in Run(max, longer).items
  {
    Unfold(g, Store(c, order, now));
    var op := Op.Set(Flights(g)[c].key, Flights(g)[c].row, TTL, order, now);
    assert (CacheOps(g) + [op])[..|CacheOps(g)|] == CacheOps(g);
  }

  /** What a call stores is what it read, under its own key, and it is served for exactly five minutes: to the next lookup
      if that comes no later than 300 seconds after, and not to a later one. */
  lemma StoredForFiveMinutes(max: nat, g: seq<Event>, c: CallId, order: seq<string>, now: int, at: int)
    requires c in Flights(g) && LegalHistory(max, CacheOps(g)) && LegalHistory(max, CacheOps(g + [Store(c, order, now)]))
    ensures Found(max, g + [Store(c, order, now)], Flights(g)[c].key, at)
            == if at <= now + 300 * 1_000_000_000 then Some(Flights(g)[c].row) else None
  {
    StoreIsLatest(max, g, c, order, now);
    var ops := CacheOps(g);
    LatestStep(ops, Op.Set(Flights(g)[c].key, Flights(g)[c].row, TTL, order, now), Flights(g)[c].key);
    HoldsLatest(max, CacheOps(g + [Store(c, order, now)]), Flights(g)[c].key);
  }

  /** A row once stored spares the database: while it is neither expired nor invalidated and fewer than max - 1 other keys
      were touched since its own last touch, a lookup finds it. */
  lemma CachedIsServed(max: nat, g: seq<Event>, key: string, at: int)
    requires max >= 1 && LegalHistory(max, CacheOps(g)) && Strict(CacheOps(g)) && NoEmptyKey(CacheOps(g))
    requires CacheOps(g) != [] && LastAt(CacheOps(g)) <= at
    requires Cached(g, key).Some? && at <= Cached(g, key).value.expiration
    requires |OthersSince(max, CacheOps(g), key)| < max - 1
    ensures Found(max, g, key, at) == Some(Cached(g, key).value.value)
  {
    RecentlyUsedSurvives(max, CacheOps(g), key, at);
  }

  // ---- Invalidation -----------------------------------------------------------------------------------

  /** The row was the database's answer at some instant from now on, through the events `more`. */
  ghost predicate AnsweredSince(g: seq<Event>, more: seq<Event>, key: string, row: Row) {
    exists i :: 0 <= i <= |more| && DbAnswer(g + more[..i], key) == Some(row)
  }

  /** The cache holds, and calls in flight carry, only rows the database has answered since. */
  ghost predicate OnlySince(g: seq<Event>, more: seq<Event>, key: string) {
    && (Cached(g + more, key).Some? ==> AnsweredSince(g, more, key, Cached(g + more, key).value.value))
    && forall c :: c in Flights(g + more) && Flights(g + more)[c].key == key ==>
         AnsweredSince(g, more, key, Flights(g + more)[c].row)
  }

  lemma AnsweredLater(g: seq<Event>, more: seq<Event>, e: Event, key: string)
    ensures forall row :: AnsweredSince(g, more, key, row) ==> AnsweredSince(g, more + [e], key, row)
    ensures forall row :: DbAnswer(g + more, key) == Some(row) ==> AnsweredSince(g, more + [e], key, row)
  {
    assert (more + [e])[..|more|] == more;
    forall row | AnsweredSince(g, more, key, row) ensures AnsweredSince(g, more + [e], key, row) {
      var i :| 0 <= i <= |more| && DbAnswer(g + more[..i], key) == Some(row);
      assert (more + [e])[..i] == more[..i];
    }
  }

  lemma {:induction false} StaysSince(g: seq<Event>, more: seq<Event>, key: string)
    requires OnlySince(g, [], key)
    ensures OnlySince(g, more, key)
  {
    if more != [] {
      var init, e := more[..|more|-1], more[|more|-1];
      StaysSince(g, init, key);
      assert more == init + [e];
      assert g + more == (g + init) + [e];
      AnsweredLater(g, init, e, key);
      SinceStep(g, init, e, key);
    }
  }

  lemma SinceStep(g: seq<Event>, more: seq<Event>, e: Event, key: string)
    requires OnlySince(g, more, key)
    ensures OnlySince(g, more + [e], key)
  {
    var before := g + more;
    AnsweredLater(g, more, e, key);
    assert g + (more + [e]) == before + [e];
    CachedStep(before, e, key);
    FlightsStep(before, e);
  }

  /** Whatever happens after the invalidation, a cached answer is one the database has given since. */
  ghost predicate AlwaysFreshAfter(max: nat, g: seq<Event>, key: string) {
    forall more, at :: LegalHistory(max, CacheOps(g + more)) && Found(max, g + more, key, at).Some? ==>
      AnsweredSince(g, more, key, Found(max, g + more, key, at).value)
  }

  /** Reads after InvalidateCache are fresh on every continuation exactly when no call in flight at that moment carries
      a row that the database has stopped answering: such a call stores it after the cache was cleared. */
  lemma FreshAfterInvalidate(max: nat, g: seq<Event>, key: string, now: int)
    requires LegalHistory(max, CacheOps(g))
    ensures AlwaysFreshAfter(max, g + [Invalidate(now)], key)
            <==> forall c :: c in Flights(g) && Flights(g)[c].key == key ==> DbAnswer(g, key) == Some(Flights(g)[c].row)
  {
    if forall c :: c in Flights(g) && Flights(g)[c].key == key ==> DbAnswer(g, key) == Some(Flights(g)[c].row) {
      FreshWithoutStaleFlights(max, g, key, now);
    } else {
      var c :| c in Flights(g) && Flights(g)[c].key == key && DbAnswer(g, key) != Some(Flights(g)[c].row);
      StaleStore(max, g, c, now);
    }
  }

  lemma FreshWithoutStaleFlights(max: nat, g: seq<Event>, key: string, now: int)
    requires LegalHistory(max, CacheOps(g))
    requires forall c :: c in Flights(g) && Flights(g)[c].key == key ==> DbAnswer(g, key) == Some(Flights(g)[c].row)
    ensures AlwaysFreshAfter(max, g + [Invalidate(now)], key)
  {
    var cleared := g + [Invalidate(now)];
    ClearedSinceNothing(g, key, now);
    forall more, at | LegalHistory(max, CacheOps(cleared + more)) && Found(max, cleared + more, key, at).Some?
      ensures AnsweredSince(cleared, more, key, Found(max, cleared + more, key, at).value)
    {
      StaysSince(cleared, more, key);
      HitIsLatest(max, CacheOps(cleared + more), key, at);
    }
  }

  lemma ClearedSinceNothing(g: seq<Event>, key: string, now: int)
    requires forall c :: c in Flights(g) && Flights(g)[c].key == key ==> DbAnswer(g, key) == Some(Flights(g)[c].row)
    ensures OnlySince(g + [Invalidate(now)], [], key)
  {
    var cleared := g + [Invalidate(now)];
    CachedStep(g, Invalidate(now), key);
    FlightsStep(g, Invalidate(now));
    Unfold(g, Invalidate(now));
    assert cleared + [] == cleared;
    assert forall row :: DbAnswer(g, key) == Some(row) ==> AnsweredSince(cleared, [], key, row) by {
      assert cleared + [][..0] == cleared;
    }
  }

  lemma StoredIsFound(max: nat, g: seq<Event>, c: CallId, now: int)
    requires LegalHistory(max, CacheOps(g)) && Run(max, CacheOps(g)).items == map[] && c in Flights(g)
    ensures LegalHistory(max, CacheOps(g + [Store(c, [], now)]))
    ensures Found(max, g + [Store(c, [], now)], Flights(g)[c].key, now) == Some(Flights(g)[c].row)
  {
    Unfold(g, Store(c, [], now));
    Extend(max, CacheOps(g), Op.Set(Flights(g)[c].key, Flights(g)[c].row, TTL, [], now));
  }

  lemma ClearedIsEmpty(max: nat, g: seq<Event>, now: int)
    requires LegalHistory(max, CacheOps(g))
    ensures LegalHistory(max, CacheOps(g + [Invalidate(now)]))
    ensures Run(max, CacheOps(g + [Invalidate(now)])).items == map[]
    ensures Flights(g + [Invalidate(now)]) == Flights(g)
  {
    Unfold(g, Invalidate(now));
    FlightsStep(g, Invalidate(now));
    Extend(max, CacheOps(g), Clear(now));
  }

  /** The failing schedule: query, then invalidation, then the store, then a hit. */
  lemma StaleStore(max: nat, g: seq<Event>, c: CallId, now: int)
    requires LegalHistory(max, CacheOps(g)) && c in Flights(g)
    requires DbAnswer(g, Flights(g)[c].key) != Some(Flights(g)[c].row)
    ensures !AlwaysFreshAfter(max, g + [Invalidate(now)], Flights(g)[c].key)
  {
    var flight := Flights(g)[c];
    var cleared, more := g + [Invalidate(now)], [Store(c, [], now)];
    ClearedIsEmpty(max, g, now);
    StoredIsFound(max, cleared, c, now);
    Unfold(g, Invalidate(now));
    Unfold(cleared, more[0]);
    OneStepAnswers(cleared, more[0], flight.key);
    assert Found(max, cleared + more, flight.key, now) == Some(flight.row);
  }

  lemma OneStepAnswers(g: seq<Event>, e: Event, key: string)
    requires !e.Write?
    ensures forall row :: AnsweredSince(g, [e], key, row) ==> DbAnswer(g, key) == Some(row)
  {
    Unfold(g, e);
    forall i | 0 <= i <= 1 ensures DbAnswer(g + [e][..i], key) == DbAnswer(g, key) {
      assert g + [e][..i] == if i == 0 then g else g + [e];
    }
  }
}
