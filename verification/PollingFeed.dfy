/**
 The id-cursor polling feeds for usage events and alerts: on each tick the rows above the last delivered id are
 queried in ascending order, at most a batch of them, and sent one by one until the subscriber goes away.
 */
module PollingFeed {
  import opened Basics

  const USAGE_BATCH: nat := 20
  const ALERT_BATCH: nat := 10

  /** One turn of the loop. A tick sees the ids that are visible to its query and match it; the query may fail; and
      the context may be cancelled while the send after the first `sends` is waiting. */
  datatype Turn =
    | Tick(visible: set<nat>, failed: bool, sends: Option<nat>)
    | Cancelled

  datatype Feed = Feed(delivered: seq<nat>, lastId: nat, closed: bool)

  const START := Feed([], 0, false)

  /** What the queries filter on: a usage event's IMSI, an alert's subscriber. */
  datatype Row = UsageEvent(imsi: string) | Alert(subscriberId: Option<nat>)

  type Filter = Row -> bool

  function UsageOf(imsi: string): Filter {
    (row: Row) => row == UsageEvent(imsi)
  }

  /** A subscriber id that is not given, or does not parse as a number, filters nothing. */
  function AlertsOf(parsed: Option<nat>): Filter {
    (row: Row) => row.Alert? && (parsed.None? || row.subscriberId == parsed)
  }

  function Matching(rows: map<nat, Row>, filter: Filter): set<nat> {
    set id | id in rows && filter(rows[id])
  }

  predicate StrictlyAscending(r: seq<nat>) {
    forall i, j :: 0 <= i < j < |r| ==> r[i] < r[j]
  }

  /** ORDER BY id ASC */
  function Ascending(s: set<nat>): (r: seq<nat>)
    ensures forall x :: x in r <==> x in s
    ensures StrictlyAscending(r)
  {
    if s == {} then []
    else
      var m := Least(s);
      [m] + Ascending(s - {m})
  }

  function Above(visible: set<nat>, lastId: nat): set<nat> {
    set id | id in visible && id > lastId
  }

  function Batch(visible: set<nat>, lastId: nat, limit: nat): seq<nat> {
    Take(Ascending(Above(visible, lastId)), limit)
  }

  function SentOf(batch: seq<nat>, sends: Option<nat>): seq<nat> {
    if sends.Some? then Take(batch, sends.value) else batch
  }

  function Step(f: Feed, limit: nat, t: Turn): Feed {
    if f.closed then f
    else
      match t
      case Cancelled => f.(closed := true)
      case Tick(visible, failed, sends) =>
        if failed then f
        else
          var batch := Batch(visible, f.lastId, limit);
          var sent := SentOf(batch, sends);
          Feed(f.delivered + sent, if sent == [] then f.lastId else sent[|sent|-1], sent != batch)
  }

  function Run(limit: nat, turns: seq<Turn>): Feed {
    if turns == [] then START else Step(Run(limit, turns[..|turns|-1]), limit, turns[|turns|-1])
  }

  /** A subscription and the turns it has taken, so that what is proved of turns holds of it. */
  class Subscription {
    var delivered: seq<nat>
    var lastId: nat
    var closed: bool
    const limit: nat
    const filter: Filter
    ghost var turns: seq<Turn>

    function Now(): Feed
      reads this
    {
      Feed(delivered, lastId, closed)
    }

    ghost predicate Valid()
      reads this
    {
      Now() == Run(limit, turns)
    }

    /** SubscribeToUsageUpdates */
    constructor Usage(imsi: string)
      ensures Valid() && turns == [] && limit == USAGE_BATCH && filter == UsageOf(imsi)
    {
      limit, filter := USAGE_BATCH, UsageOf(imsi);
      delivered, lastId, closed, turns := [], 0, false, [];
    }

    /** SubscribeToAlertUpdates, with what parsing the given subscriber id yields, if one is given. */
    constructor Alerts(parsed: Option<nat>)
      ensures Valid() && turns == [] && limit == ALERT_BATCH && filter == AlertsOf(parsed)
    {
      limit, filter := ALERT_BATCH, AlertsOf(parsed);
      delivered, lastId, closed, turns := [], 0, false, [];
    }

    method HandleTick(rows: map<nat, Row>, failed: bool, sends: Option<nat>)
      requires Valid() && !closed
      modifies this
      ensures Valid() && turns == old(turns) + [Tick(Matching(rows, filter), failed, sends)]
    {
      var visible := Matching(rows, filter);
      RunStep(limit, turns, Tick(visible, failed, sends));
      TickStep(Now(), limit, visible, failed, sends);
      if !failed {
        SendAll(Batch(visible, lastId, limit), sends);
      }
      turns := turns + [Tick(visible, failed, sends)];
    }

    /** Sends the batch row by row, moving the cursor along, until the context is cancelled. */
    method SendAll(batch: seq<nat>, sends: Option<nat>)
      requires !closed
      modifies `delivered, `lastId, `closed
      ensures var sent := SentOf(batch, sends);
              && delivered == old(delivered) + sent
              && lastId == (if sent == [] then old(lastId) else sent[|sent|-1])
              && closed == (sent != batch)
    {
      for i := 0 to |batch|
        invariant !closed && delivered == old(delivered) + batch[..i]
        invariant lastId == if i == 0 then old(lastId) else batch[i - 1]
        invariant sends.Some? ==> i <= sends.value
      {
        if sends == Some(i) {
          closed := true;
          return;
        }
        delivered := delivered + [batch[i]];
        lastId := batch[i];
      }
      assert batch[..|batch|] == batch;
    }

    method Cancel()
      requires Valid() && !closed
      modifies this
      ensures Valid() && turns == old(turns) + [Cancelled]
    {
      RunStep(limit, turns, Cancelled);
      closed := true;
      turns := turns + [Cancelled];
    }
  }

  lemma TickStep(f: Feed, limit: nat, visible: set<nat>, failed: bool, sends: Option<nat>)
    requires !f.closed
    ensures var batch, next := Batch(visible, f.lastId, limit), Step(f, limit, Tick(visible, failed, sends));
            var sent := SentOf(batch, sends);
            if failed then next == f
            else next == Feed(f.delivered + sent, if sent == [] then f.lastId else sent[|sent|-1], sent != batch)
  {}

  lemma RunStep(limit: nat, turns: seq<Turn>, t: Turn)
    ensures Run(limit, turns + [t]) == Step(Run(limit, turns), limit, t)
  {
    assert (turns + [t])[..|turns|] == turns;
  }

  // ---- Whatever becomes visible when -----------------------------------------------------------------

  /** Delivered ids strictly ascend, up to the cursor. */
  ghost predicate FeedInv(f: Feed) {
    && StrictlyAscending(f.delivered)
    && (forall x :: x in f.delivered ==> 0 < x <= f.lastId)
    && (f.lastId > 0 ==> f.delivered != [] && f.delivered[|f.delivered|-1] == f.lastId)
  }

  /** What one tick sends: the least of what is above the cursor, in order. */
  lemma TickSends(f: Feed, limit: nat, visible: set<nat>, sends: Option<nat>)
    ensures var sent := SentOf(Batch(visible, f.lastId, limit), sends);
            && sent <= Ascending(Above(visible, f.lastId))
            && StrictlyAscending(sent)
            && (forall x :: x in sent ==> x in visible && x > f.lastId)
            && (forall i :: 0 <= i < |sent| ==> sent[i] <= sent[|sent|-1])
  {
    var sorted := Ascending(Above(visible, f.lastId));
    var sent := SentOf(Batch(visible, f.lastId, limit), sends);
    assert sent == sorted[..|sent|];
    forall x | x in sent ensures x in visible && x > f.lastId {
      assert x in sorted;
    }
  }

  lemma AscendingAppend(a: seq<nat>, b: seq<nat>, bound: nat)
    requires StrictlyAscending(a) && StrictlyAscending(b)
    requires (forall x :: x in a ==> x <= bound) && forall x :: x in b ==> x > bound
    ensures StrictlyAscending(a + b)
    ensures forall x :: x in a + b ==> x <= if b == [] then bound else b[|b|-1]
  {
    assert forall i :: 0 <= i < |a| ==> a[i] in a;
    assert forall i :: 0 <= i < |b| ==> b[i] in b;
  }

  lemma StepKeepsInv(f: Feed, limit: nat, t: Turn)
    requires FeedInv(f)
    ensures FeedInv(Step(f, limit, t)) && f.delivered <= Step(f, limit, t).delivered
    ensures f.lastId <= Step(f, limit, t).lastId
  {
    if t.Tick? && !f.closed && !t.failed {
      TickSends(f, limit, t.visible, t.sends);
      var sent := SentOf(Batch(t.visible, f.lastId, limit), t.sends);
      AscendingAppend(f.delivered, sent, f.lastId);
    }
  }

  lemma {:induction false} InOrderNoDuplicates(limit: nat, turns: seq<Turn>)
    ensures FeedInv(Run(limit, turns))
  {
    if turns != [] {
      InOrderNoDuplicates(limit, turns[..|turns|-1]);
      StepKeepsInv(Run(limit, turns[..|turns|-1]), limit, turns[|turns|-1]);
    }
  }

  // ---- What one tick sends ----------------------------------------------------------------------------

  function Between(s: set<nat>, lo: nat, hi: nat): set<nat> {
    set y | y in s && lo < y < hi
  }

  function Smaller(r: seq<nat>, x: nat): set<nat> {
    set y | y in r && y < x
  }

  /** The position of an id in an ascending sequence is the number of ids before it. */
  lemma {:induction false} RankIsPosition(r: seq<nat>, i: nat)
    requires StrictlyAscending(r) && i < |r|
    ensures |Smaller(r, r[i])| == i
  {
    if i == 0 {
      assert Smaller(r, r[0]) == {};
    } else {
      RankIsPosition(r, i - 1);
      assert Smaller(r, r[i]) == Smaller(r, r[i - 1]) + {r[i - 1]};
    }
  }

  lemma BetweenIsSmaller(s: set<nat>, lo: nat, x: nat)
    ensures Between(s, lo, x) == Smaller(Ascending(Above(s, lo)), x)
  {
    forall y ensures y in Between(s, lo, x) <==> y in Smaller(Ascending(Above(s, lo)), x) {
      assert y in Ascending(Above(s, lo)) <==> y in Above(s, lo);
    }
  }

  lemma PrefixByRank(sent: seq<nat>, r: seq<nat>, x: nat)
    requires StrictlyAscending(r) && sent <= r
    ensures x in sent <==> x in r && |Smaller(r, x)| < |sent|
  {
    if x in r {
      var i :| 0 <= i < |r| && r[i] == x;
      RankIsPosition(r, i);
      assert i < |sent| ==> sent[i] == x;
      if x in sent {
        var k :| 0 <= k < |sent| && sent[k] == x;
        assert r[k] == x;
      }
    }
  }

  lemma {:induction false} SentByRank(visible: set<nat>, lastId: nat, limit: nat, sends: Option<nat>, x: nat)
    ensures x in SentOf(Batch(visible, lastId, limit), sends) <==>
            && x in visible && x > lastId
            && |Between(visible, lastId, x)| < limit && (sends.Some? ==> |Between(visible, lastId, x)| < sends.value)
  {
    var r, sent := Ascending(Above(visible, lastId)), SentOf(Batch(visible, lastId, limit), sends);
    PrefixByRank(sent, r, x);
    BetweenIsSmaller(visible, lastId, x);
    if x in r {
      PrefixByRank(r, r, x);
    }
  }

  /** A tick delivers exactly the first `limit` visible ids above the cursor, or as many of them as are sent before a
      cancellation, and closes the feed exactly when that leaves some of them unsent. */
  lemma {:induction false} TickDeliversExactly(f: Feed, limit: nat, visible: set<nat>, sends: Option<nat>, x: nat)
    requires FeedInv(f) && !f.closed
    ensures var g := Step(f, limit, Tick(visible, false, sends));
            && (x in g.delivered <==>
                  x in f.delivered ||
                  (&& x in visible && x > f.lastId
                   && |Between(visible, f.lastId, x)| < limit
                   && (sends.Some? ==> |Between(visible, f.lastId, x)| < sends.value)))
            && (g.closed <==> sends.Some? && sends.value < limit && sends.value < |Ascending(Above(visible, f.lastId))|)
  {
    SentByRank(visible, f.lastId, limit, sends, x);
  }

  /** A tick of the usage feed: of the events of its IMSI above the cursor, the first 20. */
  lemma {:induction false} UsageTick(s: Subscription, rows: map<nat, Row>, imsi: string, x: nat)
    requires s.Valid() && !s.closed && s.limit == USAGE_BATCH && s.filter == UsageOf(imsi)
    ensures x in Step(s.Now(), s.limit, Tick(Matching(rows, s.filter), false, None)).delivered <==>
              x in s.delivered ||
              (&& x in rows && rows[x] == UsageEvent(imsi) && x > s.lastId
               && |set y | y in rows && rows[y] == UsageEvent(imsi) && s.lastId < y < x| < 20)
  {
    InOrderNoDuplicates(s.limit, s.turns);
    var visible := Matching(rows, s.filter);
    TickDeliversExactly(s.Now(), s.limit, visible, None, x);
    assert Between(visible, s.lastId, x) == (set y | y in rows && rows[y] == UsageEvent(imsi) && s.lastId < y < x);
  }

  /** A tick of the alert feed: of the alerts of its subscriber above the cursor, or of all alerts if the id was not given
      or is no number, the first 10. */
  lemma {:induction false} AlertTick(s: Subscription, rows: map<nat, Row>, parsed: Option<nat>, x: nat)
    requires s.Valid() && !s.closed && s.limit == ALERT_BATCH && s.filter == AlertsOf(parsed)
    ensures x in Step(s.Now(), s.limit, Tick(Matching(rows, s.filter), false, None)).delivered <==>
              x in s.delivered ||
              (&& x in rows && IsAlertOf(rows[x], parsed) && x > s.lastId
               && |set y | y in rows && IsAlertOf(rows[y], parsed) && s.lastId < y < x| < 10)
  {
    InOrderNoDuplicates(s.limit, s.turns);
    var visible := Matching(rows, s.filter);
    TickDeliversExactly(s.Now(), s.limit, visible, None, x);
    assert Between(visible, s.lastId, x) == (set y | y in rows && IsAlertOf(rows[y], parsed) && s.lastId < y < x);
  }

  predicate IsAlertOf(row: Row, parsed: Option<nat>) {
    row.Alert? && match parsed case None => true case Some(id) => row == Alert(Some(id))
  }

  /** Whatever is delivered was visible to the query, and so matched, at some tick. */
  lemma {:induction false} DeliveredWasVisible(limit: nat, turns: seq<Turn>, x: nat) returns (i: nat)
    requires x in Run(limit, turns).delivered
    ensures i < |turns| && turns[i].Tick? && x in turns[i].visible
  {
    var before, t := Run(limit, turns[..|turns|-1]), turns[|turns|-1];
    if x in before.delivered {
      i := DeliveredWasVisible(limit, turns[..|turns|-1], x);
    } else {
      TickSends(before, limit, t.visible, t.sends);
      i := |turns| - 1;
    }
  }

  /** A subscriber to one IMSI, or to the alerts of one subscriber, gets only rows that were theirs at some tick. */
  lemma {:induction false} OnlyMatchingRows(s: Subscription, tables: seq<map<nat, Row>>, x: nat)
    requires s.Valid() && |tables| == |s.turns| && x in s.delivered
    requires forall i :: 0 <= i < |tables| && s.turns[i].Tick? ==> s.turns[i].visible == Matching(tables[i], s.filter)
    ensures exists i :: 0 <= i < |tables| && x in tables[i] && s.filter(tables[i][x])
  {
    var i := DeliveredWasVisible(s.limit, s.turns, x);
  }

  function RunFrom(f: Feed, limit: nat, turns: seq<Turn>): Feed {
    if turns == [] then f else Step(RunFrom(f, limit, turns[..|turns|-1]), limit, turns[|turns|-1])
  }

  lemma {:induction false} NothingBehindIsDelivered(f: Feed, limit: nat, more: seq<Turn>, x: nat)
    requires FeedInv(f) && x !in f.delivered && (x <= f.lastId || f.closed)
    ensures var g := RunFrom(f, limit, more);
            x !in g.delivered && FeedInv(g) && (x <= g.lastId || g.closed)
  {
    if more != [] {
      var t := more[|more|-1];
      NothingBehindIsDelivered(f, limit, more[..|more|-1], x);
      var g := RunFrom(f, limit, more[..|more|-1]);
      StepKeepsInv(g, limit, t);
      if t.Tick? {
        TickSends(g, limit, t.visible, t.sends);
      }
    }
  }

  /** A row not yet delivered can still be delivered exactly when it is above the cursor of an open feed. So a row is
      lost just when it becomes visible after a row with a larger id has been delivered. */
  lemma LostExactlyWhenOvertaken(limit: nat, turns: seq<Turn>, x: nat)
    requires limit >= 1 && x !in Run(limit, turns).delivered
    ensures var f := Run(limit, turns);
            (exists more :: x in RunFrom(f, limit, more).delivered) <==> !f.closed && x > f.lastId
  {
    var f := Run(limit, turns);
    InOrderNoDuplicates(limit, turns);
    if !f.closed && x > f.lastId {
      var t := Tick({x}, false, None);
      assert Above({x}, f.lastId) == {x};
      assert Least({x}) in {x} && {x} - {x} == {};
      assert Ascending({x} - {x}) == [] && Ascending({x}) == [x] + [];
      assert [t][..0] == [];
      assert Batch({x}, f.lastId, limit) == [x];
      assert SentOf([x], t.sends) == [x];
      assert RunFrom(f, limit, [t]) == Step(f, limit, t);
      assert (f.delivered + [x])[|f.delivered|] == x;
      var more := [t];
      assert x in RunFrom(f, limit, more).delivered;
      assert exists more :: x in RunFrom(f, limit, more).delivered;
    } else {
      forall more ensures x !in RunFrom(f, limit, more).delivered {
        NothingBehindIsDelivered(f, limit, more, x);
      }
    }
  }

  // ---- Ids that become visible in increasing order ----------------------------------------------------

  /** Rows are only added, with ids above all those visible before. */
  ghost predicate Grows(earlier: set<nat>, later: set<nat>) {
    earlier <= later && forall old', new' :: old' in earlier && new' in later - earlier ==> old' < new'
  }

  ghost predicate InOrder(turns: seq<Turn>) {
    && (forall i :: 0 <= i < |turns| && turns[i].Tick? ==> 0 !in turns[i].visible)
    && forall i, j :: 0 <= i < j < |turns| && turns[i].Tick? && turns[j].Tick? ==>
         Grows(turns[i].visible, turns[j].visible)
  }

  function Seen(turns: seq<Turn>): set<nat> {
    if turns == [] then {}
    else if turns[|turns|-1].Tick? then turns[|turns|-1].visible
    else Seen(turns[..|turns|-1])
  }

  lemma {:induction false} SeenGrows(turns: seq<Turn>, t: Turn)
    requires InOrder(turns + [t]) && t.Tick?
    ensures Grows(Seen(turns), t.visible) && 0 !in Seen(turns)
  {
    if turns != [] {
      var init, last := turns[..|turns|-1], turns[|turns|-1];
      var all := turns + [t];
      assert all[|turns|-1] == last && all[|turns|] == t;
      if !last.Tick? {
        var shorter := init + [t];
        assert forall i :: 0 <= i < |init| ==> shorter[i] == all[i];
        assert shorter[|init|] == all[|turns|];
        SeenGrows(init, t);
      }
    }
  }

  /** Two ascending sequences: what is delivered is the visible ids up to the cursor. */
  ghost predicate DeliveredUpTo(f: Feed, visible: set<nat>) {
    && f.lastId in visible + {0}
    && forall x :: x in f.delivered <==> x in visible && x <= f.lastId
  }

  lemma StillUpTo(f: Feed, seen: set<nat>, visible: set<nat>)
    requires FeedInv(f) && DeliveredUpTo(f, seen) && Grows(seen, visible) && 0 !in visible
    ensures DeliveredUpTo(f, visible)
  {
    forall x ensures x in f.delivered <==> x in visible && x <= f.lastId {
      if x in visible && x <= f.lastId {
        assert f.lastId in seen;
        assert x in visible - seen || x in seen;
      }
    }
  }

  lemma SendingNextKeepsUpTo(f: Feed, visible: set<nat>, sent: seq<nat>, closed: bool)
    requires DeliveredUpTo(f, visible) && sent != [] && sent <= Ascending(Above(visible, f.lastId))
    ensures DeliveredUpTo(Feed(f.delivered + sent, sent[|sent|-1], closed), visible)
  {
    PrefixIsUpToLast(sent, Ascending(Above(visible, f.lastId)));
    assert sent[|sent|-1] in sent;
  }

  lemma TickDeliversNext(f: Feed, limit: nat, seen: set<nat>, t: Turn)
    requires t.Tick? && FeedInv(f) && DeliveredUpTo(f, seen) && Grows(seen, t.visible) && 0 !in t.visible
    ensures DeliveredUpTo(Step(f, limit, t), t.visible)
  {
    StillUpTo(f, seen, t.visible);
    if !f.closed && !t.failed {
      TickSends(f, limit, t.visible, t.sends);
      var batch := Batch(t.visible, f.lastId, limit);
      var sent := SentOf(batch, t.sends);
      if sent != [] {
        SendingNextKeepsUpTo(f, t.visible, sent, sent != batch);
      }
    }
  }

  lemma PrefixIsUpToLast(a: seq<nat>, b: seq<nat>)
    requires a <= b && a != [] && StrictlyAscending(b)
    ensures forall x :: x in a <==> x in b && x <= a[|a|-1]
  {
    forall x ensures x in a <==> x in b && x <= a[|a|-1] {
      if x in b && x <= a[|a|-1] {
        var i :| 0 <= i < |b| && b[i] == x;
        assert i < |a|;
        assert a[i] == x;
      }
      if x in a {
        var i :| 0 <= i < |a| && a[i] == x;
        assert b[i] == x;
      }
    }
  }

  lemma {:induction false} DeliversUpToCursor(limit: nat, turns: seq<Turn>)
    requires InOrder(turns)
    ensures DeliveredUpTo(Run(limit, turns), Seen(turns))
  {
    if turns != [] {
      var init, last := turns[..|turns|-1], turns[|turns|-1];
      assert turns == init + [last];
      DeliversUpToCursor(limit, init);
      InOrderNoDuplicates(limit, init);
      if last.Tick? {
        SeenGrows(init, last);
        TickDeliversNext(Run(limit, init), limit, Seen(init), last);
      }
    }
  }

  lemma {:induction false} PrefixOfAscending(a: seq<nat>, b: seq<nat>, bound: nat)
    requires StrictlyAscending(a) && StrictlyAscending(b)
    requires forall x :: x in a <==> x in b && x <= bound
    ensures a <= b
  {
    assert a != [] ==> a[0] in a;
    assert b != [] ==> b[0] in b;
    if a != [] {
      assert a[0] == b[0];
      forall x ensures x in a[1..] <==> x in b[1..] && x <= bound {
        assert x in a <==> x == a[0] || x in a[1..];
        assert x in b <==> x == b[0] || x in b[1..];
      }
      PrefixOfAscending(a[1..], b[1..], bound);
    }
  }

  /** If ids become visible in increasing order, what has been delivered is always a prefix of the matching rows in
      id order, through any batches, failed queries and cancellation in mid-batch. */
  lemma DeliveredIsPrefix(limit: nat, turns: seq<Turn>)
    requires InOrder(turns)
    ensures Run(limit, turns).delivered <= Ascending(Seen(turns))
  {
    DeliversUpToCursor(limit, turns);
    InOrderNoDuplicates(limit, turns);
    PrefixOfAscending(Run(limit, turns).delivered, Ascending(Seen(turns)), Run(limit, turns).lastId);
  }

  lemma WholePrefix(a: seq<nat>, b: seq<nat>)
    requires a <= b && StrictlyAscending(b) && forall x :: x in b ==> x in a
    ensures a == b
  {
    if b != [] {
      var last := b[|b|-1];
      assert last in b;
      var i :| 0 <= i < |a| && a[i] == last;
      assert b[i] == last;
    }
  }

  /** A batch shorter than the limit that was sent whole means everything visible at that tick has been delivered. */
  lemma {:induction false} ShortBatchIsCaughtUp(limit: nat, turns: seq<Turn>, t: Turn)
    requires InOrder(turns + [t]) && t.Tick? && !t.failed && !Run(limit, turns).closed
    requires |Batch(t.visible, Run(limit, turns).lastId, limit)| < limit
    requires !Run(limit, turns + [t]).closed
    ensures Run(limit, turns + [t]).delivered == Ascending(t.visible)
  {
    var all := turns + [t];
    assert all[..|turns|] == turns;
    DeliversUpToCursor(limit, all);
    DeliveredIsPrefix(limit, all);
    var f, g := Run(limit, turns), Run(limit, all);
    forall x | x in t.visible ensures x in g.delivered {
      if x > f.lastId {
        assert x in Ascending(Above(t.visible, f.lastId));
      }
    }
    WholePrefix(g.delivered, Ascending(t.visible));
  }
}
