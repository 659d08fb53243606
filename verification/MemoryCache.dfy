/**
 The in-memory cache: a map with a time to live per entry and eviction of the least recently used entry when full.
 Every operation carries the instant of its clock reading, and a Set the order in which the eviction scan happens to
 range over the map.
 */
module MemoryCache {
  import opened Basics

  datatype Item<V> = Item(value: V, expiration: int, createdAt: int, accessCount: nat, lastAccess: int)

  datatype State<V> = State(items: map<string, Item<V>>, hits: nat, misses: nat, evictions: nat, totalItems: nat)

  datatype Op<V> =
    | Get(key: string, at: int)
    | Set(key: string, value: V, ttl: int, order: seq<string>, at: int)
    | RemoveExpired(at: int)
    | Delete(key: string, at: int)
    | Clear(at: int)

  ghost predicate IsOrder<V>(order: seq<string>, items: map<string, Item<V>>) {
    && (forall k :: k in order <==> k in items)
    && forall i, j :: 0 <= i < j < |order| ==> order[i] != order[j]
  }

  /** The scan of evictLRU; the empty string stands for "none yet", also when it is a key. */
  function Scan<V>(items: map<string, Item<V>>, order: seq<string>): (lru: string)
    requires forall k :: k in order ==> k in items
    ensures lru == "" || lru in order
  {
    if order == [] then ""
    else
      var best, key := Scan(items, order[..|order|-1]), order[|order|-1];
      if best == "" || items[key].lastAccess < items[best].lastAccess then key else best
  }

  function EvictLru<V>(s: State<V>, order: seq<string>): State<V>
    requires forall k :: k in order ==> k in s.items
  {
    var lru := Scan(s.items, order);
    if lru == "" then s else s.(items := s.items - {lru}, evictions := s.evictions + 1)
  }

  /** The scan of a full cache ranges over exactly its keys. */
  ghost predicate Legal<V>(max: nat, s: State<V>, op: Op<V>) {
    op.Set? && |s.items| >= max ==> IsOrder(op.order, s.items)
  }

  function Expired<V>(items: map<string, Item<V>>, at: int): set<string> {
    set k | k in items && at > items[k].expiration
  }

  /** The sweep over all keys but those still to visit has removed, and counted, the expired ones. */
  ghost predicate Swept<V>(start: map<string, Item<V>>, todo: set<string>, at: int, items: map<string, Item<V>>, count: int) {
    items == start - (Expired(start, at) - todo) && count == |Expired(start, at) - todo|
  }

  lemma SweepOne<V>(start: map<string, Item<V>>, todo: set<string>, key: string, at: int, items: map<string, Item<V>>, n: int)
    requires key in todo && todo <= start.Keys && Swept(start, todo, at, items, n)
    ensures key in items
    ensures var late := at > items[key].expiration;
            Swept(start, todo - {key}, at, if late then items - {key} else items, if late then n + 1 else n)
  {
    var gone := Expired(start, at) - todo;
    if at > items[key].expiration {
      assert Expired(start, at) - (todo - {key}) == gone + {key};
      assert start - (gone + {key}) == start - gone - {key};
    } else {
      assert Expired(start, at) - (todo - {key}) == gone;
    }
  }

  function Apply<V>(max: nat, s: State<V>, op: Op<V>): State<V>
    requires Legal(max, s, op)
  {
    match op
    case Get(key, at) =>
      if key !in s.items then s.(misses := s.misses + 1)
      else if at > s.items[key].expiration then
        s.(items := s.items - {key}, misses := s.misses + 1, evictions := s.evictions + 1)
      else
        var item := s.items[key];
        s.(items := s.items[key := item.(accessCount := item.accessCount + 1, lastAccess := at)], hits := s.hits + 1)
    case Set(key, value, ttl, order, at) =>
      var room := if |s.items| >= max then EvictLru(s, order) else s;
      room.(items := room.items[key := Item(value, at + ttl, at, 1, at)], totalItems := room.totalItems + 1)
    case RemoveExpired(at) =>
      var gone := Expired(s.items, at);
      s.(items := s.items - gone, evictions := s.evictions + |gone|)
    case Delete(key, _) => s.(items := s.items - {key})
    case Clear(_) => s.(items := map[])
  }

  /** What a Get returns. */
  function Answer<V>(s: State<V>, key: string, at: int): Option<V> {
    if key in s.items && at <= s.items[key].expiration then Some(s.items[key].value) else None
  }

  ghost predicate LegalHistory<V>(max: nat, h: seq<Op<V>>)
    decreases |h|, 0
  {
    h == [] || (LegalHistory(max, h[..|h|-1]) && Legal(max, Run(max, h[..|h|-1]), h[|h|-1]))
  }

  function Run<V>(max: nat, h: seq<Op<V>>): State<V>
    requires LegalHistory(max, h)
    decreases |h|, 1
  {
    if h == [] then State(map[], 0, 0, 0, 0) else Apply(max, Run(max, h[..|h|-1]), h[|h|-1])
  }

  lemma Extend<V>(max: nat, h: seq<Op<V>>, op: Op<V>)
    requires LegalHistory(max, h) && Legal(max, Run(max, h), op)
    ensures LegalHistory(max, h + [op]) && Run(max, h + [op]) == Apply(max, Run(max, h), op)
  {
    assert (h + [op])[..|h|] == h;
  }

  /** The cache object. `history` records its operations, so what is proved of histories holds of it. */
  class MemoryCache<V> {
    var items: map<string, Item<V>>
    var hits: nat
    var misses: nat
    var evictions: nat
    var totalItems: nat
    const maxSize: nat
    ghost var history: seq<Op<V>>

    function Now(): State<V>
      reads this
    {
      State(items, hits, misses, evictions, totalItems)
    }

    ghost predicate Valid()
      reads this
    {
      LegalHistory(maxSize, history) && Now() == Run(maxSize, history)
    }

    constructor (maxSize: nat)
      ensures Valid() && this.maxSize == maxSize && history == []
    {
      this.maxSize := maxSize;
      items, hits, misses, evictions, totalItems := map[], 0, 0, 0, 0;
      history := [];
    }

    method Get(key: string, at: int) returns (found: Option<V>)
      requires Valid()
      modifies this
      ensures Valid() && history == old(history) + [Op.Get(key, at)]
      ensures found == Answer(old(Now()), key, at)
    {
      Extend(maxSize, history, Op.Get(key, at));
      found := LookUp(key, at);
      history := history + [Op.Get(key, at)];
    }

    method LookUp(key: string, at: int) returns (found: Option<V>)
      modifies `items, `hits, `misses, `evictions
      ensures Now() == Apply(maxSize, old(Now()), Op.Get(key, at))
      ensures found == Answer(old(Now()), key, at)
    {
      if key !in items {
        misses := misses + 1;
        return None;
      }
      if at > items[key].expiration {
        items := items - {key};
        misses, evictions := misses + 1, evictions + 1;
        return None;
      }
      var item := items[key];
      items := items[key := item.(accessCount := item.accessCount + 1, lastAccess := at)];
      hits := hits + 1;
      return Some(item.value);
    }

    /** Ranges over the map in an arbitrary order, reported in `order`. */
    method EvictLRU() returns (ghost order: seq<string>)
      modifies `items, `evictions
      ensures IsOrder(order, old(items)) && Now() == EvictLru(old(Now()), order)
    {
      var lru, todo := "", items.Keys;
      order := [];
      while todo != {}
        invariant todo <= items.Keys
        invariant forall k :: k in order <==> k in items && k !in todo
        invariant forall i, j :: 0 <= i < j < |order| ==> order[i] != order[j]
        invariant lru == Scan(items, order)
        decreases todo
      {
        var key :| key in todo;
        assert (order + [key])[..|order|] == order;
        if lru == "" || items[key].lastAccess < items[lru].lastAccess {
          lru := key;
        }
        order := order + [key];
        todo := todo - {key};
      }
      if lru != "" {
        items := items - {lru};
        evictions := evictions + 1;
      }
    }

    method Store(key: string, value: V, ttl: int, at: int) returns (ghost order: seq<string>)
      modifies `items, `evictions, `totalItems
      ensures Legal(maxSize, old(Now()), Op.Set(key, value, ttl, order, at))
      ensures Now() == Apply(maxSize, old(Now()), Op.Set(key, value, ttl, order, at))
    {
      order := [];
      if |items| >= maxSize {
        order := EvictLRU();
      }
      items := items[key := Item(value, at + ttl, at, 1, at)];
      totalItems := totalItems + 1;
    }

    method Set(key: string, value: V, ttl: int, at: int) returns (ghost order: seq<string>)
      requires Valid()
      modifies this
      ensures Valid() && history == old(history) + [Op.Set(key, value, ttl, order, at)]
    {
      order := Store(key, value, ttl, at);
      Extend(maxSize, history, Op.Set(key, value, ttl, order, at));
      history := history + [Op.Set(key, value, ttl, order, at)];
    }

    /** The loop of removeExpired: ranges over the map, deleting what has expired. */
    method SweepExpired(at: int)
      modifies `items, `evictions
      ensures items == old(items) - Expired(old(items), at)
      ensures evictions == old(evictions) + |Expired(old(items), at)|
    {
      ghost var start := items;
      var todo := items.Keys;
      while todo != {}
        invariant todo <= start.Keys
        invariant Swept(start, todo, at, items, evictions - old(evictions))
        decreases todo
      {
        var key :| key in todo;
        SweepOne(start, todo, key, at, items, evictions - old(evictions));
        DropIfExpired(key, at);
        todo := todo - {key};
      }
    }

    method DropIfExpired(key: string, at: int)
      requires key in items
      modifies `items, `evictions
      ensures var late := at > old(items)[key].expiration;
              && items == (if late then old(items) - {key} else old(items))
              && evictions == (if late then old(evictions) + 1 else old(evictions))
    {
      if at > items[key].expiration {
        items := items - {key};
        evictions := evictions + 1;
      }
    }

    method RemoveExpired(at: int)
      requires Valid()
      modifies this
      ensures Valid() && history == old(history) + [Op.RemoveExpired(at)]
    {
      Extend(maxSize, history, Op.RemoveExpired(at));
      SweepExpired(at);
      history := history + [Op.RemoveExpired(at)];
    }

    method Delete(key: string, at: int)
      requires Valid()
      modifies this
      ensures Valid() && history == old(history) + [Op.Delete(key, at)]
    {
      Extend(maxSize, history, Op.Delete(key, at));
      items := items - {key};
      history := history + [Op.Delete(key, at)];
    }

    method Clear(at: int)
      requires Valid()
      modifies this
      ensures Valid() && history == old(history) + [Op.Clear(at)]
    {
      Extend(maxSize, history, Op.Clear(at));
      items := map[];
      history := history + [Op.Clear(at)];
    }
  }

  // ---- Agreement with the plain map -----------------------------------------------------------------

  datatype Entry<V> = Entry(value: V, expiration: int)

  /** The last thing stored under the key, if nothing deleted it since: a map that never forgets. */
  function Latest<V>(h: seq<Op<V>>, key: string): Option<Entry<V>> {
    if h == [] then None
    else
      var op := h[|h|-1];
      match op
      case Set(k, value, ttl, _, at) => if k == key then Some(Entry(value, at + ttl)) else Latest(h[..|h|-1], key)
      case Delete(k, _) => if k == key then None else Latest(h[..|h|-1], key)
      case Clear(_) => None
      case _ => Latest(h[..|h|-1], key)
  }

  lemma LatestStep<V>(h: seq<Op<V>>, op: Op<V>, key: string)
    ensures Latest(h + [op], key) ==
            if op.Set? && op.key == key then Some(Entry(op.value, op.at + op.ttl))
            else if op.Clear? || (op.Delete? && op.key == key) then None
            else Latest(h, key)
  {
    assert (h + [op])[..|h|] == h;
  }

  lemma {:induction false} HoldsLatest<V>(max: nat, h: seq<Op<V>>, key: string)
    requires LegalHistory(max, h) && key in Run(max, h).items
    ensures Latest(h, key) == Some(Entry(Run(max, h).items[key].value, Run(max, h).items[key].expiration))
  {
    if h != [] {
      var before, op := h[..|h|-1], h[|h|-1];
      var s := Run(max, before);
      if !(op.Set? && op.key == key) {
        assert key in s.items && !(op.Delete? && op.key == key) && !op.Clear?;
        HoldsLatest(max, before, key);
      }
    }
  }

  /** A hit returns the value of the latest Set of the key, not deleted or cleared since, no later than it expires. */
  lemma HitIsLatest<V>(max: nat, h: seq<Op<V>>, key: string, at: int)
    requires LegalHistory(max, h) && Answer(Run(max, h), key, at).Some?
    ensures Latest(h, key).Some? && at <= Latest(h, key).value.expiration
    ensures Answer(Run(max, h), key, at).value == Latest(h, key).value.value
  {
    HoldsLatest(max, h, key);
  }

  // ---- What each operation does to an entry ------------------------------------------------------------

  /** An entry leaves exactly by a Get or a sweep after it expired, by Delete, by Clear, or by being the one that a Set of
      another key evicts from a full cache. */
  predicate Leaves<V>(max: nat, s: State<V>, op: Op<V>, key: string)
    requires Legal(max, s, op) && key in s.items
  {
    match op
    case Get(k, at) => k == key && at > s.items[key].expiration
    case RemoveExpired(at) => at > s.items[key].expiration
    case Delete(k, _) => k == key
    case Clear(_) => true
    case Set(k, _, _, order, _) => |s.items| >= max && k != key && key != "" && Scan(s.items, order) == key
  }

  lemma {:induction false} EntersAndLeaves<V>(max: nat, s: State<V>, op: Op<V>, key: string)
    requires Legal(max, s, op)
    ensures key in s.items ==> (key !in Apply(max, s, op).items <==> Leaves(max, s, op, key))
    ensures key !in s.items ==> (key in Apply(max, s, op).items <==> op.Set? && op.key == key)
  {}

  /** A sweep removes everything that has expired, nothing else, and changes no entry; so does a Get of an expired key. */
  lemma {:induction false} SweepRemovesExactlyExpired<V>(max: nat, h: seq<Op<V>>, key: string, at: int)
    requires LegalHistory(max, h)
    ensures var s := Run(max, h);
            && LegalHistory(max, h + [RemoveExpired(at)]) && LegalHistory(max, h + [Op.Get(key, at)])
            && var swept, read := Run(max, h + [RemoveExpired(at)]).items, Run(max, h + [Op.Get(key, at)]).items;
               && (forall k :: k in swept <==> k in s.items && at <= s.items[k].expiration)
               && (forall k :: k in swept ==> swept[k] == s.items[k])
               && (key in read <==> key in s.items && at <= s.items[key].expiration)
               && (forall k :: k != key ==> (k in read <==> k in s.items) && (k in read ==> read[k] == s.items[k]))
  {
    Extend(max, h, RemoveExpired(at));
    Extend(max, h, Op.Get(key, at));
  }

  /** How a key has been used since it was last stored: when that was, how often it was hit, and when it was last touched. */
  datatype Usage = Usage(storedAt: int, hits: nat, touchedAt: int)

  function UsageOf<V>(max: nat, h: seq<Op<V>>, key: string): Usage
    requires LegalHistory(max, h)
  {
    if h == [] then Usage(0, 0, 0)
    else
      var before, op := h[..|h|-1], h[|h|-1];
      var usage := UsageOf(max, before, key);
      if op.Set? && op.key == key then Usage(op.at, 0, op.at)
      else if op.Get? && op.key == key && Answer(Run(max, before), key, op.at).Some? then
        Usage(usage.storedAt, usage.hits + 1, op.at)
      else usage
  }

  /** An entry records when it was stored, one access for that and one for every hit since, and when the last was. */
  lemma {:induction false} EntryRecordsUsage<V>(max: nat, h: seq<Op<V>>, key: string)
    requires LegalHistory(max, h) && key in Run(max, h).items
    ensures var item, usage := Run(max, h).items[key], UsageOf(max, h, key);
            item.createdAt == usage.storedAt && item.accessCount == 1 + usage.hits && item.lastAccess == usage.touchedAt
  {
    if h != [] {
      var before, op := h[..|h|-1], h[|h|-1];
      EntersAndLeaves(max, Run(max, before), op, key);
      if !(op.Set? && op.key == key) {
        EntryRecordsUsage(max, before, key);
      }
    }
  }

  // ---- Recency --------------------------------------------------------------------------------------

  /** A Set, or a Get that hits. */
  predicate Touches<V>(s: State<V>, op: Op<V>, key: string) {
    || (op.Set? && op.key == key)
    || (op.Get? && op.key == key && Answer(s, key, op.at).Some?)
  }

  /** The other keys touched since the key's own last touch. */
  function OthersSince<V>(max: nat, h: seq<Op<V>>, key: string): set<string>
    requires LegalHistory(max, h)
  {
    if h == [] then {}
    else
      var before, op := h[..|h|-1], h[|h|-1];
      if Touches(Run(max, before), op, key) then {}
      else
        OthersSince(max, before, key) +
        if (op.Set? || op.Get?) && Touches(Run(max, before), op, op.key) then {op.key} else {}
  }

  ghost predicate Strict<V>(h: seq<Op<V>>) {
    forall i, j :: 0 <= i < j < |h| ==> h[i].at < h[j].at
  }

  ghost predicate NoEmptyKey<V>(h: seq<Op<V>>) {
    forall op :: op in h && op.Set? ==> op.key != ""
  }

  /** Without the empty key the scan finds a least recently used entry, whatever order it ranges in. */
  lemma {:induction false} ScanFindsLeast<V>(items: map<string, Item<V>>, order: seq<string>)
    requires forall k :: k in order ==> k in items && k != ""
    requires order != []
    ensures Scan(items, order) != ""
    ensures forall k :: k in order ==> items[Scan(items, order)].lastAccess <= items[k].lastAccess
  {
    var before, key := order[..|order|-1], order[|order|-1];
    assert forall k :: k in order <==> k in before || k == key;
    if before != [] {
      ScanFindsLeast(items, before);
    }
  }

  /** Access times are past and distinct. */
  ghost predicate Timed<V>(items: map<string, Item<V>>, at: int) {
    && (forall k :: k in items ==> items[k].lastAccess <= at)
    && (forall k, j :: k in items && j in items && k != j ==> items[k].lastAccess != items[j].lastAccess)
  }

  ghost predicate Stamped<V>(max: nat, items: map<string, Item<V>>, at: int) {
    "" !in items && |items| <= max && Timed(items, at)
  }

  lemma SizeOfKeys<V>(m: map<string, Item<V>>)
    ensures |m| == |m.Keys|
  {}

  lemma RemovalKeepsStamps<V>(max: nat, items: map<string, Item<V>>, gone: set<string>, at: int, later: int)
    requires Stamped(max, items, at) && at <= later
    ensures Stamped(max, items - gone, later)
  {
    SizeOfKeys(items);
    SizeOfKeys(items - gone);
    SubsetSize((items - gone).Keys, items.Keys);
  }

  lemma InsertKeepsTimes<V>(items: map<string, Item<V>>, key: string, item: Item<V>, at: int)
    requires Timed(items, at) && at < item.lastAccess
    ensures Timed(items[key := item], item.lastAccess)
  {}

  lemma InsertSize<V>(items: map<string, Item<V>>, key: string, item: Item<V>)
    ensures |items[key := item]| == |items| + if key in items then 0 else 1
  {
    SizeOfKeys(items[key := item]);
    SizeOfKeys(items);
    assert items[key := item].Keys == items.Keys + {key};
  }

  lemma InsertKeepsStamps<V>(max: nat, items: map<string, Item<V>>, key: string, item: Item<V>, at: int)
    requires Stamped(max, items, at) && (|items| < max || key in items) && key != "" && at < item.lastAccess
    ensures Stamped(max, items[key := item], item.lastAccess)
  {
    InsertKeepsTimes(items, key, item, at);
    InsertSize(items, key, item);
  }

  /** Eviction takes exactly one entry, and no entry is older. */
  lemma EvictsOldest<V>(max: nat, s: State<V>, order: seq<string>, at: int)
    requires max >= 1 && Stamped(max, s.items, at) && |s.items| >= max && IsOrder(order, s.items)
    ensures var lru := Scan(s.items, order);
            && lru in s.items && EvictLru(s, order).items == s.items - {lru}
            && |s.items - {lru}| == max - 1
            && forall k :: k in s.items && k != lru ==> s.items[lru].lastAccess < s.items[k].lastAccess
  {
    var k :| k in s.items;
    assert k in order;
    ScanFindsLeast(s.items, order);
    var lru := Scan(s.items, order);
    assert (s.items - {lru}).Keys == s.items.Keys - {lru};
    SizeOfKeys(s.items - {lru});
  }

  lemma ReplaceKeepsStamps<V>(max: nat, items: map<string, Item<V>>, lru: string, key: string, item: Item<V>, at: int)
    requires Stamped(max, items, at) && |items - {lru}| < max && key != "" && at < item.lastAccess
    ensures Stamped(max, (items - {lru})[key := item], item.lastAccess)
  {
    RemovalKeepsStamps(max, items, {lru}, at, at);
    InsertKeepsStamps(max, items - {lru}, key, item, at);
  }

  lemma SetKeepsStamps<V>(max: nat, s: State<V>, op: Op<V>, at: int)
    requires max >= 1 && Stamped(max, s.items, at) && op.Set? && Legal(max, s, op) && at < op.at && op.key != ""
    ensures Stamped(max, Apply(max, s, op).items, op.at)
  {
    var item := Item(op.value, op.at + op.ttl, op.at, 1, op.at);
    if |s.items| >= max {
      EvictsOldest(max, s, op.order, at);
      ReplaceKeepsStamps(max, s.items, Scan(s.items, op.order), op.key, item, at);
    } else {
      InsertKeepsStamps(max, s.items, op.key, item, at);
    }
  }

  lemma KeepsStamps<V>(max: nat, s: State<V>, op: Op<V>, at: int)
    requires max >= 1 && Stamped(max, s.items, at) && Legal(max, s, op) && at < op.at
    requires op.Set? ==> op.key != ""
    ensures Stamped(max, Apply(max, s, op).items, op.at)
  {
    match op
    case Get(key, now) =>
      if Touches(s, op, key) {
        var item := s.items[key];
        InsertKeepsStamps(max, s.items, key, item.(accessCount := item.accessCount + 1, lastAccess := now), at);
      } else {
        RemovalKeepsStamps(max, s.items, {key}, at, now);
      }
    case Set(_, _, _, _, _) => SetKeepsStamps(max, s, op, at);
    case RemoveExpired(now) => RemovalKeepsStamps(max, s.items, Expired(s.items, now), at, now);
    case Delete(key, now) => RemovalKeepsStamps(max, s.items, {key}, at, now);
    case Clear(now) =>
  }

  function LastAt<V>(h: seq<Op<V>>): int {
    if h == [] then 0 else h[|h|-1].at
  }

  lemma {:induction false} StampedHistory<V>(max: nat, h: seq<Op<V>>)
    requires max >= 1 && LegalHistory(max, h) && Strict(h) && NoEmptyKey(h)
    ensures Stamped(max, Run(max, h).items, LastAt(h))
  {
    if h != [] {
      var before, op := h[..|h|-1], h[|h|-1];
      StampedHistory(max, before);
      assert op in h;
      KeepsStamps(max, Run(max, before), op, if before == [] then op.at - 1 else LastAt(before));
    }
  }

  /** Entries accessed later than k's last access were touched since k's last touch. */
  lemma {:induction false} LaterMeansTouchedSince<V>(max: nat, h: seq<Op<V>>, k: string, j: string)
    requires max >= 1 && LegalHistory(max, h) && Strict(h) && NoEmptyKey(h)
    requires var items := Run(max, h).items; k in items && j in items && items[k].lastAccess < items[j].lastAccess
    ensures j in OthersSince(max, h, k)
  {
    var before, op := h[..|h|-1], h[|h|-1];
    StampedHistory(max, before);
    var s := Run(max, before);
    assert before != [] ==> LastAt(before) < op.at;
    if !Touches(s, op, j) {
      UntouchedItem(max, s, op, j);
      if !Touches(s, op, k) {
        UntouchedItem(max, s, op, k);
        LaterMeansTouchedSince(max, before, k, j);
      } else if before != [] {
        TouchedItem(max, s, op, k);
      }
    }
  }

  lemma UntouchedItem<V>(max: nat, s: State<V>, op: Op<V>, k: string)
    requires Legal(max, s, op) && !Touches(s, op, k) && k in Apply(max, s, op).items
    ensures k in s.items && Apply(max, s, op).items[k] == s.items[k]
  {}

  lemma TouchedItem<V>(max: nat, s: State<V>, op: Op<V>, k: string)
    requires Legal(max, s, op) && Touches(s, op, k)
    ensures k in Apply(max, s, op).items && Apply(max, s, op).items[k].lastAccess == op.at
  {}

  ghost predicate Bounded<V>(max: nat, items: map<string, Item<V>>) {
    "" !in items && |items| <= max
  }

  lemma RemovalKeepsBound<V>(max: nat, items: map<string, Item<V>>, gone: set<string>)
    requires Bounded(max, items)
    ensures Bounded(max, items - gone)
  {
    SizeOfKeys(items);
    SizeOfKeys(items - gone);
    SubsetSize((items - gone).Keys, items.Keys);
  }

  /** Without the empty key an eviction takes exactly one entry. */
  lemma EvictsOne<V>(max: nat, s: State<V>, order: seq<string>)
    requires max >= 1 && Bounded(max, s.items) && |s.items| >= max && IsOrder(order, s.items)
    ensures |EvictLru(s, order).items| == max - 1
  {
    var k :| k in s.items;
    assert k in order;
    ScanFindsLeast(s.items, order);
    var lru := Scan(s.items, order);
    assert (s.items - {lru}).Keys == s.items.Keys - {lru};
    SizeOfKeys(s.items - {lru});
  }

  lemma SetKeepsBound<V>(max: nat, s: State<V>, op: Op<V>)
    requires max >= 1 && Bounded(max, s.items) && op.Set? && Legal(max, s, op) && op.key != ""
    ensures Bounded(max, Apply(max, s, op).items)
  {
    var item := Item(op.value, op.at + op.ttl, op.at, 1, op.at);
    if |s.items| >= max {
      EvictsOne(max, s, op.order);
      InsertSize(EvictLru(s, op.order).items, op.key, item);
    } else {
      InsertSize(s.items, op.key, item);
    }
  }

  lemma KeepsBound<V>(max: nat, s: State<V>, op: Op<V>)
    requires max >= 1 && Bounded(max, s.items) && Legal(max, s, op)
    requires op.Set? ==> op.key != ""
    ensures Bounded(max, Apply(max, s, op).items)
  {
    match op
    case Get(key, now) =>
      if Touches(s, op, key) {
        InsertSize(s.items, key, s.items[key].(accessCount := s.items[key].accessCount + 1, lastAccess := now));
      } else {
        RemovalKeepsBound(max, s.items, {key});
      }
    case Set(_, _, _, _, _) => SetKeepsBound(max, s, op);
    case RemoveExpired(now) => RemovalKeepsBound(max, s.items, Expired(s.items, now));
    case Delete(key, now) => RemovalKeepsBound(max, s.items, {key});
    case Clear(now) =>
  }

  /** The size never exceeds the bound, whatever the clock does. */
  lemma {:induction false} SizeBound<V>(max: nat, h: seq<Op<V>>)
    requires max >= 1 && LegalHistory(max, h) && NoEmptyKey(h)
    ensures |Run(max, h).items| <= max && "" !in Run(max, h).items
  {
    if h != [] {
      var before, op := h[..|h|-1], h[|h|-1];
      assert op in h;
      SizeBound(max, before);
      KeepsBound(max, Run(max, before), op);
    }
  }

  /** The operation that removes an entry not yet expired or deleted is a Set on a full cache, which evicts it. */
  lemma LeavesByEviction<V>(max: nat, s: State<V>, op: Op<V>, key: string, at: int)
    requires max >= 1 && Stamped(max, s.items, at) && Legal(max, s, op) && key in s.items && key !in Apply(max, s, op).items
    requires op.at <= s.items[key].expiration && !op.Clear? && !(op.Delete? && op.key == key)
    ensures |s.items.Keys - {key}| == max - 1
    ensures forall j :: j in s.items && j != key ==> s.items[key].lastAccess < s.items[j].lastAccess
  {
    EvictsOldest(max, s, op.order, at);
    assert (s.items - {key}).Keys == s.items.Keys - {key};
    SizeOfKeys(s.items - {key});
  }

  lemma OthersGrow<V>(max: nat, h: seq<Op<V>>, op: Op<V>, key: string)
    requires LegalHistory(max, h + [op]) && LegalHistory(max, h) && !Touches(Run(max, h), op, key)
    ensures OthersSince(max, h, key) <= OthersSince(max, h + [op], key)
  {
    assert (h + [op])[..|h|] == h;
  }

  lemma OldestHasOthers<V>(max: nat, h: seq<Op<V>>, key: string)
    requires max >= 1 && LegalHistory(max, h) && Strict(h) && NoEmptyKey(h)
    requires var items := Run(max, h).items;
             key in items && forall j :: j in items && j != key ==> items[key].lastAccess < items[j].lastAccess
    ensures |Run(max, h).items.Keys - {key}| <= |OthersSince(max, h, key)|
  {
    var others := Run(max, h).items.Keys - {key};
    forall j | j in others ensures j in OthersSince(max, h, key) {
      LaterMeansTouchedSince(max, h, key, j);
    }
    SubsetSize(others, OthersSince(max, h, key));
  }

  /** An entry not yet expired or deleted is missing only if at least max - 1 other keys have been touched since it
      was last touched itself. */
  lemma {:induction false} LostOnlyToRecency<V>(max: nat, h: seq<Op<V>>, key: string)
    requires max >= 1 && LegalHistory(max, h) && Strict(h) && NoEmptyKey(h)
    requires Latest(h, key).Some? && LastAt(h) <= Latest(h, key).value.expiration && key !in Run(max, h).items
    ensures |OthersSince(max, h, key)| >= max - 1
  {
    var before, op := h[..|h|-1], h[|h|-1];
    assert h == before + [op];
    var s := Run(max, before);
    assert Latest(before, key) == Latest(h, key) && !Touches(s, op, key);
    if key !in s.items {
      LostOnlyToRecency(max, before, key);
    } else {
      StampedHistory(max, before);
      HoldsLatest(max, before, key);
      LeavesByEviction(max, s, op, key, LastAt(before));
      OldestHasOthers(max, before, key);
    }
    OthersGrow(max, before, op, key);
    SubsetSize(OthersSince(max, before, key), OthersSince(max, h, key));
  }

  /** LRU survival: with fewer than max - 1 other keys touched since its own last touch, an entry that was stored,
      not deleted or cleared, and has not expired is a hit, with the value last stored. */
  lemma RecentlyUsedSurvives<V>(max: nat, h: seq<Op<V>>, key: string, at: int)
    requires max >= 1 && LegalHistory(max, h) && Strict(h) && NoEmptyKey(h)
    requires h != [] && LastAt(h) <= at
    requires Latest(h, key).Some? && at <= Latest(h, key).value.expiration
    requires |OthersSince(max, h, key)| < max - 1
    ensures Answer(Run(max, h), key, at) == Some(Latest(h, key).value.value)
  {
    if key !in Run(max, h).items {
      LostOnlyToRecency(max, h, key);
    } else {
      HoldsLatest(max, h, key);
    }
  }

  // ---- Statistics -----------------------------------------------------------------------------------

  /** Counted off the history: reads, answered reads, stores, stores over a present key, and entries taken away by
      Delete and by Clear. */
  datatype Tally = Tally(gets: nat, answered: nat, sets: nat, replaced: nat, deleted: nat, cleared: nat)

  function Count<V>(max: nat, s: State<V>, op: Op<V>, t: Tally): Tally
    requires Legal(max, s, op)
  {
    match op
    case Get(key, at) =>
      t.(gets := t.gets + 1, answered := t.answered + if Answer(s, key, at).Some? then 1 else 0)
    case Set(key, _, _, order, _) =>
      var kept := if |s.items| >= max then EvictLru(s, order).items else s.items;
      t.(sets := t.sets + 1, replaced := t.replaced + if key in kept then 1 else 0)
    case Delete(key, _) => t.(deleted := t.deleted + if key in s.items then 1 else 0)
    case Clear(_) => t.(cleared := t.cleared + |s.items|)
    case RemoveExpired(_) => t
  }

  function TallyOf<V>(max: nat, h: seq<Op<V>>): Tally
    requires LegalHistory(max, h)
  {
    if h == [] then Tally(0, 0, 0, 0, 0, 0)
    else Count(max, Run(max, h[..|h|-1]), h[|h|-1], TallyOf(max, h[..|h|-1]))
  }

  /** Nothing stored is lost from the books. */
  ghost predicate Balanced<V>(s: State<V>, t: Tally) {
    && s.hits == t.answered && s.hits + s.misses == t.gets
    && s.totalItems == t.sets == |s.items| + s.evictions + t.replaced + t.deleted + t.cleared
  }

  lemma RemovalSize<V>(items: map<string, Item<V>>, gone: set<string>)
    requires gone <= items.Keys
    ensures |items - gone| == |items| - |gone|
  {
    SizeOfKeys(items);
    SizeOfKeys(items - gone);
    assert (items - gone).Keys == items.Keys - gone;
  }

  lemma EvictionBalances<V>(s: State<V>, order: seq<string>)
    requires forall k :: k in order ==> k in s.items
    ensures var room := EvictLru(s, order);
            && |room.items| + room.evictions == |s.items| + s.evictions
            && room == s.(items := room.items, evictions := room.evictions)
  {
    var lru := Scan(s.items, order);
    if lru != "" {
      RemovalSize(s.items, {lru});
    }
  }

  lemma GetBalances<V>(max: nat, s: State<V>, key: string, at: int, t: Tally)
    requires Balanced(s, t)
    ensures Balanced(Apply(max, s, Op.Get(key, at)), Count(max, s, Op.Get(key, at), t))
  {
    if key in s.items {
      if at > s.items[key].expiration {
        RemovalSize(s.items, {key});
      } else {
        InsertSize(s.items, key, s.items[key].(accessCount := s.items[key].accessCount + 1, lastAccess := at));
      }
    }
  }

  lemma SetBalances<V>(max: nat, s: State<V>, op: Op<V>, t: Tally)
    requires Balanced(s, t) && op.Set? && Legal(max, s, op)
    ensures Balanced(Apply(max, s, op), Count(max, s, op, t))
  {
    var room := if |s.items| >= max then EvictLru(s, op.order) else s;
    if |s.items| >= max {
      EvictionBalances(s, op.order);
    }
    InsertSize(room.items, op.key, Item(op.value, op.at + op.ttl, op.at, 1, op.at));
  }

  lemma KeepsBalance<V>(max: nat, s: State<V>, op: Op<V>, t: Tally)
    requires Balanced(s, t) && Legal(max, s, op)
    ensures Balanced(Apply(max, s, op), Count(max, s, op, t))
  {
    match op
    case Get(key, at) => GetBalances(max, s, key, at, t);
    case Set(_, _, _, _, _) => SetBalances(max, s, op, t);
    case RemoveExpired(now) => RemovalSize(s.items, Expired(s.items, now));
    case Delete(key, now) =>
      if key in s.items {
        RemovalSize(s.items, {key});
      } else {
        assert s.items - {key} == s.items;
      }
    case Clear(now) =>
  }

  /** Conservation: every Get is a hit or a miss, a hit exactly when it is answered; and every entry ever stored is still
      there, was evicted or expired and counted as such, was replaced by a later one, or was taken away by Delete or Clear. */
  lemma {:induction false} NothingUnaccounted<V>(max: nat, h: seq<Op<V>>)
    requires LegalHistory(max, h)
    ensures Balanced(Run(max, h), TallyOf(max, h))
  {
    if h != [] {
      NothingUnaccounted(max, h[..|h|-1]);
      KeepsBalance(max, Run(max, h[..|h|-1]), h[|h|-1], TallyOf(max, h[..|h|-1]));
    }
  }

  /** Clear was only ever called on an empty cache. */
  ghost predicate NothingCleared<V>(max: nat, h: seq<Op<V>>)
    requires LegalHistory(max, h)
  {
    h == [] ||
    (NothingCleared(max, h[..|h|-1]) && (h[|h|-1].Clear? ==> Run(max, h[..|h|-1]).items == map[]))
  }

  lemma {:induction false} ClearedCountsClears<V>(max: nat, h: seq<Op<V>>)
    requires LegalHistory(max, h)
    ensures TallyOf(max, h).cleared == 0 <==> NothingCleared(max, h)
  {
    if h != [] {
      ClearedCountsClears(max, h[..|h|-1]);
      SizeOfKeys(Run(max, h[..|h|-1]).items);
    }
  }

  /** Every entry neither still there nor replaced nor deleted was counted as an eviction. */
  ghost predicate EvictionsComplete<V>(s: State<V>, t: Tally) {
    s.evictions == t.sets - |s.items| - t.replaced - t.deleted
  }

  lemma GapIsCleared<V>(s: State<V>, t: Tally)
    requires Balanced(s, t)
    ensures EvictionsComplete(s, t) <==> t.cleared == 0
  {}

  /** The eviction statistic is complete exactly when Clear has only been called on an empty cache: it looks at the size
      after emptying the map, and adds nothing. */
  lemma {:induction false} EvictionsCompleteExactlyWithoutClear<V>(max: nat, h: seq<Op<V>>)
    requires LegalHistory(max, h)
    ensures EvictionsComplete(Run(max, h), TallyOf(max, h)) <==> NothingCleared(max, h)
  {
    NothingUnaccounted(max, h);
    ClearedCountsClears(max, h);
    GapIsCleared(Run(max, h), TallyOf(max, h));
  }

  lemma TallyStep<V>(max: nat, h: seq<Op<V>>, op: Op<V>)
    requires LegalHistory(max, h) && Legal(max, Run(max, h), op) && LegalHistory(max, h + [op])
    ensures TallyOf(max, h + [op]) == Count(max, Run(max, h), op, TallyOf(max, h))
    ensures NothingCleared(max, h + [op]) <==> NothingCleared(max, h) && (op.Clear? ==> Run(max, h).items == map[])
  {
    assert (h + [op])[..|h|] == h;
  }

  /** After any history that left something in the cache, clearing it loses those entries from the statistic. */
  lemma {:induction false} ClearedEntriesAreNotCounted<V>(max: nat, h: seq<Op<V>>, at: int)
    requires LegalHistory(max, h) && Run(max, h).items != map[]
    ensures LegalHistory(max, h + [Clear(at)]) && !NothingCleared(max, h + [Clear(at)])
    ensures Run(max, h + [Clear(at)]).items == map[] && Run(max, h + [Clear(at)]).evictions == Run(max, h).evictions
    ensures TallyOf(max, h + [Clear(at)]) == TallyOf(max, h).(cleared := TallyOf(max, h).cleared + |Run(max, h).items|)
  {
    Extend(max, h, Clear(at));
    TallyStep(max, h, Clear(at));
  }

  // ---- The empty key --------------------------------------------------------------------------------

  ghost predicate EmptyKeyOldest<V>(items: map<string, Item<V>>) {
    "" in items && forall k :: k in items && k != "" ==> items[""].lastAccess < items[k].lastAccess
  }

  lemma {:induction false} OrderOf<V>(items: map<string, Item<V>>, keys: set<string>) returns (order: seq<string>)
    ensures forall k :: k in order <==> k in keys
    ensures forall i, j :: 0 <= i < j < |order| ==> order[i] != order[j]
  {
    order := [];
    if keys != {} {
      var k :| k in keys;
      order := OrderOf(items, keys - {k});
      order := order + [k];
    }
  }

  lemma {:induction false} ScanFindsNothing<V>(items: map<string, Item<V>>, order: seq<string>)
    requires IsOrder(order, items) && order != []
    ensures Scan(items, order) == "" <==> order[|order|-1] == "" && EmptyKeyOldest(items)
  {
    var before, key := order[..|order|-1], order[|order|-1];
    if key == "" && before != [] {
      assert forall k :: k in items <==> k in before || k == "";
      ScanFindsLeast(items, before);
    }
  }

  /** Storing a new key in a full cache, or one already beyond its bound, can make it grow, and does in some iteration
      order, exactly when the empty string is a key and the strictly least recently used one: the scan takes it for
      "none found". */
  lemma OverflowsExactlyOnOldestEmptyKey<V>(max: nat, s: State<V>, key: string, value: V, ttl: int, at: int)
    requires max >= 1 && |s.items| >= max && key !in s.items
    ensures (exists order :: IsOrder(order, s.items) &&
              |Apply(max, s, Op.Set(key, value, ttl, order, at)).items| == |s.items| + 1)
            <==> EmptyKeyOldest(s.items)
  {
    forall order | IsOrder(order, s.items)
      ensures |Apply(max, s, Op.Set(key, value, ttl, order, at)).items| == |s.items| + 1
              <==> order[|order|-1] == "" && EmptyKeyOldest(s.items)
    {
      OverflowsInOrder(max, s, order, key, Item(value, at + ttl, at, 1, at));
    }
    if EmptyKeyOldest(s.items) {
      var order := EmptyKeyLast(s.items);
    }
  }

  /** In a given order it grows just when nothing is found to evict. */
  lemma OverflowsInOrder<V>(max: nat, s: State<V>, order: seq<string>, key: string, item: Item<V>)
    requires max >= 1 && |s.items| >= max && key !in s.items && IsOrder(order, s.items)
    ensures order != [] && var room := EvictLru(s, order).items;
            |room[key := item]| == |s.items| + 1 <==> order[|order|-1] == "" && EmptyKeyOldest(s.items)
  {
    var some :| some in s.items;
    assert some in order;
    ScanFindsNothing(s.items, order);
    var room := EvictLru(s, order);
    EvictionBalances(s, order);
    InsertSize(room.items, key, item);
  }

  lemma EmptyKeyLast<V>(items: map<string, Item<V>>) returns (order: seq<string>)
    requires "" in items
    ensures IsOrder(order, items) && order[|order|-1] == ""
  {
    var others := OrderOf(items, items.Keys - {""});
    order := others + [""];
    assert forall k :: k in order <==> k in others || k == "";
  }

  function Repeated(n: nat): (key: string)
    ensures |key| == n
  {
    seq(n, _ => 'x')
  }

  /** The empty key came first and the others after it, one at a time. */
  ghost predicate Piled<V>(items: map<string, Item<V>>, n: nat) {
    && items.Keys == (set k: nat | k < n :: Repeated(k))
    && forall k :: k in items ==> items[k].lastAccess == |k|
  }

  lemma PiledStep<V>(items: map<string, Item<V>>, n: nat, item: Item<V>)
    requires Piled(items, n) && item.lastAccess == n
    ensures Repeated(n) !in items && Piled(items[Repeated(n) := item], n + 1)
  {
    var more := items[Repeated(n) := item];
    forall key ensures key in more <==> exists k: nat :: k < n + 1 && key == Repeated(k) {
      if key in items {
        var k: nat :| k < n && key == Repeated(k);
      }
    }
  }

  lemma PiledIsOldest<V>(items: map<string, Item<V>>, n: nat)
    requires Piled(items, n) && n >= 1
    ensures EmptyKeyOldest(items)
  {
    assert Repeated(0) in items && Repeated(0) == "";
    forall k | k in items && k != "" ensures items[""].lastAccess < items[k].lastAccess {
      assert |k| > 0;
    }
  }

  lemma PiledGrows<V>(max: nat, s: State<V>, value: V, ttl: int, n: nat) returns (order: seq<string>)
    requires max >= 1 && Piled(s.items, n) && |s.items| == n
    ensures var op := Op.Set(Repeated(n), value, ttl, order, n);
            && Legal(max, s, op)
            && Piled(Apply(max, s, op).items, n + 1) && |Apply(max, s, op).items| == n + 1
  {
    order := [];
    if n >= max {
      PiledIsOldest(s.items, n);
      order := EmptyKeyLast(s.items);
      ScanFindsNothing(s.items, order);
    }
    var item := Item(value, n + ttl, n, 1, n);
    PiledStep(s.items, n, item);
    InsertSize(s.items, Repeated(n), item);
  }

  lemma StrictAppend<V>(h: seq<Op<V>>, op: Op<V>)
    requires Strict(h) && forall i :: 0 <= i < |h| ==> h[i].at < op.at
    ensures Strict(h + [op]) && forall i :: 0 <= i < |h + [op]| ==> (h + [op])[i].at < op.at + 1
  {}

  /** A legal history with a strictly advancing clock, ended before n, that leaves n entries. */
  ghost predicate Piles<V>(max: nat, h: seq<Op<V>>, n: nat) {
    && LegalHistory(max, h) && Piled(Run(max, h).items, n) && |Run(max, h).items| == n
    && Strict(h) && forall i :: 0 <= i < |h| ==> h[i].at < n
  }

  lemma OneMore<V>(max: nat, h: seq<Op<V>>, value: V, ttl: int, n: nat) returns (longer: seq<Op<V>>)
    requires max >= 1 && Piles(max, h, n)
    ensures Piles(max, longer, n + 1)
  {
    var order := PiledGrows(max, Run(max, h), value, ttl, n);
    var op := Op.Set(Repeated(n), value, ttl, order, n);
    Extend(max, h, op);
    StrictAppend(h, op);
    longer := h + [op];
  }

  /** With the empty key the bound is no bound at all: for every size there is a legal history, with a strictly advancing
      clock, that leaves that many entries in the cache. */
  lemma {:induction false} GrowsWithoutBound<V>(max: nat, value: V, ttl: int, n: nat) returns (h: seq<Op<V>>)
    requires max >= 1
    ensures LegalHistory(max, h) && Strict(h) && |Run(max, h).items| == n && Piles(max, h, n)
  {
    if n == 0 {
      h := [];
    } else {
      var shorter := GrowsWithoutBound(max, value, ttl, n - 1);
      h := OneMore(max, shorter, value, ttl, n - 1);
    }
  }
}
