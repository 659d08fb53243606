/**
 Credits and blocks between the packet filter's kernel maps and Redis: published under one key per address, pulled
 back by listing keys, in whatever order Redis lists them.
 */
module CreditSync {
  import opened Basics
  import opened DottedQuad

  /** A stored string, as far as a read of an integer can tell. */
  datatype Stored = Integer(n: int) | Other(text: string)

  type Data = map<string, Stored>

  const CREDIT_PREFIX := "user_credit:"
  const BLOCK_PREFIX := "blocked_user:"
  const STATS_PREFIX := "packet_stats:"

  predicate HasPrefix(key: string, prefix: string) {
    |prefix| <= |key| && key[..|prefix|] == prefix
  }

  function StripPrefix(key: string, prefix: string): Option<string> {
    if HasPrefix(key, prefix) then Some(key[|prefix|..]) else None
  }

  /** KEYS prefix*: every matching key once, in some order. */
  ghost predicate Lists(keys: seq<string>, data: Data, prefix: string) {
    && (forall k :: k in keys <==> k in data && HasPrefix(k, prefix))
    && forall i, j :: 0 <= i < j < |keys| ==> keys[i] != keys[j]
  }

  /** The entries of a kernel map, as iterating over it yields them. */
  ghost predicate Enumerates(entries: seq<(U32, int)>, m: map<U32, int>) {
    && (forall e :: e in entries ==> e.0 in m && m[e.0] == e.1)
    && (forall ip :: ip in m ==> (ip, m[ip]) in entries)
  }

  // ---- What the loops compute -------------------------------------------------------------------------

  function Publish(data: Data, prefix: string, entries: seq<(U32, int)>): Data {
    if entries == [] then data
    else
      var last := entries[|entries|-1];
      Publish(data, prefix, entries[..|entries|-1])[prefix + Print(last.0) := Integer(last.1)]
  }

  datatype Pulled = Pulled(credits: map<U32, int>, ok: bool)

  /** The loop body for one listed key. */
  function PullOne(data: Data, before: Pulled, key: string): Pulled {
    if !before.ok then before
    else
      match StripPrefix(key, CREDIT_PREFIX)
      case None => before
      case Some(part) =>
        if key !in data || !data[key].Integer? then Pulled(before.credits, false)
        else if Parse(part).None? then before
        else Pulled(before.credits[Parse(part).value := data[key].n], true)
  }

  /** The loop over the listed keys; it stops at the first value that is not an integer. */
  function PullCredits(data: Data, credits: map<U32, int>, keys: seq<string>): Pulled {
    if keys == [] then Pulled(credits, true)
    else PullOne(data, PullCredits(data, credits, keys[..|keys|-1]), keys[|keys|-1])
  }

  function PullBlocked(blocked: map<U32, nat>, keys: seq<string>): map<U32, nat> {
    if keys == [] then blocked
    else
      var before, part := PullBlocked(blocked, keys[..|keys|-1]), StripPrefix(keys[|keys|-1], BLOCK_PREFIX);
      if part.Some? && Parse(part.value).Some? then before[Parse(part.value).value := 1] else before
  }

  class Redis {
    var data: Data
  }

  class EbpfManager {
    var packetStats: map<U32, int>
    var userCredits: map<U32, int>
    var blockList: map<U32, nat>

    method UpdateUserCredit(ip: U32, credit: int)
      modifies `userCredits
      ensures userCredits == old(userCredits)[ip := credit]
    {
      userCredits := userCredits[ip := credit];
    }

    method BlockUser(ip: U32, blocked: bool)
      modifies `blockList
      ensures blockList == old(blockList)[ip := if blocked then 1 else 0]
    {
      blockList := blockList[ip := if blocked then 1 else 0];
    }

    method SyncEntries(redis: Redis, prefix: string, entries: seq<(U32, int)>)
      modifies redis
      ensures redis.data == Publish(old(redis.data), prefix, entries)
    {
      for i := 0 to |entries|
        invariant redis.data == Publish(old(redis.data), prefix, entries[..i])
      {
        assert entries[..i + 1][..i] == entries[..i];
        redis.data := redis.data[prefix + Print(entries[i].0) := Integer(entries[i].1)];
      }
      assert entries[..|entries|] == entries;
    }

    /** The entries come from iterating over the two kernel maps. */
    method SyncToRedis(redis: Redis, stats: seq<(U32, int)>, credits: seq<(U32, int)>)
      requires Enumerates(stats, packetStats) && Enumerates(credits, userCredits)
      modifies redis
      ensures redis.data == Published(old(redis.data), stats, credits)
    {
      SyncEntries(redis, STATS_PREFIX, stats);
      SyncEntries(redis, CREDIT_PREFIX, credits);
    }

    method SyncCreditsFromRedis(redis: Redis, keys: seq<string>) returns (ok: bool)
      requires Lists(keys, redis.data, CREDIT_PREFIX)
      modifies `userCredits
      ensures Pulled(userCredits, ok) == PullCredits(redis.data, old(userCredits), keys)
    {
      ok := true;
      for i := 0 to |keys|
        invariant Pulled(userCredits, true) == PullCredits(redis.data, old(userCredits), keys[..i])
      {
        var key := keys[i];
        assert keys[..i + 1][..i] == keys[..i];
        var part := StripPrefix(key, CREDIT_PREFIX);
        if part.Some? {
          if key !in redis.data || !redis.data[key].Integer? {
            StopsAt(redis.data, old(userCredits), keys, i + 1);
            return false;
          }
          var ip := Parse(part.value);
          if ip.Some? {
            UpdateUserCredit(ip.value, redis.data[key].n);
          }
        }
      }
      assert keys[..|keys|] == keys;
    }

    method SyncBlockedFromRedis(redis: Redis, keys: seq<string>)
      requires Lists(keys, redis.data, BLOCK_PREFIX)
      modifies `blockList
      ensures blockList == PullBlocked(old(blockList), keys)
    {
      for i := 0 to |keys|
        invariant blockList == PullBlocked(old(blockList), keys[..i])
      {
        assert keys[..i + 1][..i] == keys[..i];
        var part := StripPrefix(keys[i], BLOCK_PREFIX);
        if part.Some? {
          var ip := Parse(part.value);
          if ip.Some? {
            BlockUser(ip.value, true);
          }
        }
      }
      assert keys[..|keys|] == keys;
    }

    /** Credits first; blocks are not pulled when the credits could not be. */
    method SyncFromRedis(redis: Redis, creditKeys: seq<string>, blockKeys: seq<string>) returns (ok: bool)
      requires Lists(creditKeys, redis.data, CREDIT_PREFIX) && Lists(blockKeys, redis.data, BLOCK_PREFIX)
      modifies `userCredits, `blockList
      ensures Pulled(userCredits, ok) == PullCredits(redis.data, old(userCredits), creditKeys)
      ensures blockList == if ok then PullBlocked(old(blockList), blockKeys) else old(blockList)
    {
      ok := SyncCreditsFromRedis(redis, creditKeys);
      if ok {
        SyncBlockedFromRedis(redis, blockKeys);
      }
    }
  }

  lemma {:induction false} StopsAt(data: Data, credits: map<U32, int>, keys: seq<string>, n: nat)
    requires n <= |keys| && !PullCredits(data, credits, keys[..n]).ok
    ensures PullCredits(data, credits, keys) == PullCredits(data, credits, keys[..n])
    decreases |keys|
  {
    if n < |keys| {
      var init := keys[..|keys|-1];
      assert init[..n] == keys[..n];
      StopsAt(data, credits, init, n);
    } else {
      assert keys[..n] == keys;
    }
  }

  // ---- Pulling --------------------------------------------------------------------------------------

  function CreditKey(ip: U32): string {
    CREDIT_PREFIX + Print(ip)
  }

  /** Each address has one key, and each key one address. */
  lemma KeyOfAddress(key: string, prefix: string, ip: U32)
    ensures StripPrefix(prefix + Print(ip), prefix) == Some(Print(ip)) && Parse(Print(ip)) == Some(ip)
    ensures StripPrefix(key, prefix).Some? && Parse(StripPrefix(key, prefix).value) == Some(ip) ==> key == prefix + Print(ip)
  {
    ParsePrint(ip);
    assert (prefix + Print(ip))[|prefix|..] == Print(ip);
    if StripPrefix(key, prefix).Some? && Parse(StripPrefix(key, prefix).value) == Some(ip) {
      PrintParse(StripPrefix(key, prefix).value);
      assert key == key[..|prefix|] + key[|prefix|..];
    }
  }

  /** A pull succeeds exactly when every listed credit is an integer. */
  lemma {:induction false} PullSucceeds(data: Data, credits: map<U32, int>, keys: seq<string>)
    requires forall k :: k in keys ==> k in data && HasPrefix(k, CREDIT_PREFIX)
    ensures PullCredits(data, credits, keys).ok <==> forall k :: k in keys ==> data[k].Integer?
  {
    if keys != [] {
      var init, key := keys[..|keys|-1], keys[|keys|-1];
      assert forall k :: k in keys <==> k in init || k == key;
      PullSucceeds(data, credits, init);
    }
  }

  lemma PullOneSets(data: Data, before: Pulled, key: string, ip: U32)
    requires PullOne(data, before, key).ok && key in data && HasPrefix(key, CREDIT_PREFIX)
    ensures before.ok && var after := PullOne(data, before, key).credits;
            if key == CreditKey(ip) then ip in after && data[key] == Integer(after[ip])
            else (ip in after <==> ip in before.credits) && (ip in after ==> after[ip] == before.credits[ip])
  {
    KeyOfAddress(key, CREDIT_PREFIX, ip);
  }

  /** While it succeeds, a pull sets exactly the addresses whose keys it has seen. */
  lemma {:induction false} PullSets(data: Data, credits: map<U32, int>, keys: seq<string>, ip: U32)
    requires PullCredits(data, credits, keys).ok
    requires forall k :: k in keys ==> k in data && HasPrefix(k, CREDIT_PREFIX)
    ensures var after := PullCredits(data, credits, keys).credits;
            if CreditKey(ip) in keys then ip in after && data[CreditKey(ip)] == Integer(after[ip])
            else (ip in after <==> ip in credits) && (ip in after ==> after[ip] == credits[ip])
  {
    if keys != [] {
      var init, key := keys[..|keys|-1], keys[|keys|-1];
      assert forall k :: k in keys <==> k in init || k == key;
      PullOneSets(data, PullCredits(data, credits, init), key, ip);
      PullSets(data, credits, init, ip);
    }
  }

  /** The listing order does not matter: any two pulls succeed alike, and when they do, give the same credits. */
  lemma PullOrderIrrelevant(data: Data, credits: map<U32, int>, keys: seq<string>, other: seq<string>)
    requires Lists(keys, data, CREDIT_PREFIX) && Lists(other, data, CREDIT_PREFIX)
    ensures PullCredits(data, credits, keys).ok == PullCredits(data, credits, other).ok
    ensures PullCredits(data, credits, keys).ok ==> PullCredits(data, credits, keys) == PullCredits(data, credits, other)
  {
    PullSucceeds(data, credits, keys);
    PullSucceeds(data, credits, other);
    if PullCredits(data, credits, keys).ok {
      var a, b := PullCredits(data, credits, keys).credits, PullCredits(data, credits, other).credits;
      forall ip: U32 ensures (ip in a <==> ip in b) && (ip in a ==> a[ip] == b[ip]) {
        PullSets(data, credits, keys, ip);
        PullSets(data, credits, other, ip);
      }
      assert a.Keys == b.Keys;
    }
  }

  /** Whatever order and whether or not it completes, a pull moves a credit only to what Redis holds for it. */
  lemma {:induction false} PullMovesTowardsRedis(data: Data, credits: map<U32, int>, keys: seq<string>, ip: U32)
    requires forall k :: k in keys ==> k in data && HasPrefix(k, CREDIT_PREFIX)
    ensures var after := PullCredits(data, credits, keys).credits;
            || (ip in after && CreditKey(ip) in data && data[CreditKey(ip)] == Integer(after[ip]))
            || ((ip in after <==> ip in credits) && (ip in after ==> after[ip] == credits[ip]))
  {
    if keys != [] {
      var init, key := keys[..|keys|-1], keys[|keys|-1];
      assert forall k :: k in keys <==> k in init || k == key;
      PullMovesTowardsRedis(data, credits, init, ip);
      KeyOfAddress(key, CREDIT_PREFIX, ip);
    }
  }

  // ---- Publishing, then pulling -----------------------------------------------------------------------

  lemma {:induction false} PublishSets(data: Data, prefix: string, entries: seq<(U32, int)>, m: map<U32, int>)
    requires forall e :: e in entries ==> e.0 in m && m[e.0] == e.1
    ensures forall e :: e in entries ==>
              prefix + Print(e.0) in Publish(data, prefix, entries)
              && Publish(data, prefix, entries)[prefix + Print(e.0)] == Integer(e.1)
  {
    if entries != [] {
      var init, last := entries[..|entries|-1], entries[|entries|-1];
      assert forall e :: e in entries <==> e in init || e == last;
      PublishSets(data, prefix, init, m);
      forall e | e in init && prefix + Print(e.0) == prefix + Print(last.0) ensures e == last {
        assert (prefix + Print(e.0))[|prefix|..] == Print(e.0);
        assert (prefix + Print(last.0))[|prefix|..] == Print(last.0);
        ParsePrint(e.0);
        ParsePrint(last.0);
      }
    }
  }

  /** Publishing sets exactly the keys of the entries' addresses and leaves every other key as it was. */
  lemma {:induction false} PublishTouchesOnly(data: Data, prefix: string, entries: seq<(U32, int)>, key: string)
    requires forall e :: e in entries ==> key != prefix + Print(e.0)
    ensures var after := Publish(data, prefix, entries);
            (key in after <==> key in data) && (key in after ==> after[key] == data[key])
  {
    if entries != [] {
      var init, last := entries[..|entries|-1], entries[|entries|-1];
      assert last in entries && forall e :: e in init ==> e in entries;
      PublishTouchesOnly(data, prefix, init, key);
    }
  }

  lemma OtherPrefix(prefix: string, prefix': string, a: string, b: string)
    requires |prefix| > 0 && |prefix'| > 0 && prefix[0] != prefix'[0]
    ensures prefix + a != prefix' + b
  {
    assert (prefix + a)[0] == prefix[0] && (prefix' + b)[0] == prefix'[0];
  }

  lemma {:induction false} PublishesAll(data: Data, prefix: string, entries: seq<(U32, int)>, m: map<U32, int>, ip: U32)
    requires Enumerates(entries, m) && ip in m
    ensures prefix + Print(ip) in Publish(data, prefix, entries)
    ensures Publish(data, prefix, entries)[prefix + Print(ip)] == Integer(m[ip])
  {
    PublishSets(data, prefix, entries, m);
    assert (ip, m[ip]) in entries;
  }

  function Published(data: Data, stats: seq<(U32, int)>, entries: seq<(U32, int)>): Data {
    Publish(Publish(data, STATS_PREFIX, stats), CREDIT_PREFIX, entries)
  }

  /** Publishing both kernel maps puts every address's credit under its own key. */
  lemma {:induction false} CreditIsPublished(data: Data, stats: seq<(U32, int)>, entries: seq<(U32, int)>, credits: map<U32, int>, ip: U32)
    requires Enumerates(entries, credits) && ip in credits
    ensures "user_credit:" + Print(ip) in Published(data, stats, entries)
    ensures Published(data, stats, entries)["user_credit:" + Print(ip)] == Integer(credits[ip])
  {
    PublishesAll(Publish(data, STATS_PREFIX, stats), CREDIT_PREFIX, entries, credits, ip);
  }

  /** And its packet statistics under another, which the credits do not disturb. */
  lemma {:induction false} StatisticIsPublished(data: Data, stats: seq<(U32, int)>, entries: seq<(U32, int)>, packets: map<U32, int>, ip: U32)
    requires Enumerates(stats, packets) && ip in packets
    ensures "packet_stats:" + Print(ip) in Published(data, stats, entries)
    ensures Published(data, stats, entries)["packet_stats:" + Print(ip)] == Integer(packets[ip])
  {
    PublishesAll(data, STATS_PREFIX, stats, packets, ip);
    forall e | e in entries ensures STATS_PREFIX + Print(ip) != CREDIT_PREFIX + Print(e.0) {
      OtherPrefix(CREDIT_PREFIX, STATS_PREFIX, Print(e.0), Print(ip));
    }
    PublishTouchesOnly(Publish(data, STATS_PREFIX, stats), CREDIT_PREFIX, entries, STATS_PREFIX + Print(ip));
  }

  /** Every other key of Redis is left as it was. */
  lemma {:induction false} OtherKeysAreLeft(data: Data, stats: seq<(U32, int)>, entries: seq<(U32, int)>, key: string)
    requires forall e :: e in stats ==> key != "packet_stats:" + Print(e.0)
    requires forall e :: e in entries ==> key != "user_credit:" + Print(e.0)
    ensures var after := Published(data, stats, entries);
            (key in after <==> key in data) && (key in after ==> after[key] == data[key])
  {
    PublishTouchesOnly(data, STATS_PREFIX, stats, key);
    PublishTouchesOnly(Publish(data, STATS_PREFIX, stats), CREDIT_PREFIX, entries, key);
  }

  /** Publishing and then pulling with no other writer leaves every credit of the kernel map as it was and equal to what
      Redis holds, in any iteration and listing order, even if the pull stops early at some other key's bad value. */
  lemma {:induction false} PublishThenPull(data: Data, stats: seq<(U32, int)>, entries: seq<(U32, int)>, credits: map<U32, int>, keys: seq<string>)
    requires Enumerates(entries, credits)
    requires Lists(keys, Publish(Publish(data, STATS_PREFIX, stats), CREDIT_PREFIX, entries), CREDIT_PREFIX)
    ensures var published := Publish(Publish(data, STATS_PREFIX, stats), CREDIT_PREFIX, entries);
            var after := PullCredits(published, credits, keys).credits;
            forall ip :: ip in credits ==>
              && ip in after && after[ip] == credits[ip]
              && CreditKey(ip) in published && published[CreditKey(ip)] == Integer(after[ip])
  {
    var withStats := Publish(data, STATS_PREFIX, stats);
    var published := Publish(withStats, CREDIT_PREFIX, entries);
    PublishSets(withStats, CREDIT_PREFIX, entries, credits);
    var after := PullCredits(published, credits, keys).credits;
    forall ip | ip in credits
      ensures ip in after && after[ip] == credits[ip]
      ensures CreditKey(ip) in published && published[CreditKey(ip)] == Integer(credits[ip])
    {
      assert (ip, credits[ip]) in entries;
      PullMovesTowardsRedis(published, credits, keys, ip);
    }
  }

  /** Pulling blocks adds a block for each listed address and never lifts one: a key removed from Redis leaves its
      address blocked. */
  lemma {:induction false} PullOnlyAddsBlocks(blocked: map<U32, nat>, keys: seq<string>, ip: U32)
    requires forall k :: k in keys ==> HasPrefix(k, BLOCK_PREFIX)
    ensures var after := PullBlocked(blocked, keys);
            if BLOCK_PREFIX + Print(ip) in keys then ip in after && after[ip] == 1
            else (ip in after <==> ip in blocked) && (ip in after ==> after[ip] == blocked[ip])
  {
    if keys != [] {
      var init, key := keys[..|keys|-1], keys[|keys|-1];
      assert forall k :: k in keys <==> k in init || k == key;
      PullOnlyAddsBlocks(blocked, init, ip);
      KeyOfAddress(key, BLOCK_PREFIX, ip);
    }
  }
}
