# Telecom platform: verified models

The stateful algorithms of the telecom platform, modelled in Dafny and proved correct over whole runs. Each component
has one module (usually one file). A component that changes state is a class whose methods do what the program's
methods do, step by step; each method is proved to make exactly the step of a pure function, and the guarantees are
lemmas about every sequence of those steps, so they hold of the class too.

| file | component |
|---|---|
| `Hub.dfy` | the WebSocket hub: every interleaving of the hub goroutine with the clients' readers and writers |
| `SlidingLog.dfy`, `RedisWindow.dfy`, `TokenBucket.dfy`, `RedisCalls.dfy` | the three rate limiters, and the call sequences the two Redis ones share |
| `MemoryCache.dfy`, `CachedDatabase.dfy` | the cache with expiry and LRU eviction, and the read-through database on it |
| `CursorPaging.dfy`, `PollingFeed.dfy` | walking a table by cursor while it changes, and feeds that poll by id |
| `Milenage.dfy`, `AuthVector.dfy` | the authentication functions of 3GPP TS 35.206, and vectors with AUTN of 3GPP TS 33.102 |
| `GoBreaker.dfy`, `RustBreaker.dfy` | the two circuit breakers |
| `Sessions.dfy`, `Base64Url.dfy`, `JwtProvider.dfy` | the session table, base64url of RFC 4648, and the SDK's tokens |
| `DottedQuad.dfy`, `CreditSync.dfy` | IPv4 addresses as text, and credits between kernel maps and Redis |
| `Basics.dfy` | options, results, splitting text, finite sets of numbers |

There is one clock. Instants are arguments of the operations: nanoseconds where the program mixes durations and whole
seconds, otherwise plain integers. Integers are unbounded except where a width matters (bytes, 32-bit addresses, the
64-bit sequence number). Each critical section, Lua script or SQL statement is one atomic step.

## Where the code and its promises part

These are results, each proved with its exact condition:

- A refresh token is issued for seven days, but its session row carries the access token's expiry, so it can be
  exchanged for fifteen minutes only (`Sessions.RefreshedExactlyWithinAccessLifetime`).
- A refresh token is meant to be spent by its exchange, but token times are whole seconds and nothing else tells two
  tokens of one user apart, so a refresh in the second of the login issues the same string again and it can be exchanged
  again (`Sessions.ExchangedTwiceInOneSecond`); a second exchange succeeds exactly when a session issued under that
  string by the first exchange or later is found standing (`Sessions.ExchangedAgainExactlyIfReissued`).
- A read after `InvalidateCache` can still be stale, exactly when a call that had already read an outdated row stores it
  afterwards (`CachedDatabase.FreshAfterInvalidate`).
- The cache can exceed its bound, exactly when the empty string is a key and the least recently used one
  (`MemoryCache.OverflowsExactlyOnOldestEmptyKey`), and then without limit (`MemoryCache.GrowsWithoutBound`).
- The sliding window's retry hint is exact for windows of whole seconds and one second short otherwise
  (`RedisWindow.AdmittedAfterRetry`); the token bucket's hint always suffices but is the earliest instant only for a
  denial in the second of the last admission (`TokenBucket.RetryAfterSuffices`).
- `GetStats` can count one second that the limiter has let go, and then deny what `Allow` would grant, exactly when that
  second at the far end of the window is a member and one more admission would fill the limit
  (`RedisWindow.StatsAgainstAllow`, failing inputs in `RedisWindow.StatsDenyWhatAllowGrants`).
- A page limit of 0, which the service's clamp rules out, would make paging stand still
  (`CursorPaging.ProgressNeedsPositiveLimit`).
- The comments on f1 cite the standard, but the code rotates TEMP where section 4.1 of 3GPP TS 35.206 rotates IN1; the
  two agree exactly when TEMP has equal halves (`Milenage.F1MeetsStandardExactlyOnEqualHalves`).
- Both breakers keep "closed exactly below the threshold" just for positive thresholds (`GoBreaker.ClosedIffBelowThreshold`,
  `RustBreaker.OpenIffTripped`).
- `Clear` means to count the entries it takes away as evictions but reads the size after emptying the map: the eviction
  statistic is complete exactly when every `Clear` found the cache empty
  (`MemoryCache.EvictionsCompleteExactlyWithoutClear`, failing histories in `MemoryCache.ClearedEntriesAreNotCounted`).
- Generating a token whose extra claims replace exp by anything but an int64 panics after the token was cached, so the
  old expiry stands beside the new token; a token sent is refused exactly when its own exp has passed
  (`JwtProvider.SentTokensAreValid`, failing run in `JwtProvider.SendsExpiredToken`).

## Model

| member | source | states |
|---|---|---|
| WebSocketHub.Hub.Register | apps/api-server/internal/websocket/handler.go:58-62 | the new client is connected with an empty open channel, as one step of the recorded run, of which all the hub's guarantees speak |
| WebSocketHub.Hub.Unregister | apps/api-server/internal/websocket/handler.go:64-71 | afterwards the client is gone and its channel closed, nothing else has changed, and the channel closed was open: a client already gone is left alone |
| WebSocketHub.Hub.Offer | apps/api-server/internal/websocket/handler.go:77-83 | one turn of the range loop appends the message if fewer than 256 are buffered and else closes the channel and drops the client; the channel is proved open |
| WebSocketHub.Hub.Receive | apps/api-server/internal/websocket/handler.go:152-163 | a client's writer takes the oldest buffered message, if there is one, and changes nothing else |
| WebSocketHub.Hub.OfferAll | apps/api-server/internal/websocket/handler.go:77-84 | the range loop serves every connected client once, in the order it reports, with the named writers running in between, and takes no other step |
| WebSocketHub.Hub.Broadcast | apps/api-server/internal/websocket/handler.go:74-86 | the steps taken are exactly those of the broadcast run; a client is dropped if and only if its buffer is full at its own turn, never with fewer than 256 unread messages before; every client still connected has been sent exactly the broadcasts since it registered, this one included |
| HubProtocol.BroadcastSteps | apps/api-server/internal/websocket/handler.go:74-86 | those steps are one Accept of the message, one Offer for each connected client, Receive steps of named writers, one Finish, and nothing else |
| HubProtocol.BroadcastKeeps | apps/api-server/internal/websocket/handler.go:77-83 | in every state and schedule a broadcast keeps a client if and only if its buffer is not full at its turn, and always if it had fewer than 256 unread messages |
| HubProtocol.NeverPanics | apps/api-server/internal/websocket/handler.go:55-86 | no interleaving sends on a closed channel or closes one twice |
| HubProtocol.ContiguousDelivery | apps/api-server/internal/websocket/handler.go:55-86 | in every interleaving, what a client consumed plus what is buffered is one contiguous run of the hub's broadcasts from its registration on; a connected client lacks at most the one being offered |
| HubProtocol.ClosedExactlyOnce | apps/api-server/internal/websocket/handler.go:64-84 | a client's channel has been closed once if it was dropped, not at all otherwise, and is closed just then |
| HubProtocol.EvictedOnlyWhenFullyBehind | apps/api-server/internal/websocket/handler.go:78-83 | a client is evicted if and only if it is exactly a full buffer (256) of broadcasts behind |
| HubProtocol.DroppedIsFinal | apps/api-server/internal/websocket/handler.go:78-83 | on every continuation a dropped client's channel stays closed and nothing is ever added to what it was sent |
| SlidingLog.SimpleRateLimiter.Allow | apps/api-server/internal/middleware/ratelimit.go:30-54 | the pruning loop keeps exactly the recent instants in order; the decision and the new table are those of the step function |
| SlidingLog.PruneThenLook | apps/api-server/internal/middleware/ratelimit.go:37-45 | pruning at one instant loses nothing that a later look would count |
| SlidingLog.DecidesAsUnpruned | apps/api-server/internal/middleware/ratelimit.go:36-53 | every decision is the one that counting the key's full unpruned admission history would give |
| SlidingLog.DecidesExactly | apps/api-server/internal/middleware/ratelimit.go:34-53 | a call is granted if and only if fewer than limit earlier calls of its key were granted less than a window before it |
| SlidingLog.GrantedAreAdmissions | apps/api-server/internal/middleware/ratelimit.go:47-53 | the calls the limiter grants are those the unpruned single-key reference admits |
| SlidingLog.KeysAreIndependent | apps/api-server/internal/middleware/ratelimit.go:30-54 | removing all calls of other keys changes neither a key's log nor its answers |
| SlidingLog.WindowBound | apps/api-server/internal/middleware/ratelimit.go:30-54 | at most limit calls of a key are granted in any half-open span of length window |
| RedisWindow.RedisRateLimiter.Allow | apps/api-server/internal/middleware/redis_ratelimit.go:49-116 | the script's effect on one key's sorted set and its four answers, whether or not Redis expired the key; no other key changes |
| RedisWindow.RedisRateLimiter.Reset | apps/api-server/internal/middleware/redis_ratelimit.go:192-195 | the key is as if never called; no other key changes |
| RedisWindow.RedisRateLimiter.GetStats | apps/api-server/internal/middleware/redis_ratelimit.go:198-219 | counts the members from the second of now minus window to the second of now, both included, and none of a key that Redis has dropped |
| RedisWindow.HoldsExactlyTheLiveGrants | apps/api-server/internal/middleware/redis_ratelimit.go:61-73 | seen from any later instant the set is exactly the seconds ever admitted that are still in the window, and its expiry covers them |
| RedisWindow.AnswersExactly | apps/api-server/internal/middleware/redis_ratelimit.go:65-81 | from the admitted seconds alone: admitted if and only if fewer than limit are less than a window old; what is told to remain and the reset time |
| RedisWindow.RemainingAfterAdmission | apps/api-server/internal/middleware/redis_ratelimit.go:65-73 | what remains after an admission is what was told, except one more if its second had been admitted before |
| RedisWindow.AdmissionExpires | apps/api-server/internal/middleware/redis_ratelimit.go:70-72 | an admission records its second and sets the expiry to the least whole number of seconds not below the window |
| RedisWindow.ExpiryIsUnobservable | apps/api-server/internal/middleware/redis_ratelimit.go:61-73 | two histories that differ only in whether expired keys had been dropped give the same answers and the same next states |
| RedisWindow.WindowBound | apps/api-server/internal/middleware/redis_ratelimit.go:61-74 | at most limit distinct seconds are admitted in any span shorter than the window |
| RedisWindow.DeniedUntilRetry | apps/api-server/internal/middleware/redis_ratelimit.go:74-82 | after a denial every request before the hinted second is denied and changes nothing |
| RedisWindow.AdmittedAfterRetry | apps/api-server/internal/middleware/redis_ratelimit.go:67-82 | the first request at or after the hinted second is admitted if and only if limit is positive and the window is whole seconds or that second has passed |
| RedisWindow.StatsAgainstAllow | apps/api-server/internal/middleware/redis_ratelimit.go:197-219 | after every history, for any window and whether or not the key was dropped, stats never promise more than Allow grants, and differ exactly when the second at the far end of the window is still counted, already let go, and decides |
| RedisWindow.StatsDenyWhatAllowGrants | apps/api-server/internal/middleware/redis_ratelimit.go:200-213 | two inputs on which they differ, for a window of one second and of one and a half |
| RedisWindow.StatsRemaining | apps/api-server/internal/middleware/redis_ratelimit.go:204-216 | the remaining count of stats is the limit less the recent admitted seconds and the one at the far end, if still a member |
| RedisWindow.StatsOfDropped | apps/api-server/internal/middleware/redis_ratelimit.go:204-216 | of a key that Redis has dropped stats count nothing |
| TokenBucket.TokenBucketLimiter.AllowTokenBucket | apps/api-server/internal/middleware/redis_ratelimit.go:119-189 | the script's effect on one key's bucket and its answers, with exact fractions for the refill rate; no other key changes |
| TokenBucket.RefillSplits | apps/api-server/internal/middleware/redis_ratelimit.go:136-139 | because of the floor, refilling in two steps never yields more than refilling once |
| TokenBucket.TokensStayInRange | apps/api-server/internal/middleware/redis_ratelimit.go:136-152 | what remains is between 0 and limit, and a denial finds an empty bucket and hints at the time of one token |
| TokenBucket.AnswersExactly | apps/api-server/internal/middleware/redis_ratelimit.go:131-151 | after every history a call finds a full bucket if nothing was admitted before, else exactly min(limit, k + floor(seconds * limit / window)) where the last admission left k; it is admitted if and only if that is at least one, and told one less |
| TokenBucket.BurstAdmitsLimit | apps/api-server/internal/middleware/redis_ratelimit.go:131-152 | of the calls made in one second to a new key, or one idle for a full refill, exactly the first limit are admitted, being told limit - 1 down to 0 |
| TokenBucket.AdmissionExpires | apps/api-server/internal/middleware/redis_ratelimit.go:145-146 | an admission sets the expiry to the least whole number of seconds not below the window |
| TokenBucket.ExpiryIsUnobservable | apps/api-server/internal/middleware/redis_ratelimit.go:131-147 | two histories that differ only in whether expired buckets had been dropped give the same answers and the same next states |
| TokenBucket.SpanBound | apps/api-server/internal/middleware/redis_ratelimit.go:131-152 | any span of T seconds admits at most limit + floor(T * limit / window) requests |
| TokenBucket.RetryAfterSuffices | apps/api-server/internal/middleware/redis_ratelimit.go:141-152 | with only denials since, a denied caller is admitted if and only if the hinted time has passed since the last admission; so waiting it out always suffices |
| MemoryCache.MemoryCache.Get | apps/api-server/internal/cache/cache.go:98-121 | answers the stored value unless absent or expired, and is one operation of the history |
| MemoryCache.MemoryCache.EvictLRU | apps/api-server/internal/cache/cache.go:148-163 | the scan, over some order of exactly the keys, removes and counts the entry it settled on |
| MemoryCache.MemoryCache.Set | apps/api-server/internal/cache/cache.go:124-145 | one operation of the history: makes room when full, whichever way the map is ranged over, then stores |
| MemoryCache.MemoryCache.SweepExpired | apps/api-server/internal/cache/cache.go:84-95 | the sweep removes exactly the expired entries and counts each |
| MemoryCache.MemoryCache.RemoveExpired | apps/api-server/internal/cache/cache.go:84-95 | the sweep is one operation of the history |
| MemoryCache.MemoryCache.Delete | apps/api-server/internal/cache/cache.go:166-171 | one operation of the history |
| MemoryCache.MemoryCache.Clear | apps/api-server/internal/cache/cache.go:174-180 | one operation of the history |
| MemoryCache.HitIsLatest | apps/api-server/internal/cache/cache.go:98-145 | every hit is the value of the latest Set of the key with no later Delete or Clear, not after it expires |
| MemoryCache.EntersAndLeaves | apps/api-server/internal/cache/cache.go:84-180 | an entry leaves exactly by a Get or sweep after it expired, Delete, Clear, or eviction by a Set of another key in a full cache, and enters exactly by a Set |
| MemoryCache.SweepRemovesExactlyExpired | apps/api-server/internal/cache/cache.go:84-113 | after every history a sweep removes everything expired and nothing else, and a Get of an expired key removes it |
| MemoryCache.EntryRecordsUsage | apps/api-server/internal/cache/cache.go:115-141 | an entry records when it was stored, one access plus one for each hit since, and when it was last touched |
| MemoryCache.ScanFindsLeast | apps/api-server/internal/cache/cache.go:152-157 | without the empty key the scan ends at an entry with the least access time, in any iteration order |
| MemoryCache.SizeBound | apps/api-server/internal/cache/cache.go:128-143 | for maxSize at least 1 and non-empty keys the size never exceeds maxSize, whatever the clock does |
| MemoryCache.LostOnlyToRecency | apps/api-server/internal/cache/cache.go:124-163 | an entry neither expired nor withdrawn is missing only if at least maxSize - 1 distinct other keys were touched since its own last touch |
| MemoryCache.RecentlyUsedSurvives | apps/api-server/internal/cache/cache.go:124-163 | with fewer other keys touched since, such an entry is a hit with the value last stored |
| MemoryCache.OverflowsExactlyOnOldestEmptyKey | apps/api-server/internal/cache/cache.go:128-159 | storing a new key in a cache at or beyond its bound makes it grow in some iteration order if and only if the empty string is the strictly least recently used key |
| MemoryCache.GrowsWithoutBound | apps/api-server/internal/cache/cache.go:128-159 | with the empty key there is, for every size, a legal history with a strictly advancing clock that leaves that many entries |
| MemoryCache.NothingUnaccounted | apps/api-server/internal/cache/cache.go:84-180 | hits and misses account for every Get; every entry stored is present, counted as evicted, replaced, deleted or cleared |
| MemoryCache.EvictionsCompleteExactlyWithoutClear | apps/api-server/internal/cache/cache.go:174-180 | over every history evictions account for every entry not kept, replaced or deleted if and only if every Clear found the cache empty |
| MemoryCache.ClearedEntriesAreNotCounted | apps/api-server/internal/cache/cache.go:174-180 | after any history that left entries, Clear takes them away and counts none |
| CachedDatabase.CachedDb.CachedFind | apps/api-server/internal/database/cached.go:26-68 | an undisturbed read answers from the cache on a hit and as the database does now on a miss, errors passing through uncached |
| CachedDatabase.CachedDb.ReadAndStore | apps/api-server/internal/database/cached.go:36-46 | the miss path stores for five minutes exactly what the database answered |
| CachedDatabase.CachedDb.InvalidateCache | apps/api-server/internal/database/cached.go:71-73 | one event of the trace; the whole cache is cleared |
| CachedDatabase.CachedDb.InvalidateCacheKey | apps/api-server/internal/database/cached.go:76-78 | one event of the trace; one key is deleted |
| CachedDatabase.AnswersAreRecent | apps/api-server/internal/database/cached.go:26-47 | in every interleaving, a cached answer was the database's answer at an instant in the last five minutes plus the longest time a call takes from query to store |
| CachedDatabase.StoredForFiveMinutes | apps/api-server/internal/database/cached.go:41-44 | what a call stores is what it read, under its key, and is found for exactly 300 seconds |
| CachedDatabase.CachedIsServed | apps/api-server/internal/database/cached.go:29-34 | a stored row, neither expired nor invalidated, is found while fewer than maxSize - 1 other keys were touched since its own last touch |
| CachedDatabase.FreshAfterInvalidate | apps/api-server/internal/database/cached.go:36-73 | reads after InvalidateCache are fresh on every continuation if and only if no call in flight then carries a row the database no longer answers |
| CachedDatabase.StaleStore | apps/api-server/internal/database/cached.go:36-73 | the schedule that fails: query, invalidation, store, hit |
| CursorPaging.PageLimit | apps/api-server/internal/services/subscriber_crud.go:110-117 | 20 if none is asked for, 100 if more are, else the one asked for |
| CursorPaging.PageIsTop | apps/api-server/internal/database/crud.go:82-104 | a page is the greatest matching ids below the cursor; has_more says exactly whether some are left, all of them below the next cursor |
| CursorPaging.WalkListsEachOnce | apps/api-server/internal/database/crud.go:81-106 | whatever changes between pages, following next_cursor terminates, lists ids in strictly descending order, only rows that matched, and every row that matched throughout |
| CursorPaging.WalkOfFixedTable | apps/api-server/internal/database/crud.go:81-106 | on a fixed table the pages concatenate to the whole filtered list |
| CursorPaging.WalkListsExactly | apps/api-server/internal/database/crud.go:69-87 | a walk of a fixed table lists a row if and only if its status and organization are those asked for, where any are, and the search text, if any, is found within one of four columns |
| CursorPaging.PageLength | apps/api-server/internal/services/subscriber_crud.go:110-119 | a page holds what was asked for, 20 by default and 100 at most, and fewer only if no more match |
| CursorPaging.ProgressNeedsPositiveLimit | apps/api-server/internal/services/subscriber_crud.go:110-119 | a page with more to come has a cursor strictly below the last one if and only if the limit is positive |
| PollingFeed.Subscription.Usage | apps/api-server/internal/services/charging.go:255-277 | the usage feed: batches of 20, rows of the IMSI |
| PollingFeed.Subscription.Alerts | apps/api-server/internal/services/subscriber_subscriptions.go:54-79 | the alert feed: batches of 10, rows of the subscriber, or all if no id was given or it does not parse |
| PollingFeed.Subscription.HandleTick | apps/api-server/internal/services/charging.go:271-292 | one tick is one turn of the feed; a failed query changes nothing |
| PollingFeed.Subscription.SendAll | apps/api-server/internal/services/charging.go:284-291 | the batch is sent in order and the cursor moved along, up to a cancellation in between |
| PollingFeed.Subscription.Cancel | apps/api-server/internal/services/charging.go:269-270 | cancellation between ticks closes the feed |
| PollingFeed.TickDeliversExactly | apps/api-server/internal/services/charging.go:271-292 | a tick delivers a row if and only if it is visible, above the cursor, and fewer than limit rows, and fewer than were sent before a cancellation, lie between; it closes the feed exactly when that leaves some unsent |
| PollingFeed.UsageTick | apps/api-server/internal/services/charging.go:273-291 | of the events of the IMSI above the cursor, the first 20 |
| PollingFeed.AlertTick | apps/api-server/internal/services/subscriber_subscriptions.go:70-91 | of the alerts of the subscriber above the cursor, or of all if no id was given or it is no number, the first 10 |
| PollingFeed.OnlyMatchingRows | apps/api-server/internal/services/subscriber_subscriptions.go:70-79 | every row a subscriber is sent passed its filter at some tick |
| PollingFeed.InOrderNoDuplicates | apps/api-server/internal/services/subscriber_subscriptions.go:63-92 | delivered ids strictly ascend and end at the cursor, whatever becomes visible when |
| PollingFeed.LostExactlyWhenOvertaken | apps/api-server/internal/services/subscriber_subscriptions.go:63-92 | an undelivered row can still be delivered if and only if the feed is open and the row is above the cursor |
| PollingFeed.DeliveredIsPrefix | apps/api-server/internal/services/charging.go:265-293 | if ids become visible in increasing order, what is delivered is always a prefix of the matching rows in id order, through failed queries and cancellation in mid-batch |
| PollingFeed.ShortBatchIsCaughtUp | apps/api-server/internal/services/charging.go:271-291 | a batch shorter than the limit and sent whole means everything visible at that tick has been delivered |
| Milenage.XorBytes | apps/api-server/internal/services/subscriber_auth.go:125-131 | the byte-wise XOR of two buffers |
| Milenage.XorInPlace | apps/api-server/internal/services/subscriber_auth.go:134-138 | the first buffer becomes the XOR of the two |
| Milenage.RotLeft | apps/api-server/internal/services/subscriber_auth.go:116-122 | the buffer rotated left by any number of bytes |
| Milenage.DeriveOPc | apps/api-server/internal/services/subscriber_auth.go:41-53 | fails exactly on a wrong length; otherwise E[OP] xor OP |
| Milenage.OutBlock | apps/api-server/internal/services/subscriber_auth.go:95-111 | the common body of f3 and f4, with the constant put into the buffer in place |
| Milenage.F2F5 | apps/api-server/internal/services/subscriber_auth.go:84-91 | RES and AK are the two parts of the same block, which is not rotated |
| Milenage.F1Mac | apps/api-server/internal/services/subscriber_auth.go:68-80 | MAC-A as the code computes it |
| Milenage.BitsRot | apps/api-server/internal/services/subscriber_auth.go:116-122 | rotating by n bytes rotates the 128-bit string by 8n positions |
| Milenage.RotatesValue | apps/api-server/internal/services/subscriber_auth.go:116-122 | rotating by n bytes rotates the 128-bit big-endian number left by 8n bits |
| Milenage.RotComposes | apps/api-server/internal/services/subscriber_auth.go:116-122 | rotations compose by adding |
| Milenage.RotDistributes | apps/api-server/internal/services/subscriber_auth.go:116-131 | rotation distributes over XOR |
| Milenage.BitsXor | apps/api-server/internal/services/subscriber_auth.go:125-131 | XOR of buffers is XOR of bit strings |
| Milenage.MeetsStandard | apps/api-server/internal/services/subscriber_auth.go:41-111 | for every block cipher OPc, TEMP, f2, f3, f4 and f5 equal the bit-string equations of section 4.1 of 3GPP TS 35.206 |
| Milenage.BitsIn1 | apps/api-server/internal/services/subscriber_auth.go:68-74 | the buffer filled with SQN, AMF, SQN, AMF is IN1 bit for bit as the standard numbers it: 0 to 47 and 64 to 111 are SQN, the others AMF |
| Milenage.F1MeetsStandardExactlyOnEqualHalves | apps/api-server/internal/services/subscriber_auth.go:66-80 | for every injective cipher, OUT1 is the standard's, over the bits of SQN and AMF, if and only if TEMP has equal halves |
| Milenage.MacIsFirstHalf | apps/api-server/internal/services/subscriber_auth.go:79 | MAC-A is bits 0 to 63 of OUT1, and of the standard's where TEMP has equal halves |
| Milenage.Out1Authenticates | apps/api-server/internal/services/subscriber_auth.go:68-79 | for every injective cipher, two pairs of SQN and AMF give the same OUT1 if and only if they are equal |
| Milenage.F1FailsOnOne | apps/api-server/internal/services/subscriber_auth.go:66-80 | a concrete TEMP on which OUT1 is not the standard's |
| AuthVector.RunMilenage | apps/api-server/internal/services/subscriber_auc.go:65-105 | the vector holds RAND, XRES, CK, IK, and AUTN as (SQN xor AK), AMF, MAC-A |
| AuthVector.VectorMeetsStandard | apps/api-server/internal/services/subscriber_auc.go:65-105 | XRES, CK and IK are f2, f3 and f4 of RAND by the standard's equations; AUTN is SQN xor f5, the AMF, and bits 0 to 63 of OUT1 |
| AuthVector.ValueOfBigEndian | apps/api-server/internal/services/subscriber_auc.go:71-74 | the encoded bytes spell the number modulo 256 to their count |
| AuthVector.AutnRoundTrip | apps/api-server/internal/services/subscriber_auc.go:71-96 | a verifier with the same keys recovers SQN modulo 2^48, the AMF and an equal MAC; SQN itself if and only if it is below 2^48 |
| AuthVector.AutnsCollideModulo | apps/api-server/internal/services/subscriber_auc.go:71-96 | under one RAND, two sequence numbers share an AUTN if and only if they agree modulo 2^48 |
| AuthVector.SqnCounter.IncrementSqn | apps/api-server/internal/services/subscriber_auc.go:110-119 | the counter rises by one and never repeats; it fails, unchanged, exactly at the column's maximum |
| AuthVector.SqnCounter.GenerateAuthVector | apps/api-server/internal/services/subscriber_auc.go:47-60 | the vector is the one for this RAND, AMF 8000 and the number its own increment returned; it fails, changing nothing, exactly when the counter is at its maximum |
| AuthVector.VectorsNeverShareAutn | apps/api-server/internal/services/subscriber_auc.go:65-119 | two vectors of one counter, even under one RAND, share an AUTN if and only if a multiple of 2^48 numbers separates them |
| GoBreaker.CircuitBreaker.Begin | apps/api-server/internal/circuitbreaker/circuitbreaker.go:70-85 | the admission section: turns half-open after the timeout, admits unless open |
| GoBreaker.CircuitBreaker.Fail | apps/api-server/internal/circuitbreaker/circuitbreaker.go:103-110 | the step of a failed completion |
| GoBreaker.CircuitBreaker.Succeed | apps/api-server/internal/circuitbreaker/circuitbreaker.go:113-126 | the step of a successful completion |
| GoBreaker.CircuitBreaker.DoReset | apps/api-server/internal/circuitbreaker/circuitbreaker.go:136-142 | the step of a reset, which keeps the last failure time |
| GoBreaker.ClosedIffBelowThreshold | apps/api-server/internal/circuitbreaker/circuitbreaker.go:70-142 | on every run of overlapping calls the breaker is closed exactly while failureCount is below failureThreshold, if and only if the threshold is positive |
| GoBreaker.TripsOnConsecutiveFailures | apps/api-server/internal/circuitbreaker/circuitbreaker.go:103-117 | a closed breaker trips exactly on the report completing failureThreshold consecutive failures |
| GoBreaker.ClosesAfterSuccesses | apps/api-server/internal/circuitbreaker/circuitbreaker.go:113-126 | resets aside it closes again exactly on the success that completes successThreshold of them since it turned half-open, with no failure among the reports |
| GoBreaker.NoStartWithinTimeout | apps/api-server/internal/circuitbreaker/circuitbreaker.go:70-110 | without a reset, no call starts within timeout of a failure that left the breaker open |
| GoBreaker.RejectsExactlyDuringTimeout | apps/api-server/internal/circuitbreaker/circuitbreaker.go:74-83 | an open breaker admits exactly when more than timeout has passed since the latest failure report |
| GoBreaker.StartTurnsHalfOpen | apps/api-server/internal/circuitbreaker/circuitbreaker.go:74-83 | after every run a start turns the breaker half-open, with no success counted, if and only if it was open and more than timeout has passed since the latest failure report; otherwise it changes nothing |
| GoBreaker.Recovers | apps/api-server/internal/circuitbreaker/circuitbreaker.go:74-126 | from any open state, a start after the timeout and then successThreshold successes without failure or reset close it with nothing counted; fewer leave it half-open and admitting |
| GoBreaker.FailureReopens | apps/api-server/internal/circuitbreaker/circuitbreaker.go:103-110 | one failure while not closed leaves it open, admitting again exactly after timeout from then |
| GoBreaker.ResetIsFresh | apps/api-server/internal/circuitbreaker/circuitbreaker.go:136-142 | after a reset it is, on every continuation, where a new breaker would be |
| RustBreaker.CircuitBreaker.CheckState | apps/charging-engine/src/circuit_breaker.rs:123-136 | the step of checking the timeout |
| RustBreaker.CircuitBreaker.Enter | apps/charging-engine/src/circuit_breaker.rs:102-106 | rejects exactly when open |
| RustBreaker.CircuitBreaker.OnSuccess | apps/charging-engine/src/circuit_breaker.rs:138-152 | the step of a success |
| RustBreaker.CircuitBreaker.OnFailure | apps/charging-engine/src/circuit_breaker.rs:154-162 | the step of a failure, whose time is recorded only when the threshold is reached |
| RustBreaker.CircuitBreaker.Reset | apps/charging-engine/src/circuit_breaker.rs:168-172 | back to the initial state |
| RustBreaker.BehavesAsTwoStates | apps/charging-engine/src/circuit_breaker.rs:93-162 | every run admits exactly the calls of a two-state breaker that goes from open straight to closed after the timeout |
| RustBreaker.HalfOpenIsClosed | apps/charging-engine/src/circuit_breaker.rs:123-152 | replacing half-open by closed in any state changes no later admission |
| RustBreaker.OpenIffTripped | apps/charging-engine/src/circuit_breaker.rs:93-172 | on every run open means exactly that the count has reached the threshold, with a failure time recorded, if and only if the threshold is positive |
| RustBreaker.StateFromEvents | apps/charging-engine/src/circuit_breaker.rs:93-172 | count, recorded time and admission as functions of the events alone |
| RustBreaker.CheckTurnsHalfOpen | apps/charging-engine/src/circuit_breaker.rs:123-136 | a check turns an open breaker half-open, with nothing counted, if and only if more than timeout has passed since it was last opened |
| RustBreaker.RecoversAfterTimeout | apps/charging-engine/src/circuit_breaker.rs:123-162 | after the timeout calls are admitted, one success closes it, and without one it takes threshold failures to open it again |
| RustBreaker.ResetIsFresh | apps/charging-engine/src/circuit_breaker.rs:168-172 | after a reset only what follows counts |
| Sessions.JwtService.GenerateToken | apps/api-server/internal/services/auth.go:40-102 | the user's inactive rows go and the new session, expiring in fifteen minutes, is added; nothing else changes |
| Sessions.JwtService.ValidateToken | apps/api-server/internal/services/auth.go:105-132 | the claims are returned exactly when the token parses and the first active row with it is not past its expiry |
| Sessions.JwtService.RefreshToken | apps/api-server/internal/services/auth.go:155-184 | either nothing changes, or every row with the refresh token is deactivated and a new session added for the user it names |
| Sessions.JwtService.InvalidateSession | apps/api-server/internal/services/auth.go:187-189 | exactly the rows with the token are deactivated |
| Sessions.JwtService.InvalidateAllUserSessions | apps/api-server/internal/services/auth.go:192-194 | exactly the user's rows are deactivated |
| Sessions.DeletionIsUnobservable | apps/api-server/internal/services/auth.go:94-95 | a program that never deletes inactive rows accepts the same tokens and makes the same exchanges after every history |
| Sessions.AcceptedExactlyWhileStanding | apps/api-server/internal/services/auth.go:105-132 | after every history a token is accepted if and only if it parses, was issued at most fifteen minutes ago, and its session was neither invalidated nor exchanged since |
| Sessions.CreatedFor | apps/api-server/internal/services/auth.go:84-92 | a created session carries the tokens drawn and its user, and ends 15 minutes after it was made |
| Sessions.StandsUntilEnded | apps/api-server/internal/services/auth.go:155-194 | a session stands if and only if no later operation invalidated its token or its user or exchanged its refresh token |
| Sessions.InvalidatedIsRefused | apps/api-server/internal/services/auth.go:187-189 | after a token is invalidated it is refused, whatever follows, until it is issued again |
| Sessions.InvalidatedUserIsRefused | apps/api-server/internal/services/auth.go:192-194 | after a user's sessions are invalidated every token issued to the user before is refused until it is issued again |
| Sessions.OnlyHolderIsFirst | apps/api-server/internal/services/auth.go:119-122 | with distinct tokens the row looked up is the only standing session with the token |
| Sessions.RefreshedExactlyWithinAccessLifetime | apps/api-server/internal/services/auth.go:155-184 | a refresh token is exchanged if and only if it parses, its user exists, and its session stands and is at most fifteen minutes old |
| Sessions.ExchangedAgainOnlyIfReissued | apps/api-server/internal/services/auth.go:155-184 | over every history, if a refresh token is exchanged twice, the first exchange or an operation between the two issued the same string again |
| Sessions.ExchangedAgainExactlyIfReissued | apps/api-server/internal/services/auth.go:155-184 | an exchanged refresh token is exchanged again if and only if it parses, its user exists, and the session found was issued under the same string by that exchange or later, at most fifteen minutes ago |
| Sessions.ExchangedAtMostOnce | apps/api-server/internal/services/auth.go:155-184 | so with distinct refresh tokens none is exchanged twice |
| Sessions.ExchangedTwiceInOneSecond | apps/api-server/internal/services/auth.go:63-77 | the failing schedule: a login and two refreshes in one second exchange one string twice |
| Base64Url.DecodeUnpadded | sdk/go/auth.go:138-144 | the padding loop decodes the text with just the padding that its length calls for |
| Base64Url.PaddedIsRawAndPadding | sdk/go/auth.go:132-135 | the padded encoding is the unpadded one of section 3.2 of RFC 4648 and that same padding |
| Base64Url.UnpaddedRoundTrip | sdk/go/auth.go:132-144 | stripping and restoring the padding round-trips every byte string, with neither padding nor dot in between |
| Base64Url.AlphabetInOrder | sdk/go/auth.go:134 | the characters are the URL-safe alphabet of section 5 of RFC 4648 in its order |
| Base64Url.QuantumSpells | sdk/go/auth.go:134 | four characters spell the same 24-bit number as their three bytes |
| Base64Url.EncodeByGroups | sdk/go/auth.go:134 | groups of three bytes are encoded one after another |
| Base64Url.DecodesExactly | sdk/go/auth.go:143 | a text decodes if and only if it is whole groups of four characters of the alphabet, the last one or two of which may be padding |
| JwtProvider.AuthProvider.GenerateJWTToken | sdk/go/auth.go:48-78 | without a secret nothing changes; otherwise the new token is cached, and either it is returned and sent exactly until its expiry, or exp is no int64, the call panics and the old expiry stays |
| JwtProvider.AuthProvider.ClearTokenCache | sdk/go/auth.go:118-121 | nothing is cached any more |
| JwtProvider.TokenSplits | sdk/go/auth.go:69-73 | a generated token splits at its dots into exactly header, payload and signature |
| JwtProvider.ClaimsSay | sdk/go/auth.go:53-62 | the claims are the standard ones, where not overridden, and every extra one |
| JwtProvider.ValidatesOnlySigned | sdk/go/auth.go:91-114 | a text of three parts is refused for its signature if and only if the third is not the unpadded base64url of the keyed hash of the first two; only then is the payload judged |
| JwtProvider.ValidatesOnlyThreeParts | sdk/go/auth.go:82-89 | nothing is accepted without a secret, and a text is refused for its format if and only if it is not three parts |
| JwtProvider.AcceptsExactlySigned | sdk/go/auth.go:81-115 | a token is accepted, with these claims, if and only if there is a secret, the token is signed with it, and its payload decodes to these claims and they have not expired |
| JwtProvider.OwnTokenValidates | sdk/go/auth.go:81-115 | validating a token of the same provider returns the original claims while now <= exp and the expiry error after |
| JwtProvider.GeneratedTokenLasts | sdk/go/auth.go:48-115 | with extra claims that leave exp alone, a token validates exactly for the hours asked for |
| JwtProvider.SentTokensAreValid | sdk/go/auth.go:30-45 | a bearer token the provider sends is one it would accept at that moment unless its exp has passed, which is never so when the recorded expiry is its own |
| JwtProvider.SendsExpiredToken | sdk/go/auth.go:73-75 | the failing run: after a panic an expired token is sent |
| DottedQuad.ParsePrint | apps/packet-gateway/src/ip_utils.rs:5-15 | parsing the printed form gives back every 32-bit number |
| DottedQuad.PrintParse | apps/packet-gateway/src/ip_utils.rs:5-15 | printing the parsed number gives back every accepted text |
| DottedQuad.PrintSpells | apps/packet-gateway/src/ip_utils.rs:5-8 | what is printed is four decimal numbers below 256 without leading zeros that spell the address, most significant first |
| DottedQuad.ParsesExactlyPrinted | apps/packet-gateway/src/ip_utils.rs:11-15 | a text is accepted if and only if it is what some address is printed as |
| CreditSync.EbpfManager.UpdateUserCredit | apps/packet-gateway/src/ebpf.rs:137-162 | one entry of the credit map is set |
| CreditSync.EbpfManager.BlockUser | apps/packet-gateway/src/ebpf.rs:164-190 | one entry of the block list is set to 1 or 0 |
| CreditSync.EbpfManager.SyncEntries | apps/packet-gateway/src/redis_sync.rs:25-36 | every entry is written under its address's key, in order |
| CreditSync.EbpfManager.SyncToRedis | apps/packet-gateway/src/ebpf.rs:192-219 | packet statistics, then credits, are published |
| CreditSync.CreditIsPublished | apps/packet-gateway/src/redis_sync.rs:25-36 | every address's credit is published in full under its own key |
| CreditSync.StatisticIsPublished | apps/packet-gateway/src/redis_sync.rs:11-22 | every address's packet statistic is, too, and the credits do not disturb it |
| CreditSync.OtherKeysAreLeft | apps/packet-gateway/src/redis_sync.rs:11-36 | publishing leaves every other key of Redis as it was |
| CreditSync.EbpfManager.SyncCreditsFromRedis | apps/packet-gateway/src/redis_sync.rs:39-63 | the listed keys are applied in order up to the first value that is no integer; keys that are no address are skipped |
| CreditSync.EbpfManager.SyncBlockedFromRedis | apps/packet-gateway/src/redis_sync.rs:66-87 | each listed address is blocked |
| CreditSync.EbpfManager.SyncFromRedis | apps/packet-gateway/src/ebpf.rs:221-238 | blocks are pulled only after the credits could be |
| CreditSync.KeyOfAddress | apps/packet-gateway/src/redis_sync.rs:49-54 | each address has one key and each key at most one address |
| CreditSync.PullSucceeds | apps/packet-gateway/src/redis_sync.rs:49-52 | a pull succeeds if and only if every listed credit is an integer |
| CreditSync.PullSets | apps/packet-gateway/src/redis_sync.rs:49-61 | a successful pull sets exactly the listed addresses, to what Redis holds |
| CreditSync.PullOrderIrrelevant | apps/packet-gateway/src/redis_sync.rs:46-62 | any two listing orders succeed alike and, if they do, give the same map |
| CreditSync.PullMovesTowardsRedis | apps/packet-gateway/src/redis_sync.rs:46-62 | in any order, finished or not, a pull moves a credit only to what Redis holds for it |
| CreditSync.PublishThenPull | apps/packet-gateway/src/ebpf.rs:192-238 | publish-then-pull with no other writer leaves every credit as it was and equal to Redis, in any order, even if the pull stops early |
| CreditSync.PullOnlyAddsBlocks | apps/packet-gateway/src/redis_sync.rs:66-87 | pulling blocks sets exactly the listed addresses and never lifts a block |

## Left out

- Milenage: AES is an arbitrary function on 16-byte blocks; hex decoding and encoding of keys and vectors, and the failures to load a subscriber or draw RAND.
- AuthVector.SqnCounter.IncrementSqn: does not model a subscriber row deleted between loading and the update, in which case no row is returned and the number stays zero.
- TokenBucket: the refill rate is the exact fraction limit / window where the program passes a floating-point number; a limit or window below 1, on which the script divides by zero or by a negative number.
- RedisWindow.WindowBound: bounds distinct seconds, not requests, because all requests of one second share one entry of the sorted set.
- The two Redis limiters' key formats, transport errors and malformed replies, and clocks that differ between servers.
- Hub: `Client.Close`, which closes the channel from outside the hub; the socket itself (pings, deadlines, write errors: a writer that stops just takes no more steps); a broadcast offered while the hub is not waiting is dropped and never enters the log.
- Sub-statement races: `Get` changing the map under a read lock, the Rust breaker's separately locked fields inside one method, concurrent refreshes of one token; each method body or critical section is one step.
- MemoryCache: the cleanup ticker and its stop channel, the hit rate, `Keys`, `Size`, and the other caches of the same file; several clock readings inside one operation are one.
- MemoryCache.LostOnlyToRecency: for a strictly advancing clock, since entries touched at the same instant are evicted in either order.
- CachedDatabase: JSON encoding (a row is its encoding), rows that fail to encode, foreign values under a cache key, and two queries that share one key; find and first are one operation under different keys.
- CursorPaging: a failing query, cursors that are not decimal numbers (a cursor is the number it spells), preloading of plans, and the offset-based listing.
- PollingFeed: subscriber updates polled by timestamp, the system-statistics feed, and the buffering inside the channel: a row counts as delivered once sent.
- GoBreaker and RustBreaker: wrap-around of the failure counters; the operation itself, whose outcome is the event.
- Sessions: signing and parsing of tokens, failing database writes, whose result the refresh path ignores in part, and hashing of passwords.
- Sessions.AcceptedExactlyWhileStanding: assumes that the 32 random bytes of a session id are never drawn twice.
- JwtProvider: JSON and HMAC-SHA256 are an arbitrary codec; only the claims that survive its round trip are claimed to come back. Exp as a non-integral JSON number, and the other headers.
- CreditSync: kernel map and Redis failures, the 64-bit range of credits, per-entry batch syncing, statistics beyond being published, and `trigger_sync`.
- Payments, webhooks, invoices, subscriber lifecycle, rating, clients of other services, and handlers that return constants: input and output, or easy next to the above.
