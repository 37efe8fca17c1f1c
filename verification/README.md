# Shortr, modelled in Dafny

Shortr is a URL shortener. Most of it moves requests and rows about, but a few
small kernels carry promises that have to hold over every run: a redirect cache
in front of a database, a click limit enforced by a lock-free counter, a rate
limiter that forgets, lists that are paged while they change, a click pipeline
that survives outages, ids that sort by time, and second factors that work once.
This project models those kernels and proves their promises.

`dafny verify dfyconfig.toml` checks all of it with Dafny 4.11.

## How it is built

Code that changes state in place is modelled by classes and loops, and each of
their methods is proved against a function of the old state. What the code
promises is then proved about those functions, over all runs; and what one call
does is stated a second time without them, by the fields of the rows and records
it reads and leaves. Where requests
run at the same time, the atomic steps of the code are the steps of a state
machine, and the theorems hold for every interleaving.

| file | what it models |
|---|---|
| `Lru.dfy`, `CacheSpec.dfy` | one shard of the cache and the whole sharded cache, as values |
| `Cache.dfy` | the cache as it is: maps, linked nodes, in-place moves |
| `Links.dfy`, `Resolver.dfy`, `Service.dfy` | links, the link table, the redirect resolver and the operations that write links |
| `Staleness.dfy` | resolver, loads and writes interleaved, with time |
| `Agreement.dfy` | when cache and table agree, over the same interleavings, and what the link operations contribute |
| `ServiceRuns.dfy` | the same for runs in which every write is an operation of the service, up to the answers of the link table |
| `ClickLimit.dfy` | concurrent reservations of clicks, and the pruning of idle counters |
| `Redirect.dfy` | which requests are served, which reserve a click, which are recorded |
| `TokenBucket.dfy` | the rate limiter: accrual, eviction, collection |
| `Cursor.dfy`, `Like.dfy` | page cursors and the escaping of search text |
| `Keyset.dfy`, `Paging.dfy`, `Listing.dfy` | keyset pages, cursors travelling as text, the list queries |
| `AccountDeletion.dfy` | the loop that deletes links while paging through them |
| `ClickSpec.dfy`, `ClickPipeline.dfy` | the click writer, its spool and its table |
| `ClickOrder.dfy` | the writer's steps by fields, and the order in which clicks are stored |
| `Ulid.dfy` | ids: encoding, carry, order |
| `SecondFactor.dfy` | one-time codes and recovery codes under concurrent checks |
| `Series.dfy` | the zero-filled click chart |
| `Wrappers.dfy`, `Numerals.dfy` | options, bytes, sizes of sets; numbers as digits |

## What turned out to be conditional

Some obvious statements are not true of the code as it stands. Each has its
exact condition here, with an input or run that shows the failure.

- A cache invalidated after every write can still disagree with the table: a
  load that overlaps the write may put the old row back after the invalidation.
  Over every interleaving, all hits agree with the table exactly when no load
  lands whose row was changed, and invalidated, since the load read it
  (`Agreement.AgreesIffNoStaleLanding`). When all writes are operations of the
  service, every answer for a code with no invalidation outstanding is what the
  table answers, exactly when no such load is ever under way
  (`ServiceRuns.AnswersAgreeIffNoLoadFallsBehind`). The bound on staleness is five
  minutes plus the load, and it is reached (`Staleness.StalenessBoundIsReached`).
- While no insert fails four times, table, batch and queue hold what was offered, in
  the order of offering, exactly when no event was dropped and the writer was only
  ever started again with an empty queue (`ClickOrder.StoredInOrder`).
- The click limit survives the pruning of counters exactly when the time until a
  click is counted in the database plus the age of a cached row is at most the
  idle time, for reservations (`PruneCycle.IdleTimeDecidesTheLimit`) and for
  redirects (`RedirectLimit.IdleTimeDecidesTheRedirects`).
- Collecting idle buckets goes unnoticed over all runs exactly when the idle time
  is at least the interval of the rate (`BucketSpec.IntervalDecidesCollecting`);
  otherwise `BucketSpec.CollectingSoonerShows` is a run in which a request is let
  through that should not be. The server collects after ten minutes, so this
  depends on the configured interval.
- A search finds texts up to letter case exactly when program and database lower
  the letters of the query alike (`Like.SearchIsUpToCaseIff`). SQLite lowers ASCII
  only, and a title with another capital letter is not even found by itself
  (`Like.UmlautIsMissed`).
- A page cursor round-trips exactly when the id holds no `|`
  (`Cursor.KeyCursorRoundTrip`).
- A new id sorts after the last one exactly unless both fall into one millisecond
  and the 80-bit counter is exhausted (`Ulid.NextIdIsLarger`).
- The chart's sums equal the plain counts, of people as of people and bots, exactly
  when no click counted falls into the last second before an end of the chart that is at or before 1970
  (`Series.ConservesIffNoneSlips`). Clicks carry the time of the request, so the
  failing input (`Series.ClicksBeforeTheEpochSlip`) needs a clock set before 1970.
- A code may be renamed exactly to itself, letter for letter, or to a code that no
  row has in any case, its own row included (`Resolver.RenameAcceptedIff`): changing
  only the case of a link's own code is refused as taken.

Two promises hold of this program, but not of every use of the click writer:

- When the click writer has returned, its queue is empty exactly when no event was
  offered after its last return (`ClickLedger.QueueIsEmptyIffNothingCameLate`). A
  context cancelled before the queue is closed allows that
  (`ClickLedger.EarlyCancelStrandsEvents`); `cmd/shortr/main.go` closes first, and
  then nothing is left behind (`ClickLedger.NothingIsLeftBehind`).
- When every spool file is written out and every replayed one removed, each event is
  in exactly one place exactly when the writer is only ever started again with an
  empty queue (`ClickLedger.EventsAreConserved`); the same order of closing ensures
  that (`ClickLedger.OrderlyRestartsEmpty`).

And one thing differs from what the names suggest:

- The digits of an id are left-aligned: the text of an id is the base-32 form of
  four times its value, not of its value as in the canonical ULID text form
  (`Ulid.TextShape`).

## What is assumed

- Each SQL statement is one atomic step on a table, a transaction happens whole
  or not at all, codes are unique up to letter case, and ids are unique.
- The two queries of a lookup by code count as one read. In `ConsumeClick`,
  `LoadOrStore` and the store of `last` are one step with respect to a prune.
- Comparison of sort values is any total order, used alike by `ORDER BY` and by
  the cursor condition. Text is lowered character by character, the query by one
  function and the columns by another.
- The encoder of a spool file remembers a failed write and writes nothing after it.
- Times are integers, token counts are reals. What the environment decides comes
  in as parameters: the clock, random bytes, whether an insert succeeds, whether
  validation of an edit passes, what enrichment finds out, and the TOTP code of a
  step.

## Model

| member | source | states |
|---|---|---|
| Lru.RunKeepsShape | internal/link/cache.go:98-117 | after any operations a shard holds each code once and never more than its capacity |
| Lru.HitReturnsLastPut | internal/link/cache.go:71-88 | a hit is the last entry put under the code with no invalidation since, and has not expired |
| Lru.SlotIsLastPut | internal/link/cache.go:98-130 | every slot of every reachable shard holds the last entry put under its code |
| Lru.FrontWasUsed | internal/link/cache.go:71-117 | whatever stands in front of a code was used since that code's last use |
| Lru.EvictionNeedsCapCodes | internal/link/cache.go:110-116 | a put evicts a code only after at least capacity distinct other codes were used since its last use |
| Lru.EvictsOnlyTheLast | internal/link/cache.go:110-116 | a put for another code keeps an entry if and only if it is not the last of a full shard, or the code was already held |
| Lru.EntrySurvives | internal/link/cache.go:71-117 | an unexpired entry is still held while fewer than capacity distinct codes were used since |
| Lru.LookupIsLastPut | internal/link/cache.go:71-117 | until capacity other codes were used, a lookup answers exactly the last put, or nothing once expired |
| CacheSpec.LowerIdempotent | internal/link/cache.go:142-160 | lowercasing twice is lowercasing once, so any casing reaches one entry |
| CacheSpec.LowerIs | internal/link/cache.go:142-160 | the key of a code has 32 added to each byte from 65 to 90, and every other byte as it is |
| CacheSpec.SameKeyIffSameButForCase | internal/link/cache.go:142-160 | two codes share a key if and only if they are of one length and at each place equal, or a capital A to Z and its small letter |
| CacheSpec.ApplyIsOneShard | internal/link/cache.go:59-66 | an operation changes the shard of its lowercased code and no other |
| CacheSpec.ShardsAreIndependent | internal/link/cache.go:59-140 | after any operations each shard is as if it alone had run its own operations |
| CacheSpec.LookupAfterRun | internal/link/cache.go:68-130 | for the whole cache and any casing: hits are the last put, and an unexpired entry is missed only after capacity codes of its shard |
| CacheSpec.ApplyKeeps | internal/link/cache.go:71-130 | an operation keeps the cache valid and stores nothing but its own entry |
| CacheSpec.HitIsStored | internal/link/cache.go:71-88 | a hit is an entry stored under the lowercased code and not expired |
| CacheSpec.PutThenGet | internal/link/cache.go:71-117 | what was put is found under every code that differs in the case of letters at most, until it expires |
| CacheSpec.InvalidateThenGet | internal/link/cache.go:119-130 | after an invalidation the code is missed in every casing, and every other code is answered as before |
| CacheSpec.LookupIgnoresCase | internal/link/cache.go:68-71 | codes that differ in case only are answered alike |
| Cache.Shard.Get | internal/link/cache.go:71-88 | the pointer form of a lookup refines the value form: expired entries go, hits move to the front |
| Cache.Shard.Put | internal/link/cache.go:98-117 | replacing, pushing and evicting on map and list refine the value form |
| Cache.Shard.Invalidate | internal/link/cache.go:121-130 | removal from map and list takes out the code's slot and nothing else |
| Cache.MapFindsTheSlot | internal/link/cache.go:23-28 | with map and list in bijection, the node the map gives is the first list entry of the code |
| Cache.SlotsToFront | internal/link/cache.go:86-86 | moving a node to the front keeps the bijection and is the value form's move |
| Cache.LinkedDrop | internal/link/cache.go:81-85 | unlinking a node from both keeps the bijection |
| Cache.ToLower | internal/link/cache.go:142-160 | the loop over the byte buffer adds 32 to each byte from 65 to 90 and leaves the others |
| Cache.ShardFor | internal/link/cache.go:59-66 | the inlined hash loop picks the FNV-1a shard, with 32-bit wrap-around |
| Cache.Cache.constructor | internal/link/cache.go:42-55 | a new cache has 64 empty shards of a 64th of the total capacity each, at least 16, and of 781 when no capacity is given |
| Cache.Cache.OneShardChanged | internal/link/cache.go:36-40 | changing the nodes of one shard changes no other shard and keeps the whole valid |
| Cache.Cache.Get | internal/link/cache.go:71-88 | refines the lookup of the whole cache |
| Cache.Cache.Put | internal/link/cache.go:90-92 | refines a put with the five-minute time to live |
| Cache.Cache.PutMissing | internal/link/cache.go:94-96 | refines a put of a negative entry with the one-minute time to live |
| Cache.Cache.Invalidate | internal/link/cache.go:121-130 | refines the removal under any casing |
| Cache.Cache.Len | internal/link/cache.go:132-140 | the sum over the shards, never more than 64 times the capacity of one |
| Staleness.StepKeepsInv | internal/link/service.go:374-404 | every event keeps each cached entry and each pending load true at a time no further back than the latency allows |
| Staleness.BoundedStaleness | internal/link/service.go:374-404 | in every interleaving an answer was true within its time to live plus the load latency, 300 seconds for links and 60 for misses |
| Staleness.StalenessBoundIsReached | internal/link/service.go:385-398 | a load overlapping a write makes the bound tight, for every latency |
| Agreement.StepKeepsAgreement | internal/link/service.go:374-404 | every event but a stale landing keeps what is stored of clean codes equal to the current row |
| Agreement.LoadsKeepTheirRow | internal/link/service.go:385-399 | over every run a load under way holds the row of the version it read |
| Agreement.AgreesIffNoStaleLanding | internal/link/service.go:374-404 | in every interleaving of hits, loads, writes and invalidations, every hit at every time shows the current row if and only if no load lands whose row was changed, and invalidated, since it was read |
| Agreement.AnswersAgree | internal/link/service.go:374-404 | if no load overlaps a write of its row, every answer, from the cache or from a load, is the current row or not-found, while loads and hits of any visitors overlap |
| ServiceWrites.ByCodeIsLookup | internal/store/links.go:88-103 | the table by lowercased code answers as the two queries do |
| ServiceWrites.ChangedAnswersAreDropped | internal/link/service.go:266-591 | a lookup whose answer an operation changes is for a code the operation invalidates |
| ServiceWrites.OperationsLeaveNothingDirty | internal/link/service.go:266-591 | after its invalidations an operation leaves no code changed and not invalidated, whatever ran before |
| ServiceRuns.AnswersAgreeIffNoLoadFallsBehind | internal/link/service.go:261-591 | in every interleaving of visitors and operations of the service, each of which stores its change first and invalidates later, every answer at every time, from the cache or a load and under any casing, is what the table answers unless an invalidation of the code is outstanding, if and only if no load is ever under way whose row was changed, and invalidated, since it was read |
| ServiceRuns.MoveKeepsInStep | internal/link/service.go:261-591 | while no load has fallen behind, every move keeps what is stored of codes with no invalidation outstanding equal to the table |
| ServiceRuns.RunStaysOrderly | internal/link/service.go:261-591 | over every such run ids and codes stay unique, the visitors see the table the operations have written, and loads hold the row they read |
| Resolver.FoundByAnyCasing | internal/store/links.go:88-109 | a lookup misses exactly when no row has the code under any casing, and otherwise gives that row |
| Resolver.FoundButForCase | internal/store/links.go:88-103 | a lookup gives the row whose code equals the one asked for but for the case of letters, and nothing if and only if there is none |
| Resolver.CasingDoesNotMatter | internal/store/links.go:85-103 | codes that differ in the case of letters only give the same row, in spite of the exact match tried first |
| Resolver.FirstFreeIsFree | internal/link/service.go:278-300 | creation takes the first attempt that is not reserved and that no row has in any casing, and fails if and only if there is none |
| Resolver.ResolveKeepsCoherence | internal/link/service.go:374-404 | a resolve keeps cache and table in agreement and answers the current row |
| Resolver.ResolvedIsCached | internal/link/service.go:374-404 | once resolved, a code is answered from the cache under its casing, found or not, until the entry expires: 300 seconds or 60 |
| Resolver.CreateKeepsCoherence | internal/link/service.go:266-295 | creating a link keeps agreement, also for a code cached as missing |
| Resolver.UpdateKeepsCoherence | internal/link/service.go:429-557 | an edit keeps agreement, also when it renames the code |
| Resolver.EditTakesThePatch | internal/link/service.go:429-557 | an accepted edit leaves the link with the patch's value in every column the patch names, the old value in every other, and all other rows as they were |
| Resolver.EditIsForgotten | internal/link/service.go:552-556 | after an accepted edit neither the old nor the new code is answered from the cache, in any casing, and every other code as before |
| Resolver.EditIsSeenAtOnce | internal/link/service.go:429-557 | a resolve after an accepted edit gives the edited row under its code, and not-found under a code it gave up |
| Resolver.ChangedRowIsSeenAtOnce | internal/link/service.go:566-591 | a resolve after a link was deleted or restored gives the row with its mark as set, and after a purge not-found |
| Resolver.MarkKeepsCoherence | internal/link/service.go:566-591 | deleting and restoring keep agreement |
| Resolver.PurgeKeepsCoherence | internal/link/service.go:576-583 | purging keeps agreement |
| Resolver.FlushKeepsCoherence | internal/store/clicks.go:43-47 | counting clicks keeps agreement, raises each counter by its count and changes nothing else |
| Resolver.RunKeepsCoherence | internal/link/service.go:374-591 | agreement holds at every state of every run of operations that do not overlap |
| Resolver.CacheAgreesWithStore | internal/link/service.go:374-404 | over such runs a resolve gives the row whose code equals the one asked for but for case, or not-found if and only if there is none |
| Resolver.RenameAcceptedIff | internal/link/service.go:433-446 | a rename passes if and only if the code is the present one or no row, the own one included, has it in any case |
| Resolver.RecasingIsRefused | internal/link/service.go:433-446 | an edit that only changes the case of the link's own code is always refused |
| Service.LinkService.CodeTaken | internal/store/links.go:105-109 | true if and only if some row has the code but for the case of letters |
| Service.LinkService.GetLink | internal/store/links.go:88-103 | the row whose code equals the one asked for but for case, not-found if and only if there is none; the exact match is tried first |
| Service.LinkService.CreateLink | internal/store/links.go:52-74 | inserts if and only if id and code are free, and changes nothing otherwise |
| Service.LinkService.ResolveForRedirect | internal/link/service.go:374-404 | cache first, then table, then a positive or negative entry: the step the theorems are about; on a miss, the row with the code but for case, or not-found; a database that does not answer changes nothing but the order of use |
| Service.LinkService.Create | internal/link/service.go:261-302 | a custom code or up to as many generated ones as reach the database: the first that no row has in any casing, with the details given, no clicks and no mark; nothing is stored if there is none |
| Service.LinkService.Update | internal/link/service.go:429-557 | accepted exactly when valid and the code is kept or free in every casing; the row then takes the patch column by column, no other row changes, and the counter and both codes are forgotten; otherwise nothing changes |
| Service.LinkService.Delete | internal/link/service.go:566-573 | sets the mark of the row and changes no other column or row, then forgets counter and cache entry; a failed statement leaves all three |
| Service.LinkService.Purge | internal/link/service.go:576-583 | removes the row, then forgets counter and cache entry; a failed statement leaves all three |
| Service.LinkService.Restore | internal/link/service.go:585-591 | clears the mark and changes no other column or row, then forgets the cache entry; a failed statement leaves both |
| Service.LinkService.ConsumeClick | internal/link/service.go:77-91 | alone, a call is the counter machine's call, and: it passes exactly while the count, taken from the row if there is no counter, is below the limit, and raises it by one then |
| Service.LinkService.PruneHits | internal/link/service.go:102-110 | keeps exactly the counters used within the idle time |
| CounterRace.StepKeepsInv | internal/link/service.go:81-90 | each atomic step keeps the counter equal to seed, accepted calls and pending rollbacks |
| CounterRace.LimitIsExact | internal/link/service.go:77-91 | for any number of concurrent calls: never more accepted than the limit leaves, and none refused before it is used up |
| CounterRace.QuietCounterIsExact | internal/link/service.go:86-89 | without pending rollbacks the counter is seed plus accepted calls |
| PruneCycle.StepKeepsInv | internal/link/service.go:77-110 | the timed invariant over calls, flushes, row copies and prunes |
| PruneCycle.SettledWhenQuiet | internal/link/service.go:98-101 | once a counter may be pruned, every accepted click is in the stored count |
| PruneCycle.LimitSurvivesPruning | internal/link/service.go:73-110 | over any number of prune and re-seed cycles, accepted clicks never exceed the limit less the first seed |
| PruneCycle.RefusedOnlyWhenUsedUp | internal/link/service.go:86-89 | over such runs a click is refused only when the limit is used up |
| PruneCycle.StaleSeedExceeds | internal/server/server.go:131-141 | with a shorter idle time a run exceeds the limit |
| PruneCycle.IdleTimeDecidesTheLimit | internal/link/service.go:98-110 | the limit holds over all runs if and only if settling plus copy age is at most the idle time |
| Redirect.StepKeepsInv | internal/server/redirect.go:60-101 | every step keeps redirects that count equal to reservations accepted, and recorded clicks equal to GETs served |
| Redirect.PeopleStayWithinTheLimit | internal/server/redirect.go:86-101 | however requests for a limited link interleave, GETs by people are served no more often than the limit left, and every GET served is recorded once |
| RedirectLimit.StepKeepsInv | internal/server/redirect.go:60-101 | the same balance over the whole life of a limit, with flushes, row copies and prunes between |
| RedirectLimit.PeopleStayWithinTheLimit | internal/server/redirect.go:86-101 | over any number of prune and re-seed cycles, GETs by people are served no more often than the limit less the first seed, and each is recorded once |
| RedirectLimit.IdleTimeDecidesTheRedirects | internal/server/server.go:131-141 | that holds over all runs if and only if settling plus copy age is at most the idle time |
| Redirect.VerdictsInFields | internal/server/redirect.go:60-84 | when each verdict of the checks is given, by mark, status, expiry, limit, password and cookie, in that order |
| RedirectHandler.Admit | internal/server/redirect.go:60-90 | served exactly when the link is live, active, unexpired, below its limit, and free of a password or opened by the cookie, and a GET of a person finds room at a limited link, which it then uses; each refusal exactly in its case; no other request changes a counter |
| RedirectHandler.HandleRedirect | internal/server/redirect.go:49-101 | the whole new state: the link found, from the cache or by its code in any casing; the answer by its columns and its counter, or that the database is unavailable; cache, table and counters after it; and a click offered to the writer exactly for a GET that is served |
| RedirectHandler.HandlerTakesMachineSteps | internal/server/redirect.go:86-101 | what the handler does to the counter of a link, and whether it serves, is what the machine of `RedirectLimit` does in the steps of one reservation, whatever else is in flight |
| BucketSpec.AccruedIsProduct | internal/ratelimit/bucket.go:76-81 | the accrued tokens are elapsed time times the rate |
| BucketSpec.TokensInRange | internal/ratelimit/bucket.go:76-87 | tokens stay between zero and N over every run |
| BucketSpec.StepLeavesBucket | internal/ratelimit/bucket.go:66-89 | a request is let through if and only if a token is left, takes one, and touches no other key |
| BucketSpec.AdmissionBound | internal/ratelimit/bucket.go:58-89 | in every window of length T at most N + T·N/interval requests of a key are let through |
| BucketSpec.ForgettingIsInvisible | internal/ratelimit/bucket.go:115-160 | a limiter that forgets full buckets and one that never forgets stay alike at every later time |
| BucketSpec.SameAnswers | internal/ratelimit/bucket.go:115-160 | both answer every request alike, forever |
| BucketSpec.IdleIsFull | internal/ratelimit/bucket.go:149-160 | a bucket untouched for an interval has refilled |
| BucketSpec.CollectingIdleIsHarmless | internal/ratelimit/bucket.go:151-160 | collection after an interval or more forgets only full buckets |
| BucketSpec.CollectingIsOrderly | internal/ratelimit/bucket.go:151-160 | with an interval or more, a run with collections is one that forgets only full buckets |
| BucketSpec.CollectingSoonerShows | internal/ratelimit/bucket.go:151-160 | with any shorter idle time, N requests, a collection and a few more requests lead to an answer that differs |
| BucketSpec.IntervalDecidesCollecting | internal/server/server.go:131-141 | over all runs of requests and collections every answer is that of a limiter that never forgets if and only if the idle time is at least the interval |
| RateLimit.AllowTakesOneToken | internal/ratelimit/bucket.go:66-89 | one request in arithmetic: tokens plus elapsed time times N per interval, at most N; with at least one it passes and takes one |
| AccessOrder.SortByAccessSorts | internal/ratelimit/bucket.go:143-143 | the eviction sample comes out in order of last access |
| RateLimit.VictimsAreOldest | internal/ratelimit/bucket.go:143-146 | of the sample, nothing kept was used before anything evicted |
| RateLimit.Limiter.Allow | internal/ratelimit/bucket.go:58-89 | finds the tokens left and accrued since, at most N, or N without a bucket; passes with a whole token and takes it; evicts exactly when the map is full and the key new, and then only full buckets, unless the first thousand looked at, or all there are, held no full one, and then the least recently used of these |
| RateLimit.Limiter.Peek | internal/ratelimit/bucket.go:94-106 | answers exactly what a request at that instant would get, and changes nothing |
| RateLimit.Limiter.Reset | internal/ratelimit/bucket.go:109-113 | forgets the key and nothing else |
| RateLimit.Limiter.EvictOldest | internal/ratelimit/bucket.go:120-147 | makes room: only full buckets go, and only if none of the sample is full, the least recently used of it; the sample then has a thousand buckets, or all there are |
| RateLimit.Limiter.DropFull | internal/ratelimit/bucket.go:127-142 | the sampling loop looks at a thousand buckets, or all there are, removes the full ones and remembers the others with their last access |
| RateLimit.Limiter.GC | internal/ratelimit/bucket.go:151-160 | removes exactly the buckets last used at the cutoff or before, and leaves the others as they are |
| RateLimit.Limiter.Len | internal/ratelimit/bucket.go:162-166 | the number of keys, never more than the maximum |
| Cursor.Base64RoundTrip | internal/store/helpers.go:33-61 | decoding what the unpadded URL alphabet encoded gives back the bytes, as in section 5 of RFC 4648 |
| Cursor.SymbolIsBase64Url | internal/store/helpers.go:51-53 | the symbols are those of table 2 of RFC 4648 |
| Cursor.SextetsHaveTheBits | internal/store/helpers.go:51-53 | four symbols have the bits of three bytes, in their order, and fewer at the end those of what is left, filled up with zeros |
| Cursor.IntRoundTrip | internal/store/helpers.go:33-47 | a formatted number parses back if and only if it fits 64 bits |
| Cursor.FormatIsDecimal | internal/store/helpers.go:33-35 | a number is written as a minus sign if negative and the decimal digits of its absolute value |
| Cursor.DigitsAreDecimal | internal/store/helpers.go:33-35 | the digits are 0 to 9, have the value of the number and no leading zero |
| Cursor.CursorIsValueBarId | internal/store/helpers.go:51-53 | behind the encoding a cursor is the value, a bar and the id |
| Cursor.KeyCursorRoundTrip | internal/store/helpers.go:51-65 | value and id come back if and only if the id holds no bar, whatever the value holds |
| Cursor.CursorRoundTrip | internal/store/helpers.go:33-47 | every 64-bit value comes back with its id |
| Cursor.CursorIsNotEmpty | internal/store/links.go:283-294 | a next cursor is never the empty text, which means the end |
| Like.SequentialIsSinglePass | internal/store/links.go:297-302 | the three replacements one after the other equal the single-pass replacer |
| Like.EscapedIsLiteral | internal/store/links.go:297-302 | an escaped text matches itself and nothing else |
| Like.SearchIsSubstring | internal/store/links.go:213-219 | the pattern of a search matches exactly the texts the query occurs in |
| Like.FoldingChangesNothing | internal/store/links.go:215-218 | a LIKE that ignores the case of ASCII letters matches the same on text without ASCII capitals |
| Like.SearchIsUpToCaseIff | internal/store/links.go:213-219 | a query finds every text it occurs in up to letter case, and no other, if and only if program and database lower its letters alike |
| Like.UmlautIsMissed | internal/store/links.go:213-219 | a database that lowers ASCII only misses a text searched for by itself |
| Keyset.PageCut | internal/store/links.go:240-294 | a page holds, in order, the first rows after the cursor, and next is its last row if and only if more may follow |
| Keyset.NextIffMore | internal/store/links.go:271-294 | another page follows if and only if something beyond the cursor is not shown yet, and a page holds as many rows as there are, up to the limit |
| Keyset.NextEligible | internal/store/links.go:240-260 | what a next cursor leaves is exactly what the page did not show, and is less |
| Keyset.TraversalIsSortedTable | internal/store/links.go:193-295 | on an unchanging table, following next from the start gives every row once, in order, for every order and limit |
| Keyset.SortedIsOrdered | internal/store/links.go:268-270 | the reference: the rows in order, each once |
| Keyset.AscendingIsUnique | internal/store/links.go:268-270 | that order is unique, also with tied sort values |
| Keyset.NothingShownTwice | internal/store/links.go:240-294 | while rows come and go between pages, no key is shown twice |
| Keyset.EveryLastingRowShownOnce | internal/store/links.go:240-294 | a row there throughout a completed traversal is shown exactly once |
| Keyset.CompletedTraversalIsSorted | internal/store/links.go:193-295 | over rows that do not change, every traversal that has ended has shown exactly the sorted rows |
| Paging.ResponseIsPage | internal/store/links.go:240-295 | a request with an encoded cursor answers the page after the key it stands for |
| Paging.WalkIsTraversal | internal/store/links.go:240-295 | following encoded cursors is a traversal by keys |
| Paging.EveryRowSeenOnce | internal/store/links.go:193-295 | a lasting row is seen exactly once through encoded cursors |
| Paging.StaticWalkIsComplete | internal/store/links.go:193-295 | a walk over an unchanging table ends, and shows the sorted table |
| Paging.CompletedWalkIsSorted | internal/store/links.go:193-295 | every client that has followed the encoded cursors to the end over rows that do not change has seen them in order, each once |
| Listing.QueryIsLiteral | internal/store/links.go:213-219 | a row passes the search if and only if the query, lowered by the program, occurs in code, title or target, lowered by the database |
| Listing.QueryIsUpToCase | internal/store/links.go:213-219 | where the two lower the query's letters alike, if and only if it occurs there up to letter case |
| Listing.RowsAreWanted | internal/store/links.go:198-231 | a key is that of a selected row if and only if the row meets the filter's conditions on user, mark, status, text and tag, and the value is that of the sort column |
| Listing.PageByColumns | internal/store/links.go:193-295 | one page by columns: wanted rows beyond the cursor in the order asked for, upward or downward; what is left out comes later; a next cursor exactly if something is; at most 100 rows, 25 by default; an unreadable cursor is refused |
| Listing.RowsTravel | internal/store/links.go:283-294 | the sort keys of every row of the link list survive the cursor text, for all three sorts |
| Listing.ClicksTravel | internal/store/clicks.go:107-150 | those of the click list do |
| Listing.UsersTravel | internal/store/users.go:156-197 | those of the user list do |
| ClickList.EveryClickListedOnce | internal/store/clicks.go:107-150 | over changing tables, a click there throughout is listed exactly once, also within one millisecond |
| ClickList.StaticListingIsComplete | internal/store/clicks.go:107-150 | over an unchanging table, the pages make up the link's clicks, newest first |
| ClickList.CompletedListingIsSorted | internal/store/clicks.go:107-150 | so has every client of the click list that reached the last page, while the clicks of the link did not change |
| ClickList.CompletedListingByColumns | internal/store/clicks.go:107-150 | a client that reached the last page has seen the clicks of the link, and no other, the latest first and among equals the larger number first |
| ClickList.FirstPageByColumns | internal/store/clicks.go:107-150 | the first page has the newest clicks, at most 200 and 50 by default, and a next cursor exactly if there are more |
| UserList.QueryIsLiteral | internal/store/users.go:163-166 | a user passes the search if and only if the query occurs in email or name |
| UserList.EveryUserListedOnce | internal/store/users.go:156-197 | over changing tables, a user that matches throughout is listed exactly once |
| UserList.StaticListingIsComplete | internal/store/users.go:156-197 | over an unchanging table, the pages make up the matching users, newest first |
| UserList.CompletedListingIsSorted | internal/store/users.go:156-197 | and of the user list, while the matching users did not change |
| UserList.CompletedListingByColumns | internal/store/users.go:156-197 | a client that reached the last page has seen the users whose email or name holds the query, and no other, the latest first |
| UserList.FirstPageByColumns | internal/store/users.go:156-197 | the first page has the newest matching users, at most 100 and 25 by default, and a next cursor exactly if there are more |
| Listing.EveryLinkListedOnce | internal/store/links.go:193-295 | over changing tables, a link that matches throughout is listed exactly once, for every filter |
| Listing.StaticListingIsComplete | internal/store/links.go:193-295 | over an unchanging table, the pages make up the filtered links in order |
| Listing.CompletedListingIsSorted | internal/store/links.go:193-295 | every client that reached the last page, while the matching links did not change, has seen exactly these, in order |
| Listing.CompletedListingByColumns | internal/store/links.go:193-295 | a client that reached the last page has seen the rows that meet the filter's conditions, and no other, upward or downward by the sort column and then the id |
| AccountDeletion.LinkStore.OrderByLimit | internal/store/links.go:268-270 | selecting the first row again and again gives the beginning of the sorted rows |
| AccountDeletion.LinkStore.ListLinks | internal/store/links.go:193-295 | the query built and read step by step is the list function, and its page is as `Listing.PageByColumns` says |
| AccountDeletion.LinkStore.DeletePage | internal/server/api_me.go:235-237 | deletes the links of a page, but for those whose deletion fails |
| AccountDeletion.PageAdvances | internal/server/api_me.go:229-242 | after a page is deleted, everything up to its cursor is gone and less remains to be paged |
| AccountDeletion.OnPage | internal/server/api_me.go:229-242 | a link is on the page if and only if it is live and between the two cursors |
| AccountDeletion.PageCounts | internal/server/api_me.go:229-242 | a page that is followed by another takes exactly a hundred links from those ahead, though the loop deletes from the table it pages through |
| AccountDeletion.LinkStore.DeleteAllLinks | internal/server/api_me.go:226-243 | the loop ends and succeeds exactly when as many page queries are answered as the live links of the user need, a hundred at a time; then each of these is marked but for those whose deletion failed, and no other column or row changes; if a query fails, exactly the links up to some cursor are deleted, a hundred for each query answered apart from those whose deletion failed |
| ClickLedger.StepBalances | internal/click/writer.go:82-305 | every step keeps the balance of where each event is |
| ClickLedger.RunBalances | internal/click/writer.go:82-305 | over every run each event given is dropped, queued, in the batch, stored, spooled or accounted for as lost or stored twice |
| ClickLedger.EventsAreConserved | internal/click/writer.go:82-305 | over every run that loses no line in writing and removes what it replays, however often table and disk refuse, each event is in exactly one of five places if and only if every restart finds the queue empty |
| ClickLedger.EncodeConserves | internal/click/writer.go:248-253 | a spool file and the lines that could not be written make up the batch |
| ClickLedger.DecodeConserves | internal/click/writer.go:285-293 | what the replay decodes and what stands behind a torn line make up the file |
| ClickLedger.SpooledWithFile | internal/click/writer.go:240-241 | a new file adds its records to the spool and disturbs no other |
| ClickLedger.ReplayBalances | internal/click/writer.go:259-305 | a replay moves records from files to the table, whichever files fail to open, insert or be removed |
| ClickLedger.DropsIffRefused | internal/click/writer.go:82-255 | over every run an event is dropped if and only if some step had to: a full queue, a panic in enrichment, or a batch refused by table and disk alike |
| ClickLedger.RunKeepsSettled | internal/click/writer.go:93-149 | queue and batch stay within their bounds, and a return after the close leaves both empty |
| ClickLedger.OrderlyReturnsAfterClose | cmd/shortr/main.go:244-256 | if the cancellation comes after the close, the writer returns only after the close |
| ClickLedger.QueueIsEmptyIffNothingCameLate | internal/click/writer.go:93-152 | after every run that ends returned, the queue is empty if and only if no event was offered after the last return |
| ClickLedger.NothingIsLeftBehind | cmd/shortr/main.go:244-256 | once an orderly run has returned, queue and batch are empty |
| ClickLedger.OrderlyRestartsEmpty | cmd/shortr/main.go:244-256 | in an orderly run every restart finds the queue empty |
| ClickLedger.EarlyCancelStrandsEvents | internal/click/writer.go:130-146 | a run of the other kind: a cancellation before the close leaves a later event in the queue |
| ClickLedger.RunKeepsIntact | internal/click/writer.go:207-277 | such runs store nothing twice, and lose something exactly when a restart finds the queue not empty |
| ClickLedger.EncodedTornAtMostLast | internal/click/writer.go:248-253 | a torn line can only be the last of its file |
| ClickLedger.RunStaysReadable | internal/click/writer.go:229-277 | so after every run nothing in the spool stands behind a torn line |
| ClickLedger.HealthyRestartStoresTheSpool | internal/click/writer.go:259-305 | after every run, whatever failed in it, a healthy restart empties the spool and stores each spooled click exactly once |
| ClickCounts.CutsDoNotMatter | internal/store/clicks.go:16-50 | rows and counters do not depend on how the stream is cut into batches |
| ClickCounts.CountersMatchTheClicks | internal/store/clicks.go:36-47 | over every run with one setting a counter grows by exactly the clicks stored since that count |
| ClickCounts.CountersStayWithin | internal/store/clicks.go:36-47 | over every run a counter grows by no less than the people and no more than the visitors stored since |
| ClickFields.CountedIsSize | internal/store/clicks.go:27-42 | a batch counts for a link as often as it holds clicks on it, of people alone unless bots count |
| ClickFields.InsertedStores | internal/store/clicks.go:16-50 | a stored batch stands behind the rows there were, and raises each counter by the clicks that count for it |
| ClickFields.FlushIsAsStated | internal/click/writer.go:207-255 | a flush by fields: if one of four attempts succeeds the batch is in the table and nothing is spooled or dropped; otherwise the table stays and there is one more file with the batch, in name order, if the spool can take it, and the batch is dropped if not |
| ClickFields.WithFileInserts | internal/click/writer.go:240-241 | a new file stands where its name belongs, and the others in their order |
| ClickFields.AllIsWritten | internal/click/writer.go:248-253 | written without a failure, a file holds the batch click by click |
| ClickFields.DecodeReadsInOrder | internal/click/writer.go:285-293 | a replayed file gives its clicks in their order, up to a torn line |
| ClickOrder.StoredInOrder | internal/click/writer.go:82-225 | over every run in which no insert fails four times nothing is spooled or stored twice, and table, batch and queue hold exactly what was offered, in the order of offering, if and only if nothing was dropped and every restart found the queue empty |
| ClickOrder.TickStoresTheBatch | internal/click/writer.go:128-129 | in such runs, when every restart found the queue empty, once the clock has ticked every event taken off the queue and not dropped is in the table, and nothing is spooled |
| ClickPipeline.Tally | internal/store/clicks.go:27-42 | the loop over the batch counts each link as often as its counted clicks occur |
| ClickPipeline.ClickTable.InsertClicksBatch | internal/store/clicks.go:16-50 | rows behind those there were and counters raised together, or neither; links that do not exist are passed over |
| ClickPipeline.Writer.constructor | internal/click/writer.go:60-75 | a new writer, on a table as it stands, is the machine's start |
| ClickPipeline.Writer.Enqueue | internal/click/writer.go:82-91 | queues behind the others or drops, and says which |
| ClickPipeline.Writer.OnReceive | internal/click/writer.go:116-127 | takes the event longest in the queue, and flushes exactly when the batch is full: into the table if one of four attempts succeeds |
| ClickPipeline.Writer.OnCancel | internal/click/writer.go:130-146 | drains the queue, flushes and returns |
| ClickPipeline.Writer.Return | internal/click/writer.go:117-120 | the last flush and the return |
| ClickPipeline.Writer.FlushBatch | internal/click/writer.go:207-225 | if one of four attempts succeeds, the batch is in the table once and nothing else changes; otherwise the table stays, and a file is written exactly when the spool can take one |
| ClickPipeline.Writer.Spool | internal/click/writer.go:229-255 | a new file with the lines of the batch, or the batch dropped |
| ClickPipeline.Writer.ReplaySpool | internal/click/writer.go:259-277 | file by file in name order, keeping what could not be replayed |
| ClickPipeline.Writer.ReplayFile | internal/click/writer.go:279-305 | decodes up to the first torn line and stores that, in its order, in one transaction, if the file opens and the insert succeeds |
| ClickPipeline.Writer.RunAll | internal/click/writer.go:97-149 | the writer follows the machine over every run of steps |
| Ulid.Encode | internal/ulid/ulid.go:55-77 | the bit accumulator ends with 26 symbols, the base-32 form of four times the value, although it wraps at 64 bits |
| Ulid.WrappingIsHarmless | internal/ulid/ulid.go:59-75 | the bits lost in wrapping are never part of a digit |
| Ulid.SymbolIsCrockford | internal/ulid/ulid.go:13-13 | the symbols are those of Crockford's alphabet |
| Ulid.TextShape | internal/ulid/ulid.go:55-77 | the text is 26 base-32 digits of four times the bytes' value in Crockford's alphabet, so its last digit is a multiple of four |
| Ulid.TextOrderIsByteOrder | internal/ulid/ulid.go:55-77 | texts are ordered as the bytes are, and equal only for equal bytes |
| Ulid.Generator.Carry | internal/ulid/ulid.go:29-35 | the carry loop from the last byte is the increment, in place |
| Ulid.Generator.New | internal/ulid/ulid.go:23-53 | same millisecond: the counter goes up by one, or to zero from all ones; otherwise it is what the random source gave; the id shows four times the time followed by the counter |
| Ulid.IncrementIsSuccessor | internal/ulid/ulid.go:29-35 | the increment adds exactly one, and wraps to zero only from all ones: plus one modulo 2 to the 80 |
| Ulid.TimeBytesAreTheTime | internal/ulid/ulid.go:43-49 | the six time bytes are the time, below 2 to the 48 |
| Ulid.IdOrder | internal/ulid/ulid.go:23-53 | ids are ordered by time, then by counter |
| Ulid.NextIdIsLarger | internal/ulid/ulid.go:23-53 | with a clock that does not go back, the next id is larger if and only if the counter did not wrap within the millisecond |
| Ulid.IdsAscend | internal/ulid/ulid.go:23-53 | over a run without such a wrap, later ids are larger strings than earlier ones |
| SecondFactor.StepKeepsInv | internal/store/mfa.go:62-100 | each atomic step keeps accepted steps ascending and codes conserved |
| SecondFactor.StepsAreSingleUse | internal/store/mfa.go:59-70 | accepted steps strictly increase in every interleaving, so none is accepted twice, as section 5.2 of RFC 6238 requires |
| SecondFactor.CodesAreConserved | internal/store/mfa.go:74-100 | remaining and used recovery codes together are always the initial ones |
| SecondFactor.CodesAreSingleUse | internal/store/mfa.go:72-100 | no code is accepted more often than it was issued |
| SecondFactor.SwapFailsIffAnotherUse | internal/store/mfa.go:90-99 | a swap of a code that was found fails if and only if another code was used since the read |
| SecondFactor.VerifyTOTP | internal/auth/totp.go:72-85 | accepts if and only if the code, six characters without white space around and blanks within, is that of one of three steps of 30 seconds: the present one, else the one before, else the next |
| SecondFactor.TrimmedIsTheMiddle | internal/auth/totp.go:73-73 | what is taken off a code entered is white space at its ends, and all of it |
| SecondFactor.BlanksAloneGo | internal/auth/totp.go:73-73 | then every blank goes, and every other character stays in its order |
| SecondFactor.MfaRow.AdvanceMFAStep | internal/store/mfa.go:62-70 | moves the step forward if and only if it is newer |
| SecondFactor.MfaRow.Filter | internal/store/mfa.go:80-91 | removes the first match and says whether there was one |
| SecondFactor.MfaRow.ConsumeRecoveryCode | internal/store/mfa.go:74-100 | uses up one code if and only if it is among those left |
| SecondFactor.MfaRow.CheckSecondFactor | internal/server/mfa.go:127-152 | exactly when each kind of code is accepted, and what that changes |
| Series.ByBucket | internal/server/api_analytics.go:79-82 | the map holds each point under its bucket |
| Series.ToSeriesDTO | internal/server/api_analytics.go:72-98 | fills consecutive buckets from the floor of the start, if the end lies less than 2000 hours or days after that floor and less than one before it; otherwise hands the points through |
| Series.ValidatedRangesAreFilled | internal/server/api_analytics.go:33-40 | a range of up to two years, by hours up to three days and by days above, never takes the fallback |
| Series.BucketIsFloor | internal/store/clicks.go:231-245 | since 1970 the bucket of the query is the floor the chart uses |
| Series.FillingConserves | internal/server/api_analytics.go:72-98 | for clicks since 1970 the sums of clicks and bots equal the plain counts over the range |
| Series.PastTheEndIffSlips | internal/store/clicks.go:229-271 | the query puts a click of the range past the chart if and only if its time is before 1970 and within the last second before the chart's end |
| Series.ConservesIffNoneSlips | internal/server/api_analytics.go:72-98 | for all clicks, with bots or of people alone: the sum equals the plain count if and only if no click counted is such |
| Series.AllPointsShownIffNoneSlips | internal/server/api_analytics.go:72-98 | every point of the query appears in the chart if and only if no click of the range is such |
| Series.PointShownOnceIffInside | internal/server/api_analytics.go:79-96 | a point appears in the chart if and only if its bucket is not past the end, and never twice |
| Series.EveryPointShownOnce | internal/server/api_analytics.go:92-96 | if no click of the range is such, each point of the query is at exactly one place of the chart |
| Series.ClicksBeforeTheEpochSlip | internal/store/clicks.go:240-244 | a click just before 1970 is in the total and in no bucket |

## Left out

- ClickLedger.EventsAreConserved: is about runs in which every line of a spool file is written and every replayed file removed; `ClickLedger.RunBalances` covers all other runs, with what is lost or stored twice on record. A crash of the process in the middle of a step is not modelled.
- Series.FillingConserves: is about clicks since 1970; the exact condition is in `Series.ConservesIffNoneSlips`. The bucket is that of SQLite; the PostgreSQL query rounds sub-second times before 1970 differently. The sum of unique visitors is carried along but nothing is claimed of it.
- Resolver.RunKeepsCoherence: is about requests one after another, as the methods of `Service` carry them out; `ServiceRuns.AnswersAgreeIffNoLoadFallsBehind` is the theorem for requests that overlap.
- Resolver.CacheAgreesWithStore: likewise.
- Agreement.AnswersAgree: leaves out codes whose row was changed and not yet invalidated; which ones these are, when the writes are operations of the service, is part of `ServiceRuns.AnswersAgreeIffNoLoadFallsBehind`.
- ServiceRuns.AnswersAgreeIffNoLoadFallsBehind: an operation acts on the link as it stands when it stores its change; one that was given the link before another edit renamed it, and so invalidates another code, is not among the moves, while `Agreement.AgreesIffNoStaleLanding` is about any writes. The job that purges links thirty days after their deletion writes past the cache and is not among the operations.
- Resolver.FirstFreeIsFree: the codes generated are an input; the longer code of the fifth attempt is a different input, not a different rule.
- Service.LinkService.ResolveForRedirect: loads shared by several visitors are part of `Staleness` and `Agreement`, not of the method.
- Service.LinkService.Create: policy, validation and the link limit come before what is modelled.
- Service.LinkService.Update: validation is one input bit, the patch holds values as they are stored, trimmed and hashed, and fields that no redirect depends on are left out.
- Redirect.PeopleStayWithinTheLimit: is about one counter that is not pruned, but without assumptions on time; `RedirectLimit.PeopleStayWithinTheLimit` is about the whole life of a limit.
- PruneCycle.LimitSurvivesPruning: counts reservations, for one link with a fixed limit, with bots not counted and no click dropped or spooled; a link edit starts a new counter. `RedirectLimit.PeopleStayWithinTheLimit` counts redirects.
- RedirectHandler.HandlerTakesMachineSteps: is about a reservation whose steps nothing interrupts, as a method carries it out; interleaved ones are steps of the machine alone.
- RedirectHandler.HandleRedirect: starts where the link is resolved; the method and path checks, the building of the target URL and the password form are left out, and a valid password cookie is an input bit.
- BucketSpec.AdmissionBound: excludes resets and forced evictions, which restore a full bucket by design. Floating-point rounding is idealised by reals.
- RateLimit.Limiter.Allow: buckets are records in a map and are replaced, where the code updates them by reference; the map owns each bucket, so aliasing is not lost. The order of map iteration is any order.
- Like.EscapedIsLiteral: compares characters exactly, where SQLite's LIKE ignores the case of ASCII letters; by `Like.FoldingChangesNothing` that makes no difference on lowered text, and the searches lower both sides.
- Like.SearchIsSubstring: likewise.
- Listing.EveryLinkListedOnce: the tag filter is any condition on a row's tags; what it finds in the JSON text is not described.
- Listing.StaticListingIsComplete: likewise.
- AccountDeletion.LinkStore.ListLinks: rows are reduced to their sort keys, and the tag filter is any condition.
- ClickPipeline.Writer.FlushBatch: is one step, since what other goroutines do meanwhile touches only the queue; the ten-second limit and the pauses between attempts are part of whether an attempt succeeds.
- ClickPipeline.ClickTable.InsertClicksBatch: leaves out `last_click_at`, and a commit that fails after taking effect.
- SecondFactor.CodesAreConserved: for one enrolment; enabling, disabling and regenerating codes write the whole record and start another.
- Staleness.BoundedStaleness: the latency of a load covers the database query and the handing out of its result to all who wait for it.
- Retention of clicks, geographic backfill, breakdowns, recent activity and the recomputation of counters, which nothing calls: short queries.
- HTTP routing, sessions, cryptography, hashing, configuration, notifications and the web client: input and output, or calls into libraries.
