# Verified model of go-butler's caches, ids, lock and service discovery

This project models the `data` package of go-butler (object and list caches over Redis, their
invalidation, snowflake ids, the lease lock), the etcd registrar and resolver, and the shutdown
list, and proves what they promise. `dafny verify dfyconfig.toml` checks all of it.

Code that changes things step by step is modelled by classes and methods proved against
functions; what the source promises is proved about those functions and about runs, which are
sequences of atomic steps in any interleaving.

| File | Models |
|---|---|
| `SortedSets.dfy`, `PageCache.dfy`, `Paging.dfy` | Redis sorted sets; when a page read from the cache is the source's answer; reading a list page by page |
| `SliceCache.dfy`, `SliceCacheProxy.dfy` | `SliceCacheProxy`: what a read delivers, what a reload does, over any run of Redis commands |
| `UnencodedRows.dfy` | list rows that do not encode as JSON |
| `ObjectCache.dfy`, `ObjectCacheProxy.dfy` | `ObjectCacheProxy`: hits, cached absence, background saves |
| `StaleKeys.dfy`, `StaleKeyCleaner.dfy` | the path from `RepoBase.Publish` through the listener's channel to `delKeys` |
| `Coherence.dfy`, `CachedLists.dfy`, `CachedObjects.dfy` | the cache-aside protocol: mutations, events, deletes, reads and late writes |
| `Words.dfy`, `Snowflake.dfy`, `IdGenerator.dfy` | 64-bit arithmetic, id packing, the generator against any clock |
| `LockServer.dfy`, `LockedCounter.dfy`, `CloudLock.dfy` | the lease lock on the server, workers that use it, its client object |
| `EtcdReplay.dfy`, `Resolver.dfy` | the resolver's snapshot and watch against the etcd history |
| `Registration.dfy`, `Register.dfy` | leases, registration, revocation and re-registration |
| `Components.dfy` | the shutdown list, and what its order means for a cache's last deletes |
| `Deletes.dfy` | pipelines of deletes of which any may not be executed |
| `Wrappers.dfy` | shared types; `Network` says whether a command was answered, executed without an answer, or never executed |

## What the code does not promise

Each of these is a theorem that says exactly when the code is right, with the failing case.

- A row with an infinite score can be hidden by the sentinel or by the exclusive start bound
  (`PageCache.PageCacheExact`). With finite scores this does not occur.
- Feeding the last score back as an exclusive start loses the rest of a group of equal scores
  that a page boundary splits (`Paging.PagingExact`).
- A save that lands after the delete of a mutation its read had missed leaves the key stale; so
  does a delete that is refused after closing, that is never asked for because the publisher
  panicked, or that fails in Redis (`Coherence.DrainedKeyExact`, with one run for each). A stale
  list key stays so until it expires or is deleted (`Coherence.StaleListKeyStays`).
- Reloads of different versions of a list merge, because ZADD never removes: the key is what
  the last reload alone would leave only if that version still has every member the others
  brought (`CachedLists.MixedReloadExact`).
- The comment at data/slice_cache_proxy.go:54 says that an expiration of 0 never expires. For
  lists the code sends EXPIRE with 0, which deletes the key at once (`SliceCaches.ReloadExact`).
  A list key never expires exactly when no EXPIRE has reached Redis since the ZADD that created
  it (`SliceCaches.UntimedExact`). The code is modelled as it is.
- An object whose JSON does not decode is "not found" with an error when it comes from the
  source, and "found" with an error when it comes from Redis (`ObjectCaches.TransparencyExact`).
- After a refused call, a clock that shows the last timestamp again makes the generator repeat
  an id (`Snowflake.DistinctExact`).
- `InitIDGenerator` takes any worker id. One whose low 51 bits do not fit 10 bits hides bits of
  the timestamp, so that ids repeat even on a clock that only advances
  (`Snowflake.WorkerIdExactSinceEpoch`). Bit 51 alone matters only if the clock has also shown
  times before 2017 (`Snowflake.WorkerIdExact`). A worker id outside 0 to 1023 does not parse
  back (`Snowflake.RoundTripExact`).
- A list row that does not encode is stored as the empty text, which is also the sentinel's. In
  a list that fits, a hit leaves the row out; read alone, it is an empty array. The source path
  reports an error in both cases. The difference can never be noticed exactly if every row that
  is cached encodes (`UnencodedRows.UnencodedRowsExact`, `UnencodedRows.LoneGapIsEmptyArray`).
- A value that does not decode, written over one that does, leaves the old address with every
  resolver that watches, while a new snapshot drops it (`EtcdReplay.ReplayExact` for all
  windows of a history, `EtcdReplay.ReplayWindowExact` for one).
- An update is lost exactly when a worker writes between another worker's read and write
  (`LockedCounter.LostUpdateExact`). Two ways this happens: a write after the lease has run out,
  and a worker that goes on after its `Lock` timed out, as the one at
  data/cloud_lock_test.go:79-87 does.
- Shutdown waits for the synchronous delete only. A tick between the close of the channel and
  the cleaner's end, or a hundred outstanding ids, moves deletes to background goroutines that
  nothing waits for (`Components.ShutdownDeletesAllExact`, `StaleKeys.TickTakesLastBatch`,
  `StaleKeys.HundredGoUnawaited`).
- A publisher panics exactly if a listener's channel is closed while it waits for room there:
  the event is lost for that listener, and the listeners after it are not told
  (`StaleKeyCleaners.RepoBase.Publish`, `StaleKeyCleaners.FullListenerSilencesNext`).
- A put that has timed out may take effect after a later attempt has registered: the key is then
  bound to the older lease and goes with it (`Registration.RegisteredKeyFollowsLease`,
  `Registration.LatePutLosesKey`).

## Assumptions about the surroundings

Stated as preconditions of the theorems they concern:

- A list source returns rows in zset order (ties broken by encoded member), honours offset and
  limit, and gives distinct elements that encode to non-empty JSON (`PageCache.IsSourceList`,
  `SliceCaches.Honours`); rows that do not encode are the subject of `UnencodedRows`, which
  takes scores to be finite, and no element to encode to the empty text.
- Different ids have different keys (`SliceCaches.Proper`, `ObjectCaches.Injective`).
- The JSON library writes a list as the array of its encoded elements, section 5 of RFC 8259.
- Different `CloudLock` objects have different lock ids.
- The wall clock passes every bound at some time (`IdGenerators.Unbounded`); without this the
  wait for the next millisecond would not end.
- A `select` does not choose the ticker for ever (`StaleKeyCleaners.Fair`), and chooses a ready
  timer at some time (`CloudLocks.CloudLock.Lock`).

## Model

| member | source | states |
|---|---|---|
| `SortedSets.PrecedesTotal` | data/slice_cache_proxy.go:268-273 | The zset reading order, by score and then member bytes, is total and irreflexive in either direction |
| `SortedSets.ListingSound` | data/slice_cache_proxy.go:268-273 | Reading a zset end to end is ordered and returns exactly its entries |
| `SortedSets.ListingUnique` | data/slice_cache_proxy.go:268-273 | A list in zset order is what Redis returns for the zset of its rows: there is only one such order |
| `SortedSets.HighToLowIsReverse` | data/slice_cache_proxy.go:269-273 | ZREVRANGEBYSCORE order is ZRANGEBYSCORE order backwards |
| `SortedSets.ZAddFromEmpty` | data/slice_cache_proxy.go:367-368 | ZADD of rows with distinct members into a missing key leaves exactly those rows |
| `SortedSets.ZAddTwice` | data/slice_cache_proxy.go:367-368 | Adding the same rows again changes nothing |
| `PageCache.CachedRowsShape` | data/slice_cache_proxy.go:342-365 | A reload writes the first `CacheCapacity` rows, plus the sentinel exactly when the whole list is shorter than that |
| `PageCache.CanonicalListing` | data/slice_cache_proxy.go:342-368 | Reading a freshly reloaded key gives back the cached rows in source order, sentinel last |
| `PageCache.FiniteScoresAreWellPlaced` | data/slice_cache_proxy.go:148-153 | Lists with finite scores never meet the exceptional cases |
| `PageCache.HitIsSourceAnswer` | data/slice_cache_proxy.go:237-317 | For every list, capacity, order, start, inclusiveness, offset and limit, a hit stripped of the sentinel is the source's answer to the clamped query |
| `PageCache.EarlySentinelHidesRows` | data/slice_cache_proxy.go:148-153 | Read upwards, a row at +inf sorts after the sentinel and a query exists that a hit answers wrongly |
| `PageCache.BeginningIsSkipped` | data/slice_cache_proxy.go:240-253 | With a row at the first infinity, an exclusive read from the beginning skips it and answers wrongly |
| `PageCache.PageCacheExact` | data/slice_cache_proxy.go:237-325 | Every hit on every query agrees with the source if and only if no infinite score is misplaced |
| `PageCache.MissingKeyMisses` | data/slice_cache_proxy.go:283-292 | A missing key is never mistaken for an empty list |
| `PageCache.WholeListIsServed` | data/slice_cache_proxy.go:283-300 | A list that fits with its sentinel is answered from Redis for every offset within it, last page and empty page included |
| `PageCache.HitExact` | data/slice_cache_proxy.go:283-300 | Which reads a reloaded key serves, exactly: a full page within the cached rows, or one that reaches the end of a list that is cached whole; a limit below 1 counts as 1 |
| `PageCache.EmptyListIsCached` | data/slice_cache_proxy.go:359-368 | An empty list is cached by its sentinel alone and read back as an empty page |
| `Paging.AnswerIsQuery` | data/slice_cache_proxy.go:237-325 | Hit, miss or Redis error, the rows answered are those of the plain query |
| `Paging.ReachIsProduct` | data/slice_cache_proxy.go:38-49 | k pages of n rows reach row min(k*n, length) |
| `Paging.PagesAreConsecutive` | data/slice_cache_proxy.go:38-49 | Page k holds rows k*n to (k+1)*n whatever Redis held at each read, when no page boundary splits a tie |
| `Paging.PagingEnds` | data/slice_cache_proxy.go:38-49 | Every run has at most one page more than the list has rows, ties or not |
| `Paging.DistinctScoresAreNotSplit` | data/slice_cache_proxy.go:38-49 | Distinct scores are never split |
| `Paging.SplitTieLosesRows` | data/slice_cache_proxy.go:249-253 | If a boundary splits a tie, no run returns the whole list |
| `Paging.PagingExact` | data/slice_cache_proxy.go:237-325 | A finished run concatenates to exactly the whole list if and only if no page boundary splits a tie |
| `SliceCaches.ReloadExact` | data/slice_cache_proxy.go:328-382 | A reload changes nothing unless EXISTS says that the key is missing and the source answers. Then the key is there iff ZADD ran and EXPIRE did not delete it, holds exactly the rows fetched and sentinel, and has a time to live iff EXPIRE ran; no other key is touched |
| `SliceCaches.LateReloadMerges` | data/slice_cache_proxy.go:367-368 | A reload that finds the key there after all, since another was as fast, adds its rows and keeps the others |
| `SliceCaches.ArrayTextExact` | data/slice_cache_proxy.go:301-309 | The text delivered for a page is the one string that starts with a bracket, has every member in its order at the place the lengths before it give, a comma behind each and a closing bracket behind the last, and nothing else |
| `SliceCaches.ServedOutcome` | data/slice_cache_proxy.go:293-317 | A read served by Redis leaves the target alone for an empty page, else decodes the array of the members in page order, or reports that it does not decode |
| `SliceCaches.SourceOutcome` | data/slice_cache_proxy.go:384-401 | Any other read reports the error of the source, leaves the target alone for no rows, reports a row that does not encode, else decodes the array of the rows or reports that it does not decode |
| `SliceCaches.GetIsTransparent` | data/slice_cache_proxy.go:223-326 | Through a key that is missing or canonical a read delivers the plain answer, or the error of a source that failed when it was needed |
| `SliceCaches.ReloadIsSteps` | data/slice_cache_proxy.go:342-382 | A reload, whichever of its commands are lost, is at most a ZADD step and an EXPIRE step of the runs below |
| `SliceCaches.ReloadKeepsCoherent` | data/slice_cache_proxy.go:328-382 | Whether the source answers or fails and whichever commands fail, a reload keeps every key missing or canonical |
| `SliceCaches.KeysStayCoherent` | data/slice_cache_proxy.go:328-382 | Over an unchanged source, after every run of ZADDs, EXPIREs and removals of any keys, each key is missing or canonical |
| `SliceCaches.ReadsAreAlwaysTransparent` | data/slice_cache_proxy.go:223-326 | After every such run, with Redis reachable or not, a read over a source that answers delivers exactly the plain answer |
| `SliceCaches.UntimedExact` | data/slice_cache_proxy.go:367-381 | After every run a key is there without a time to live iff no EXPIRE and no removal has run since the ZADD that created it |
| `UnencodedRows.LastWins` | data/slice_cache_proxy.go:355-368 | Of the rows with one text, such as several that do not encode and the sentinel, ZADD keeps one member with the last one's score |
| `UnencodedRows.ReaderExists` | data/slice_cache_proxy.go:310 | The decoders the next theorem is about, which read `[]` and no other array text with an empty element, exist for lists with and without rows that do not encode |
| `UnencodedRows.UnencodedRowsExact` | data/slice_cache_proxy.go:354-365 | For any list with finite scores and rows that do not encode anywhere: reading through a reloaded key is always the same as asking the source iff every row that is cached encodes |
| `UnencodedRows.LoneGapIsEmptyArray` | data/slice_cache_proxy.go:301-310 | The smallest case: one row that does not encode, cached alone, is a hit with the text `[]`, where the source path reports an error |
| `SliceCacheProxies.DroppedExactly` | data/slice_cache_proxy.go:160-170 | A pipeline of deletes removes exactly the keys whose delete was executed, with their time to live |
| `SliceCacheProxies.SortedSetServer.ZAdd` | data/slice_cache_proxy.go:367-373 | ZADD as the reload uses it: an error without rows or without an answer, a merge if it reached Redis |
| `SliceCacheProxies.SortedSetServer.Expire` | data/slice_cache_proxy.go:374-381 | EXPIRE: sets a time to live, or deletes the key if that is not positive |
| `SliceCacheProxies.SliceCacheProxy.GetFinalZMember` | data/slice_cache_proxy.go:148-153 | The sentinel: the empty member at the infinity where reading ends |
| `SliceCacheProxies.SliceCacheProxy.Bounds` | data/slice_cache_proxy.go:240-261 | The range command's bounds are those of the page-cache theorems |
| `SliceCacheProxies.SliceCacheProxy.JoinMembers` | data/slice_cache_proxy.go:301-309 | The buffer loop writes the array text in which every member is at its place, in page order |
| `SliceCacheProxies.SliceCacheProxy.Get` | data/slice_cache_proxy.go:223-326 | What a read leaves in the target, for every Redis state, network outcome and source answer, and that it starts a reload exactly on a miss |
| `SliceCacheProxies.SliceCacheProxy.GetFromSource` | data/slice_cache_proxy.go:384-401 | The source path: error, untouched target on an empty page, or the decoded array text of the same members |
| `SliceCacheProxies.SliceCacheProxy.MarshalList` | data/slice_cache_proxy.go:399-400 | A list encodes iff all its elements do, to the array text with each one at its place |
| `SliceCacheProxies.SliceCacheProxy.ReloadRedisIfNotExists` | data/slice_cache_proxy.go:328-340 | Reloads only when EXISTS answers and says no; otherwise, and if the source fails, Redis is as it was |
| `SliceCacheProxies.SliceCacheProxy.ReloadRedis` | data/slice_cache_proxy.go:342-382 | The whole new store after encoding, sentinel, ZADD and EXPIRE, with any of them failing; a source that fails leaves Redis as it was |
| `SliceCacheProxies.SliceCacheProxy.DelKeys` | data/slice_cache_proxy.go:160-183 | The store after one pipeline of deletes, any of which may not be executed |
| `ObjectCaches.AnswerExact` | data/object_cache_proxy.go:174-223 | The answer case by case. From Redis: found iff the text is not empty, an error iff it then does not decode. From the source: found iff there is an object whose text decodes, and then the target is its value; an error in every other case but a missing row |
| `ObjectCaches.ScheduledExact` | data/object_cache_proxy.go:199-215 | A save is started exactly by reads that Redis does not answer, of the text of an object that encodes or of the empty text for a missing row |
| `ObjectCaches.KeyHoldsLastStored` | data/object_cache_proxy.go:161-232 | After every run a key holds exactly the text of the last save of its id that Redis executed, and is gone if it was removed since |
| `ObjectCaches.SavesBalance` | data/object_cache_proxy.go:199-232 | Over every run each read that gets something to save from the source starts one save, which lands once or is still on its way |
| `ObjectCaches.HitAgreesExactly` | data/object_cache_proxy.go:174-223 | A cached row answers like the source if and only if its text is not empty and decodes |
| `ObjectCaches.RunsStayCoherent` | data/object_cache_proxy.go:199-232 | After every run of reads, late or lost saves, deletes and expiries over an unchanged source, every key and every pending save holds the text of its row |
| `ObjectCaches.GetsAreTransparent` | data/object_cache_proxy.go:161-223 | After every such run a read answers like the source, on a hit, a cached absence, a miss or a Redis error |
| `ObjectCaches.UnreadableRowIsNoticed` | data/object_cache_proxy.go:175-186 | A row that is not readable is answered differently once it is cached |
| `ObjectCaches.TransparencyExact` | data/object_cache_proxy.go:161-232 | Caching an id can never be noticed if and only if its row is readable |
| `ObjectCaches.TimeToLiveFollowsSetting` | data/object_cache_proxy.go:225-232 | After every run all keys have a time to live if the expiration is positive, and none has one otherwise |
| `ObjectCacheProxies.ObjectCacheProxy.Get` | data/object_cache_proxy.go:161-223 | The answer, case by case and for a source that fails, and the save it starts, for every Redis state, network outcome and source answer |
| `ObjectCacheProxies.ObjectCacheProxy.SaveToRedis` | data/object_cache_proxy.go:225-232 | A background save lands, or is lost, as one step of the runs above |
| `ObjectCacheProxies.DroppedExactly` | data/object_cache_proxy.go:96-101 | A pipeline of deletes removes exactly the keys whose delete was executed, with their time to live |
| `ObjectCacheProxies.ObjectCacheProxy.DelKeys` | data/object_cache_proxy.go:96-119 | The store after one pipeline of deletes, any of which may not be executed |
| `StaleKeys.InvalidationConserves` | data/object_cache_proxy.go:121-154 | Over every interleaving of sends, receives, ticks and close: issued batches, current batch and channel together are the accepted events in order, and every issued batch has 1 to 100 ids |
| `StaleKeys.NothingLeft` | data/object_cache_proxy.go:121-131 | When the cleaner signals closed, all accepted events have been handed to `delKeys` |
| `StaleKeys.HistoryGrows` | data/object_cache_proxy.go:40-47 | Accepted, refused and issued events are never taken back, and nothing is accepted after close |
| `StaleKeys.FinalBatch` | data/object_cache_proxy.go:121-154 | Whatever turns the select takes after the close: the synchronous batch is the suffix of the outstanding ids since the last flush, and all before it went to background goroutines |
| `StaleKeys.FinalBatchIsAllExact` | data/object_cache_proxy.go:121-154 | The synchronous batch is everything outstanding iff no tick finds ids in the batch and fewer than 100 ids were outstanding |
| `StaleKeys.LeftWithoutTicks` | data/object_cache_proxy.go:140-147 | Without a tick the last batch has (batch + queue) mod 100 ids |
| `StaleKeys.TickTakesLastBatch` | data/object_cache_proxy.go:135-139 | A reachable run: one queued event, received and ticked away after the close, leaves nothing for the synchronous delete |
| `StaleKeys.HundredGoUnawaited` | data/object_cache_proxy.go:144-147 | A reachable run: of 100 queued events none is left for the synchronous delete |
| `StaleKeyCleaners.ListenedAccounts` | data/object_cache_proxy.go:40-47 | An event that reaches a listener is accepted iff the listener is open by then, and otherwise refused; a sender that waits while the channel is closed loses it |
| `StaleKeyCleaners.StaleKeyCleaner.Listen` | data/slice_cache_proxy.go:75-82 | Queues the event in order, waiting if the channel is full; refuses it once closed; panics iff the channel is closed while it waits |
| `StaleKeyCleaners.StaleKeyCleaner.OnTick` | data/slice_cache_proxy.go:198-203 | The ticker case is a flush of the pipeline |
| `StaleKeyCleaners.StaleKeyCleaner.OnEvent` | data/slice_cache_proxy.go:204-211 | The event case maps one event and issues the batch at 100 ids |
| `StaleKeyCleaners.StaleKeyCleaner.OnClosed` | data/slice_cache_proxy.go:188-195 | The deferred last delete, then the closed signal |
| `StaleKeyCleaners.StaleKeyCleaner.Shutdown` | data/slice_cache_proxy.go:97-106 | Closing ends, loses nothing, is the run of turns of the shutdown theorems, and all accepted events have been handed to `delKeys` in order |
| `StaleKeyCleaners.StaleKeyCleaner.AwaitCleaner` | data/slice_cache_proxy.go:102-103 | The same from the close on, also after a close that made a waiting sender panic |
| `StaleKeyCleaners.RepoBase.Publish` | data/repository.go:50-54 | With cleaners, shutdowns and other senders acting between the listeners' turns: every listener's state afterwards, and that the publisher panics iff some listener is open and full when its turn comes and is closed while it waits, at the first such listener, after which none is told |
| `StaleKeyCleaners.ActedExact` | data/object_cache_proxy.go:40-47 | Between the turns of a publication every listener takes its own steps, all of them in order, and no others |
| `StaleKeyCleaners.EveryoneHears` | data/repository.go:50-54 | Whatever cleaners and shutdowns do meanwhile, every listener has heard the event once for each time it is registered among those told, and accepted or refused it |
| `StaleKeyCleaners.UndisturbedPanicExact` | data/repository.go:50-54 | If nothing happens meanwhile, the panic can be told before the call: iff some listener is open, its channel is filled by then by its earlier registrations, and it is closed first |
| `StaleKeyCleaners.FullListenerSilencesNext` | data/repository.go:50-54 | A run from scratch in which the publisher panics and nothing happens to the second listener |
| `Coherence.Reachable` | data/object_cache_proxy.go:96-154 | Invariant of all runs: every mutation's delete is on its way, lost or done, and every cached write is explained |
| `Coherence.StaleEntryExplained` | data/object_cache_proxy.go:199-232 | Whatever a key holds that is older than a mutation: that delete is still on its way, was lost, or had run before the write landed although the read preceded the mutation |
| `Coherence.DrainedKeyExact` | data/object_cache_proxy.go:96-232 | With nothing on its way, a key is current if and only if no save straddled a mutation and no delete was lost |
| `Coherence.StraddlingSaveLeavesStale` | data/object_cache_proxy.go:199-232 | A run with an empty pipeline and no lost delete that leaves a stale key |
| `Coherence.FailedDeleteLeavesStale` | data/object_cache_proxy.go:102-107 | A run whose only fault is a delete that fails in Redis, and that leaves a stale key |
| `Coherence.RefusedEventLeavesStale` | data/object_cache_proxy.go:42-43 | A run whose only fault is an event refused after the close, and that leaves a stale key |
| `Coherence.UnheardEventLeavesStale` | data/repository.go:50-54 | A run whose only fault is a publisher that panicked at an earlier listener, and that leaves a stale key |
| `Coherence.StaleListKeyStays` | data/slice_cache_proxy.go:328-382 | A stale list key stays stale under everything but its expiry and its own deletes |
| `Coherence.KeyHoldsSaves` | data/object_cache_proxy.go:161-232 | In every run a key holds exactly what was saved since it was last deleted or expired: all of it for a list, the last save for an object |
| `Coherence.LoadsBalance` | data/object_cache_proxy.go:161-232 | Every read gets the version of its time, and its result is saved once, given up, or still on its way |
| `Coherence.FreshSaveIsCurrent` | data/object_cache_proxy.go:161-232 | Whatever came before, once a key is gone a read whose save follows at once makes it current |
| `Coherence.PipeConserves` | data/object_cache_proxy.go:121-154 | The pipeline inside the protocol conserves events |
| `Coherence.FinishedIsDrained` | data/object_cache_proxy.go:64-73 | After the cleaner has finished, only unpublished mutations and running deletes are left |
| `CachedLists.SameVersionMerges` | data/slice_cache_proxy.go:342-382 | Any number of reloads of one version leave the key canonical for it |
| `CachedLists.ReloadConverges` | data/slice_cache_proxy.go:328-382 | For a list that is not mutated, every interleaving of the protocol leaves its key missing or canonical |
| `CachedLists.DrainedPagesAreCurrent` | data/slice_cache_proxy.go:185-382 | With nothing on its way, no straddling save and no lost delete, every page served from Redis is the current source's answer |
| `CachedLists.MixedReloadExact` | data/slice_cache_proxy.go:367-368 | For all reloads of all versions: the key is canonical for the last one iff that version's cached rows have every member of the earlier ones' |
| `CachedLists.MixedRunWrites` | data/slice_cache_proxy.go:322-382 | A run of the protocol in which reloads of two versions land in one key |
| `CachedLists.MixedReloadMatchesNeither` | data/slice_cache_proxy.go:322-382 | After that run the key is canonical for neither version, for any lists of which each has a cached member the other lacks |
| `CachedObjects.DrainedAnswersAreCurrent` | data/object_cache_proxy.go:96-232 | With nothing on its way, no straddling save and no lost delete, a read answers what the source answers now, if the row is readable |
| `CachedObjects.StaleAnswerIsOlder` | data/object_cache_proxy.go:174-186 | In any state a key that is not current holds the text of an older version of the row |
| `Words.OrIsSum` | data/snowflake.go:132 | Or-ing a value below 2^k into a multiple of 2^k adds it |
| `Words.AndMask` | data/snowflake.go:138-139 | Masking with k ones is the remainder modulo 2^k, for negative values too |
| `Snowflake.PackIsSum` | data/snowflake.go:132 | For fields in range nothing overflows int64 and the shift-or expression is the weighted sum |
| `Snowflake.ParseIsDivision` | data/snowflake.go:137-142 | Parsing, for every int64, as division and remainder |
| `Snowflake.ParsedInstant` | data/snowflake.go:140-141 | The seconds and nanoseconds given to `time.Unix` are the timestamp, before 1970 too |
| `Snowflake.RoundTripExact` | data/snowflake.go:132-143 | Parsing a packed id recovers all three fields if and only if they are in range |
| `Snowflake.PackOrders` | data/snowflake.go:132 | Ids are ordered by timestamp, then worker, then sequence |
| `Snowflake.GetMaxWorkerID` | data/snowflake.go:80-82 | The expression of xor and shift is 1023 |
| `Snowflake.WorkersRepeatEvery1023` | data/snowflake.go:51-59 | Worker ids fit 10 bits, and two counter values give the same one iff they differ by a multiple of 1023 |
| `Snowflake.GeneratorInvariant` | data/snowflake.go:114-134 | In all runs, refusals included, the sequence stays in 0..4095 and `lastTimeStamp` never decreases |
| `Snowflake.IncreasingWithoutResume` | data/snowflake.go:114-134 | If the clock never shows `lastTimeStamp` again after a repeat and a refusal, before passing it, the pairs issued strictly increase, wrap-around included |
| `Snowflake.DistinctExact` | data/snowflake.go:118-130 | For every possible run, the pairs issued are pairwise distinct if and only if the clock never does that |
| `Snowflake.NeverRefusedExact` | data/snowflake.go:127-130 | Every call issues an id iff no first reading is below the last timestamp |
| `Snowflake.SteadyClockIsSafe` | data/snowflake.go:114-134 | If the readings never decrease and start above -1, no call is refused, the clock is safe, and `lastTimeStamp` never passes it |
| `Snowflake.IssuedAtLastReading` | data/snowflake.go:116-131 | In every run an id carries the last reading its call took, and `lastTimeStamp` becomes that reading |
| `Snowflake.PairsAreReadings` | data/snowflake.go:116-131 | So on any clock, if no call is refused, the timestamps issued are the last readings of the calls, in their order |
| `Snowflake.RefusalCanRepeat` | data/snowflake.go:118-130 | T, T, T-1, T issues (T,0), (T,1), refuses, and issues (T,1) again |
| `Snowflake.IdsIncrease` | data/snowflake.go:114-134 | One generator's int64 ids strictly increase over every run whose clock does not do that and stays within 41 bits of the epoch, if the worker id's low 52 bits fit 10 bits |
| `Snowflake.WideWorkerRepeats` | data/snowflake.go:61-65 | With any other worker id there is a run on a clock that only advances that issues one id twice, since the epoch unless bit 51 is the only fault |
| `Snowflake.WorkerIdExact` | data/snowflake.go:61-134 | So for every worker id: the ids of all safe runs are pairwise distinct, and ascending, iff its low 52 bits fit 10 bits |
| `Snowflake.WorkerIdExactSinceEpoch` | data/snowflake.go:61-134 | On clocks at or after the epoch the same holds iff its low 51 bits fit 10 bits |
| `Snowflake.FleetIdsAreDistinct` | data/snowflake.go:51-134 | Generators with worker ids from any 1023 consecutive counter values never issue the same id, each under a safe clock |
| `Snowflake.SequencesAreDense` | data/snowflake.go:114-134 | Without refusals each id starts a new millisecond at 0 or continues the one before it |
| `Snowflake.SequencesCountUp` | data/snowflake.go:114-134 | So the ids of a millisecond carry exactly 0 to k, k at most 4095 |
| `IdGenerators.IdGenerator.TimeReGen` | data/snowflake.go:93-103 | Ends, with the first reading beyond `last` |
| `IdGenerators.IdGenerator.NextSnowflakeID` | data/snowflake.go:114-134 | Each call is one step of the runs above, appends its id to theirs, and is refused exactly when its first reading is below `lastTimeStamp`. The id carries the last reading; the clock is read again exactly if the 4096 sequence numbers of a millisecond are used up, and then until it has passed that |
| `IdGenerators.IdGenerator.SteadyGeneratorServes` | data/snowflake.go:114-134 | A generator object on such a clock has returned an id from every call; in increasing order if the worker id fits and the clock is in range |
| `LockServer.MutualExclusion` | data/cloud_clock.go:65-117 | Over all logs of any clients: after a successful SETNX at t nobody takes the lock until the time is past t + expiration, unless the holder's own unlock ran |
| `LockServer.NextAttemptExact` | data/cloud_clock.go:65-117 | The next attempt succeeds if and only if the time is past the lease or the holder has unlocked |
| `LockServer.ForeignUnlockIsHarmless` | data/cloud_clock.go:97-117 | An unlock by anyone but the current holder changes nothing |
| `LockedCounter.LostUpdateExact` | data/cloud_lock_test.go:63-94 | For every run, with or without the lock, in time or late: the counter equals the number of completed sections iff no worker writes between another's read and write, and is behind otherwise |
| `LockedCounter.NoLostUpdate` | data/cloud_lock_test.go:63-94 | So no update is lost if every write comes from a worker whose lease is running |
| `LockedCounter.OneInside` | data/cloud_clock.go:65-117 | In every run at most one worker is inside its section with a running lease |
| `LockedCounter.AcquireExact` | data/cloud_clock.go:65-72 | In every run an idle worker gets the lock exactly if the key is absent, for its own lease |
| `LockedCounter.UnheardExact` | data/cloud_clock.go:65-72 | An attempt whose reply is lost takes an absent key all the same, and leaves its worker outside |
| `LockedCounter.ReleaseExact` | data/cloud_clock.go:97-117 | After a release the key is absent, unless another worker holds it |
| `LockedCounter.LateWriteLosesUpdate` | data/cloud_lock_test.go:90-94 | A run with a late write in which two sections complete and the counter is 1 |
| `LockedCounter.TimedOutWorkerLosesUpdate` | data/cloud_lock_test.go:79-87 | The same with every holder in time, through a worker that goes on after its `Lock` timed out |
| `CloudLocks.LockService.EvalUnlock` | data/cloud_clock.go:97-117 | The compare-and-delete script and its return codes |
| `CloudLocks.CloudLock.TryLock` | data/cloud_clock.go:65-72 | Succeeds exactly when the key was absent and the reply arrived; a lost reply may still have taken the lock |
| `CloudLocks.CloudLock.Lock` | data/cloud_clock.go:75-94 | Ends, and the server's log is exactly its attempts and what others did between them: every attempt before the last found the key present, a success is the last thing in the log, and it gives up only on the timer or a failed command |
| `CloudLocks.CloudLock.Unlock` | data/cloud_clock.go:97-117 | Afterwards this client does not hold the key unless the command never arrived; another holder's key is untouched |
| `EtcdReplay.ReplayKey` | internal/components/etcd/resolver.go:80-136 | Replaying is right for every key that no replayed write corrupted |
| `EtcdReplay.CorruptionIsMissed` | internal/components/etcd/resolver.go:84-88 | An undecodable value over a decodable one leaves a stale address with a watcher |
| `EtcdReplay.ReplayExact` | internal/components/etcd/resolver.go:80-174 | Snapshot at any revision plus watch equals a direct reading at any later revision, for all pairs, if and only if no write does that |
| `EtcdReplay.HeldExactly` | internal/components/etcd/resolver.go:80-98 | The replay has an address for exactly the keys that, going back over values that do not decode, have one that does |
| `EtcdReplay.ReplayKeyExact` | internal/components/etcd/resolver.go:80-136 | From one snapshot to one revision, exactly the keys are right whose last write is not an undecodable value over an address still held; a condition on the history alone |
| `EtcdReplay.ReplayWindowExact` | internal/components/etcd/resolver.go:80-174 | So one snapshot and its watch are right iff no key is outdated in this sense |
| `EtcdReplay.RunIsReplay` | internal/components/etcd/resolver.go:138-174 | Over every run of writes, deliveries and successful or failed re-resolves, the map is the replay from the last snapshot |
| `EtcdReplay.ResolveExact` | internal/components/etcd/resolver.go:138-174 | In every run a re-resolve shows the addresses of its revision and watches from there; one that fails keeps the map and watches nothing |
| `EtcdReplay.HistoryIsWrites` | internal/components/etcd/resolver.go:138-174 | The history in these runs is the writes made, in order; nothing a resolver does changes it |
| `EtcdReplay.RunsFollowHistory` | internal/components/etcd/resolver.go:138-174 | So in every run it holds the service's addresses at the revision reached iff no key is outdated since that snapshot |
| `EtcdReplay.SnapshotHeals` | internal/components/etcd/resolver.go:144-166 | After a fresh snapshot the map is right, whatever was written before |
| `EtcdReplay.CaughtUpIsCurrent` | internal/components/etcd/resolver.go:138-174 | A watcher that has received everything shows the current addresses under the same condition |
| `EtcdReplay.CatchesUp` | internal/components/etcd/resolver.go:80-98 | A watcher reaches every later revision by as many deliveries as there are writes in between |
| `Resolvers.DecodedIsAddresses` | internal/components/etcd/resolver.go:152-166 | What is kept of a complete etcd reply is a direct reading of the service's keys |
| `Resolvers.WatchIsReplay` | internal/components/etcd/resolver.go:80-98 | Watching the service's own events after a snapshot is the replay of the history |
| `Resolvers.SnapshotThenWatch` | internal/components/etcd/resolver.go:138-174 | The reply for revision r and the watch from r+1 to n leave exactly the service's addresses at n iff no key is outdated in between |
| `Resolvers.MyResolver.Notify` | internal/components/etcd/resolver.go:110-122 | The state pushed is the multiset of the map's values |
| `Resolvers.MyResolver.SetAddrs` | internal/components/etcd/resolver.go:100-108 | The copy loop replaces the whole map and pushes once |
| `Resolvers.MyResolver.AddAddr` | internal/components/etcd/resolver.go:124-129 | Binds one key and pushes |
| `Resolvers.MyResolver.RemoveAddr` | internal/components/etcd/resolver.go:131-136 | Removes one key and pushes |
| `Resolvers.MyResolver.Watch` | internal/components/etcd/resolver.go:80-98 | The map after a batch of events, and every map pushed meanwhile. Afterwards the last state pushed shows the map; two pushes for each delete and each put that decodes, and no change of the map without one |
| `Resolvers.PushesExact` | internal/components/etcd/resolver.go:80-98 | Each delete and each put that decodes pushes the map after it twice, in the order of the events; nothing else pushes |
| `Resolvers.UnnoticedKeepMap` | internal/components/etcd/resolver.go:84-88 | Events that push nothing leave the map as it was |
| `Resolvers.MyResolver.DoResolveNow` | internal/components/etcd/resolver.go:138-174 | A failed request keeps the map and leaves no watch; a reply replaces the map by what decodes |
| `Registration.ResolverSeesExactly` | internal/components/etcd/register.go:91-93 | For any names, a resolver's prefix selects exactly the nodes whose service and host start with its service and a slash |
| `Registration.ResolverSeesOwnNodes` | internal/components/etcd/register.go:91-93 | So among services without a slash in their names, exactly its own service's nodes |
| `Registration.KeyFollowsLastPut` | internal/components/etcd/register.go:58-138 | In every run, late puts included, the key is there exactly as long as the lease of the last effective put runs, and bound to it |
| `Registration.RegisteredKeyFollowsLease` | internal/components/etcd/register.go:58-138 | While registered, the key is bound to `leaseID` exactly as long as that lease runs iff the last effective put was this registration's, or its lease and the current one have both ended |
| `Registration.EndingRemovesExactly` | internal/components/etcd/register.go:109-138 | Ending a lease removes the key iff it is the lease of the last effective put |
| `Registration.RevokingEndsLease` | internal/components/etcd/register.go:109-114 | In every run a revoke that reaches etcd ends this lease and no other, and removes the key iff the last effective put was under it; one that does not reach etcd changes nothing there |
| `Registration.RegistrationLastsExactly` | internal/components/etcd/register.go:58-138 | Whatever happens later short of the registrar's own revoke and of late puts, the key stays bound iff its own lease has not expired |
| `Registration.LatePutLosesKey` | internal/components/etcd/register.go:83-86 | A run with a late put after which the key is gone although registered under a running lease |
| `Registration.RegisteringBinds` | internal/components/etcd/register.go:58-89 | A successful `doRegister` leaves the key bound to a running lease, newer than that of every earlier registration |
| `Registration.GrantsAreFresh` | internal/components/etcd/register.go:61-69 | A new lease differs from every lease running or bound |
| `Registration.GrantsCounted` | internal/components/etcd/register.go:61-69 | In every run etcd has granted a lease for each request that reached it, heard of or not |
| `Registration.EndedStaysEnded` | internal/components/etcd/register.go:109-138 | In every run a lease that has ended does not run again |
| `Registers.ElsewhereLeavesRegistrar` | internal/components/etcd/register.go:58-89 | Other nodes' grants and expiring leases leave the registrar alone, and end its lease iff that one runs out |
| `Registers.ServiceRegister.DoRegister` | internal/components/etcd/register.go:58-89 | Registrar and server go on as a run of the steps taken, with anything happening between them; it fails iff a command does or its lease runs out before the put; success binds the key to the new lease and its channel |
| `Registers.ServiceRegister.Revoke` | internal/components/etcd/register.go:109-114 | One revoke step, what is left of the lease and the key on the server, and when it reports an error |
| `Registers.ServiceRegister.OnChannelLost` | internal/components/etcd/register.go:116-138 | Revokes first: if that reaches the server the old lease has ended. The retry loop ends if some attempt works, whatever happens on the server meanwhile, with the key bound to a lease newer than all before |
| `Components.ClosesBackwards` | internal/env/components.go:19-34 | Every registered function is called once, in reverse order of registration, and every failure is reported in that order |
| `Components.FailuresStopNothing` | internal/env/components.go:36-45 | Errors and panics change nothing about the effects |
| `Components.ReportsExact` | internal/env/components.go:19-45 | Each function runs in the state that those registered after it left; the errors are one for each function that fails, in the order of the calls, each with that function's own message |
| `Components.AppShutdown.InvokeShutdownFunc` | internal/env/components.go:36-45 | An error is passed on, a panic becomes an error, and nothing else is reported |
| `Components.AppShutdown.CloseComponents` | internal/env/components.go:19-29 | The loop's result and errors are those of closing backwards |
| `Components.LastDeleteExact` | data/object_cache_proxy.go:64-73 | A cache is drained at its turn, whatever turns its cleaner takes, and its synchronous delete meets an open client iff nothing registered after it closed that client |
| `Components.ShutdownProtectsLastBatch` | data/object_cache_proxy.go:64-73 | For a cache on an already registered client, whatever turns its cleaner takes: everything accepted is handed to `delKeys`, and the ids since the last flush are deleted synchronously on an open client |
| `Components.QuickShutdownDeletesAll` | data/object_cache_proxy.go:121-154 | If the background goroutines are in time, exactly the outstanding ids are deleted before the client is closed, in order |
| `Components.ShutdownDeletesAllExact` | data/object_cache_proxy.go:121-154 | Every outstanding id is deleted before the client is closed, however slow the background goroutines, iff no tick finds ids in the batch and fewer than 100 were outstanding |

## Left out

- Redis, etcd, JSON, formatting and time internals: Redis is atomic steps on a keyed store, etcd a log of writes and a set of leases, JSON an encoder and a decoder, the clock any sequence of readings.
- Scores are reals or infinities: printing and parsing floating-point scores, rounding and NaN are not modelled.
- Memory races: `daoEventChanClosed` against `close`, the second `notify` in `watch` that runs without the lock, and appends to the shutdown list are atomic steps here.
- `SliceCacheProxies.SliceCacheProxy.ReloadRedis`: the source replaces the members of the rows it was given in place; rows that a source keeps and hands out again would be encoded twice, which values do not show.
- `StaleKeyCleaners.EveryoneHears`: other publishers' events of the same moment are not counted; `Publish` allows them.
- `SliceCacheProxies.SliceCacheProxy.Get`: a decode that fails half-way leaves a partly written target; here it is only an error.
- `Coherence.StaleEntryExplained`: time is not counted; a key with a time to live may expire at any step.
- `unregister` and its race with re-registration at shutdown; runs of the registrar end before it.
- `EtcdReplay.RunsFollowHistory`: a watch goroutine that reads its channel after the field was replaced, and events of a cancelled watch, are not delivered here.
- `Components.ShutdownDeletesAllExact`: concerns the ids outstanding when the channel is closed; batches that were already in background goroutines by then are not waited for either.
- The `CloudLock` setters other than `SetExpiration` have the same guard and are not repeated.
- `getSequenceMask` is not used by the repository's generator; the constant it equals is.
- The global generator and its `sync.Once`, and the error for a generator that was not initialised.
- The fields for protection against cache breakdown, which nothing reads.
- Metrics, logging, contexts, configuration, and the gin, grpc, kafka, rocketmq and mysql wrappers.
