# Verified models of the evidence service's kernels

This project models, in Dafny, the stateful and algorithmic parts of a paid web-evidence service and
proves what they promise. HTTP plumbing, sockets and third-party libraries appear only as parameters.

`dafny verify dfyconfig.toml` checks everything.

| Part of the system | Files |
|---|---|
| Token-bucket limiter with lazy refill, idle sweep and hard cap | `RateLimit.dfy`, `RateLimitTheorems.dfy` |
| Payment of tool calls: what is charged, the buffered response, the protocol as interleaved steps | `Paywall.dfy`, `PaymentProtocol.dfy` |
| Free preview quota | `Preview.dfy` |
| Fetch semaphore and the reserve-then-reconcile time budget of the ranking model | `Semaphore.dfy`, `Budget.dfy` |
| Bounded cache with expiry, its time stamps and its canonical key | `Cache.dfy`, `Stamps.dfy`, `CacheKey.dfy` |
| Lexical ranking of passages, and its semantic reordering | `Terms.dfy`, `Evidence.dfy`, `EvidenceTheorems.dfy`, `EvidenceScores.dfy`, `Refine.dfy` |
| Extraction of text from a document tree | `Extract.dfy` |
| One HTTP exchange as an event machine, content encodings, redirects | `Fetch.dfy`, `Encoding.dfy`, `Redirects.dfy` |
| robots.txt, IPv4 and IPv6 literals, prices | `Robots.dfy`, `RobotsText.dfy`, `Ip.dfy`, `Ipv6.dfy`, `Price.dfy` |
| Shared: strings, numerals, orders, stable sort | `Common.dfy`, `Text.dfy`, `Numerals.dfy`, `Ordering.dfy`, `Sorting.dfy` |

How the models are built:

- What the source changes in place is a class (`Limiter`, `CountingSemaphore`, `ReasoningBudget`,
  `CapturedResponse`, `PreviewCounter`, `SqliteCache`, `Request`) or a method with the source's loop. Each such
  method is proved equal to a function on values, and the theorems are about runs of that function.
- Concurrency is a state machine: a run is any sequence of enabled steps of any number of callers, with
  the other parties (facilitator, tool handler, remote server, clock) choosing adversarially.
- Limiter tokens are scaled by 60000, so refill is the exact integer `elapsed * perMinute`. Prices and
  scores are reals, where the source has floating point.
- The clock and what external parties answer are parameters. Regular expressions are written out as functions.

Places where the code does less than its comments say, with the exact condition proved:

- The semaphore gives a slot up before the woken waiter takes it. The limit holds exactly on runs in which
  no newcomer enters in between (`LimitKeptIffNobodyBarges`), and otherwise nothing bounds the number of
  holders (`NoBoundWithoutHandOff`).
- A denied caller that waits as told is admitted if and only if one whole token fits in a bucket
  (`RetryAfterSuffices`).
- An engaged model refuses nobody if and only if the budget is positive or at most one candidate is asked
  for (`EngagedNeverRefuses`).
- `cacheKey` is idempotent if and only if the path does not end in two slashes, the path `//` itself
  excepted (`IdempotentIff`).
- Evicting as rows arrive keeps the newest of everything stored, throughout a run, if and only if no key is
  stored again so far in the past that it falls behind an evicted row (`OnlineIsOfflineIff`). A clock that
  never goes back suffices in four-digit years (`AdvancingClock`); `RepeatedKeysDiffer` is a witness against.
- Expired rows count against the size limit until a cleanup. The rows served are those of a cache cleaned
  first if and only if every live row was retained or every retained row is live (`ExpiredRowsHarmlessIff`);
  `ExpiredRowsTakeRoom` is a witness against.
- The preview counters answer as the log of grants would, whoever asks, if and only if no date comes back
  after another (`CountersAreTheLogIff`); when dates do, nothing bounds the grants (`NoQuotaWhenDatesComeBack`).
- A positive price below half an atomic unit is rendered as `$0`, which the parser then refuses
  (`RenderingIsStable`).
- A failure reported by one event of a stream is noticed if and only if its payload has no carriage return,
  line separator or paragraph separator (`FailingEventIsFoundIff`, with the witness `SeparatorHidesFailure`);
  otherwise the call is settled (`FailedStreamIsSettledIff`).
- Stamps are compared as text, and years from 10000 on are written with a sign. A cache with room serves what
  it should by the clock if and only if the record expires before the year 10000 (`PromiseKeptIff`); a
  configured life time of some eight thousand years makes every record unservable.
- A dotted quad inside an IPv6 address is validated and then read as `0:0` when the address has a `::`, so
  the dotted form of every mapped address is refused (`DottedMappedIsRefused`), which is the verdict of the
  IPv4 address if and only if that lies in a listed block (`DottedVerdictIff`). Without `::` the address is
  accepted exactly with four groups before the quad (`DottedTailWithoutCompression`).
- Reordering by the model drops candidates if and only if more are shown than are kept (`NothingDroppedIff`).

## Model

| member | source | states |
|---|---|---|
| RateLimit.Limiter.Check | apps/backend/src/rate-limit.ts:133-171 | The in-place check on the mutable map decides and leaves the map exactly as one step of the algorithm on values. |
| RateLimit.Limiter.CollectIdle | apps/backend/src/rate-limit.ts:115-125 | The loop that deletes while iterating removes just the full, idle buckets among the 64 oldest and refills the others. |
| RateLimit.Limiter.Insert | apps/backend/src/rate-limit.ts:142-145 | A new key gets a full bucket at the end of the map, after the least recently used one was evicted if the map was full. |
| RateLimitTheorems.StepBounded | apps/backend/src/rate-limit.ts:115-161 | Whatever the clock does, keys stay distinct, the map holds at most 10000 buckets and no bucket leaves the range from zero to capacity. |
| RateLimitTheorems.StepRecency | apps/backend/src/rate-limit.ts:96-152 | While the clock does not go back, map order is the order of last use. |
| RateLimitTheorems.RunInvariant | apps/backend/src/rate-limit.ts:96-161 | Both invariants hold after every run. |
| RateLimitTheorems.SweepKeepsLevels | apps/backend/src/rate-limit.ts:103-125 | Idle collection and the extra refills it makes change no key's allowance at any later time. |
| RateLimitTheorems.SweepDropsIff | apps/backend/src/rate-limit.ts:115-125 | The sweep drops exactly those of the entries it looks at that are full by now and unused for five minutes. |
| RateLimitTheorems.OtherLevels | apps/backend/src/rate-limit.ts:115-161 | A check of one key moves no other key's allowance, except that the evicted key is back at capacity. |
| RateLimitTheorems.OwnLevel | apps/backend/src/rate-limit.ts:138-170 | The decision depends on the key's allowance alone, and the allowance is charged one token if admitted. |
| RateLimitTheorems.BoundedMemoryIsInvisible | apps/backend/src/rate-limit.ts:103-161 | For every run, a key is answered as by a limiter with an unbounded map that never collects, until the cap removes it; with no eviction the whole decision sequences are equal. |
| RateLimitTheorems.SpentPlusLeft | apps/backend/src/rate-limit.ts:103-161 | Over a run, tokens spent plus tokens left never exceed tokens had plus tokens accrued. |
| RateLimitTheorems.WindowBound | apps/backend/src/rate-limit.ts:93-161 | In any window of any run, admissions of a key the cap does not remove there are at most `perMinute + burst` plus what the window accrues at `perMinute`. |
| RateLimitTheorems.BurstIsGranted | apps/backend/src/rate-limit.ts:93-161 | Whatever happened before, a key admitted fewer than `perMinute + burst` times so far is admitted, evictions or not. |
| RateLimitTheorems.AdmittedIff | apps/backend/src/rate-limit.ts:103-161 | The token-bucket law, from the admissions alone: after any run, a check of a key the cap never removed is admitted if and only if every window of the run that ends with it has room for one more token. |
| RateLimitTheorems.RemainingIsExact | apps/backend/src/rate-limit.ts:154-161 | The number reported is how many more checks of the key are admitted at the same clock reading, whatever other keys do, and then none is. |
| RateLimitTheorems.RetryAfterSuffices | apps/backend/src/rate-limit.ts:163-170 | The first check of a key after the reported wait is admitted, whatever other keys do, if and only if capacity is at least one token. |
| RateLimitTheorems.RetryAfterNecessary | apps/backend/src/rate-limit.ts:163-170 | More than a second before the reported wait ends, every check of the key is still denied unless the cap removed it. |
| RateLimitTheorems.EvictionForgives | apps/backend/src/rate-limit.ts:127-145 | Eviction is observable: the evicted key is decided as if at capacity. |
| RateLimitTheorems.EvictedIsLeastRecent | apps/backend/src/rate-limit.ts:127-145 | The key removed at the cap was last used no later than any that stays, and none is removed while there is room. |
| Semaphore.CountingSemaphore.Acquire | packages/core/src/service.ts:73-79 | Enters if a slot is free, regardless of the queue, else joins the end of the queue. |
| Semaphore.CountingSemaphore.Release | packages/core/src/service.ts:80-87 | The first release gives the slot up and wakes the head of the queue; a second one changes nothing. |
| Semaphore.RunInvariant | packages/core/src/service.ts:69-91 | In every interleaving `active` is the number of unreleased holders, and a non-empty queue means active plus woken fill the limit. |
| Semaphore.QuietMeansEmpty | packages/core/src/service.ts:69-91 | When nobody holds a slot and nobody is about to resume, nobody is left waiting. |
| Semaphore.WakeOrder | packages/core/src/service.ts:77-86 | Wake-up is first in, first out over the whole run. |
| Semaphore.LimitKeptIffNobodyBarges | packages/core/src/service.ts:73-87 | Active plus woken stays within the limit throughout a run if and only if no newcomer enters ahead of a woken waiter. |
| Semaphore.HandOffKeepsLimit | packages/core/src/service.ts:73-87 | If woken waiters resume before any new acquire, at most `limit` callers hold a slot. |
| Semaphore.OvercommitIsVisible | packages/core/src/service.ts:73-87 | Once slots are over-promised, the waiters' own continuations bring the holders above the limit. |
| Semaphore.NoBoundWithoutHandOff | packages/core/src/service.ts:73-87 | For every excess there is an interleaving from the fresh semaphore with that many holders above the limit. |
| Budget.ReasoningBudget.Reserve | packages/core/src/service.ts:594-603 | The estimate is taken out at once if the budget covers it, else nothing changes: the step that the runs take. |
| Budget.ReasoningBudget.Reconcile | packages/core/src/service.ts:620-623 | The reservation is replaced by the elapsed time: the step that the runs take. |
| Budget.BudgetConserved | packages/core/src/service.ts:594-623 | In every interleaving of a request's sources, remaining budget, outstanding reservations and elapsed time of finished calls add up to the initial budget; it is overdrawn at most by overruns. |
| Budget.DisengagedNeverCalls | packages/core/src/service.ts:247-252 | If the per-source budget cannot afford the configured pool, no run calls the model. |
| Budget.EngagedIff | packages/core/src/service.ts:244-252 | The model is engaged if and only if the whole pool is affordable for every requested URL alike. |
| Budget.EngagedNeverRefuses | packages/core/src/service.ts:244-252 | If it can, and calls keep to their estimates, no interleaving refuses a source, if and only if the budget is positive or fewer than two items are asked for. |
| Budget.ZeroBudgetRefuses | packages/core/src/service.ts:488-495 | The excepted configuration: a zero budget and room for two candidates refuses the first source. |
| Budget.LargestPoolIsScored | packages/core/src/service.ts:488-499 | While budget is left, a source has exactly as many candidates scored as it found, the configuration allows and every URL can afford; with the model engaged that is no less than the pool or all it found. |
| Paywall.PaymentNeededIff | apps/backend/src/mcp-paywall.ts:69-88 | Payment is needed if and only if the body, or some message of the batch, is neither a free method nor a call of an unpriced tool. |
| Paywall.FailureAtAnyDepth | apps/backend/src/mcp-paywall.ts:131-139 | A failure is found if and only if some path of array positions, of any depth, leads to a failing record. |
| Paywall.McpResponseFailed | apps/backend/src/mcp-paywall.ts:101-129 | The loop over the payloads of a JSON or event-stream body reports failure if and only if some payload fails. |
| Paywall.FailingEventIsFoundIff | apps/backend/src/mcp-paywall.ts:101-129 | A failing event makes the call a failed one wherever its line stands in the event stream, if its payload has none of the characters that `.` does not match (a carriage return, the line and the paragraph separator); with such a character it is skipped, so if no other line fails the call fails if and only if there is none. |
| Paywall.SeparatorHidesFailure | apps/backend/src/mcp-paywall.ts:107-110 | A witness for the failing side: a stream of one failing event with a line separator in its text is not a failed response. |
| Paywall.CapturedResponse.Intercept | apps/backend/src/mcp-paywall.ts:188-215 | Writes of the handler change the buffer only, the socket not at all. |
| Paywall.CaptureHolds | apps/backend/src/mcp-paywall.ts:188-215 | A buffer that holds the last status code, the last value of each header under any spelling and the joined text of a list of writes holds those of the list with the next write. |
| Paywall.CapturedResponse.Replace | apps/backend/src/mcp-paywall.ts:228-234 | The buffered body and status are replaced and the headers merged in lower case. |
| Paywall.CapturedResponse.Flush | apps/backend/src/mcp-paywall.ts:235-246 | The buffered response is sent once; a second flush sends nothing. |
| Paywall.SettleOrCancel | apps/backend/src/app.ts:1640-1718 | Cancels when the handler threw, the status is 400 or more or the body reports a failure, settles otherwise, and edits the buffer accordingly. |
| PaymentProtocol.RunInvariant | apps/backend/src/app.ts:1559-1759 | Every call's history follows its story in every interleaving. |
| PaymentProtocol.PaidBodyIsVerifiedFirst | apps/backend/src/app.ts:1559-1637 | A body that needs payment enters the handler only right after verification, or when the payment library itself demanded nothing. |
| PaymentProtocol.PricedCallIsVerifiedFirst | apps/backend/src/app.ts:1559-1637 | No call of a priced tool, alone or anywhere in a batch, enters the handler before that verdict. |
| PaymentProtocol.FreeBodyEntersAtOnce | apps/backend/src/app.ts:1559-1637 | In every interleaving a request that asks for nothing priced enters the handler as it arrives and is never verified, settled or cancelled; any other is first verified, waived or rejected. |
| PaymentProtocol.RepliesAreRecorded | apps/backend/src/app.ts:1598-1756 | A payment counts as verified or waived, and a settlement or cancellation as answered, if and only if the payment library said so for that call, in that order. |
| PaymentProtocol.OneSettlementOrCancellation | apps/backend/src/app.ts:1639-1756 | A verified call is settled or cancelled exactly once and flushed exactly once by the time it is finished; other calls never are. |
| PaymentProtocol.SettledIffDelivered | apps/backend/src/app.ts:1646-1690 | Settlement is tried if and only if the handler returned normally with status below 400 and no failure at any array depth of any payload. |
| PaymentProtocol.FailedStreamIsSettledIff | apps/backend/src/app.ts:1646-1690 | A normally returned event stream in which one event alone reports a failure is tried for settlement if and only if that event is skipped in that way. |
| PaymentProtocol.CleanMeansNoFailure | apps/backend/src/mcp-paywall.ts:116-139 | The declarative reading of an unfailed payload agrees with the recursive check. |
| PaymentProtocol.UnfailedBodyNeedsSettlement | apps/backend/src/app.ts:1678-1756 | After a normal return with an unfailed body, the body reaches the socket if settlement succeeded; otherwise the refusal is sent in its stead. |
| PaymentProtocol.FailedBodyIsDeliveredUncharged | apps/backend/src/app.ts:1652-1676 | After a throw or a failed body, no settlement is tried and the buffered body is still delivered. |
| PaymentProtocol.BufferIsWhatWasWritten | apps/backend/src/mcp-paywall.ts:183-224 | In every interleaving the buffer of a paid call, while its handler runs and as the handler leaves it, has the last status code (200 if none), the last value of every header and the joined text of that handler's own writes, whatever other calls write. |
| PaymentProtocol.SettledIffWrittenClean | apps/backend/src/app.ts:1646-1690 | Read from the writes alone: settlement is tried if and only if the handler returned normally, the last code written is below 400 and no payload of the text, read as the last content type says, reports a failure. |
| PaymentProtocol.ErrorCodeIsNotCharged | apps/backend/src/app.ts:1647-1676 | A call whose last written code is 400 or more is never tried for settlement and is delivered with that code and its text. |
| PaymentProtocol.DeliveredIsWritten | apps/backend/src/app.ts:1733-1756 | What reaches the socket is the status, headers and body that the call's own handler wrote, with the headers of the payment library, when the call failed or was settled, and the refusal when the settlement did not succeed. |
| PaymentProtocol.HandshakeDiscipline | apps/backend/src/app.ts:763-780 | At most one facilitator handshake runs at a time, a success is never repeated, and no call is verified before one succeeded. |
| Preview.PreviewCounter.TakePreview | apps/backend/src/app.ts:869-886 | The mutable counters change and answer as one step on values. |
| Preview.TakeConsistent | apps/backend/src/app.ts:869-886 | The global count is the sum of the per-address counts, all of the current day, within 25 and 2000, whatever the clock does. |
| Preview.CountersAreTheLog | apps/backend/src/app.ts:869-886 | When no date comes back after another, the answers are those of counting the full log of grants. |
| Preview.CountersAreTheLogIff | apps/backend/src/app.ts:869-886 | For given days, the counters answer so whoever asks, if and only if no date comes back after another one. |
| Preview.QuotaHolds | apps/backend/src/app.ts:846-886 | Over a run of the counters in which no date comes back, the granted requests are at most 25 per address and day and at most 2000 per day. |
| Preview.ForwardClockKeepsQuota | apps/backend/src/app.ts:869-886 | So they are, and the answers are those of the log, while the clock does not go back. |
| Preview.NoQuotaWhenDatesComeBack | apps/backend/src/app.ts:870-874 | When dates come back nothing bounds the grants: for every count there is a run that grants one address so many previews of one date. |
| Cache.SqliteCache.Get | packages/cache/src/sqlite-cache.ts:294-299 | Errors when closed or the key is blank; otherwise the row with the key, if unexpired. |
| Cache.SqliteCache.Set | packages/cache/src/sqlite-cache.ts:301-341 | Stores exactly the records that have a key, an address, a size and times that can be told; any other is rejected without touching the table. A stored one replaces the row of its key, and the newest rows are kept. |
| Cache.SqliteCache.Delete | packages/cache/src/sqlite-cache.ts:343-346 | Removes just the row of the key, with the same errors. |
| Cache.SqliteCache.Cleanup | packages/cache/src/sqlite-cache.ts:348-352 | Drops expired rows, then enforces the limit, and returns how many rows went. |
| Cache.SqliteCache.Close | packages/cache/src/sqlite-cache.ts:365-371 | Sets the flag on which every operation reports that the database is closed, and leaves the rows. |
| Cache.StoredIffStorable | packages/cache/src/sqlite-cache.ts:301-324 | A record is stored if and only if some row says what the record says, with the storing time for a missing `storedAt` and the end of the life time for a missing `expiresAt`, and then as that row. |
| Cache.NewestSize | packages/cache/src/sqlite-cache.ts:263-268 | The rows retained are as many as fit, all of them if they all fit. |
| Cache.DiscardEarly | packages/cache/src/sqlite-cache.ts:263-268 | What one eviction discards no later eviction would have retained. |
| Cache.EvictSize | packages/cache/src/sqlite-cache.ts:284-286 | Eviction leaves at most `maxEntries` rows and removes none while they fit. |
| Cache.HitIsLatest | packages/cache/src/sqlite-cache.ts:294-352 | After any run of set, delete and cleanup, a hit is the latest record set for the key, not deleted since, and its expiry is later than now, as text and, in a four-digit year, by the clock. |
| Cache.HitIsWhatWasSet | packages/cache/src/sqlite-cache.ts:294-341 | In any run a hit repeats the address, payload, times and size of the last record set for the key, and that record is not expired by its own word. |
| Cache.RoomyCacheIsTheHistory | packages/cache/src/sqlite-cache.ts:294-352 | While nothing was pushed out for want of room, a lookup hits if and only if the text of that record's expiry sorts after that of now. |
| Cache.ServedIffUnexpired | packages/cache/src/sqlite-cache.ts:294-341 | While there is room, the last record set for a key is served if and only if the text of its own `expiresAt`, or of the storing time plus the life time if it has none, sorts after that of now; it is served as it was set. |
| Cache.NothingSetNothingServed | packages/cache/src/sqlite-cache.ts:294-346 | Nothing is served for a key that was not set, or was deleted since. |
| Cache.PromiseKeptIff | packages/cache/src/sqlite-cache.ts:240-268 | In a four-digit year the cache then serves what it should by the clock, if and only if the record does not expire in the year 10000 or later. |
| Cache.LongLivedIsNeverServed | packages/cache/src/sqlite-cache.ts:294-352 | Such a record is never served, and counts as expired for the next cleanup. |
| Stamps.IsoOrder | packages/cache/src/sqlite-cache.ts:131-141 | The texts of two time stamps sort by the form of the year first (plus sign, minus sign, four digits) and then by time, except that years before the year 0 are in reverse. |
| Stamps.LaterStamps | packages/cache/src/sqlite-cache.ts:240-268 | From a time in a four-digit year, the stamps that sort later are those of the later times before the year 10000. |
| Cache.RunBounded | packages/cache/src/sqlite-cache.ts:284-352 | The table never exceeds the limit. |
| Cache.OnlineIsOffline | packages/cache/src/sqlite-cache.ts:301-341 | After any run of stores in which no key is stored again with an older time stamp, new keys included, the table holds exactly the `maxEntries` newest rows of everything stored. |
| Cache.StoreCommutesIff | packages/cache/src/sqlite-cache.ts:326-340 | For every table, row and limit, storing into the evicted table equals evicting after storing into the whole one, if and only if the row does not fall behind an evicted one while its own key was retained. |
| Cache.OnlineIsOfflineIff | packages/cache/src/sqlite-cache.ts:301-341 | Throughout a run of stores the table is always the newest rows of everything stored, if and only if no store falls behind in that way. |
| Cache.AdvancingClock | packages/cache/src/sqlite-cache.ts:301-341 | So it is by the clock of four-digit years, when no key is stored again with an earlier time. |
| Cache.CleaningFirstKeepsMore | packages/cache/src/sqlite-cache.ts:348-352 | Every live row that eviction retains, cleaning up first retains too. |
| Cache.CleanedIff | packages/cache/src/sqlite-cache.ts:348-352 | A cleanup leaves no expired row, and removes a live one only if as many rows as fit stay that all come before it in the retention order. |
| Cache.ExpiredRowsHarmlessIff | packages/cache/src/sqlite-cache.ts:263-268 | For every table, time and limit, evicting with the expired rows present leaves the same rows to serve as cleaning up first, if and only if every live row was retained or every retained row is live. |
| Cache.ExpiredRowsTakeRoom | packages/cache/src/sqlite-cache.ts:326-340 | A witness for the failing side: a live row evicted while an expired one stays. |
| Cache.RepeatedKeysDiffer | packages/cache/src/sqlite-cache.ts:243-257 | A witness for the failing side: a key stored again with an older time stamp, behind a row evicted in between. |
| CacheKey.CacheKeyFor | packages/cache/src/cache-key.ts:59-93 | The loops over the query parameters compute the key of the parsed URL; blank and unparseable input is an error. |
| CacheKey.PairOrder | packages/cache/src/cache-key.ts:35-41 | The comparison of pairs is a total order. |
| CacheKey.SortedPairsUnique | packages/cache/src/cache-key.ts:82-86 | Two parameter lists sort to the same list if and only if they are equal as multisets. |
| CacheKey.QueryInjective | packages/cache/src/cache-key.ts:88-90 | Different lists of pairs give different query strings. |
| CacheKey.PrintInjective | packages/cache/src/cache-key.ts:92 | Scheme, host, path and query can be told apart in the key. |
| CacheKey.SameKeyIffSameContent | packages/cache/src/cache-key.ts:73-92 | Two URLs have the same key if and only if scheme, host, path without one trailing slash and the multiset of non-tracking parameters agree. |
| CacheKey.SameKeyIffSameParts | packages/cache/src/cache-key.ts:73-92 | In the parts of the URLs: the keys are equal if and only if scheme and host agree but for letter case, the paths but for one slash at the end, and every parameter outside `utm_*` and the five listed names stands as often in both. |
| CacheKey.IdempotentIff | packages/cache/src/cache-key.ts:77-80 | The key of a key is the key if and only if the path did not end in two slashes, or was just that. |
| Terms.VariantsOf | packages/extraction/src/evidence.ts:134-142 | The loop over suffixes lists the variants in order. |
| Terms.VariantsMeaning | packages/extraction/src/evidence.ts:134-142 | The variants of a word are the word and what a listed suffix extends to it, of at least three characters. |
| Terms.DeriveQuestionTerms | packages/extraction/src/evidence.ts:145-163 | The loop computes the set of significant variants and, for each significant word once, its group. |
| Terms.MatchWord | packages/extraction/src/evidence.ts:166-172 | The loop finds the first variant among the terms. |
| Terms.MatchesIffSharedVariant | packages/extraction/src/evidence.ts:145-172 | A word matches a question if and only if it shares a significant variant with a significant word of it. |
| Terms.InflectionsMatch | packages/extraction/src/evidence.ts:134-172 | A word and the word with a suffix match each other in both directions. |
| Terms.QuotedTokens | packages/extraction/src/evidence.ts:124-131 | Text quoted between spaces contributes exactly its own tokens. |
| Evidence.ScanSegment | packages/extraction/src/evidence.ts:272-285 | The loop collects the distinct matched terms in order and counts the adjacent pairs of different terms. |
| Evidence.CountDocuments | packages/extraction/src/evidence.ts:288-294 | The updates of the map leave every term with the number of passages that contain it. |
| Evidence.MeasureCoverage | packages/extraction/src/evidence.ts:355-363 | The loops over words and variants compute the share of the question's weight that is hit. |
| Evidence.FindEvidenceCandidates | packages/extraction/src/evidence.ts:258-386 | With its early exits, the whole computation returns the first `maxItems` of the ranking, cut and labelled. |
| EvidenceTheorems.OrderIsUnique | packages/extraction/src/evidence.ts:349-350 | Any arrangement of the matching passages by falling score, document order between equals, is the one returned. |
| EvidenceTheorems.TopIffFewAhead | packages/extraction/src/evidence.ts:349-351 | A matching passage is returned if and only if fewer than `maxItems` passages rank before it. |
| EvidenceTheorems.WideningAppends | packages/extraction/src/evidence.ts:349-385 | Asking for more items only appends: earlier items keep place, label, score and excerpt. |
| EvidenceTheorems.RoundingKeepsOrder | packages/extraction/src/evidence.ts:342 | Rounding to six decimals keeps the order and separates scores a millionth apart. |
| EvidenceTheorems.FullCoverageIff | packages/extraction/src/evidence.ts:321-363 | Coverage lies between 0 and 1 and is 1 if and only if every significant word of the question is hit. |
| EvidenceTheorems.VerbatimCovers | packages/extraction/src/evidence.ts:134-172 | A segment with every significant word of the question verbatim has coverage 1. |
| EvidenceTheorems.QuotingCovers | packages/extraction/src/evidence.ts:258-363 | So has one that quotes the question, whatever surrounds the quotation. |
| EvidenceTheorems.FirstTakesAStance | packages/extraction/src/evidence.ts:347-377 | The first candidate is direct or contradictory if it covers three quarters of the question, and context otherwise. |
| Evidence.ItemsMeaning | packages/extraction/src/evidence.ts:337-345 | Exactly the passages with a match are ranked, each with its own rounded score. |
| EvidenceScores.ScoreIsMerit | packages/extraction/src/evidence.ts:272-342 | The score before rounding is the sum, over the set of question terms that some token matches, of the weight at the number of passages that match the term (the size of a set of indices), and half a point for each position whose token and previous token match different terms. |
| EvidenceScores.MeritCounts | packages/extraction/src/evidence.ts:337-341 | A passage that matches one more term scores more, beside its pairs, by exactly the weight of that term. |
| EvidenceScores.RankedByMerit | packages/extraction/src/evidence.ts:337-350 | Exactly the passages that match some term are ranked, each with its rounded score. |
| EvidenceScores.MoreMatchedRanksAhead | packages/extraction/src/evidence.ts:337-350 | A passage whose matched terms include those of another, with no fewer pairs, never scores less: it comes first if it stands first, and, with weights of a millionth or more as the source has, wherever it stands if it matches more or has more pairs. |
| EvidenceScores.CoverageIsShare | packages/extraction/src/evidence.ts:321-363 | Coverage is the weight of the question's words that the passage speaks to over the weight of all of them, each word weighing what its heaviest variant weighs. |
| EvidenceScores.LabelsFollowTheFirst | packages/extraction/src/evidence.ts:347-377 | A candidate takes a stance if and only if it covers three quarters of the question, contradictory if negated, direct from three quarters of the first score on, supporting from seven twentieths on. |
| EvidenceScores.CandidateIsPassage | packages/extraction/src/evidence.ts:378-386 | Every candidate is a passage that matches, with its own context, its rounded score and an excerpt of its text. |
| EvidenceTheorems.ExcerptIsVerbatim | packages/extraction/src/evidence.ts:232-238 | An excerpt is the text itself if it fits; otherwise it is a verbatim prefix within the limit and an ellipsis, cut at white space unless no space precedes the limit. |
| Refine.ReorderingSelects | packages/core/src/service.ts:631-641 | The model's scores select the best `keep` candidates, in order of score then place, and change nothing but labels: to direct exactly from 0.5 up, after the first place and where not contradictory. |
| Refine.NothingDroppedIff | packages/core/src/service.ts:631-636 | No candidate is dropped if and only if at most `keep` were shown. |
| Refine.FlatScoresChangeNothing | packages/core/src/service.ts:633-641 | Equal scores below 0.5, missing ones included, leave the lexical order and labels. |
| Extract.ExtractBlockLines | packages/extraction/src/extract.ts:329-346 | The loop with its check of the ancestors yields the lines of the outermost blocks. |
| Extract.LoopKeepsOutermost | packages/extraction/src/extract.ts:330-340 | Skipping blocks with an emitted ancestor emits what "emit and stop, else recurse" emits, on every tree. |
| Extract.FindsAllBlocks | packages/extraction/src/extract.ts:332 | The elements visited are exactly the block elements below the container. |
| Extract.BlocksInOrder | packages/extraction/src/extract.ts:332 | They are visited in document order, ancestors first. |
| Extract.OutermostInDisjointOrder | packages/extraction/src/extract.ts:329-346 | Emitted blocks keep document order and none is within another. |
| Extract.CoveredOnce | packages/extraction/src/extract.ts:329-346 | Every block element is at or below exactly one emitted one. |
| Extract.EmittedIffOutermost | packages/extraction/src/extract.ts:334-341 | A block is emitted if and only if no block is above it. |
| Extract.EmittedTextIsBlockText | packages/extraction/src/extract.ts:342-343 | The emitted elements hold the text that is below block elements, once and in order. |
| Extract.NormalizeKeepsWords | packages/extraction/src/text.ts:35-41 | Normalising a text keeps its words. |
| Extract.MainTextSplits | packages/extraction/src/extract.ts:427 | Splitting the main text at line breaks gives the lines back. |
| Extract.MainTextKeepsWords | packages/extraction/src/extract.ts:427 | The words of the main text are those of the emitted blocks in order. |
| Encoding.DecodeBody | packages/fetcher/src/fetch.ts:467-487 | The loop over the reversed chain undoes the last encoding first; one unknown token leaves the whole body undecoded and warns. |
| Encoding.HeaderDecodes | packages/fetcher/src/fetch.ts:474-487 | Undoing the declared codings right to left inverts their left-to-right application (section 8.4 of RFC 9110). |
| Encoding.ChainReadBack | packages/fetcher/src/fetch.ts:372-381 | The chain is the declared list for every spelling of the header: any case, any space, identity and empty pieces anywhere. |
| Encoding.LengthReadBack | packages/fetcher/src/fetch.ts:590-596 | A decimal length is read back exactly up to the greatest safe integer, and is unknown above it. |
| Encoding.TypeReadBack | packages/fetcher/src/fetch.ts:144-165 | A body is kept if and only if its media type, in any letter case, with any space around it and any parameters after it, is a `text/` type or one of the listed others. |
| Fetch.Request.Handle | packages/fetcher/src/fetch.ts:406-572 | Each handler changes the shared variables as one step on values. |
| Fetch.Request.Body | packages/fetcher/src/fetch.ts:534 | The chunks are joined in order. |
| Fetch.FirstAnswerStands | packages/fetcher/src/fetch.ts:408-414 | Under every order of events at most one answer is given, and the first stands. |
| Fetch.EndingAnswers | packages/fetcher/src/fetch.ts:527-572 | A run in which the timer, an abort, an error or the end comes is answered exactly once. |
| Fetch.FirstEndDecides | packages/fetcher/src/fetch.ts:436-572 | The first event that ends the request decides what the caller is told, whatever comes after: time-out if and only if a timer, an abort or a connect time-out ended it, and likewise for a blocked address, an unreachable source, a broken stream, a body too large and a success. |
| Fetch.SuccessIsBounded | packages/fetcher/src/fetch.ts:487-540 | A success answers the end of the body, carries at most `maxResponseBytes` bytes and at most 64 KiB or 200 times the wire bytes, has a declared length within the limit, and a textual body is all the data that came. |
| Fetch.OriginalArrives | packages/fetcher/src/fetch.ts:467-540 | Given what the decode loop makes of the bytes on the wire, a textual success carries those bytes undecoded, with a warning, if and only if some declared encoding is unknown; otherwise, with decoders that invert the encoders, it carries the bytes the server encoded. |
| Fetch.GuardsDecide | packages/fetcher/src/fetch.ts:493-525 | A response read to its end succeeds if and only if both limits held at every piece of data. |
| Fetch.DeclaredTooLarge | packages/fetcher/src/fetch.ts:438-444 | A declared length above the limit is refused whatever follows. |
| Redirects.FetchSource | packages/fetcher/src/fetch.ts:622-699 | The redirect loop makes the checks and requests of the recursive description, with its errors. |
| Redirects.EveryHopIsValidated | packages/fetcher/src/fetch.ts:622-668 | However names resolve and servers answer, at most `maxRedirects + 1` requests are made, each right after its URL was validated, and every redirect target is validated both when met and before its request. |
| Redirects.LimitMeansManyRequests | packages/fetcher/src/fetch.ts:640-646 | The redirect limit is reported only after `maxRedirects + 1` requests. |
| Redirects.TraceTellsOutcome | packages/fetcher/src/fetch.ts:622-699 | Every reply with a status from 300 to 399 and a location is followed to the place it points to while the limit allows, no other reply is, and the outcome is what the last check or request came to. |
| Robots.ParseRobotsText | packages/core/src/robots.ts:43-98 | The loop over the lines collects the groups, and the rules are chosen and ordered from them. |
| Robots.IsPathAllowed | packages/core/src/robots.ts:112-118 | The loop returns the verdict of the first matching rule. |
| Robots.MatcherMeaning | packages/core/src/robots.ts:101-109 | A rule matches exactly the paths that fill its wildcards, with nothing left over if it ends in `$`. |
| Robots.VerdictIsLongestMatch | packages/core/src/robots.ts:77-118 | The verdict is that of the longest matching rule of the chosen groups, allow winning ties (section 2.2.2 of RFC 9309). |
| Robots.AllowedIff | packages/core/src/robots.ts:77-118 | Stated on the groups: a path is allowed if and only if every matching disallow rule for the agent meets a matching allow rule for it that is no shorter, where a rule is for the agent if its group names `*` or a non-empty beginning of the token, and names more than `*` or no such group does. |
| Robots.OrderIsIrrelevant | packages/core/src/robots.ts:77-118 | Reordering groups, agents or rules changes no verdict. |
| Robots.ReadBackIff | packages/core/src/robots.ts:47-75 | Groups that all have agents are read back as just those groups if and only if all but the last have rules; a group without rules is joined with the next. |
| RobotsText.WrittenReads | packages/core/src/robots.ts:53-74 | A line is classified as what it says in any letter case, with any space around its parts and any comment after it. |
| RobotsText.TextReadBack | packages/core/src/robots.ts:43-98 | A text written from groups is parsed as those groups: in any letter case, with any space and comments, with either line end, with ignored lines anywhere, and with other fields anywhere but between two agents. |
| RobotsText.TextVerdict | packages/core/src/robots.ts:43-118 | The same from the text of a file in any spelling. |
| RobotsText.OneRuleIsObeyed | packages/core/src/robots.ts:43-118 | A file with one plain disallow rule refuses exactly the paths that begin with it, and exactly to agents whose lower-case name begins with a name in it, or to all if it names `*`. |
| RobotsText.FileOrderIsIrrelevant | packages/core/src/robots.ts:43-118 | Two texts with the same groups, agents and rules in any order, however they are written, give the same verdict. |
| Ip.ParseIpv4Text | packages/fetcher/src/ip.ts:19-62 | The loops parse one to four parts in their radices, the last absorbing the remaining bytes. |
| Ip.AddressReadBack | packages/fetcher/src/ip.ts:19-62 | Every 32-bit address, in every split into one to four parts and every radix per part, is read back. |
| Ip.ConversionIsIdentity | packages/fetcher/src/ip.ts:48-61 | What passes the bounds is below 2^32, so the final `>>> 0` changes nothing. |
| Ip.MaskTestIsPrefixTest | packages/fetcher/src/ip.ts:64-67 | For every prefix length the mask test compares quotients by 2^(32 - bits). |
| Ip.FirstBlockContains | packages/fetcher/src/ip.ts:89-94 | The reason is that of the first block whose interval contains the address. |
| Ip.DisallowedIffInBlock | packages/fetcher/src/ip.ts:70-94 | An address is disallowed if and only if it lies in the interval of a listed block. |
| Ip.ClassifyIpv4 | packages/fetcher/src/ip.ts:89-94 | The loop returns the first block whose mask test succeeds. |
| Ipv6.ExpandText | packages/fetcher/src/ip.ts:97-148 | The reassigned text is expanded as described on values. |
| Ipv6.FullReadBack | packages/fetcher/src/ip.ts:119-145 | Eight groups in full, with any leading zeros up to four digits, expand to the groups. |
| Ipv6.CompressedReadBack | packages/fetcher/src/ip.ts:113-147 | So they do with any run of zero groups, also an empty one, written as `::` (section 2.2 of RFC 4291). |
| Ipv6.DottedTailReadsAsZero | packages/fetcher/src/ip.ts:102-111 | With `::`, a valid dotted tail is read as `0:0`. |
| Ipv6.DottedTailWithoutCompression | packages/fetcher/src/ip.ts:102-142 | Without `::`, a dotted tail is accepted if and only if four groups precede it, and then stands after two zero groups. |
| Ipv6.DisallowedIffReserved | packages/fetcher/src/ip.ts:151-180 | An address is refused if and only if it is `::`, `::1`, in the link-local, unique-local or multicast interval, or maps a disallowed IPv4 address. |
| Ipv6.HexMappedGetsIpv4Verdict | packages/fetcher/src/ip.ts:173-178 | The hexadecimal form of a mapped address gets the verdict of the IPv4 address. |
| Ipv6.DottedMappedIsRefused | packages/fetcher/src/ip.ts:102-178 | The dotted form is refused for every quad. |
| Ipv6.DottedVerdictIff | packages/fetcher/src/ip.ts:102-178 | The dotted form gets the verdict of its IPv4 address if and only if that address lies in a listed block. |
| Price.ReadBack | packages/schemas/src/price.ts:33-68 | Reading a rendered amount gives exactly that amount, and zero is refused. |
| Price.NothingToStrip | packages/schemas/src/price.ts:65-68 | A rendered price ends in a digit, not in a fractional zero or a point. |
| Price.TextDetermines | packages/schemas/src/price.ts:65-68 | Different amounts are rendered differently. |
| Price.RenderingIsStable | packages/schemas/src/price.ts:33-68 | From half a unit up, manifest and challenge agree and rendering twice changes nothing; a smaller positive price becomes `$0`, which is refused. |

## Left out

- The library-driven paywall of the plain HTTP route: its settlement code is not in the repository.
- A verdict of the payment library that no payment is needed: modelled as the source treats it, the handler runs unbuffered and uncharged.
- Writes by a tool handler after it returned: a handler that has returned writes no more in the model.
- Sockets, TLS, DNS, SQLite, the HTML parser, zlib and the WHATWG URL parser: parameters or abstract tables. The idempotence of the cache key assumes that the parser reads a key back into its parts, and the injectivity that the query encoder is injective and escapes its separators.
- Floating-point rounding and the logarithm: reals, exact scaled integers and an abstract positive weight of terms. Rendering of amounts of 1e21 dollars or more follows the decimal form.
- Limiter settings that are not integers, or not finite, and the limiter's `reset` and `size`.
- Unicode: lower case is ASCII in header, robots and cache-key text, and a parameter in tokenisation; characters stand for UTF-16 units.
- Numerals that are not plain decimals in a configured price: what `Number` makes of them is a parameter.
- Splitting of the main text into sentences, breadcrumbs and the list of negation cues: segments, their context and the test for negation are parameters of the ranking.
- Selection of the main container, metadata, links and dates: the model starts from the container.
- Cache statistics (counts and sums that the database computes), the JSON round trip of payloads and reopening a database file.
- A cached answer agreeing with a live one: look-up and storage use different URLs and the key has no question, so the code does not promise it.
- The semantic budget across concurrent requests: the fields are reset by each request on a shared instance.
- Fetching and caching of robots files: only parsing and matching are modelled.
- Verdict assessment, the multi-part abstention rule, configuration, logging, the edge worker, manifests and pages: one-branch facts or plumbing.
- Encoding.DecodeBody: the decoders run to completion on the whole body, where the source streams chunks; `Fetch` has the chunks and takes what the decoders deliver as events.
- Fetch.Request.Handle: the removal of listeners and timers is not modelled; late events are allowed and shown to change no answer.
