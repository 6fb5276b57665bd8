# Verification of the image generation backend

A Dafny model of the backend that queues, runs and serves image generation tasks, and proofs about
it. `dafny verify dfyconfig.toml` checks the whole project.

The centre is the life of a task row. Workers claim rows of one table, keep a lease on them while the
model service works, and finish, defer or lose them; a scanner takes back rows whose lease has run
out; users create, cancel, retry and delete; a Redis list only suggests which row to try. Everything
that keeps this safe is in the WHERE clauses of a few UPDATE statements, and the main results are
about all interleavings of those statements.

| files | what they hold |
|---|---|
| `TaskStatus`, `ImageRows` | statuses and their texts; a row and the guarded statements that change it |
| `TaskHistory`, `TaskProtocol`, `TaskSafety` | a log of claims per row; workers, keepers, scanner and users as events; what holds in every run: fencing, one end per claim, retry bound, attempt accounts, bounded steps |
| `ImageRepo`, `TaskQueue`, `TaskEngine` | the repository, the Redis queue and leases, and the engine's loops as classes; a worker's turn and a scanner's round are shown to be runs of the protocol |
| `ModelHealthGate`, `GenerationClient`, `LeaseTiming` | defer or fail; every reply ends in a final row; how slow a lease keeper may be |
| `CacheKeys`, `ListCache`, `MetaStaleness`, `PresignCache`, `CachedService` | key texts never collide; list freshness under concurrency; how old a single-row answer can be; when a cached address can be past its expiry; the cache is invisible to whole operations |
| `ConcurrentCreates`, `ImageService` | when a request id can come to name two rows; the service and its cache client as classes with failing calls |
| `TokenBucket`, `RateLimiter` | the rate limiter's script in exact arithmetic; the bucket on Redis's own clock and the limiter as a class |
| `RefreshTokens`, `AuthService` | the Redis token store refines the in-memory one; tokens are accepted once; stores whose connection breaks half-way |
| `RefreshInterleavings`, `PasswordChanges` | the same store command by command, all calls interleaved; logins, refreshes and password changes interleaved |
| `GenerationState`, `PasswordUtils` | the model service's health age; stored password texts |
| `Wrappers`, `Decimals`, `Splitting` | results, decimal texts, separated texts |

Assumptions, beyond what the contracts say:

- A single SQL statement and a single Lua script run without interruption. A statement's affected
  count is the number of rows its WHERE clause matches. A statement whose call fails has taken effect
  by then or never does: a finish that reached the table only after the same worker id had claimed the
  row again would pass the WHERE clause.
- The table compares texts without regard to letter case (`utf8mb4_unicode_ci`, init-db/01-schema.sql:54).
  Statuses are lower-case constants. Request ids are letters, digits, `_` and `-`
  (image_service.cpp:70-84), which that collation tells apart but for the case of letters;
  `ConcurrentCreates` compares them so.
- Worker ids are distinct, also when letter case is ignored, not empty, and each worker is serial. The
  engine builds them as prefix and number, so they are distinct within one process only.
- A create request carries no worker, lease or cancellation time. `create` copies these from the
  request; `ImageRows.CreatedRowConsistency` shows that this assumption is exactly what is needed.
- Clocks: nothing in `TaskProtocol` and `TaskSafety` depends on them. `LeaseTiming`, `MetaStaleness`,
  `RefreshTokens`, `RefreshInterleavings` and `AuthService` use one clock that does not run back.
  `RateLimiter` has one such clock for Redis and arbitrary readings of the callers; its lemmas say
  what they need of the readings.
- In `RefreshTokens` and `AuthService` a store operation happens at one moment; in
  `RefreshInterleavings` time passes between its commands.
- A Redis key is taken to be gone in the millisecond at which it expires; Redis drops it one
  millisecond later, and the thresholds below shift with it.
- The service and the engine share one cache client.
- NULL and the empty text are the same for the text columns; the table stores whole seconds.

Where the code and its comments disagree, the model follows the code: the comment in `claimNextTask`
says that worker and lease time single out the row just claimed. They do exactly when the worker left
no running row behind whose lease ends in the same second (`ImageRepo.ReadBackIsExact`), and
`ImageRepo.ReadBackCanReturnAnotherRow` is a state in which another row may come back.

More properties turned out to need a condition. Each has a concrete input on which it fails and an
exact condition under which it holds:

- The version key's expiry (`CachedService.ExpiredVersionKeyRevivesOldPages`): the cache stays coherent
  if and only if everything still cached for the user is a current page of version zero
  (`CachedService.ExpiryKeepsOkIffHarmless`).
- Dropping the rate limiter's key (`RateLimiter.DropCanShow`): it changes no content if and only if every
  dropped bucket was full by the next reading. That is so in all runs if and only if every reading is
  within half a window of Redis's clock
  (`RateLimiter.DropsNeverShowIffWithinHalfWindowOfRedis`), or, said of two readings, if and only if
  no two disagree by more than a window beyond the time between them
  (`RateLimiter.DropsNeverShowIffClocksWithinWindow`).
- The wall-clock rate bound (`TokenBucket.SkewedClocksBeatTheRate`): with readings in any order it holds
  for all runs if and only if there is one reading only
  (`RateLimiter.RateHoldsForAllRunsIffReadingsAgree`).
- One row for one request id (`ConcurrentCreates.TwoCreatesOneName`): if and only if no create inserts
  after another has put a row under the same name since its lookup.
- The answer to a create is spelled as it asked (`ConcurrentCreates.OtherSpellingIsAnswered`): if and only
  if the user has no row of that name in other letter case when it looks.
- No token obtained with an earlier password survives a change (`PasswordChanges.LoginOutlivesChange`): if
  and only if no call that checked before an update stores after it, and none stores between a
  change's revocation and its update what is still there at the update.
- A cached address works when it is handed out (`PresignCache.LateHitIsServed`): if and only if storing it
  takes no longer than the part of its lifetime that the cache leaves unused.
- Revoking a user's tokens (`RefreshTokens.ShorterTtlHidesTokenFromRevocation`,
  `RefreshInterleavings.IndexRunsOutUnderStore`): the index covers every token if and only if a new
  token outlives the user's others, and, command by command, if and only if three named steps never
  happen (`RefreshInterleavings.AlwaysCoveredIffQuiet`).
- Removing a task from the queue (`TaskQueue.PaddedIdIsLeftBehind`): exact if and only if nothing but its
  own text reads as its id (`TaskQueue.RemovedIsNeverServedIffOwnText`).
- The health age (`GenerationState.ReportedAgeCanBeTooYoung`): a lower bound, exact if and only if only the
  oldest generations have finished.

## Model

| member | source | states |
|---|---|---|
| TaskSafety.Fencing | Backend/src/database/ImageRepo.cpp:621-687 | in every run, whatever the queue and the Redis leases hold, a worker's finish, deferral or renewal changes no row but the one it claimed, and that only while its claim is the newest on the row and not ended |
| TaskSafety.FenceIsExact | Backend/src/database/ImageRepo.cpp:630-636 | the statements' guard on user, status and worker id lets a claim through exactly when it is the row's newest claim and still open |
| TaskSafety.SupersededWorkerIsPowerless | Backend/src/services/task_engine.cpp:158-167 | after a later claim, or after anyone ended its claim, nothing a worker or its keeper sends changes the table |
| TaskSafety.EachClaimEndsOnce | Backend/src/services/task_engine.cpp:244-280 | how a claim ended is settled once and stands in every later state; no later claim precedes that end; an end by a worker is by the claim's own worker |
| TaskSafety.SuccessIsFinal | Backend/src/database/ImageRepo.cpp:642-766 | a successful row never changes again except by deletion |
| TaskSafety.EveryReachableRowIsConsistent | Backend/src/database/ImageRepo.cpp:184-211 | in every reachable table worker and lease are set exactly while generating, the completion time exactly when final, and a generating row has a start time |
| TaskSafety.RetriesAreBounded | Backend/src/services/model_health_gate.cpp:14-49 | over all runs a row's retry count lies between its initial value and the largest of that, its own limit and nine |
| TaskSafety.RememberedRowIsCurrent | Backend/src/services/task_engine.cpp:174-230 | while a worker still owns its row, the row equals what the worker read when it claimed it, retry count included, except for the lease |
| TaskSafety.FinishedRowIsTheResult | Backend/src/database/ImageRepo.cpp:642-666 | a finish that gets through stores every column of the result, clears worker and lease, and leaves request id and picture bytes alone |
| TaskSafety.AttemptsAreConserved | Backend/src/database/ImageRepo.cpp:527-562 | claims from the queue plus cancellations in the queue plus one if waiting equal one plus the retries spent |
| TaskSafety.StepsAreBounded | Backend/src/database/ImageRepo.cpp:642-766 | a task takes a bounded number of steps whatever users, workers and scanner do, renewals and takeovers not counted |
| TaskSafety.RunExtends | Backend/src/database/ImageRepo.cpp:422-435 | along every run claim logs only grow, owner and limit stay, and deleted ids do not return |
| TaskProtocol.ClaimSurvives | Backend/src/database/ImageRepo.cpp:472-687 | no statement of another party leaves a row looking as if an older claim of this worker still owned it |
| TaskProtocol.StatementKeepsInv | Backend/src/database/ImageRepo.cpp:184-211 | any guarded statement on any set of rows keeps the protocol invariant |
| TaskProtocol.GateKeepsInv | Backend/src/services/task_engine.cpp:174-242 | passing, deferring and failing at the health gate keep the invariant; a deferral is sent only below nine retries |
| TaskProtocol.RunKeepsInv | Backend/src/services/task_engine.cpp:282-335 | every interleaving of admissible events keeps the invariant |
| TaskHistory.AdvanceKeepsOk | Backend/src/database/ImageRepo.cpp:472-766 | every statement keeps the row's shape, its alternating claim log and its accounts of attempts and steps |
| TaskHistory.CountedStepsUseUpBudget | Backend/src/database/ImageRepo.cpp:472-766 | every counted step, cancel and retry included, lowers three times the retries left plus the phase |
| ImageRows.StatementKeepsRowConsistent | Backend/src/database/ImageRepo.cpp:184-211 | each statement keeps the row's shape given final, dated results |
| ImageRows.CreatedRowConsistency | Backend/src/services/image_service.cpp:299-308 | a created row has the stored shape if and only if the request carried no worker, lease or cancellation time |
| ImageRows.RetryStartsOver | Backend/src/database/ImageRepo.cpp:729-766 | a retried row is what creating the task afresh would store, but for the retry count |
| ImageRows.StatementFrame | Backend/src/database/ImageRepo.cpp:472-766 | no statement changes owner, number, limit, creation time or request id; only three raise the retry count, by one; none touches a success; who may change the start time |
| ImageRepo.ReadBackIsExact | Backend/src/database/ImageRepo.cpp:507-523 | the read-back of a polling claim names exactly the claimed row if and only if the worker left no running row with the same lease second |
| ImageRepo.ReadBackCanReturnAnotherRow | Backend/src/database/ImageRepo.cpp:507-523 | a consistent table, left by an earlier claim, in which the read-back may return a different row |
| ImageRepo.ServedInOrderIsUnique | Backend/src/database/ImageRepo.cpp:564-579 | creation time and id order the waiting rows completely: only one list is a correct reply |
| ImageRepo.ImageRepo.Insert | Backend/src/database/ImageRepo.cpp:298-339 | a new id and one new consistent row |
| ImageRepo.ImageRepo.DeleteByIdAndUserId | Backend/src/database/ImageRepo.cpp:422-435 | deletes exactly a finished row of that user |
| ImageRepo.ImageRepo.FetchExpired | Backend/src/database/ImageRepo.cpp:588-613 | a report for each row the statement would move, and no other |
| TaskEngine.TaskEngine.Enqueue | Backend/src/services/task_engine.cpp:102-126 | with Redis up the task is served after all others; otherwise the queue stays |
| TaskEngine.GateIsPassGate | Backend/src/services/task_engine.cpp:174-242 | what the gate does to the table and the worker is the protocol's gate event |
| TaskEngine.TaskEngine.TurnOverTable | Backend/src/services/task_engine.cpp:311-326 | a turn in fallback mode is a run of the protocol |
| TaskEngine.TaskEngine.WorkerTurn | Backend/src/services/task_engine.cpp:285-326 | every turn of the worker loop is a run of the protocol that leaves the worker idle |
| TaskEngine.ClaimLeadsToHolding | Backend/src/services/task_engine.cpp:300-325 | a claim and its read-back, followed by any run from holding the task, is a run from idle |
| TaskQueue.PushedIsServedLast | Backend/src/services/redis_client.cpp:60-67 | a task pushed on the left is served after everything already queued |
| TaskQueue.RebuiltQueueServesInOrder | Backend/src/services/redis_client.cpp:69-92 | left pushes and right pops cancel out: a rebuilt queue serves the ids in the order given |
| TaskQueue.RedisClient.DequeueTask | Backend/src/services/redis_client.cpp:94-107 | pops what is served next; an entry that is no number is popped and reported |
| TaskQueue.RedisClient.RebuildTaskQueue | Backend/src/services/redis_client.cpp:69-92 | replaces the queue by one that serves the given ids in order |
| TaskQueue.RedisClient.AcquireLease | Backend/src/services/redis_client.cpp:118-128 | succeeds exactly when nobody holds a live lease, and then the worker holds it until it runs out |
| TaskQueue.RedisClient.ReleaseLease | Backend/src/services/redis_client.cpp:149-163 | only the holder's release deletes the lease |
| LeaseTiming.ShortestLeaseSurvivesSlowGate | Backend/src/services/generation_client.cpp:268-272 | the shortest lease tolerates a health check that uses its whole timeout |
| GenerationClient.PersistGeneratedImage | Backend/src/services/generation_client.cpp:106-136 | a success keeps a storage key or turns into a dated failure with the right code; anything else is untouched |
| TaskStatus.CiEquals | Backend/include/models/task_status.h:72-80 | true exactly when the lower-cased texts are equal |
| TaskStatus.PrintReadRoundTrip | Backend/include/models/task_status.h:82-122 | printing a status and reading it gives it back, in any letter case |
| ListCache.ListReadIsFresh | Backend/src/services/image_service.cpp:346-440 | under every interleaving of readers, writers, failures and evictions, a list read that starts after a write's bump attempt came back answers from a table state that includes the write |
| ListCache.RunKeepsInv | Backend/src/services/cache_client.cpp:82-177 | every run keeps: versions cover the acknowledged writes while the client is on, and no page is filed under a version newer than its state |
| ListCache.BumpKeepsInv | Backend/src/services/cache_client.cpp:134-157 | a bump keeps the invariant whether it works, fails before Redis acted or fails after |
| ListCache.FailureIsForGood | Backend/src/services/cache_client.cpp:97-100 | after any failed call the cache is never consulted again |
| CachedService.StepAgrees | Backend/src/services/image_service.cpp:270-710 | one operation answers and changes the table as without a cache and keeps the cache coherent: null markers only for absent rows, pages of the current version correct |
| CachedService.ChangeIsAbsorbed | Backend/src/services/task_engine.cpp:87-90 | a change of the table is safe once each changed row's entry is gone and each changed user's version has moved |
| CachedService.ScanIsAbsorbed | Backend/src/services/task_engine.cpp:353-360 | invalidating the rows a scan reports covers everything the scan moved |
| CachedService.Descending | Backend/src/database/ImageRepo.cpp:349-356 | newest first, every id once |
| CachedService.PagesTileTheList | Backend/src/database/ImageRepo.cpp:341-400 | pages read one after another are the whole list in order, and each reports the whole length |
| CacheKeys.KeysNeverCollide | Backend/include/services/image_cache_key.h:26-56 | two cache entries with the same key text are the same entry, over all kinds of keys and the version keys |
| ImageService.RedisCacheClient.GetMeta | Backend/src/services/cache_client.cpp:86-102 | answers from the cache only while on; a failure switches off |
| ImageService.RedisCacheClient.SetexMeta | Backend/src/services/cache_client.cpp:104-118 | stores while on; a failure switches off, whether or not Redis stored |
| ImageService.RedisCacheClient.DelMeta | Backend/src/services/cache_client.cpp:120-132 | deletes while on; a failure switches off, whether or not Redis deleted |
| ImageService.RedisCacheClient.BumpVersion | Backend/src/services/cache_client.cpp:134-157 | counts up and returns the new version while on; a failure switches off |
| ImageService.RedisCacheClient.GetVersion | Backend/src/services/cache_client.cpp:159-177 | the version while on, zero for a missing key and for no answer |
| ImageService.ImageService.GetById | Backend/src/services/image_service.cpp:442-493 | whichever calls fail, the answer is the table's and the cache stays coherent or off |
| ImageService.ImageService.InvalidateAllForTask | Backend/src/services/task_engine.cpp:87-90 | the entry goes and the version moves, or the client is off |
| ImageService.ImageService.UpdateAndInvalidate | Backend/src/services/task_engine.cpp:189-280 | a row's update and its invalidation, with any calls failing, keep the cache coherent or off |
| ImageService.ImageService.CancelById | Backend/src/services/image_service.cpp:495-557 | succeeds exactly for the user's own unfinished task; the guard and the statement agree; each refusal and its reason |
| ImageService.ImageService.RetryById | Backend/src/services/image_service.cpp:559-610 | succeeds exactly when the row may be retried; each refusal and its reason |
| ImageService.ImageService.DeleteById | Backend/src/services/image_service.cpp:655-710 | succeeds exactly for the user's own finished task; each refusal and its reason |
| TokenBucket.TokensAreTightestHeadroom | Backend/src/services/rate_limiter.cpp:36-44 | the bucket's content is the least headroom over all windows ending now |
| TokenBucket.NoWindowIsOverdrawn | Backend/src/services/rate_limiter.cpp:36-44 | no window is overdrawn, the call that ends it included |
| TokenBucket.SkewedClocksBeatTheRate | Backend/src/services/rate_limiter.cpp:52-55 | with clocks that disagree the bound fails |
| TokenBucket.TokensStayInRange | Backend/src/services/rate_limiter.cpp:36-44 | the content always lies between empty and full |
| TokenBucket.PatientCallerIsAdmitted | Backend/src/services/rate_limiter.cpp:36-44 | a call at least one token's refill after the previous one is admitted |
| RefreshTokens.RedisStoreRefinesMemoryStore | Backend/src/services/refresh_token_store.cpp:39-154 | for every sequence of operations with fresh jtis, one ttl and one clock both stores give the same answers |
| RefreshTokens.StepRefines | Backend/src/services/refresh_token_store.cpp:39-154 | one operation keeps: same live tokens, every live token in its owner's index, the index outlives it |
| RefreshTokens.StoreKeepsIndexIffOutlives | Backend/src/services/refresh_token_store.cpp:46-49 | storing keeps every live token indexed if and only if the new token outlives the user's others |
| RefreshTokens.ShorterTtlHidesTokenFromRevocation | Backend/src/services/refresh_token_store.cpp:94-110 | a shorter ttl after a longer one lets a token survive revocation of its user |
| AuthService.TokenIsAcceptedAtMostOnce | Backend/src/services/auth_service.cpp:95-127 | over the Redis store, refresh accepts each token at most once |
| AuthService.PasswordChangeEndsEarlierTokens | Backend/src/services/auth_service.cpp:161-198 | after a successful password change no token issued to the user before it is accepted |
| AuthService.AcceptedTokenIsGenuine | Backend/src/services/auth_service.cpp:108-115 | an accepted token was issued to that very user by an earlier call and is within its lifetime |
| AuthService.ServiceOverRedisAgrees | Backend/src/services/auth_service.cpp:66-212 | every reply of the service is the same over either store |
| CachedService.CacheIsInvisible | Backend/src/services/image_service.cpp:346-493 | every sequence of whole operations is answered as by a service without a cache, up to picture address, bytes and lease, whatever is evicted and whenever the client fails, provided version keys run out only while everything still cached for the user is a current page of version zero |
| CachedService.ExpiryKeepsOkIffHarmless | Backend/src/services/cache_client.cpp:140-171 | the expiry of a version key leaves the cache coherent if and only if everything still cached for the user is a current page of version zero |
| CachedService.ExpiredVersionKeyRevivesOldPages | Backend/src/services/cache_client.cpp:140-144 | for every version from one on: when the key runs out while a page of it is cached, as many creates as the version bring that page back, short of all of them |
| CachedService.CreatesAddUp | Backend/src/services/image_service.cpp:322-333 | any number of creates add as many rows to the list and as many to the version, and drop no page |
| MetaStaleness.AnswerIsRecent | Backend/src/services/image_service.cpp:442-493 | however readers and writers of a row interleave, an answer was true less than its time to live plus one fill before it was given |
| MetaStaleness.AgeBoundIsExact | Backend/include/services/image_cache_key.h:18-24 | that age is the exact bound for every content: 5 s for an unfinished row, 30 s for none, 300 s for a final one, plus the longest fill |
| MetaStaleness.BoundIsReached | Backend/src/services/image_service.cpp:170-181 | a fill that began just before a change and a read in the last second reach the bound |
| ConcurrentCreates.OvertakerInsertedBetween | Backend/src/services/image_service.cpp:310-322 | such a row was inserted by another create between this one's lookup and its insert |
| ConcurrentCreates.SerialCreateIsNotOvertaken | Backend/src/services/image_service.cpp:310-322 | a create that inserts right after its lookup is never the one that breaks uniqueness |
| ConcurrentCreates.TwoCreatesOneName | Backend/src/database/ImageRepo.cpp:437-455 | two creates that both look before either inserts leave two rows of one name |
| TokenBucket.GrantedIffEveryWindowAllows | Backend/src/services/rate_limiter.cpp:27-44 | while the key is kept: for every sequence of readings a call is granted exactly when every window that ends at it has room for one more token |
| TokenBucket.RateIsBounded | Backend/src/services/rate_limiter.cpp:36-44 | while the key is kept, with readings that do not run back, grants between two moments are at most a full bucket plus the refill of the time between |
| TokenBucket.AlternatingBeatsAnyBound | Backend/src/services/rate_limiter.cpp:36-44 | readings that alternate between any two values are granted more than any bound in the end |
| RateLimiter.GrantedIffEveryWindowSinceDropAllows | Backend/src/services/rate_limiter.cpp:20-50 | for all calls, readings and moments on Redis's clock: granted exactly when every window ending at the call, from the last drop of the key on, has room for one more token |
| RateLimiter.DropsAreInvisibleIffNoneShows | Backend/src/services/rate_limiter.cpp:27-48 | dropping the key changes no content if and only if each dropped bucket was full by the next call's reading |
| RateLimiter.DropCanShow | Backend/src/services/rate_limiter.cpp:47-48 | a fast and a correct clock: the dropped key lets a call through that the kept one would refuse |
| RateLimiter.RedisRateIsBounded | Backend/src/services/rate_limiter.cpp:20-50 | with readings that do not run back and no drop that shows, grants between two moments are at most a full bucket plus the refill of the time between |
| RateLimiter.RateHoldsForAllRunsIffReadingsAgree | Backend/src/services/rate_limiter.cpp:52-55 | with readings in any order within two values that bound holds for all runs if and only if the values are the same |
| RateLimiter.RedisTokenBucketLimiter.TryAcquire | Backend/src/services/rate_limiter.cpp:203-237 | when a call is let through unchecked, refused, or decided by the bucket; one failure, whether or not the script ran, switches the limiter off |
| TaskQueue.RemovedIsNeverServedIffOwnText | Backend/src/services/redis_client.cpp:109-116 | removal takes exactly that task out of what is served and keeps the order of the rest if and only if nothing in the list but its own text reads as its id |
| TaskQueue.PushedIdsAreOwnText | Backend/src/services/redis_client.cpp:60-92 | a list of pushed ids is always like that |
| TaskQueue.RedisClient.RemoveFromQueue | Backend/src/services/redis_client.cpp:109-116 | for any list: every entry of that text goes, and removal is reported exactly when there was one |
| RefreshTokens.RedisRefreshTokenStore.StoreToken | Backend/src/services/refresh_token_store.cpp:39-55 | key, index entry and renewed index lifetime; when the connection breaks, just the commands carried out, and an error |
| RefreshTokens.RedisRefreshTokenStore.ConsumeToken | Backend/src/services/refresh_token_store.cpp:57-75 | returns the owner of a live token and removes it from both places; once the get-and-delete is done the token is dead, answered or not |
| RefreshTokens.RedisRefreshTokenStore.RevokeToken | Backend/src/services/refresh_token_store.cpp:77-92 | removes the token from both places; when the connection breaks, just the commands carried out, and never a new live token |
| RefreshTokens.RedisRefreshTokenStore.RevokeTokensOf | Backend/src/services/refresh_token_store.cpp:94-110 | the deletion loop removes exactly the listed tokens and then the index; broken off, as many listed tokens as were deleted in time and not the index |
| RefreshTokens.InMemoryRefreshTokenStore.ConsumeToken | Backend/src/services/refresh_token_store.cpp:120-133 | yields the owner exactly of a live token, which is never live again; every other token stays live as long as before |
| RefreshTokens.InMemoryRefreshTokenStore.RevokeTokensOf | Backend/src/services/refresh_token_store.cpp:141-145 | the tokens live at any time are those of the other users that were |
| RefreshInterleavings.AcceptedAtMostOnce | Backend/src/services/refresh_token_store.cpp:57-75 | with all commands of all calls interleaved and calls breaking off anywhere, no token is accepted by two calls |
| RefreshInterleavings.RevocationEndsEarlierTokens | Backend/src/services/refresh_token_store.cpp:94-110 | then too, a token issued before a revocation of its user began is dead when it is done, and only a call that had already taken it gets it, if no step exposed a token and no logout is about to delete this one |
| RefreshInterleavings.StepKeepsCoveredIffQuiet | Backend/src/services/refresh_token_store.cpp:39-110 | a command leaves every issued live token on its owner's index, or on its way out, if and only if it is none of three: an EXPIRE after the index ran out, a deletion of an index that has gained a token, a logout broken off half-way |
| RefreshInterleavings.AlwaysCoveredIffQuiet | Backend/src/services/refresh_token_store.cpp:39-110 | over whole runs: tokens are always covered if and only if none of those steps happens |
| RefreshInterleavings.UnlistedTokenSurvivesRevocation | Backend/src/services/refresh_token_store.cpp:100-104 | a live token off its index survives its owner's revocation even when that runs undisturbed |
| RefreshInterleavings.IndexRunsOutUnderStore | Backend/src/services/refresh_token_store.cpp:46-49 | an index that runs out between SADD and EXPIRE: the token is issued, missed by a later revocation and accepted |
| GenerationState.GenerationState.MarkGenerationStarted | ModelService/model_service_app/state.py:22-26 | one start of the specification; the kind shows whether anything runs exactly when it is not "none" |
| GenerationState.GenerationState.MarkGenerationFinished | ModelService/model_service_app/state.py:28-34 | one finish of the specification; the kind is none when nothing runs |
| ConcurrentCreates.NamesStayUniqueIffNoneOvertaken | Backend/src/services/image_service.cpp:305-327 | in every interleaving of creates, updates and deletions: no request id, letter case ignored, names two rows of a user if and only if no create inserts while a row of its name, put there since its lookup, is in the table |
| ConcurrentCreates.AnswerBearsName | Backend/src/database/ImageRepo.cpp:442-453 | the row a create answers with has the name it asked for, up to letter case, whatever interleaves |
| ConcurrentCreates.AnswerBearsSpellingIffNoOther | Backend/src/database/ImageRepo.cpp:442-453 | the answer has the very spelling asked for, whichever row the lookup comes up with, if and only if the user has no row of that name spelled otherwise when the create looks |
| ConcurrentCreates.OtherSpellingIsAnswered | Backend/src/services/image_service.cpp:310-320 | "ABC", then "abc": the second create answers with the row named "ABC" and inserts none |
| ImageService.ImageService.CreateTask | Backend/src/services/image_service.cpp:270-344 | undisturbed: each refusal and its reason; a request id known in any letter case returns its row and changes nothing, otherwise one new row; the row is spelled as asked if and only if the user had none of that name spelled otherwise; request ids still name one row each |
| CachedService.FreshServiceIsInvisible | Backend/src/services/image_service.cpp:346-493 | the same from the empty table and the empty cache |
| RateLimiter.DropsNeverShowIffWithinHalfWindowOfRedis | Backend/src/services/rate_limiter.cpp:243-247 | no drop ever shows, in any run, if and only if every reading is within half a window of Redis's clock |
| RateLimiter.DropsNeverShowIffClocksWithinWindow | Backend/src/services/rate_limiter.cpp:243-247 | no drop ever shows, in any run, if and only if no two readings disagree by more than one window beyond the time Redis counts between them |
| PasswordChanges.OnlyCurrentIffNoneLate | Backend/src/services/auth_service.cpp:66-212 | in every interleaving of logins, refreshes, logouts and changes: no token ever goes back to an earlier password if and only if no step is late |
| PasswordChanges.LateStoreStraddlesUpdate | Backend/src/services/auth_service.cpp:81-91 | a late store is by a call that checked the password, or took its token, before an update and stores after it |
| PasswordChanges.StraddlingStoreIsLate | Backend/src/services/auth_service.cpp:108-126 | and every such store is late |
| PasswordChanges.LateUpdateFollowsStore | Backend/src/services/auth_service.cpp:184-192 | a late update has a store between its change's revocation and it |
| PasswordChanges.LoginOutlivesChange | Backend/src/services/auth_service.cpp:66-93 | a login that checked the old password stores its token after a change has succeeded |
| PresignCache.AddressesWorkIffStoredInTime | Backend/src/services/image_service.cpp:216-237 | over all interleavings, no address is handed out past its expiry if and only if storing it takes no longer than the part of its lifetime the cache leaves unused |
| PresignCache.LateHitIsServed | Backend/src/services/image_service.cpp:216-237 | a slow store and a hit in the entry's last second: the address is as old as delay and time to live together allow |
| PresignCache.SpareTime | Backend/include/services/image_cache_key.h:58-66 | that part is a fifth of the lifetime, rounded up, and nothing for a lifetime of one second |
| ImageRepo.ImageRepo.ClaimNextTask | Backend/src/database/ImageRepo.cpp:472-525 | nothing exactly when no row waits and no running row is without a live lease; otherwise of those rows the oldest, equal age settled by id, is the worker's with a lease of the given length, and it is returned if the read-back is exact |
| ImageRepo.ImageRepo.ClaimTaskById | Backend/src/database/ImageRepo.cpp:527-562 | takes exactly a waiting row: status, worker, first start and lease set, failure cleared, nothing else |
| ImageRepo.ImageRepo.RenewLease | Backend/src/database/ImageRepo.cpp:621-640 | exactly while the worker still generates the row, its lease and nothing else moves to the new end |
| ImageRepo.ImageRepo.FinishClaimedTask | Backend/src/database/ImageRepo.cpp:642-666 | exactly while the worker still generates the row, the outcome is stored and worker and lease go |
| ImageRepo.ImageRepo.DeferClaimedTaskForModelHealth | Backend/src/database/ImageRepo.cpp:668-687 | exactly while the worker still generates the row, it waits again with one more retry |
| ImageRepo.ImageRepo.CancelByIdAndUserId | Backend/src/database/ImageRepo.cpp:689-727 | exactly a user's own unfinished row is cancelled and dated, worker and lease gone |
| ImageRepo.ImageRepo.RetryByIdAndUserId | Backend/src/database/ImageRepo.cpp:729-766 | exactly a user's own failed, timed out or cancelled row with retries left waits again, cleared, with one more retry |
| ImageRepo.ImageRepo.FindQueuedTaskIds | Backend/src/database/ImageRepo.cpp:564-579 | every waiting row once; creation times never fall, and ids rise among equal times |
| ImageRepo.ImageRepo.ExpireLeasesReturningExpired | Backend/src/database/ImageRepo.cpp:581-619 | each row whose lease had ended at the second clock reading is put back with one more retry while it has some left, else timed out; a row is reported exactly when its lease had ended at the first reading, once, and each report comes true |
| TaskSafety.OutsideEventsAreStatements | Backend/src/database/ImageRepo.cpp:689-766 | what users and scanner do in the protocol is their guarded statement on the table, and a create its new row |
| TaskSafety.KeeperRenewalIsStatement | Backend/src/services/task_engine.cpp:128-172 | a keeper renews the row its worker runs until it is joined |
| LeaseTiming.RenewalsCarryLease | Backend/src/database/ImageRepo.cpp:621-640 | executing a claim and then its renewals up to a moment leaves the claimed row with the lease of the last of them |
| LeaseTiming.LiveTaskIsLeftAlone | Backend/src/services/task_engine.cpp:128-172 | a claimed row renewed within its delays is matched by no scan and no polling claim |
| LeaseTiming.LeftAloneIffLeaseLasts | Backend/src/database/ImageRepo.cpp:188-206 | a running row is left alone by scans and polling claims if and only if its lease has not ended by the clock |
| LeaseTiming.NoLiveTaskIsTakenIffWithinBudget | Backend/src/services/task_engine.cpp:128-172 | for leases of at least thirty seconds: no scan and no polling claim takes a row that is claimed and then renewed in time, however the delays fall, if and only if gate, tick and latency fit in the lease less its half |
| ModelHealthGate.DecisionTable | Backend/src/services/model_health_gate.cpp:69-88 | for every report and retry count: when the gate opens, when a task waits and how long, when it fails, and with what code and message |
| ModelHealthGate.GateSplitsOnRetryCount | Backend/src/services/model_health_gate.cpp:25-49 | whether the gate opens depends on health alone, whether a refused task waits or fails on the retry count alone |
| TaskEngine.TaskEngine.ApplyModelHealthGate | Backend/src/services/task_engine.cpp:174-242 | opens exactly for a service that is well, or busy with nothing or below its capacity; otherwise the row, if still the claim's, waits with one more retry or after nine is failed, with code and message; a waiting task is queued again and the worker pauses 30 or 5 seconds |
| TaskEngine.TaskEngine.ProcessClaimedTask | Backend/src/services/task_engine.cpp:244-280 | a claim that owns its row settles it, refused as the gate says or final and dated, and changes nothing else; one that does not leaves the table untouched; either way it is a run of the protocol |
| TaskEngine.TaskEngine.TurnOnTask | Backend/src/services/task_engine.cpp:296-310 | exactly a waiting task whose lease nobody holds is worked off; the turn is a run of the protocol, takes no lease from others and keeps none |
| TaskEngine.TaskEngine.TurnOverQueue | Backend/src/services/task_engine.cpp:290-310 | the same for the id that waited longest in the queue, whatever else the queue holds |
| TaskEngine.TaskEngine.RecoverOrphanedTasks | Backend/src/services/task_engine.cpp:374-397 | with Redis up, popping the rebuilt queue serves every waiting row once, by creation time and then id |
| TaskEngine.TaskEngine.LeaseExpiryRound | Backend/src/services/task_engine.cpp:337-372 | after an undisturbed round no running row's lease ended before the round's clock, other rows are untouched, the queue serves every waiting row once, by creation time and then id, and the round is a run of the protocol |
| GenerationClient.Generate | Backend/src/services/generation_client.cpp:155-258 | for every reply, download and storage outcome the result is final and dated and differs from the task only in outcome columns; which replies and status texts end in which status, code and message; success exactly when bytes arrived, the reply was not failed and the store kept them |
| GenerationClient.Conclude | Backend/src/services/generation_client.cpp:225-258 | from any reply on: failed stays failed, bytes make a success if the store keeps them, cancelled and timed out stay, anything else lacks its picture |
| GenerationClient.MergeRemoteResult | Backend/src/services/generation_client.cpp:60-104 | which status text means what, which of several addresses wins, and what an empty or missing field leaves alone |
| TaskStatus.NormalizeTaskStatus | Backend/include/models/task_status.h:128-155 | every alias, in any letter case, with its status; anything else is unknown |
| CachedService.PageShows | Backend/src/database/ImageRepo.cpp:341-400 | a page is the rows of the user and status asked for with at least page times size, and less than a page more, newer ones; newest first; it counts them all |
| ImageService.ImageService.FindByUserId | Backend/src/database/ImageRepo.cpp:341-400 | such a page, fetched row by row |
| ImageService.ImageService.ListMyImages | Backend/src/services/image_service.cpp:346-440 | whichever calls fail, such a page of the table for the normalised page and size, and the cache stays coherent or off |
| ListCache.StepsMeanWhatTheySay | Backend/src/services/image_service.cpp:353-390 | a commit is one more numbered write, a table read answers from all of them, a hit answers what was stored, a bump makes a new version |
| CacheKeys.MetaKeyText | Backend/include/services/image_cache_key.h:26-28 | the text of a row's key |
| CacheKeys.ListMyKeyText | Backend/include/services/image_cache_key.h:30-32 | the text of a list page's key |
| CacheKeys.ListMyByStatusKeyText | Backend/include/services/image_cache_key.h:34-38 | the text of a status list page's key |
| RefreshTokens.RevokedAreTheUsers | Backend/src/services/refresh_token_store.cpp:94-110 | with every live token on its owner's index a revocation ends the user's tokens and no other |
| AuthService.AuthService.HandleLogin | Backend/src/services/auth_service.cpp:66-93 | with the store up, a token is issued exactly for an existing account and a verified password, and is then live for that user and lifetime; refused otherwise, and nothing changes without verification |
| AuthService.AuthService.HandleRefresh | Backend/src/services/auth_service.cpp:95-127 | with the store up, a token is issued exactly when the one presented was live, belonged to the user it claims and the account is enabled; the old one is spent even when the account is disabled or the connection breaks after the get-and-delete |
| AuthService.AuthService.HandleLogout | Backend/src/services/auth_service.cpp:129-142 | ends exactly the token presented, or refuses |
| AuthService.AuthService.HandleChangePassword | Backend/src/services/auth_service.cpp:161-198 | exactly when permitted the user's tokens, and no other, end, before the password is written; done only if both worked |
| RateLimiter.RedisTokenBucketLimiter.EvalTokenBucket | Backend/src/services/rate_limiter.cpp:239-260 | tokens and answer in numbers, and a key that lives two windows; whatever calls went before, one more call of the specification |
| PasswordUtils.VerifyPassword | Backend/src/utils/password_utils.cpp:76-110 | never true for a text without the scheme and just three separators; true only if the digest in the text is derived again; an exception for bad hexadecimal |
| PasswordUtils.FromHex | Backend/src/utils/password_utils.cpp:26-42 | each byte is its pair's value; an odd length or one bad pair spoils the whole |
| PasswordUtils.PairOfDigits | Backend/src/utils/password_utils.cpp:32-39 | two digits are high and low half; a pair that begins with no digit, sign or space is refused |
| Decimals.ReadingIsLenient | Backend/src/utils/password_utils.cpp:83-88 | space or a plus sign in front and anything after the digits make no difference |
| Decimals.OutOfRangeIsRefused | Backend/src/services/redis_client.cpp:94-100 | a number outside the integer type is refused |
| GenerationState.KeptTimesAreNewestStarts | ModelService/model_service_app/state.py:22-34 | after any interleaving of starts and finishes the kept times are the newest starts, in order, one for each running generation |
| GenerationState.ReportedAgeIsSound | ModelService/model_service_app/state.py:36-49 | the reported age never exceeds the true age of the oldest running generation |
| GenerationState.AgeIsExactIffOldestFinishedFirst | ModelService/model_service_app/state.py:28-49 | with distinct start times the reported age is that of the oldest running generation if and only if only the oldest have finished |
| GenerationState.ReportedAgeCanBeTooYoung | ModelService/model_service_app/state.py:28-34 | when the later of two generations finishes first, its start time is kept instead |
| GenerationState.GenerationState.TakeSnapshot | ModelService/model_service_app/state.py:36-75 | age, activity and each health status with its exact condition |
| PasswordUtils.StoredTextRoundTrip | Backend/src/utils/password_utils.cpp:60-94 | whatever the salt and digest, the stored text gives iterations, salt and digest back |
| PasswordUtils.AcceptedIffSameDerivation | Backend/src/utils/password_utils.cpp:60-110 | a password is accepted against the stored form of another exactly when both derive the same digest |
| PasswordUtils.HexRoundTrip | Backend/src/utils/password_utils.cpp:18-42 | printing bytes as hexadecimal and reading them gives them back |
| PasswordUtils.ToHex | Backend/src/utils/password_utils.cpp:18-24 | the loop prints two digits a byte |
| PasswordUtils.Split | Backend/src/utils/password_utils.cpp:44-57 | the loop cuts at every separator and keeps empty parts |
| PasswordUtils.HashPassword | Backend/src/utils/password_utils.cpp:60-74 | the formatted text, or an error when the derivation fails |
| PasswordUtils.SameBytes | Backend/src/utils/password_utils.cpp:102-109 | collecting differences with or of xor is zero exactly for equal bytes |

## Left out

- Redis leases in the protocol: safety is shown not to rest on them, so a worker may try any id at any moment.
- Renewal and forced release of Redis leases: nothing proved depends on them.
- HTTP handlers, middleware, WebSocket events, metrics, logging, configuration and the object store client.
- JSON text: replies and cached values are records, so cached values that do not parse are not modelled.
- JWT signing and PBKDF2: a token is its verified claims, the key derivation an arbitrary function.
- Interleaving within a worker's turn is in `TaskProtocol`; the methods of `TaskEngine` run undisturbed.
- Single Redis commands in `PasswordChanges`, and passwords in `RefreshInterleavings`: each interleaves the steps the other takes whole.
- The rounding of four fifths of an address's lifetime in floating point: exact integers.
- Different token lifetimes in `RefreshInterleavings`: all stores use one, as the configuration gives it.
- The token numbers as Lua prints them: the script stores tokens as decimal text of a floating-point number, the model uses exact scaled integers.
- 32-bit overflow of retry counts and of page times size: integers are unbounded.
- A bound on attempts in fallback mode: taking over an expired row spends no retry, so takeovers are not counted.
- The limit of unfinished tasks as an invariant: retry does not check it, and concurrent creates can pass it together.
- Creates that interleave in `ImageService`: its methods run undisturbed; `ConcurrentCreates` has the interleavings, without cache and limits.
- Existence of the stored picture after a superseded worker's clean-up, which may remove the same object.
- Entry lifetimes in the cache: an entry may vanish at any moment instead, and only the version key's expiry needs its own event.
- Freshness of single-row entries beyond their time to live: under concurrent fills there is none, as `MetaStaleness.BoundIsReached` shows.
- A bound on how slow a fill is: it is a parameter of `MetaStaleness`.
- The cache after a scan whose two clock readings fall in different seconds: rows moved between them are not reported and so not invalidated.
- The cache after a statement that took effect but was not reported so: a claim whose read-back failed or returned another row, a finish, cancellation or retry whose call failed; the row is not invalidated.
- Validation of prompt, sizes, steps, seed and request id in `create`: its outcome is an input.
- Columns no statement changes after the insert: prompts, sizes, steps and seed.
- The asynchronous image queue and the unguarded status update, which nothing in the engine or service uses.
- LeaseTiming.NoLiveTaskIsTakenIffWithinBudget: assumes that every renewal reaches the table and that a generating row is finished before its next renewal is overdue.
- ListCache.ListReadIsFresh: assumes that the version key does not expire; what an expiry does is in `CachedService`, for whole operations only.
- PasswordUtils.FromHex: reads a pair of characters as the C++ standard library's stream extraction does, signs, spaces and prefixes included.
