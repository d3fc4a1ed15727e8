# Verified model of the context memory service

This project models the stateful parts of the context memory service in Dafny and proves properties of
them that hold over all inputs and all runs. `dafny verify dfyconfig.toml` checks everything.

| file | models |
|---|---|
| `Lists.dfy` | comprehensions, slices, SQL paging, Python's stable descending sort, counting in a window |
| `Text.dfy` | `str.isspace`, `str(n)`, `int(s)` |
| `CircuitBreaker.dfy`, `BreakerRuns.dfy` | the Redis circuit breaker, and its runs under interleaved calls |
| `RateLimiter.dfy` | the sliding-window rate limiter |
| `FallbackStore.dfy` | the in-memory store that the Redis client degrades to |
| `Cosine.dfy`, `DummyEmbedder.dfy` | cosine similarity, and the deterministic embedder |
| `Memories.dfy`, `MemoryRuns.dfy` | memory tables, repository, service and retention, and their runs |
| `Search.dfy`, `Pagination.dfy` | semantic search, and the paginated session listing |
| `Sessions.dfy` | session table, repository and service |
| `Hydration.dfy` | packing session memories into a token budget |

## How the model is built

- A stateful object of the service is a class whose methods change the same fields in the same order. Each
  method is proved equal to a function on the old value of those fields, or specified row by row: what changes,
  in which columns, and what stays. The main results are lemmas about these functions, over all event sequences.
- What decides a result is also stated in columns and numbers, without the model's own selections and constants
  (for example `Sessions.RowAfter`, `Search.AnswerColumns`, `FallbackStore.SetThenRead`, `Cosine.LawOfCosines`).
- Every operation takes the clock as an argument (real seconds). Runs assume that the clock does not go
  backwards where a property needs it. One step reads the clock once, except the fallback write, whose
  clean-up reads it again.
- An operation without an `await` inside is one atomic step. A call through the breaker is two: the lock is
  held on entry and again on completion.
- Service operations run in one database transaction, which commits. Those that issue a single statement, or
  whose first statement creates or locks the row, are one step. `get_memory`, `get_session` and
  `update_session_metadata` first read without a lock and then write, so they are two, and so is
  `complete_session` when its first statement finds no row to lock. Their methods take what other transactions
  commit in between as a parameter. In runs the second statement is an operation of its own that may come at any
  time (`AccessOp`; `LateTouch`, `LateMark` and `LateWrite`; `Remove` for `complete_session`), so results over
  runs cover every interleaving of these steps.
- `updated_at` refreshes itself on every UPDATE (src/context_memory/models/base.py:36-42).
- A table is a list of rows in one fixed order; a query keeps that order, and ordering clauses sort it
  stably. `Lists.SortUnique` shows that the result does not depend on the sorting algorithm.
- The square root is a parameter constrained only by its defining equation (`Cosine.IsSqrt`). SHA-256, the
  MD5 seed and what an embedder answers are parameters as well.
- Requirements on configuration or arguments are the ones under which the code is used: at least one probe
  slot where a result is about probes, page size at least 1 and a non-negative `top_k` (the routes enforce
  both). For a breaker without probe slots see `BreakerRuns.NoSlotsNoRecovery`.

## What the proofs found

- A cancelled probe leaves the half-open counter incremented, because `asyncio.CancelledError` is not an
  `Exception`. When all probes are cancelled the breaker rejects every call for ever
  (`BreakerRuns.CancellationWedges`). `BreakerRuns.HalfOpenExit` says exactly when a half-open state can be left.
- Search cuts to `top_k` before it drops expired rows, so it can return fewer live rows than exist
  (`Search.SearchFallsShort`). `Search.CutThenFilter` says exactly when. Running the clean-up first only adds
  results.
- The listing counts live rows but pages through expired ones as well, so the reported page count can be too
  small (`Pagination.ShortfallExample`). The exact condition on the rows is `Pagination.ReportedPagesReach`;
  `Pagination.ExpiredRowsFit` and `Pagination.ExpiredRowsFitUntyped` give it as a count of expired rows that
  must fit into the free places of the last reported page.
- An increment in the fallback store reads an entry even after it has expired
  (`FallbackStore.ExpiredCounterReturns`). `FallbackStore.TtlMapIff` says exactly in which runs the store still
  reads like a map with expiry, `FallbackStore.IncrementIgnoresExpiry` when a single increment is affected.
- The access statement does not look at the deletion flag, so a delete that commits while `get_memory` is
  running leaves a deleted row that is written once more (`MemoryRuns.AccessAfterDelete`). A
  deleted row stays as it is exactly when no such statement comes (`MemoryRuns.DeletedUnchangedIff`), and even
  then only the columns of that statement move (`MemoryRuns.DeletedIsFrozen`).
- A metadata update writes back the user, status and metadata it has read and so undoes what another
  transaction did to them in the meantime (`Sessions.LateWriteOverwrites`, with an instance in
  `Sessions.PauseUndone`). `Sessions.LateWriteIsCurrentIff` says exactly when nothing is lost.
- Updating a memory to empty text, or while the embedder fails, leaves the old vector in place
  (`MemoryRuns.StaleAfterUpdate`).
- Ensuring or resuming an archived session sets its status to active but never brings it back
  (`Sessions.ArchivingIsPermanent`, `Sessions.EnsureThenGet`).
- ARCHITECTURE.md describes a rate limiter on Redis counters and a ranking of memories in hydration. The code
  has neither; the model follows the code.

## Model

| member | source | states |
|---|---|---|
| CircuitBreaker.RedisCircuitBreaker.OnEntry | src/context_memory/cache/redis_client.py:52-64 | the locked entry block: when a call is admitted or rejected for which reason, in terms of the old fields, and the new state and probe count |
| CircuitBreaker.RedisCircuitBreaker.OnSuccess | src/context_memory/cache/redis_client.py:68-75 | the completion block of a call that returned: half-open becomes closed with no probes, the count is zero, nothing else moves |
| CircuitBreaker.RedisCircuitBreaker.OnFailure | src/context_memory/cache/redis_client.py:77-90 | the completion block of a call that raised: one more failure at this time; open if it was half-open or reaches the threshold |
| BreakerRuns.FailureAccounting | src/context_memory/cache/redis_client.py:66-90 | under every configuration, in every reachable state the failure count is the length of the trailing run of failures in completion order, the stored time is that of the last failure, and closed means below the threshold |
| BreakerRuns.OpensAtThreshold | src/context_memory/cache/redis_client.py:78-86 | under every configuration the breaker leaves closed exactly when the threshold-th consecutive failure completes |
| BreakerRuns.InvokedIff | src/context_memory/cache/redis_client.py:52-66 | in every reachable state a call is let through if and only if the breaker is closed, or open with a probe slot and the timeout passed since the last logged failure, or half-open with a free slot |
| BreakerRuns.NoCallBeforeRecovery | src/context_memory/cache/redis_client.py:53-59 | after opening, no function is invoked before the recovery timeout has passed, whatever stale calls do |
| BreakerRuns.NoWedge | src/context_memory/cache/redis_client.py:61-90 | without cancellation, in every reachable half-open state the counter equals the episode's calls in flight, lies in 1..max, and each possible completion leaves the state |
| BreakerRuns.HalfOpenExit | src/context_memory/cache/redis_client.py:61-90 | a half-open state can be left by some run if and only if a call is in flight or a probe slot is free |
| BreakerRuns.CancellationWedges | src/context_memory/cache/redis_client.py:61-77 | for every configuration with a probe slot, a run with cancelled probes reaches a half-open state that no run leaves |
| BreakerRuns.NoSlotsNoRecovery | src/context_memory/cache/redis_client.py:54-64 | with no probe slots, an open breaker with nothing in flight never invokes a function again |
| BreakerRuns.LoadBound | src/context_memory/cache/redis_client.py:52-90 | once open or half-open and while nothing succeeds but stale calls during an open state, a span shorter than k recovery timeouts sees at most k * half_open_max_requests invocations |
| BreakerRuns.LoadBoundPerSpan | src/context_memory/cache/redis_client.py:52-90 | the same bound for every reachable state and a span of any length T, with k = T // recovery_timeout + 1 |
| RateLimiter.RateLimitMiddleware.Admit | src/context_memory/utils/middleware.py:111-138 | admits if and only if fewer than the limit of the stored times lie in the last 60 seconds; keeps those and appends the admitted one; other tenants are untouched |
| RateLimiter.RateLimitMiddleware.Remaining | src/context_memory/utils/middleware.py:141-143 | the remaining quota, zero only when clamped |
| RateLimiter.AnyWindowBound | src/context_memory/utils/middleware.py:111-138 | every window (t-60, t], for every real t, holds at most requests_per_minute admitted requests of a tenant, counted over the run itself |
| RateLimiter.StoredIsWindow | src/context_memory/utils/middleware.py:114-138 | after a dispatch the stored list is the tenant's whole admission history filtered to the window |
| RateLimiter.DecidesLikeUnpruned | src/context_memory/utils/middleware.py:117-138 | a request is admitted if and only if fewer than the limit of admissions, counted in the never-pruned history, lie in the last sixty seconds |
| RateLimiter.RemainingNeverClamped | src/context_memory/utils/middleware.py:141-143 | at any later moment the stored list is within the limit, so the remaining quota is not negative before clamping |
| RateLimiter.TenantsIndependent | src/context_memory/utils/middleware.py:111-138 | a tenant's list, history and decisions in an interleaved run are those of its own sub-run |
| Text.ParseShow | src/context_memory/cache/redis_client.py:280-281 | `int(str(n)) == n` for every integer |
| Text.ParsePadded | src/context_memory/cache/redis_client.py:280-281 | white space around a number is ignored |
| Text.ParseSeparated | src/context_memory/cache/redis_client.py:280-281 | a plus sign in front and an underscore between digits are accepted |
| Text.ParseAlphabet | src/context_memory/cache/redis_client.py:280-281 | an accepted text is not blank and has only digits, underscores, signs and white space |
| Text.ShowDecimal | src/context_memory/cache/redis_client.py:280-282 | numbers are written in decimal, with a minus sign in front of negative ones |
| FallbackStore.RedisClient.GetFromFallback | src/context_memory/cache/redis_client.py:336-343 | returns the unexpired value or nothing, and drops the entry when it returns nothing |
| FallbackStore.RedisClient.SetInFallback | src/context_memory/cache/redis_client.py:345-350 | writes the entry for its seconds, 3600 without any, and beyond 10000 entries keeps exactly the unexpired ones |
| FallbackStore.RedisClient.CleanupFallback | src/context_memory/cache/redis_client.py:352-357 | the loop keeps exactly the unexpired entries |
| FallbackStore.RedisClient.DeleteFromFallback | src/context_memory/cache/redis_client.py:250-252 | removes the key and nothing else |
| FallbackStore.RedisClient.IncrementInFallback | src/context_memory/cache/redis_client.py:279-282 | stores and returns the parsed raw value plus the amount, or fails and changes nothing |
| FallbackStore.ReadsLastWrite | src/context_memory/cache/redis_client.py:336-357 | after every run, a read returns the value that the latest set or increment of the key stored if and only if it is unexpired; lazy and bulk removal are never visible to reads |
| FallbackStore.SetThenRead | src/context_memory/cache/redis_client.py:336-350 | a value is read before its time to live, 3600 seconds by default, has passed and not from then on; other keys are unaffected |
| FallbackStore.IncrementThenRead | src/context_memory/cache/redis_client.py:279-282 | an increment adds to the stored number or to zero, and the sum is read for 86400 seconds |
| FallbackStore.PurgeInvisible | src/context_memory/cache/redis_client.py:352-357 | the bulk clean-up changes no read at that time or later, from any store |
| FallbackStore.IncrementIgnoresExpiry | src/context_memory/cache/redis_client.py:280-281 | an increment agrees with one that respects expiry if and only if the entry is absent, unexpired or zero |
| FallbackStore.TtlMapIff | src/context_memory/cache/redis_client.py:279-282 | throughout a run the reads of a key are those of an abstract map with expiry, in which expired counters restart at zero, if and only if no increment of the key meets a stored entry that is expired and not zero |
| FallbackStore.ExpiredCounterReturns | src/context_memory/cache/redis_client.py:279-282 | a counter that a read no longer finds because it has expired comes back with its old sum on the next increment |
| FallbackStore.CounterSums | src/context_memory/cache/redis_client.py:279-282 | a counter that is never left to expire holds the running sum of its increments, whatever happens to other keys, late increments of theirs included |
| Cosine.SimilarityRange | src/context_memory/persistence/memory_repo.py:262-272 | every similarity lies in [-1, 1], for vectors of any length (Cauchy-Schwarz) |
| Cosine.SimilaritySymmetric | src/context_memory/persistence/memory_repo.py:262-272 | similarity is symmetric |
| Cosine.SimilarityScaleFree | src/context_memory/persistence/memory_repo.py:262-272 | scaling either vector by a positive factor changes nothing |
| Cosine.ZeroScore | src/context_memory/persistence/memory_repo.py:265-271 | vectors of different lengths and zero vectors score 0 |
| Cosine.TopScore | src/context_memory/persistence/memory_repo.py:267-272 | nonzero vectors score exactly 1 if and only if they point the same way |
| Cosine.SelfSimilarity | src/context_memory/persistence/memory_repo.py:267-272 | a nonzero vector scores exactly 1 against itself |
| Cosine.LawOfCosines | src/context_memory/persistence/memory_repo.py:267-272 | fixes every score: the squared distance is the sum of the squared lengths less twice the product of lengths and score |
| Cosine.ScoreIsDot | src/context_memory/persistence/memory_repo.py:267-272 | the score of nonzero vectors times both norms is their dot product |
| Cosine.ScoreExample | src/context_memory/persistence/memory_repo.py:267-272 | [1, 0] and [3, 4] score 0.6 |
| DummyEmbedder.DummyEmbedder.EmbedText | src/context_memory/embeddings/embedder.py:81-92 | the loop computes every component from the seed; blank text fails |
| DummyEmbedder.EmbeddingRange | src/context_memory/embeddings/embedder.py:88-91 | every component lies in [-1, 1) |
| DummyEmbedder.FirstComponent | src/context_memory/embeddings/embedder.py:88-91 | the first component is the seed times 2654435761, reduced mod 2^32 and mapped onto [-1, 1) |
| DummyEmbedder.Progression | src/context_memory/embeddings/embedder.py:88-91 | measured from -1, component i + j + 1 is the sum of components i and j modulo 2 |
| DummyEmbedder.CollisionIffCongruent | src/context_memory/embeddings/embedder.py:86-91 | in one or more dimensions two seeds give equal vectors if and only if they agree mod 2^32 |
| DummyEmbedder.ZeroNormIff | src/context_memory/embeddings/embedder.py:86-91 | an embedding has zero norm if and only if it is empty, or one-dimensional with a seed congruent to 2^31 |
| Lists.SortUnique | src/context_memory/persistence/memory_repo.py:236 | any stable descending sort, by whatever algorithm, gives the list the model uses |
| Memories.MemoryRepository.Create | src/context_memory/persistence/memory_repo.py:24-35 | appends the row unless the id is taken |
| Memories.MemoryRepository.UpdateRow | src/context_memory/persistence/memory_repo.py:80-117 | rewrites exactly the tenant's undeleted row and returns it as a lookup now finds it |
| Memories.MemoryRepository.SoftDelete | src/context_memory/persistence/memory_repo.py:119-138 | marks the tenant's undeleted row and says whether there was one |
| Memories.MemoryRepository.CleanupExpired | src/context_memory/persistence/memory_repo.py:239-260 | afterwards nothing is due, only due rows were marked, and the number returned is what the tenant's count lost |
| Memories.MemoryRepository.SearchSimilar | src/context_memory/persistence/memory_repo.py:205-237 | the scoring loop, the sort and the cut give the first entries of the stable ranking |
| Memories.MemoryService.AddMemory | src/context_memory/services/memory_service.py:49-119 | the new store and the result, with and without an embedding |
| Memories.MemoryService.GetMemory | src/context_memory/services/memory_service.py:121-127 | the answer is the live row at the read; the access is recorded on whatever the store has become by then |
| Memories.MemoryService.UpdateMemory | src/context_memory/services/memory_service.py:148-190 | rejects an importance outside [0, 10]; otherwise returns the row as a lookup now finds it, and stores the new vector if there is one |
| Memories.MemoryService.DeleteMemory | src/context_memory/services/memory_service.py:192-205 | deletes the row or reports that there is none |
| Memories.MemoryService.CleanupExpiredMemories | src/context_memory/services/memory_service.py:287-295 | the clean-up and its count |
| Memories.MemoryService.SearchSimilar | src/context_memory/services/memory_service.py:207-242 | the top entries without the expired ones, or an error when the query cannot be embedded |
| Memories.Clamp | src/context_memory/services/memory_service.py:70 | importance is clamped into [0, 10] and unchanged inside |
| MemoryRuns.StoreInvariant | src/context_memory/services/memory_service.py:62-97 | in every reachable store ids are unique, each hash is that of its content, importance lies in [0, 10], every row expires, and vectors belong to rows |
| MemoryRuns.AddThenFetch | src/context_memory/services/memory_service.py:62-79 | an added memory is found, with every column as given or defaulted, exactly by its tenant and until its given or default expiry |
| MemoryRuns.ReadAnswers | src/context_memory/services/memory_service.py:121-127 | a read answers with the row of the id if and only if it is the reader's, undeleted and unexpired |
| MemoryRuns.UpdateThenRead | src/context_memory/persistence/memory_repo.py:80-117 | a valid update is read back at once: given fields replaced, the hash that of the new content, the update time set, every other column kept |
| MemoryRuns.FetchCounts | src/context_memory/services/memory_service.py:121-127 | whatever ran between the read and the access, the access counts on the very row the read returned, on top of all accesses in between, and changes no other row or column |
| MemoryRuns.AccessesCounted | src/context_memory/persistence/memory_repo.py:147-163 | in every run a row's access count grows by exactly the number of access statements of its tenant for its id, before and after deletion |
| MemoryRuns.DeletedIsFrozen | src/context_memory/persistence/memory_repo.py:119-163 | no run changes the place, flag, vector or any column of a deleted row, except the three columns of the access statement |
| MemoryRuns.DeletedUnchangedIff | src/context_memory/persistence/memory_repo.py:147-163 | a deleted row stays exactly as it is if and only if the run has no access statement of its tenant for its id |
| MemoryRuns.AccessAfterDelete | src/context_memory/services/memory_service.py:123-126 | in every store, a delete that commits between the read and the access leaves a deleted row whose access count then changes |
| MemoryRuns.DeleteThenNever | src/context_memory/services/memory_service.py:192-205 | once deleted, a memory is never visible to anyone again |
| MemoryRuns.TenantIsolation | src/context_memory/persistence/memory_repo.py:37-48 | a run without operations of a tenant leaves its rows and vectors unchanged |
| MemoryRuns.EmbeddingsCurrent | src/context_memory/services/memory_service.py:157-190 | if the embedder answered all calls for a memory, its row carries the embedding of its current content unless that is empty or rejected by the embedder; calls for other memories do not matter |
| MemoryRuns.StaleAfterUpdate | src/context_memory/services/memory_service.py:171-188 | a content update replaces the vector exactly when the content is nonempty and the embedder answered |
| MemoryRuns.TestsDifferAtExpiry | src/context_memory/governance/retention.py:18-22 | the lazy and the clean-up expiry test differ only at the moment of expiry |
| MemoryRuns.CountIsUndeleted | src/context_memory/persistence/memory_repo.py:165-170 | the tenant's count is the number of its undeleted rows |
| MemoryRuns.CleanupCounts | src/context_memory/persistence/memory_repo.py:239-260 | clean-up returns exactly the drop in the tenant's count |
| MemoryRuns.CleanupIdempotent | src/context_memory/persistence/memory_repo.py:239-260 | a second clean-up at the same time changes nothing and returns zero |
| MemoryRuns.CleanupInvisibleToFetch | src/context_memory/services/memory_service.py:121-127 | a clean-up changes no answer of `get_memory` at any later time |
| MemoryRuns.CleanupAndFirstPage | src/context_memory/services/memory_service.py:129-141 | after a clean-up a first page extends what it was, and an unpaged list is unchanged |
| Search.TrueTopK | src/context_memory/services/memory_service.py:215-224 | the answer is sorted, has at most top_k entries, all live undeleted rows of tenant and type with their scores, and no omitted live candidate outscores a returned one |
| Search.AnswerColumns | src/context_memory/persistence/memory_repo.py:213-226 | every entry is an undeleted, unexpired row of the tenant, and of a given type, with the similarity of its own vector |
| Search.CandidateReturned | src/context_memory/persistence/memory_repo.py:213-237 | every such row with a nonempty vector is ranked, and returned when at most top_k candidates exist |
| Search.RankedOnce | src/context_memory/persistence/memory_repo.py:213-234 | no candidate is ranked twice |
| Search.CutThenFilter | src/context_memory/services/memory_service.py:217-223 | the answer is a prefix of the live top-k, and all of it if and only if the k best rows are live or no live row follows them |
| Search.SearchFallsShort | src/context_memory/services/memory_service.py:217-223 | a reachable store in which an expired row outranks a live one: a search for one result is empty, a search for two returns the live row |
| Search.CleanupBeforeSearch | src/context_memory/persistence/memory_repo.py:228-257 | the answer without a prior clean-up is a prefix of the answer with it |
| Search.PerfectScoresReturned | src/context_memory/persistence/memory_repo.py:228-237 | if at most top_k candidates score 1, each live one is returned, ahead of all lower scores |
| Search.ExactMatchInStore | src/context_memory/persistence/memory_repo.py:228-237 | in any store, with the dummy embedder in two or more dimensions, a live row that carries the query's vector is returned with score 1 ahead of all lower scores if at most top_k candidates score 1 |
| Search.ExactMatchFound | src/context_memory/services/memory_service.py:207-242 | after every history, with the dummy embedder in two or more dimensions, a live memory whose content is not blank and equals the query is returned with score 1 ahead of all lower scores |
| Pagination.AllPagesComplete | src/context_memory/services/memory_service.py:138-141 | pages 1 to ceil(rows / size) concatenate to the filtered session list |
| Pagination.NewestFirst | src/context_memory/persistence/memory_repo.py:63-65 | over all pages the rows come newest first |
| Pagination.SessionRowsExactly | src/context_memory/persistence/memory_repo.py:54-67 | the pages are cut from exactly the undeleted rows of the tenant's session, newest first |
| Pagination.ReportedTotals | src/context_memory/api/routes.py:413-437 | the total is the number of live rows among the first 10000, the pages are just enough for it, and no page exceeds its size |
| Pagination.EachRowOnce | src/context_memory/persistence/memory_repo.py:54-67 | over all pages each live row of session and type appears exactly once, and nothing else does |
| Pagination.ReportedPagesReach | src/context_memory/api/routes.py:405-437 | for every page size, type and number of rows, the reported pages reach every wanted row if and only if each stands within as many full pages as the live ones of the first 10000 rows need |
| Pagination.ExpiredRowsFit | src/context_memory/api/routes.py:405-437 | with at most 10000 rows, for every size and type: if and only if the expired rows before each wanted row are fewer than the last page's free places and the live rows from there on |
| Pagination.ExpiredRowsFitUntyped | src/context_memory/api/routes.py:405-437 | without a type filter: if and only if the expired rows before each live row fit into the free places of the last reported page |
| Pagination.ReportedPagesSuffice | src/context_memory/api/routes.py:413-437 | they do when no undeleted row has expired and there are at most 10000 |
| Pagination.ShortfallNeedsExpired | src/context_memory/services/memory_service.py:143-146 | with at most 10000 rows they fall short only if an expired row precedes a live one |
| Pagination.ShortfallFromExpired | src/context_memory/api/routes.py:405-437 | without a type filter they fall short whenever a page's worth of expired rows precedes a live one, for every page size |
| Pagination.ShortfallExample | src/context_memory/api/routes.py:405-437 | two rows for which the only reported page is empty and the live row is on the next |
| Sessions.SessionRepository.UpsertRow | src/context_memory/persistence/session_repo.py:22-54 | inserts a fresh row, or rewrites the five written columns of the existing one and keeps its expiry and archive flag; returns the key's row and changes no other |
| Sessions.SessionRepository.SetStatus | src/context_memory/persistence/session_repo.py:86-104 | writes the status of the key's row, archived or not, and returns the row as written |
| Sessions.SessionRepository.ArchiveRow | src/context_memory/persistence/session_repo.py:106-125 | archives the key's row and says whether there was one |
| Sessions.SessionRepository.CleanupRows | src/context_memory/persistence/session_repo.py:155-176 | afterwards nothing is due, only due rows were archived, and the number returned is what the tenant's unarchived sessions lost |
| Sessions.SessionService.EnsureSession | src/context_memory/services/session_service.py:22-60 | upserts the session as active and returns its row |
| Sessions.SessionService.GetSession | src/context_memory/services/session_service.py:62-70 | the answer is the unexpired session at the read; then the table, as it has become, has the session touched, or marked when it had expired |
| Sessions.SessionService.CompleteSession | src/context_memory/services/session_service.py:76-85 | sets the status, then archives; with no row at first, archives one that others create before the second statement; true if and only if the archive statement found a row |
| Sessions.SessionService.PauseSession | src/context_memory/services/session_service.py:87-96 | sets the status to paused and returns the stored row, archived or not |
| Sessions.SessionService.ResumeSession | src/context_memory/services/session_service.py:98-108 | sets the status to active, touches the row and returns it, archived or not |
| Sessions.SessionService.DeleteSession | src/context_memory/services/session_service.py:110-119 | archives the session; true if and only if the key has a row, archived before or not |
| Sessions.SessionService.CleanupExpiredSessions | src/context_memory/services/session_service.py:125-133 | archives the due sessions and counts them |
| Sessions.SessionService.UpdateSessionMetadata | src/context_memory/services/session_service.py:135-160 | merges or replaces the metadata of a session that is not archived, writing back the row it has read over what happened since, and returns the stored row |
| Sessions.KeysStayUnique | src/context_memory/models/session.py:51 | in every reachable table a tenant's session id names one row |
| Sessions.ArchivingIsPermanent | src/context_memory/persistence/session_repo.py:56-125 | after any operations an archived session is not returned, listed as active or counted |
| Sessions.EnsureThenGet | src/context_memory/services/session_service.py:22-60 | ensuring a session makes it retrievable, active and with the given user and metadata, if and only if its key was never archived; an unknown key gets a fresh row without expiry |
| Sessions.GetSessionAnswers | src/context_memory/services/session_service.py:62-70 | a lookup answers with the key's row if and only if it is neither archived nor expired |
| Sessions.TouchedFirst | src/context_memory/persistence/session_repo.py:127-140 | an active session that was just looked up heads the list of active sessions |
| Sessions.ActiveAfter | src/context_memory/services/session_service.py:62-133 | for each operation, exactly when the session counts as active afterwards |
| Sessions.RowAfter | src/context_memory/services/session_service.py:22-160 | the whole row of a session after each operation on it, column by column |
| Sessions.OtherSessionsUntouched | src/context_memory/persistence/session_repo.py:22-140 | an operation on one session leaves every other row unchanged and adds a row only by an upsert of an unknown key |
| Sessions.CountMatchesList | src/context_memory/persistence/session_repo.py:69-153 | the active count is the length of the unbounded active list, and a large enough page shows all of it |
| Sessions.InActiveList | src/context_memory/persistence/session_repo.py:69-84 | the active list holds exactly the tenant's unarchived sessions with status active, latest activity first |
| Sessions.TenantIsolation | src/context_memory/persistence/session_repo.py:56-176 | a run without operations of a tenant leaves its sessions unchanged |
| Sessions.MetadataRoundTrip | src/context_memory/services/session_service.py:135-160 | after a metadata update a lookup finds new fields winning and old ones kept only when merging, with status, user and expiry unchanged |
| Sessions.LateWriteOverwrites | src/context_memory/services/session_service.py:143-154 | whatever ran between its read and its write, a metadata update restores the user, status and metadata it had read, new fields added; the archive flag and the expiry of the meantime survive |
| Sessions.LateWriteIsCurrentIff | src/context_memory/services/session_service.py:143-154 | the late write has the effect of an update at write time if and only if user, status and resulting metadata are still those of the read; with the session archived since, an update would change nothing |
| Sessions.PauseUndone | src/context_memory/services/session_service.py:143-154 | a session paused between the read and the write of a metadata update is active again afterwards |
| Hydration.Pack | src/context_memory/session/hydration.py:44-56 | the loop packs a prefix that fits and that the next memory would overrun, and joins it |
| Hydration.SessionHydrator.Hydrate | src/context_memory/session/hydration.py:24-71 | ensures the session, then packs the live ones among its newest 100 undeleted memories |
| Hydration.PackIsLongest | src/context_memory/session/hydration.py:48-54 | the packed prefix is the longest that fits, and the only one that meets the exit condition |
| Hydration.CountWithinTokens | src/context_memory/session/hydration.py:48-54 | the memory count is at most the token count and the budget |
| Hydration.PackMonotone | src/context_memory/session/hydration.py:48-54 | a larger budget only extends the packed prefix |
| Hydration.TokensSnoc | src/context_memory/session/hydration.py:48-54 | each text adds a quarter of its length, rounded down, and one |
| Hydration.ContextWithinBudget | src/context_memory/session/hydration.py:44-56 | the estimate of the joined context, separators included, is at most the token count and the budget |
| Hydration.JoinConcat | src/context_memory/session/hydration.py:56 | the context is the texts in order with one newline between each two |
| Hydration.CleanupNeverShrinksContext | src/context_memory/session/hydration.py:38-56 | a clean-up beforehand never costs a hydration any memory it would have packed |

## Left out

- SQLAlchemy, PostgreSQL and Redis themselves: a table is a list with one fixed row order, a Redis call is a step that succeeds or fails.
- Commit and rollback: runs are runs of committed operations. The request dependency in src/context_memory/persistence/database.py:71-80 closes its session before the enclosing context manager commits, which by reading discards uncommitted writes; the model does not include this.
- Concurrency inside a single statement, and between the two queries of the listing route, which only read: both see one store.
- Whether the object-relational mapper refreshes the access and activity columns of an object that was returned before the second statement.
- Floating-point rounding: similarities are exact reals, so overflow and underflow of the norms do not occur; the dummy embedder's components are exact in floating point anyway.
- The existence of a real square root: the lemmas on similarity take a function that satisfies its defining equation.
- Model name, version and checksum of an embedding row; session columns that no modelled operation reads.
- `batch_create`, `hard_delete`, `get_by_tenant` and `embed_batch`: loops or filters over operations that are modelled.
- `OpenAIEmbedder`, retries, connecting, Redis locks, and agreement between Redis and the fallback store across mode switches.
- Fallback `exists` and `get_ttl`, which treat expired entries differently from `get`.
- JWT, RBAC and ABAC, the tenant guard, telemetry, logging, settings, other middleware and other routes.
- Text.ParseShow: the parser covers ASCII digits with single underscores, sign and surrounding white space; other Unicode digits are not modelled.
- Search.TrueTopK: stated for a non-negative top_k, as the route requires; a negative one is modelled as Python's slice but has no top-k meaning.
- MemoryRuns.EmbeddingsCurrent: a row whose content is empty or rejected by the embedder carries an older vector or none.
