# TinyURL: a model of links, their stores and the versioned redirect cache

This project models the link service in Dafny and proves what its parts promise together: the
versioned cache-aside protocol in front of the link repository, the link life cycle and its
optimistic concurrency, creation with retries and idempotency keys, and the smaller algorithms the
service rests on (decimal versions in the cache script, random codes, the latency histogram, the
migration runner).

`dafny verify dfyconfig.toml` checks everything.

## How the model is laid out

| file | what it holds |
|---|---|
| `Prelude.dfy` | results, errors, integer bounds, white-space trimming |
| `Domain.dfy` | link values, life cycle, redirect projection |
| `LinkObject.dfy` | the Go struct with its shared expiration pointer, and its mutating methods |
| `StoreModel.dfy`, `MemoryStore.dfy` | what a repository computes; the in-memory repository and idempotency store |
| `PostgresStore.dfy` | rows, the five-column update, and their refinement of the map |
| `CacheModel.dfy`, `Decimal.dfy`, `RedisCache.dfy` | the typed cache, decimal strings, the Redis hashes and script |
| `CacheProtocol.dfy` | the protocol as a state machine, and its inductive invariant |
| `CacheTheorems.dfy`, `LateFill.dfy` | staleness, deletion, coherence, residency; the run showing that the bounds are exact |
| `Serializability.dfy` | histories of the change use cases |
| `RedisRefinement.dfy` | whole protocol runs on string hashes |
| `UseCases.dfy`, `UseCaseRuns.dfy` | the use cases as methods, and as runs of the protocol |
| `RequestTheorems.dfy` | what clients see over whole runs: redirect answers, and whose requests change a link |
| `CreateLink.dfy`, `IdempotencyRace.dfy`, `CreateRuns.dfy` | creation with retries; racing creations with one key; how they meet |
| `Base62.dfy`, `Metrics.dfy`, `Migrations.dfy` | code generation, the histogram, the migration runner |

**The protocol.** A state holds the clock, the repository, the cache, the conditional writes under
way, the redirect requests and the change requests in their phases, and the redirects answered so
far. One event is one atomic effect: a tick, a creation, a cache hit, a miss or cache failure, a
source read or its failure, issuing a fill, answering a redirect, finding a link for a change, changing the local
copy, committing, issuing a refresh, a put landing, an eviction. A run is any interleaving of any
number of requests. Puts may be lost or delivered several times. The theorems speak about the states
of the run itself: "was current" means that an earlier state's repository held that link.

**Assumptions.** One global clock, in integer nanoseconds, spanning less than 2^63 - 1 ns in a run.
`delay` bounds the time from a source read or a commit to the landing of its put; the 25 ms client
timeout alone does not give such a bound, so it is a parameter. The delay from Resolve's answer to
the final status check is not bounded at all: the theorems date a redirect by the moment its mapping
was obtained. Destinations are opaque strings; the URL parser is a parameter whose results are
assumed to parse to themselves (`RedisCache.Faithful`). Each locked method, script run and SQL
statement or transaction is one step.

## What turned out otherwise than documented

- `docs/adr/0002-versioned-cache-aside.md:86` says that rejecting older writes closes the race of a
  late fill. It does so exactly while a newer entry is resident (`CacheModel.PutKeepsNewest`). After
  an eviction the older mapping returns (`LateFill.OlderVersionReturns`), and only the TTL bounds it.
- `docs/architecture/system-overview.md:168` calls idempotent creation strong per owner and key. All
  successful responses do agree (`IdempotencyRace.ResponsesAgree`), but a racing execution is refused
  with a conflict, not replayed, exactly when the key was recorded before its Save, and its link
  stays behind (`IdempotencyRace.LateSaveConflicts`, `IdempotencyRace.RaceLeavesOrphan`).
- The latency histogram's percentiles bracket the samples exactly while count * percentile + 99 fits
  a uint64 (`Metrics.PercentileBracketExactly`). Past that a higher percentile can be reported below
  a lower one; two percentiles keep their order for all samples exactly when their computed
  thresholds do (`Metrics.PercentileMonotoneExactly`, `Metrics.PercentileFalls`).
- The histogram's average is the average for counts below 2^63 exactly when the total fits a
  Duration. From 2^63 samples on the count itself turns negative, and the exact condition is
  `Metrics.AverageFits` (`Metrics.AverageIsExact`, `Metrics.CountWraps`).
- `docs/architecture/redirect-cache.md:104-110` describes a refresh after creation. The code refreshes
  after updates only, and so does the model.

## Model

| member | source | states |
|---|---|---|
| CacheTheorems.BoundedStaleness | internal/link/application/cache_aside_resolver.go:72-130 | in every interleaving, what Resolve returns was the repository's current link (up to milliseconds) in an earlier state less than delay + TTL before it was obtained: the active TTL for active mappings, the inactive one for all others |
| CacheTheorems.RedirectsAreSound | internal/link/application/redirect_link.go:35-51 | every redirect ever answered goes to the destination of a link that really was stored, active, unexpired at the answer, and current within the active window |
| CacheTheorems.DeletionWins | internal/link/application/redirect_link.go:39-50 | no redirect whose mapping is obtained delay + activeTTL or later after a deletion succeeds in the rest of the run |
| CacheTheorems.Convergence | internal/link/application/cache_aside_resolver.go:72-130 | once a stored link has been left alone for delay plus the TTL of the mapping's status, every answer of Resolve is its projection |
| CacheTheorems.ChangeTakesEffect | internal/link/application/redirect_link.go:35-51 | a redirect obtained delay + activeTTL after the last change of a code goes where the stored link points, and the stored link allows it |
| CacheTheorems.ReactivationTakesEffect | internal/link/application/cache_aside_resolver.go:172-198 | from delay + inactiveTTL after a reactivation, and while the link stays active, Resolve returns no disabled or deleted mapping of its code |
| RequestTheorems.AnswersAreSound | internal/link/application/redirect_link.go:35-51 | every destination that a client is sent to was that of a stored link of the code, active, unexpired at the answer, and current within the active window |
| RequestTheorems.SettledAnswers | internal/link/application/redirect_link.go:35-51 | once a stored link has been left alone for the window, the answer is its destination while it is active and a millisecond from expiring, and unavailable once it is disabled, deleted or expired |
| RequestTheorems.DeletedIsUnavailable | internal/link/application/redirect_link.go:39-47 | from delay + activeTTL after a deletion every answer is that the link is unavailable |
| RequestTheorems.OnlyOwnersChange | internal/link/application/change_link_status.go:36-83 | whatever happens to a stored link was requested by its owner, for its code, against the version it replaces, and is carried out exactly as requested |
| CacheTheorems.CacheCoherence | internal/link/application/cache_refreshing_repository.go:45-58 | every resident entry is the millisecond-truncated projection of the one link that ever carries its version, which never exceeds the repository's |
| CacheTheorems.VersionDetermines | internal/link/domain/link.go:148-162 | over a whole run a version number of a code names one link value, and versions never go back |
| CacheTheorems.ResidencyIsMonotone | internal/link/adapters/redis/redirect_cache.go:19-45 | while a key stays resident its version never decreases, and equal versions mean equal mappings |
| CacheTheorems.ResidentDeletionStays | internal/link/adapters/redis/redirect_cache.go:19-45 | a resident deleted entry stays that entry as long as it is resident |
| CacheTheorems.LandedVersionIsVisible | docs/architecture/redirect-cache.md:216 | once a put has landed, every read returns at least its version while the key stays resident |
| LateFill.OlderVersionReturns | docs/adr/0002-versioned-cache-aside.md:73-87 | for every configuration with whole-millisecond active TTL, a run in which an evicted newer version is replaced by the older one and a deleted link still redirects one nanosecond before the bound |
| CacheProtocol.Invariant | internal/link/application/redirect_cache_refresher.go:39-62 | the inductive invariant of links, mutators, puts, entries, readers and redirects holds in every state of every run |
| CacheProtocol.CommitContinues | internal/link/adapters/memory/repository.go:56-76 | whatever interleaved, a compare-and-set that succeeds writes the result of the change applied to the link now stored |
| Serializability.Serializable | internal/link/application/change_link_status.go:36-83 | each stored link is the created link with the successful changes applied in commit order; the i-th was made against version i + 1, and the version counts them |
| Serializability.AtMostOneCommitPerVersion | internal/link/application/change_link_destination.go:55-70 | of all requests that hold the same version of a code at most one commits |
| Serializability.HistoryChain | internal/link/domain/link.go:148-250 | between any two states code, owner and creation time are kept, the version advances by the commits in between, updatedAt strictly with it, and no version overflows a uint64 or a bigint |
| CacheModel.TTLClamp | internal/link/application/cache_aside_resolver.go:172-198 | the TTL is positive, within the one configured for active or for inactive mappings and within the remaining lifetime, one of the two exactly, and refused exactly for expired mappings |
| CacheModel.PutKeepsNewest | internal/link/adapters/redis/redirect_cache.go:19-45 | after a put the greater version is live; the put is refused exactly when a live entry has a strictly greater version; other keys are untouched |
| CacheModel.MaximumSurvives | internal/link/adapters/redis/redirect_cache.go:19-45 | within one residency the surviving mapping is one of the puts and has the maximum version |
| CacheModel.OrderIrrelevant | internal/link/adapters/redis/redirect_cache.go:19-45 | any two delivery orders of the same puts within one residency end in the same mapping |
| CacheModel.TruncationIsConservative | internal/link/adapters/redis/redirect_cache.go:133-136 | a cached copy redirects only if its source projection does, and loses less than a millisecond |
| Decimal.ScriptComparesNumbers | internal/link/adapters/redis/redirect_cache.go:23-31 | the script's length-then-lexicographic test is numeric comparison on all canonical decimals |
| Decimal.DecimalRoundTrip | internal/link/adapters/redis/redirect_cache.go:93-159 | printing then parsing is the identity on every uint64 and every int64 |
| Decimal.ParseIntIsExact | internal/storage/postgres/migrations.go:110 | exactly the optionally signed digit strings in the range of an int64 parse, to the number they denote |
| Decimal.CanonicalIsFormatted | internal/link/adapters/redis/redirect_cache.go:146 | the canonical strings are exactly the printed ones |
| Decimal.ETagRoundTrip | internal/link/adapters/httpapi/management_handler.go:219-237 | parsing an entity tag returns the version it was printed from, for every version but 0, which is refused |
| Decimal.IfMatchIsExact | internal/link/adapters/httpapi/management_handler.go:219-230 | exactly the quoted positive uint64 decimals are accepted, as the number they denote; everything else is an invalid version |
| CacheTheorems.TagIdentifiesLink | internal/link/adapters/httpapi/management_handler.go:237 | over a whole run two links of one code carry the same entity tag exactly when they are the same link |
| RedisCache.HashRoundTrip | internal/link/adapters/redis/redirect_cache.go:58-159 | decoding a written hash gives the mapping with its expiration floored to the millisecond |
| RedisCache.HashLayout | internal/link/adapters/redis/redirect_cache.go:93-159 | the key and the four strings that a mapping is stored under |
| RedisCache.DecodeIsExact | internal/link/adapters/redis/redirect_cache.go:58-121 | a hash is read as a mapping exactly when code, destination, status, version and expiration make sense, and is corrupt otherwise |
| RedisCache.MillisFloor | internal/link/adapters/redis/redirect_cache.go:133-174 | stored expirations are whole milliseconds since the start of 1970 in the Gregorian calendar |
| RedisCache.ScriptRefinesPut | internal/link/adapters/redis/redirect_cache.go:19-45 | the script on string hashes is the typed conditional put |
| RedisCache.GetAfterPut | internal/link/adapters/redis/redirect_cache.go:123-174 | an accepted put followed by a get before the deadline returns the put mapping, floored |
| RedisCache.RedirectCache.PutIfNewer | internal/link/adapters/redis/redirect_cache.go:123-159 | the new keys and the error of a put, for sub-millisecond TTLs, lost requests and lost replies too |
| RedisCache.RedirectCache.Get | internal/link/adapters/redis/redirect_cache.go:58-121 | the answer of a get: miss, decoded mapping, or error |
| RedisRefinement.HashesRefineCache | internal/link/adapters/redis/redirect_cache.go:58-159 | over every run, hashes written by the script represent the typed cache, and each lookup decodes to the protocol's cache read |
| Domain.ChangeDoes | internal/link/domain/link.go:136-250 | a change succeeds exactly when the life cycle allows it, it asks for something new and it is stamped after the last one; it sets what was asked, the stamp and the version, and nothing else |
| Domain.ChangeFails | internal/link/domain/link.go:148-250 | which error each refused change gets: about its argument, the link, or its stamp |
| Domain.NewLinkIsExact | internal/link/domain/link.go:37-81 | which arguments make a link and which link, and which error the first unusable argument gets |
| Domain.RehydrateFails | internal/link/domain/link.go:252-316 | which error stored fields that make no link get |
| Domain.StatusRoundTrip | internal/link/domain/status.go:41-66 | the three status texts, and that nothing else parses |
| Prelude.TrimSpaceStrips | internal/link/domain/link.go:44-53 | trimming takes away white space at the two ends and nothing else |
| Domain.ChangeEvolves | internal/link/domain/link.go:148-250 | a change keeps every link invariant, raises the version by one and updatedAt strictly, and never leaves Deleted |
| LinkObject.MakeLink | internal/link/domain/link.go:37-81 | the constructor's result and error; the expiration cell is a fresh copy |
| LinkObject.LinkVariable.TransitionTo | internal/link/domain/link.go:148-162 | the receiver becomes the specified link or stays untouched; no shared time cell is written |
| LinkObject.LinkVariable.UpdateDestination | internal/link/domain/link.go:180-202 | the receiver becomes the specified link or stays untouched; no shared time cell is written |
| LinkObject.LinkVariable.SetExpiration | internal/link/domain/link.go:204-230 | the receiver points to a fresh cell or stays untouched; the old cell is not written |
| LinkObject.LinkVariable.ClearExpiration | internal/link/domain/link.go:232-250 | the receiver drops its pointer or stays untouched; the old cell is not written |
| MemoryStore.Repository.Insert | internal/link/adapters/memory/repository.go:24-39 | the map after an insert and its error; the struct is stored as given |
| MemoryStore.Repository.FindByCode | internal/link/adapters/memory/repository.go:41-54 | the stored struct, its expiration cell still shared, or not found |
| MemoryStore.Repository.Update | internal/link/adapters/memory/repository.go:56-76 | the map after a compare-and-set and its error |
| MemoryStore.IdempotencyStore.Save | internal/link/adapters/memory/idempotency.go:48-72 | a record is written once; a different struct, expiration compared by pointer, conflicts |
| PostgresStore.RowRoundTrip | internal/link/adapters/postgres/repository.go:141-191 | a row scans back to the valid link it was written from |
| PostgresStore.PostgresRefinesMap | internal/link/adapters/postgres/repository.go:28-139 | over every run the table gives the same write results, the same errors, the same links and the same lookups as the map |
| PostgresStore.Repository.Update | internal/link/adapters/postgres/repository.go:88-125 | rows and error of the two-statement update, also when the code appears in between, a statement or the existence query fails, or a reply is lost |
| UseCases.CacheAsideResolver.Resolve | internal/link/application/cache_aside_resolver.go:72-130 | a usable entry is the answer; otherwise the source alone decides, no cache failure shows, and the fill is exactly the specified put |
| UseCases.CacheRefreshingRepository.Update | internal/link/application/cache_refreshing_repository.go:45-58 | the source's result is the result; the cache is refreshed after a commit and only then |
| UseCases.CacheRefreshingRepository.Refresh | internal/link/application/redirect_cache_refresher.go:39-62 | the keys after a refresh, and its error for failed projections, expired mappings, short TTLs and network failures |
| UseCases.ExecuteChange | internal/link/application/change_link_expiration.go:34-76 | it succeeds exactly when the stored owner asks, against the current version, for something that may be done now; it then stores the link with just that changed and refreshes with it; a foreign or blank owner is denied; every failure leaves repository and cache untouched |
| UseCases.OutcomeIsExact | internal/link/application/change_link_destination.go:33-73 | exactly which requests are granted, and what the changed link then carries |
| UseCases.AccessIsExact | internal/link/application/change_link_status.go:40-60 | which requests are refused before the change is tried, in which order and why |
| UseCases.ExecuteRedirect | internal/link/application/redirect_link.go:35-51 | the client is sent to the destination of the usable cache entry or else of the stored link, exactly when that is active and unexpired now; the error of each other case |
| UseCases.AnswerIsExact | internal/link/application/redirect_link.go:39-50 | the resolver's error passes through, an active unexpired mapping is answered with its destination, any other is unavailable |
| UseCases.RefreshIsVisible | internal/link/application/redirect_cache_refresher.go:39-62 | after a refresh that reaches the cache, lookups within the TTL return the changed link, unless a newer version is resident |
| UseCaseRuns.HitIsARun | internal/link/application/cache_aside_resolver.go:82-88 | a usable entry is one event of the protocol and its decoded mapping the answer |
| UseCaseRuns.FailedReadIsARun | internal/link/application/cache_aside_resolver.go:97-101 | a miss followed by a source read that fails, or finds nothing to redirect to, leaves the protocol's state as it was |
| UseCaseRuns.ResolveIsARun | internal/link/application/cache_aside_resolver.go:96-129 | an undisturbed Resolve past a miss is the protocol's miss, read, fill and, exactly when its put is tried and reaches the cache, one landing; the adapter's keys represent the final cache |
| UseCaseRuns.AnswerIsARun | internal/link/application/redirect_link.go:35-51 | the last check of a redirect is one more event, and a redirect is answered exactly when the check passes at that time |
| UseCaseRuns.ChangeIsARun | internal/link/application/change_link_destination.go:33-73 | an undisturbed change is the protocol's find and local change, and, unless refused there with nothing stored, commit, refresh and, exactly when its put is tried and reaches the cache, one landing; the adapter's keys represent the final cache |
| UseCaseRuns.RequestsAreRequestable | internal/link/application/change_link_destination.go:59-66 | what the use cases hand on meets the assumption that the string-level theorems make |
| CreateLink.InsertFresh | internal/link/application/create_generated_link.go:68-108 | the first attempt that does not collide settles the loop; all attempts share one creation time; five collisions are exhaustion |
| CreateLink.Execute | internal/link/application/create_generated_link.go:48-117 | with a key or without, the first attempt whose code is free stores the link with exactly the requested destination, owner and expiration, and five collisions are exhaustion; a recorded key replays; a failing lookup or destination touches nothing; a success records exactly its link; a failing record leaves the link behind |
| CreateLink.CandidateIsExact | internal/link/application/create_generated_link.go:72-90 | from which codes and requests an attempt builds a link, and which link |
| CreateRuns.CreateIsARun | internal/link/application/create_generated_link.go:48-117 | an undisturbed creation is a run of the racing machine: without a key its insertion or nothing; with one nothing, a replay, or lookup, insertion and save, or its giving up |
| IdempotencyRace.ResponsesAgree | internal/link/application/create_generated_link.go:52-116 | all successful responses for one owner and key carry one code, the record never changes, its link exists |
| IdempotencyRace.LateSaveConflicts | internal/link/adapters/memory/idempotency.go:61-71 | a Save conflicts exactly when the key was recorded meanwhile, and its link is then named by no record ever |
| IdempotencyRace.RaceLeavesOrphan | internal/link/application/create_generated_link.go:110-114 | a run of two racing executions that leaves two links for one key |
| Base62.Generate | internal/link/adapters/codegen/base62.go:33-63 | the code is the first symbols of the accepted stream; it succeeds exactly when the full blocks hold enough; it terminates |
| Base62.CodeByByte | internal/link/adapters/codegen/base62.go:50-55 | each accepted byte gives the symbol of the alphabet at its remainder modulo 62 |
| Base62.RejectedByte | internal/link/adapters/codegen/base62.go:51-53 | a byte from 248 up gives no symbol, wherever it stands |
| Base62.PreimagesAreExact | internal/link/adapters/codegen/base62.go:50-55 | the counted byte strings are exactly the accepted ones that map to the code |
| Base62.Uniform | internal/link/adapters/codegen/base62.go:12-16 | every code of length n has exactly 4^n accepted preimages |
| Metrics.Histogram.Observe | internal/metrics/recorder.go:186-206 | the sample is added: count, wrapped total, extremes and every bucket stay those of the sample sequence |
| Metrics.BucketsPartition | internal/metrics/recorder.go:13-23 | every duration belongs to exactly one bucket, between the listed bounds |
| Metrics.Histogram.PercentileUpperBound | internal/metrics/recorder.go:227-248 | the value reported for the threshold's rank; the fallback is reached only by an empty histogram or a percentile above 100 |
| Metrics.PercentileBracketExactly | internal/metrics/recorder.go:227-248 | that the nearest-rank percentile is at most the reported value and above the bound before it holds for all samples of a given count if and only if count * percentile + 99 fits a uint64 |
| Metrics.PercentileMonotoneExactly | internal/metrics/recorder.go:227-248 | one percentile reports no less than another for all samples of a given count if and only if its computed threshold is no lower |
| Metrics.PercentileMonotone | internal/metrics/recorder.go:227-248 | higher percentiles report higher values while count * percentile + 99 fits a uint64 |
| Metrics.PercentileFalls | internal/metrics/recorder.go:227-248 | past that range, samples whose 100th percentile is reported below their 99th |
| Metrics.ThresholdIsNearestRank | internal/metrics/recorder.go:228-231 | the threshold is the nearest rank exactly when the product fits; wrapped or not it is a valid rank, so the final fallback is not reached |
| Metrics.ThresholdWraps | internal/metrics/recorder.go:228 | a count at which the threshold of the 100th percentile has wrapped to the first rank while that of the 99th is still the nearest rank |
| Metrics.BucketsSumToCount | internal/metrics/recorder.go:198-205 | the bucket counters sum to the count, prefix by prefix |
| Metrics.Histogram.BucketSnapshot | internal/metrics/recorder.go:250-265 | each le_ value counts the samples at or below its bound, gt_ the rest |
| Metrics.AverageIsExact | internal/metrics/recorder.go:215-220 | for every uint64 count, the reported average is the average, hence between minimum and maximum, if and only if the total fits a Duration, or, from 2^63 samples on, total and negative count satisfy AverageFits |
| Metrics.AverageWraps | internal/metrics/recorder.go:196-219 | two samples whose reported average is negative |
| Metrics.CountWraps | internal/metrics/recorder.go:196-219 | 2^64 - 1 samples whose total of 5 is reported as an average of -5 |
| Metrics.Recorder.ObserveDuration | internal/metrics/recorder.go:51-70 | the sample reaches the histogram of its name, created when needed, and no other; negative durations count as zero; a missing recorder or an empty name records nothing |
| Migrations.DiscoverMigrations | internal/storage/postgres/migrations.go:91-144 | succeeds exactly for usable, distinct versions, and lists just the files of the name pattern in strictly increasing order, each with its contents and their checksum; an error blames the first entry that is wrong |
| Migrations.Connection.RunMigrations | internal/storage/postgres/migrations.go:72-88 | the loop's effect and result under any interruption |
| Migrations.RunIsExact | internal/storage/postgres/migrations.go:72-88 | a run succeeds if and only if it meets no interruption and no differing checksum, and then commits and reports exactly the pending migrations in order; otherwise it has committed those before its first stop, whose cause is the error |
| Migrations.RunAddsInOrder | internal/storage/postgres/migrations.go:72-88 | a run cut anywhere commits only pending candidates, once each, in increasing order, and changes no record |
| Migrations.SuccessRecordsAll | internal/storage/postgres/migrations.go:146-176 | a run without error leaves every candidate recorded with its checksum |
| Migrations.RerunAfterSuccess | internal/storage/postgres/migrations.go:73-80 | an immediate rerun applies nothing |
| Migrations.ChecksumGuard | internal/storage/postgres/migrations.go:159-166 | an edited applied file makes every run fail and keeps its record |
| Migrations.EditedFileFails | internal/storage/postgres/migrations.go:130-166 | a directory in which an applied version's file no longer has the recorded checksum makes every run fail, and the record stays |
| Migrations.ReportsWhatItApplied | internal/storage/postgres/migrations.go:82-88 | a successful run reports exactly the migrations it committed, in order |
| Migrations.CommitsAtMostOnce | internal/storage/postgres/migrations.go:178-209 | over any sequence of interrupted runs each version commits at most once and keeps its first record |
| Migrations.CommitsInDirectoryOrder | internal/storage/postgres/migrations.go:72-144 | over any sequence of interrupted runs of a directory that only grows at its end, the committed versions are a gapless initial part of the directory, in its order |

## Left out

- HTTP routing, JSON, status codes, health, diagnostics tokens, analytics and configuration: plumbing.
- URL parsing, SHA-256, random bytes, the Redis and Postgres clients: parameters of the model.
- The Postgres idempotency store: it compares codes where the memory store compares structs; racing executions never share a code, so `IdempotencyRace` covers both, including a database record whose reply is lost.
- The fixed metric names of the Record methods and the milliseconds shown in snapshots: constants, and a float conversion.
- Mutexes: every locked method is one step. Context timeouts: a cache or store step may fail, before or after it takes effect.
- Postgres microsecond timestamps and Go's monotonic clock readings: time is one integer.
- The version test of the script on non-canonical strings: no writer produces them.
- Planned features that are not in the code: outbox, negative caching, jitter, request coalescing.
- BoundedStaleness: the time from Resolve's answer to the status check is unbounded in the code, so staleness is measured when the mapping is obtained.
- ObserveDuration: stated for fewer than 2^64 samples of one name, the range of the counter.
- Observe: stated for fewer than 2^64 samples and, as its caller clamps them, non-negative durations.
- CommitsInDirectoryOrder: a file added below an applied version is committed later than it, so the order across runs is stated for directories that grow at the end.
- HashRoundTrip: stated for expirations whose Unix milliseconds fit an int64, the range that the adapter can print.
- ApplyMigration: what a migration's SQL does to the schema; a commit is modelled by its version and record.
- RunMigrations: lock acquisition and table creation come before the modelled loop; runs are serialized by the advisory lock.
