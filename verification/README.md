# Slate gateway and services: a verified model

This project models five parts of the Slate learning platform and proves what they keep over whole
runs: the API gateway's route table and router, its rate limiter, its circuit breaker (with the one
of the content-management service) and its channel pool, and the assignment-grading service's rate
limiters, grading services and gradebooks. Run `dafny verify dfyconfig.toml` to check all of it.

## How it is organised

Each module states an operation twice: as a function of values, which the theorems are about, and as
a method of a class (or a method with loops) in the source's own steps, proved equal to that function.

- **Routing.** `Text`, `RoutePatterns`, `Routes`, `RouteValidator`, `OverrideHandler`, `RequestRouter`,
  `ConventionMapper` and `RouteDiscovery` model single components. `RefreshStability` and
  `RefreshTheorems` are about the life of the table: start-up, refresh cycles with an arbitrary
  outcome for each service, and admin refreshes. `ConventionLaws` and `RefreshLaws` tell what names map to
  and what each kind of answer leads to without reference to the operations' own functions.
  `EndToEndRouting` goes from method names to answered requests.
- **Gateway rate limiter.** `GatewayRateLimiter` (the LRU cache as a list, most recently used first),
  `GatewayRateLimiterRuns` (window bound), `GatewayRateLimiterIdeal` (refinement of a limiter with a
  full log), `GatewayRateLimiterDeques`, `GatewayRateLimiterLaws`.
- **Grading-service rate limiters.** `MemoryLimiter`, `RedisLimiter` over an abstract Redis (counter and
  deadline per key, and for each round trip a reply or a failure after any prefix of its commands), and
  `FallbackLimiter`, which switches between them. `MemoryLimiterIdeal` compares the memory limiter with a log
  of all accepted attempts; `RedisLimiterRuns` says which calls a Redis that answers lets in.
- **Breakers.** `GatewayBreaker` with each critical section atomic, `GatewayBreakerRuns` with any number
  of calls in flight and calls dropped by the handler's timeout (handlers/gateway.rs, lines 35-38), and
  `ContentBreaker` with the equivalence of the two on sequential runs.
- **Grading.** `LatePolicies`, `GradingModels`, `GradingSteps` (operations on three tables and a file
  store), `GradingLaws` (when each succeeds and what exactly changes), `GradingService` (the services step by
  step), `GradingRuns` and `GradingHistory` (whole runs), `Gradebook` and `GradebookAgreement`. Points are reals; times are integers.
- **Pool.** `ConnectionPools`, with the 64-bit wrap of the counter.

Clocks, Redis replies, discovery outcomes, fresh ids, stored file names and iteration orders of hash maps
are parameters. Times are nanoseconds.

## Where the code differs from what is said about it

- Work handed in late where no late work is allowed keeps its full score: lateness is then recorded as
  zero days (late_policy_calculator.go, lines 24-27 and 48-51), although the service's README, lines 254-270,
  and the field's comment (internal/models/assignment.go, line 11) have it scored zero.
  `DocumentedRuleKeptExactly` says exactly when the rule is kept.
- A grade keeps the adjusted score of the submission it was given for, although a resubmission replaces
  that submission (`StaleScoreIsReachable`); `AdjustedScoresAreCurrentExactly` says when this matters.
- A fallback limiter created while Redis is unreachable has no Redis client and never recovers
  (`NeverRecoversWithoutRedis`), although its health check is meant to return to Redis.
- The limit of the fallback limiter can be doubled across a Redis failure (`FactorTwoIsReached`); it is kept
  while one limiter answers the client (`OneLimiterKeepsTheLimit`). The limit of the gateway's limiter can be
  exceeded once more than 10,000 clients are active (`EvictionForgets`, `WindowBound`).
- The limiter over Redis is described as a sliding window (redis_limiter.go, line 71), but refused calls count
  too and every call puts the expiry off (`AnswersFollowChains`, `RefusedUntilPause`); the memory limiter, which
  stands in for it, records only what it allows (`AttemptsAreIdeal`).
- The memory limiter panics on a non-positive limit (`PanicsExactly`).
- A static route configured with a verb that is not upper-case answers no request; `ReachableExactly` says
  which static routes can.
- Beyond 1000 assignments the two gradebooks agree only on students whose grades off the first page are worth
  nothing (`GradebooksAgreeExactly`).

## Model

| member | source | states |
|---|---|---|
| `Text.SegmentsOfJoin` | services/api-gateway/src/router/mod.rs:230-234 | Splitting a canonical path at its slashes gives back exactly the segments it was joined from. |
| `Text.SegmentsAreSegments` | services/api-gateway/src/router/mod.rs:258 | Whatever the path, every piece kept from it is non-empty and free of slashes. |
| `Text.CasesAreInverse` | services/api-gateway/src/router/mod.rs:167 | Upper and lower case undo each other on letters and leave all else alone. |
| `Text.SegmentsAtSlash` | services/api-gateway/src/router/mod.rs:258 | Any path, cut at any of its slashes, has the segments of its two parts, one after the other. |
| `Text.SegmentsWithoutSlash` | services/api-gateway/src/router/mod.rs:258 | A piece without a slash is one segment, or none if it is empty; with the row above this settles the segments of every path. |
| `RoutePatterns.RoutePattern.Matches` | services/api-gateway/src/router/mod.rs:257-281 | The matching loop succeeds exactly when lengths agree and every static segment occurs literally, and returns each parameter bound to the last segment its name stands at. |
| `RoutePatterns.BoundToLast` | services/api-gateway/src/router/mod.rs:275-277 | A parameter is bound to the segment at the last position of its name. |
| `RoutePatterns.RefillExactly` | services/api-gateway/src/router/mod.rs:257-281 | After a match, writing the parameters back into the pattern gives the path's segments if and only if equally named positions hold equal segments. |
| `RoutePatterns.MatchThenFill` | services/api-gateway/src/router/mod.rs:257-281 | With distinct parameter names every match can be undone. |
| `RoutePatterns.FillThenMatch` | services/api-gateway/src/router/mod.rs:229-281 | Filling a parsed pattern's distinct parameters with non-empty slash-free values and matching the joined path returns exactly those values. |
| `RoutePatterns.RepeatedNameLosesSegment` | services/api-gateway/src/router/mod.rs:275-277 | A concrete pattern with a repeated name for which refilling does not give the path back. |
| `RequestRouter.RequestRouter.constructor` | services/api-gateway/src/router/mod.rs:81-90 | A new router's three tables are those of its route list. |
| `RequestRouter.RequestRouter.UpdateRoutes` | services/api-gateway/src/router/mod.rs:94-124 | Whatever the tables held, afterwards all three are those of the new list: last static route per exact key, dynamic routes in order, per-service lists in order. |
| `RequestRouter.RequestRouter.GetRoutesForService` | services/api-gateway/src/router/mod.rs:127-132 | The answer is the order-preserving sublist of the installed list with that service. |
| `RequestRouter.RequestRouter.RouteCount` | services/api-gateway/src/router/mod.rs:136-138 | The count is the size of the two tables. |
| `RequestRouter.RequestRouter.Route` | services/api-gateway/src/router/mod.rs:155-224 | Two-tier routing equals a linear scan of the installed list: the last static route with the exact path and the upper-cased verb, else the first dynamic route that matches, else RouteNotFound. |
| `RequestRouter.StaticTableIsLastStatic` | services/api-gateway/src/router/mod.rs:109-118 | Looking a key up in the static hash map finds the last static route of the list with that key. |
| `RequestRouter.ScanIsFirst` | services/api-gateway/src/router/mod.rs:192-213 | Scanning the ordered pattern list finds the first dynamic route of the whole list that matches. |
| `RequestRouter.LastStaticAnswers` | services/api-gateway/src/router/mod.rs:155-185 | By position: the static route that the request hits and that no later static route does gives the answer, with no parameters. |
| `RequestRouter.FirstDynamicAnswers` | services/api-gateway/src/router/mod.rs:192-213 | By position: if the request hits no static route, the dynamic route that it hits and before which it hits none gives the answer, with that pattern's bindings. |
| `RequestRouter.NotFoundExactly` | services/api-gateway/src/router/mod.rs:216-223 | RouteNotFound, with the path and the verb asked for, if and only if no route of the list is hit. |
| `RequestRouter.RequestCaseDoesNotMatter` | services/api-gateway/src/router/mod.rs:159-166 | A request is routed alike whatever the case of its verb. |
| `RequestRouter.RouteCountExact` | services/api-gateway/src/router/mod.rs:94-138 | The count never exceeds the list's length and equals it if and only if no two static routes share path and verb. |
| `RequestRouter.DeduplicatedTableIsComplete` | services/api-gateway/src/router/mod.rs:94-138 | On a deduplicated list the router loses no entry. |
| `RequestRouter.ReachableExactly` | services/api-gateway/src/router/mod.rs:109-185 | In any installed list, a static route answers some request if and only if its verb is upper-case, since lookups upper-case the verb, and it stands where no later static route has its path and verb; then it answers the request for just these. |
| `RequestRouter.DeduplicatedReachableExactly` | services/api-gateway/src/router/mod.rs:114-168 | On a deduplicated list an installed static route answers some request if and only if its verb is upper-case. |
| `RequestRouter.LowerCaseStaticUnreachable` | services/api-gateway/src/router/mod.rs:114-168 | In whatever list, a static route whose verb is not upper-case is neither the static nor the dynamic answer to any request. |
| `Routes.KeyInjective` | services/api-gateway/src/discovery/validator.rs:24 | Two routes have one key only if verb and path agree, as long as verbs hold no space. |
| `Routes.ForServiceMembers` | services/api-gateway/src/router/mod.rs:100-106 | A service's list holds exactly the installed routes of that service. |
| `RouteValidator.CheckDuplicates` | services/api-gateway/src/discovery/validator.rs:19-56 | Ok if and only if all keys differ; otherwise the error names the methods of the first repetition and of the first route with that key. |
| `RouteValidator.DeduplicateRoutes` | services/api-gateway/src/discovery/validator.rs:65-86 | The result is the order-preserving sublist of routes at first occurrences of their keys. |
| `RouteValidator.DedupKeepsKeys` | services/api-gateway/src/discovery/validator.rs:65-86 | Kept routes have distinct keys and no key is lost. |
| `RouteValidator.DedupKeepsFirsts` | services/api-gateway/src/discovery/validator.rs:65-86 | A route is kept if and only if it stands at a first occurrence of its key. |
| `RouteValidator.DedupKeepsOrder` | services/api-gateway/src/discovery/validator.rs:65-86 | Of two routes at first occurrences of their keys, the earlier one is kept before the later one. |
| `RouteValidator.DedupIdentityIffDistinct` | services/api-gateway/src/discovery/validator.rs:19-86 | Deduplication is the identity exactly on the lists that pass the duplicate check. |
| `RouteValidator.DedupIdempotent` | services/api-gateway/src/discovery/validator.rs:65-86 | Deduplicating twice is deduplicating once. |
| `RouteValidator.DedupKeepsPrefix` | services/api-gateway/src/discovery/validator.rs:65-86 | A duplicate-free front survives unchanged whatever is appended to it. |
| `OverrideHandler.ApplyOverrides` | services/api-gateway/src/discovery/override_handler.rs:19-120 | The two passes with the applied-set give: every discovered route patched by the last override of its method, then one route for each complete override whose method was not discovered. |
| `OverrideHandler.OverriddenFields` | services/api-gateway/src/discovery/override_handler.rs:45-76 | Field by field: the last override of a route's method sets its path if it gives one and its verb if it gives one, and leaves the other of these, the service and the method. |
| `OverrideHandler.UnnamedStays` | services/api-gateway/src/discovery/override_handler.rs:45-76 | A route whose method no override names stays as it is, at its place. |
| `OverrideHandler.BuildOverrideMap` | services/api-gateway/src/discovery/override_handler.rs:34-37 | The lookup map holds, per method, the last override configured for it. |
| `OverrideHandler.AddedMembers` | services/api-gateway/src/discovery/override_handler.rs:79-110 | A route is added if and only if some complete override of an undiscovered method stands for it. |
| `OverrideHandler.OverridingKeepsDiscovered` | services/api-gateway/src/discovery/override_handler.rs:45-76 | Discovered routes keep their positions, services and methods; what follows has methods that were not discovered. |
| `OverrideHandler.OverridingIdempotentIffSettled` | services/api-gateway/src/discovery/override_handler.rs:19-120 | Overriding twice is overriding once, for every discovered list, if and only if no complete override is changed by the override its method is looked up to. |
| `OverrideHandler.DistinctAgreeSettle` | services/api-gateway/src/discovery/override_handler.rs:19-120 | Distinct override methods are enough for idempotence and for stability. |
| `OverrideHandler.OverriddenIsPatched` | services/api-gateway/src/discovery/override_handler.rs:45-110 | Under that condition overriding again changes no route of an overridden table. |
| `ConventionMapper.PluralizeIdempotent` | services/api-gateway/src/discovery/conventions.rs:228-259 | A plural is its own plural, so singular and plural method names meet at one path. |
| `ConventionMapper.ParseIsPlain` | services/api-gateway/src/discovery/conventions.rs:82-139 | A method name without '/' and ':' parses to a non-empty resource without them. |
| `ConventionMapper.GeneratedPathSegments` | services/api-gateway/src/discovery/conventions.rs:191-225 | Generated paths are the joined segments "api", resource and, for single items, ":id". |
| `ConventionLaws.PluralByEnd` | services/api-gateway/src/discovery/conventions.rs:228-259 | The plural by the end of the word: after x, z, ch, sh or ss comes es; another final s stays; y after a consonant becomes ies; to all else an s is added. |
| `ConventionLaws.NamesMapTo` | services/api-gateway/src/discovery/conventions.rs:82-219 | For every non-empty X with plural p of its lower case: GetX, UpdateX and DeleteX map to GET, PUT and DELETE on /api/p/:id, CreateX to POST on /api/p, and ListX to GET on /api/ and the lower case of X. |
| `ConventionLaws.MappedExactly` | services/api-gateway/src/discovery/conventions.rs:82-139 | A method has a route if and only if its name is one of the five words with something after it. |
| `RouteDiscovery.DiscoverServiceRoutes` | services/api-gateway/src/discovery/service.rs:92-249 | For every reply of a backend the outcome is exactly one of: its mapped, duplicate-free routes; EmptyService; any other error. |
| `RouteDiscovery.RouteDiscoveryService.DiscoverRoutes` | services/api-gateway/src/discovery/service.rs:32-89 | The routes of all answering auto-discover services, in order; the others are skipped. |
| `RouteDiscovery.RouteDiscoveryService.Reload` | services/api-gateway/src/main.rs:201-212 | Start-up and the admin refresh (handlers/admin.rs, lines 83-92) install the overridden, not deduplicated, routes. |
| `RouteDiscovery.RouteDiscoveryService.Visit` | services/api-gateway/src/discovery/service.rs:319-388 | One service's contribution to a cycle, for each outcome of its discovery. |
| `RouteDiscovery.RouteDiscoveryService.Gather` | services/api-gateway/src/discovery/service.rs:303-389 | The loop over services concatenates their contributions in order, with exact counters. |
| `RouteDiscovery.RouteDiscoveryService.RefreshCycle` | services/api-gateway/src/discovery/service.rs:300-416 | One cycle installs the deduplicated, overridden concatenation of each service's contribution: fresh routes, nothing on EmptyService, its present routes on any other error; the counters are exact. |
| `RouteDiscovery.FailedReplyDecides` | services/api-gateway/src/discovery/service.rs:172-177 | One failed method query fails the whole service. |
| `RefreshLaws.OutcomeExactly` | services/api-gateway/src/discovery/service.rs:92-249 | By the answer itself: a service counts as failed if and only if it does not list all its methods or two of its mapped routes share a key; as empty if and only if no method is mapped; the routes found are exactly those its methods are mapped to. |
| `RefreshLaws.FoundInOrder` | services/api-gateway/src/discovery/service.rs:164-230 | The routes found are in the order of the methods. |
| `RefreshLaws.DiscoveredExactly` | services/api-gateway/src/discovery/service.rs:32-89 | Start-up and admin refresh find a route if and only if its service is visited, offers it and has no clash. |
| `RefreshLaws.GatheredExactly` | services/api-gateway/src/discovery/service.rs:309-389 | A cycle takes a route if and only if its service is visited and either answers without a clash and offers it, or does not and has it in the present table. |
| `RefreshLaws.TakenIsInstalled` | services/api-gateway/src/discovery/service.rs:391-405 | Every route taken has its key, as overridden, in the new table. |
| `RefreshLaws.InstalledIsTaken` | services/api-gateway/src/discovery/service.rs:391-405 | Every route of the new table is one taken, as overridden, or stands for a complete override. |
| `RefreshLaws.PlainCycleExactly` | services/api-gateway/src/discovery/service.rs:300-405 | Without overrides, the new table holds only routes taken, and the key of each of them. |
| `RefreshLaws.EarliestTakenWins` | services/api-gateway/src/discovery/service.rs:309-405 | A route taken is itself in the new table, as overridden, unless its service or one visited before brings another of the same key; what later services bring does not matter. |
| `RefreshLaws.VisitedExactly` | services/api-gateway/src/discovery/service.rs:309-312 | A service is visited if and only if it is configured for discovery. |
| `RefreshStability.GatheredWhenFailing` | services/api-gateway/src/discovery/service.rs:329-387 | When every service fails, exactly the table's routes of visited services are gathered. |
| `RefreshStability.FailingIsGathered` | services/api-gateway/src/discovery/service.rs:329-387 | A failing service's present routes are gathered whatever the others do. |
| `RefreshStability.RegroupKeepsServices` | services/api-gateway/src/discovery/service.rs:309-389 | Regrouping by service keeps each visited service's routes in their order. |
| `RefreshStability.DedupIsLookup` | services/api-gateway/src/discovery/validator.rs:65-86 | A route survives deduplication exactly when its key is looked up to it. |
| `RefreshStability.GatheredDistinct` | services/api-gateway/src/discovery/service.rs:309-389 | Regrouping a duplicate-free table makes no duplicate. |
| `RefreshTheorems.FailedCycleKeepsRoutes` | services/api-gateway/src/discovery/service.rs:309-405 | A cycle in which every service fails, following another cycle, keeps exactly the same set of routes (overrides of one method agreeing, in particular distinct). |
| `RefreshTheorems.FailingCyclesSettle` | services/api-gateway/src/discovery/service.rs:309-405 | From the first such cycle on the table is the identical list, however many follow, and holds the same routes as before them. |
| `RefreshTheorems.FailedCycleShape` | services/api-gateway/src/discovery/service.rs:309-405 | The new list starts with the regrouped retained routes; only routes of unvisited services follow. |
| `RefreshTheorems.FailedCycleKeepsServices` | services/api-gateway/src/discovery/service.rs:309-405 | No visited service's own list changes. |
| `RefreshTheorems.FailedCycleKeepsStaticAnswers` | services/api-gateway/src/router/mod.rs:155-185 | Every request answered by a static route gets the identical answer afterwards. |
| `RefreshTheorems.FailedCycleKeepsAnswered` | services/api-gateway/src/router/mod.rs:155-224 | A request, static or dynamic, is answered after such a cycle if and only if it was answered before. |
| `RefreshTheorems.FailedCycleKeepsVisitedExactly` | services/api-gateway/src/discovery/service.rs:309-405 | For any one duplicate-free table and any overrides: a cycle in which every service fails keeps all routes of visited services if and only if overriding changes none of them. |
| `RefreshTheorems.DisagreeingOverridesLoseRoute` | services/api-gateway/src/discovery/override_handler.rs:34-76 | Two overrides of one method with different paths: a failing cycle loses a route. |
| `RefreshTheorems.EveryTable` | services/api-gateway/src/discovery/service.rs:300-416 | In every run of start-up, refresh cycles and admin refreshes, overriding again changes no route of the table and verbs stay free of spaces. |
| `RefreshTheorems.FailingKeepsKey` | services/api-gateway/src/discovery/service.rs:329-405 | A failing service's routes keep their keys in the next table, whatever the other services answer. |
| `RefreshTheorems.RoutedStaysRouted` | services/api-gateway/src/discovery/service.rs:329-387 | In every run: a path and verb that routed to a service which then fails in a refresh cycle still routes to some backend afterwards. |
| `RefreshTheorems.UnsettledOverridesLoseRequest` | services/api-gateway/src/discovery/override_handler.rs:45-76 | Without the condition on overrides such a request is lost in a concrete run. |
| `RefreshTheorems.SpacedVerbsLoseRequest` | services/api-gateway/src/discovery/validator.rs:65-86 | A verb with a space makes two different routes share a key, and a request is lost in a concrete run with distinct overrides. |
| `EndToEndRouting.RequestsReachTheirMethods` | services/api-gateway/src/discovery/conventions.rs:23-71 | For any list of methods with plain names whose mapped routes pass the duplicate check: GET, PUT and DELETE on /api/p/:id, POST on /api/p and GET on the list path, with p the plural of the lower-cased rest of the name and any non-empty slash-free id, are routed to exactly the Get, Update, Delete, Create and List method of that name, with {id: id} for single items. |
| `EndToEndRouting.HitsOfItemPath` | services/api-gateway/src/router/mod.rs:155-281 | Of all mapped routes, an item's path is matched exactly by the single-item routes of its resource and verb, never by a static route. |
| `EndToEndRouting.HitsOfCollectionPath` | services/api-gateway/src/router/mod.rs:155-281 | A collection's path is matched by no pattern and exactly by its own static routes. |
| `EndToEndRouting.PatternOfShape` | services/api-gateway/src/router/mod.rs:229-254 | Mapped routes are static exactly for List and Create. |
| `GatewayRateLimiter.RateLimiter.CheckRateLimit` | services/api-gateway/src/rate_limit/limiter.rs:40-85 | Admit or evict in the LRU cache, prune the client's deque, refuse at the limit, else record: the new cache and the answer, for every cache. |
| `GatewayRateLimiter.RateLimiter.CleanupExpired` | services/api-gateway/src/rate_limit/limiter.rs:96-141 | The three loops together drop exactly the clients without a request in the window and without an accept in twice the window, and prune the rest in place; the count is exact. |
| `GatewayRateLimiter.RateLimiter.GetClientRequestCount` | services/api-gateway/src/rate_limit/limiter.rs:150-153 | The query returns the unpruned count and makes the client the most recently used. |
| `GatewayRateLimiter.CleanedInSteps` | services/api-gateway/src/rate_limit/limiter.rs:104-138 | Removing the collected keys and then pruning the remainder is one pass over the cache. |
| `GatewayRateLimiter.EvictedCount` | services/api-gateway/src/rate_limit/limiter.rs:104-128 | Kept and removed clients add up. |
| `GatewayRateLimiterRuns.RunWellFormed` | services/api-gateway/src/rate_limit/limiter.rs:40-153 | In every run clients are tracked once each and never more than 10,000. |
| `GatewayRateLimiterRuns.NotTheVictim` | services/api-gateway/src/rate_limit/limiter.rs:51-58 | A full cache evicts no client while fewer than 10,000 other clients were touched since its last touch. |
| `GatewayRateLimiterRuns.CleanTracks` | services/api-gateway/src/rate_limit/limiter.rs:104-138 | A cleanup never removes a client with an accept in the window, nor that accept. |
| `GatewayRateLimiterRuns.WindowBound` | services/api-gateway/src/rate_limit/limiter.rs:40-141 | For every run: each client has at most requests_per_minute accepts in any closed window in which at most 10,000 clients are touched, whatever came before. |
| `GatewayRateLimiterRuns.EvictionForgets` | services/api-gateway/src/rate_limit/limiter.rs:51-58 | The bound on touched clients is sharp: with 10,001 a client gets one request too many. |
| `GatewayRateLimiterIdeal.PrunedCount` | services/api-gateway/src/rate_limit/limiter.rs:62-76 | After pruning, a deque holds as many requests as the full log has in the closed window. |
| `GatewayRateLimiterIdeal.AnswersAreIdeal` | services/api-gateway/src/rate_limit/limiter.rs:40-141 | While nothing is evicted, every answer of a run equals that of an ideal limiter that keeps every accepted request for ever. |
| `GatewayRateLimiterIdeal.FewClientsAnswersAreIdeal` | services/api-gateway/src/rate_limit/limiter.rs:40-141 | In particular in every run that touches at most 10,000 clients. |
| `GatewayRateLimiterIdeal.CleanupNeverMatters` | services/api-gateway/src/rate_limit/limiter.rs:96-141 | In such runs cleanups and count queries, at any times, change no answer. |
| `GatewayRateLimiterDeques.RunFits` | services/api-gateway/src/rate_limit/limiter.rs:53-84 | In every run, evictions included, every deque stays in order, within the limit and not ahead of the clock. |
| `GatewayRateLimiterLaws.CleanupKeepsExactly` | services/api-gateway/src/rate_limit/limiter.rs:96-141 | A cleanup drops a client if and only if none of its requests lies in the closed window and its last accept is at least two windows old. |
| `GatewayRateLimiterLaws.QueryAfterCheck` | services/api-gateway/src/rate_limit/limiter.rs:150-153 | Asked right after a check, the count is the number of the client's requests in the window that were ever accepted. |
| `MemoryLimiter.MemoryRateLimiter.Allow` | services/assignment-grading-service/pkg/ratelimit/memory_limiter.go:47-90 | The half-open window: keep attempts after now - window, refuse at the limit with the time until the oldest leaves, else record. |
| `MemoryLimiter.MemoryRateLimiter.Cleanup` | services/assignment-grading-service/pkg/ratelimit/memory_limiter.go:94-143 | Exactly the entries whose attempts have all left their own limit's window are deleted, and counted. |
| `MemoryLimiter.KeyTellsAction` | services/assignment-grading-service/pkg/ratelimit/memory_limiter.go:108-113 | The last five characters of every key tell login from register, so the cleanup picks the right limit. |
| `MemoryLimiter.KeyInjective` | services/assignment-grading-service/pkg/ratelimit/memory_limiter.go:48 | No two clients or actions share an entry. |
| `MemoryLimiter.CheckHolds` | services/assignment-grading-service/pkg/ratelimit/memory_limiter.go:47-90 | One call within a half-open window: an accept is one more attempt on record since the window began, and never more than the limit are. |
| `MemoryLimiter.CleanupHolds` | services/assignment-grading-service/pkg/ratelimit/memory_limiter.go:94-143 | A cleanup inside the window forgets no attempt of it. |
| `MemoryLimiter.PanicsExactly` | services/assignment-grading-service/pkg/ratelimit/memory_limiter.go:77-80 | The index panic happens if and only if MaxAttempts is not positive and no attempt is left in the window. |
| `MemoryLimiterIdeal.AttemptsAreIdeal` | services/assignment-grading-service/pkg/ratelimit/memory_limiter.go:47-90 | After every run of attempts and cleanups: an attempt is allowed if and only if fewer than MaxAttempts of the attempts ever accepted for its client and action are later than now - window, refused ones not counting; a denial's wait is the time until the oldest of those leaves. |
| `MemoryLimiterIdeal.CleanupKeepsExactly` | services/assignment-grading-service/pkg/ratelimit/memory_limiter.go:94-143 | A cleanup keeps an entry, and then as it is, if and only if it has an attempt in its own action's window. |
| `RedisLimiter.RedisRateLimiter.Allow` | services/assignment-grading-service/pkg/ratelimit/redis_limiter.go:72-113 | Counter, refreshed expiry and answer, for every reply of Redis, including failures after either command took effect. |
| `RedisLimiter.KeyInjective` | services/assignment-grading-service/pkg/ratelimit/redis_limiter.go:74 | No two clients or operations share a counter. |
| `RedisLimiter.CallHolds` | services/assignment-grading-service/pkg/ratelimit/redis_limiter.go:72-113 | One call within a half-open window: the counter is at least the accepts since the window began, never more than the limit, and since the expiry is refreshed it outlives the window. |
| `RedisLimiterRuns.AnswersFollowChains` | services/assignment-grading-service/pkg/ratelimit/redis_limiter.go:71-113 | After every run of calls of which no pipeline breaks off half-way: a call is allowed if and only if the calls of its client and action that lead up to it without a pause of a whole window, itself included, are at most MaxAttempts; a denial's wait is the key's time to live, or the window if that query fails. |
| `RedisLimiterRuns.CountersHoldChains` | services/assignment-grading-service/pkg/ratelimit/redis_limiter.go:78-92 | The counter is the length of that chain at the last call and expires one window after it; an expired or missing key starts again at one. |
| `RedisLimiterRuns.RefusedUntilPause` | services/assignment-grading-service/pkg/ratelimit/redis_limiter.go:71-113 | A refused client is next let in if and only if it has paused for a whole window, so one that keeps trying never is. |
| `FallbackLimiter.FallbackRateLimiter.constructor` | services/assignment-grading-service/pkg/ratelimit/fallback_limiter.go:29-55 | The first ping decides whether there is a Redis limiter at all. |
| `FallbackLimiter.FallbackRateLimiter.AllowAction` | services/assignment-grading-service/pkg/ratelimit/fallback_limiter.go:58-103 | One call: which limiter answers, which mode follows and what both limiters then hold. |
| `FallbackLimiter.FallbackRateLimiter.SwitchToMemory` | services/assignment-grading-service/pkg/ratelimit/fallback_limiter.go:106-120 | Memory mode afterwards, the check time set only on a switch. |
| `FallbackLimiter.FallbackRateLimiter.CheckRedisHealth` | services/assignment-grading-service/pkg/ratelimit/fallback_limiter.go:123-145 | Redis mode afterwards exactly if it was on, or there is a client and it answers. |
| `FallbackLimiter.FallbackRateLimiter.Cleanup` | services/assignment-grading-service/pkg/ratelimit/fallback_limiter.go:155-164 | Only the memory limiter in use is cleaned. |
| `FallbackLimiter.EachLimiterKeepsTheLimit` | services/assignment-grading-service/pkg/ratelimit/fallback_limiter.go:58-145 | For every run through any pattern of Redis failures, recoveries and switches: in any half-open window the memory limiter and the Redis limiter each accept at most MaxAttempts calls of a client and action. |
| `FallbackLimiter.FallbackWindowBound` | services/assignment-grading-service/pkg/ratelimit/fallback_limiter.go:58-145 | So at most 2 * MaxAttempts are accepted per client and action in any half-open window of any run. |
| `FallbackLimiter.OneLimiterKeepsTheLimit` | services/assignment-grading-service/pkg/ratelimit/fallback_limiter.go:58-145 | In every run: the single limit is kept in any half-open window in which one limiter answers all the calls of the client and action, whatever happens to other calls. |
| `FallbackLimiter.AlwaysKeptExactly` | services/assignment-grading-service/pkg/ratelimit/fallback_limiter.go:58-145 | The single limit is kept in every run and window if and only if it admits nothing or its window is empty. |
| `FallbackLimiter.FactorTwoIsReached` | services/assignment-grading-service/pkg/ratelimit/fallback_limiter.go:58-80 | One switch is enough, for every positive limit: a full quota from Redis and another from memory within one instant. |
| `FallbackLimiter.NeverRecoversWithoutRedis` | services/assignment-grading-service/pkg/ratelimit/fallback_limiter.go:123-145 | A limiter created while Redis was unreachable never uses Redis, in any run. |
| `FallbackLimiter.RecoversExactly` | services/assignment-grading-service/pkg/ratelimit/fallback_limiter.go:74-79 | In memory mode a call returns to Redis if and only if there is a client, the ping succeeds and more than 30 seconds passed since the last check; the call itself is still answered from memory. |
| `FallbackLimiter.LeavesRedisExactly` | services/assignment-grading-service/pkg/ratelimit/fallback_limiter.go:58-71 | In Redis mode a call stays with Redis if and only if Redis answers it, and then gets its answer; otherwise the memory limiter answers and the check time is set. |
| `GatewayBreaker.CircuitBreaker.constructor` | services/api-gateway/src/circuit_breaker/breaker.rs:35-41 | A breaker starts closed with all counts zero. |
| `GatewayBreaker.CircuitBreaker.Admit` | services/api-gateway/src/circuit_breaker/breaker.rs:73-103 | Closed and half-open admit; open admits only from the timeout on, and then half-opens with a clean slate. |
| `GatewayBreaker.CircuitBreaker.OnSuccess` | services/api-gateway/src/circuit_breaker/breaker.rs:106-128 | Counters after a success, and closing at the threshold only when half-open. |
| `GatewayBreaker.CircuitBreaker.OnFailure` | services/api-gateway/src/circuit_breaker/breaker.rs:131-166 | Counters after a failure; opening at the threshold when closed and at once when half-open; a late failure does not move the opening time. |
| `GatewayBreaker.CircuitBreaker.Reset` | services/api-gateway/src/circuit_breaker/breaker.rs:185-193 | Closed with consecutive counts zero and totals kept. |
| `GatewayBreaker.CircuitBreaker.Call` | services/api-gateway/src/circuit_breaker/breaker.rs:49-70 | Admission, operation and record of a call that nothing overlaps. |
| `GatewayBreakerRuns.EveryWorldSound` | services/api-gateway/src/circuit_breaker/breaker.rs:73-166 | Under every interleaving of admissions, records, resets and abandoned calls: closed means fewer than max(1, failure_threshold) consecutive failures; half-open means none, and fewer than max(1, success_threshold) consecutive successes. |
| `GatewayBreakerRuns.CallsAreAccountedFor` | services/api-gateway/src/circuit_breaker/breaker.rs:49-166 | admitted = successes + failures + in flight + abandoned, always. |
| `GatewayBreakerRuns.OpenAdmitsNothing` | services/api-gateway/src/circuit_breaker/breaker.rs:77-101 | After opening, and until a reset or a call that asks after the timeout, nothing is admitted and the opening time does not move, whatever late results are recorded and however late. |
| `GatewayBreakerRuns.OpenMovesExactly` | services/api-gateway/src/circuit_breaker/breaker.rs:73-166 | An open circuit closes if and only if it is reset, half-opens if and only if a call asks once the timeout has passed, which is admitted, and keeps its opening time otherwise. |
| `GatewayBreakerRuns.NotOpenMovesExactly` | services/api-gateway/src/circuit_breaker/breaker.rs:73-166 | A circuit that is not open admits every call; it opens only at the time of a failure it records, and half-open at every failure. |
| `GatewayBreakerRuns.TotalsExactly` | services/api-gateway/src/circuit_breaker/breaker.rs:106-140 | In every run the two totals are the numbers of successes and failures recorded. |
| `GatewayBreakerRuns.OpensAfterFailuresInARow` | services/api-gateway/src/circuit_breaker/breaker.rs:139-151 | Closed to open happens only on a failure that ends exactly the threshold's number of failures in a row within one closed period. |
| `GatewayBreakerRuns.ClosesAfterSuccesses` | services/api-gateway/src/circuit_breaker/breaker.rs:114-125 | Half-open to closed, without a reset, only on the threshold's last success with no failure since half-opening. |
| `ContentBreaker.CircuitBreaker.Call` | services/content-management-service/src/circuit_breaker.rs:115-164 | The second breaker's sequential call. |
| `ContentBreaker.CircuitBreaker.RecordSuccess` | services/content-management-service/src/circuit_breaker.rs:186-202 | Its counters and transition after a success. |
| `ContentBreaker.CircuitBreaker.RecordFailure` | services/content-management-service/src/circuit_breaker.rs:205-227 | Its counters and transition after a failure. |
| `ContentBreaker.CircuitBreaker.Reset` | services/content-management-service/src/circuit_breaker.rs:274-283 | Its reset. |
| `ContentBreaker.TracesAgree` | services/content-management-service/src/circuit_breaker.rs:115-283 | From corresponding states both breakers go on with equal answers and states. |
| `ContentBreaker.BreakersAreEquivalent` | services/content-management-service/src/circuit_breaker.rs:100-283 | On all sequential runs with equal thresholds, timeouts and clock, the two breakers give the same accept or reject answers and are in the same state after each call or reset. |
| `LatePolicies.CalculatePenalty` | services/assignment-grading-service/internal/service/late_policy_calculator.go:18-44 | Late exactly after the due date; days late never negative, and counted only where late work is allowed. |
| `LatePolicies.DaysLateIsCeiling` | services/assignment-grading-service/internal/service/late_policy_calculator.go:29-36 | Where late work is allowed, days late are the exact ceiling of the elapsed time over 24 hours. |
| `LatePolicies.PenaltyStaysWithinScore` | services/assignment-grading-service/internal/service/late_policy_calculator.go:47-73 | The adjusted score lies between nothing and the score. |
| `LatePolicies.PenaltyIsDayByDay` | services/assignment-grading-service/internal/service/late_policy_calculator.go:58-72 | Within the limit the penalty is the same as taking one fixed share of the original score for each day until nothing is left. |
| `LatePolicies.LaterNeverScoresHigher` | services/assignment-grading-service/internal/service/late_policy_calculator.go:18-73 | For every score and valid policy the adjusted score is nonincreasing in the submission time and stays in [0, score]. |
| `LatePolicies.SamePenaltyExactly` | services/assignment-grading-service/internal/service/late_policy_calculator.go:47-73 | Two numbers of days late leave the same of a score if and only if they take the same effective percentage or the score is zero. |
| `LatePolicies.DocumentedRuleKeptExactly` | services/assignment-grading-service/internal/service/late_policy_calculator.go:24-52 | The documented rule is kept if and only if the work is on time, late work is allowed, or the score is zero: with MaxLateDays = 0 a late submission keeps its full score. |
| `GradingModels.ValidatePolicy` | services/assignment-grading-service/internal/models/assignment.go:53-63 | Accepts exactly percentages from 0 to 100 and non-negative day limits. |
| `GradingModels.ValidateAssignment` | services/assignment-grading-service/internal/models/assignment.go:28-50 | Accepts exactly the assignments with a course, a title of 1 to 500, positive points, a due date and a valid policy. |
| `GradingService.Services.CreateAssignment` | services/assignment-grading-service/internal/service/assignment_service.go:27-56 | New data and result, and consistency kept. |
| `GradingService.Services.UpdateAssignment` | services/assignment-grading-service/internal/service/assignment_service.go:69-110 | Refused first of all when there are submissions; otherwise the five editable fields change if the result is valid. |
| `GradingService.Services.DeleteAssignment` | services/assignment-grading-service/internal/service/assignment_service.go:113-132 | The assignment goes with its submissions and their grades. |
| `GradingService.Services.SubmitAssignment` | services/assignment-grading-service/internal/service/submission_service.go:40-94 | Upsert on assignment and student, keeping the row's id; on any later failure the saved file is deleted again, if that succeeds. |
| `GradingService.Services.CreateGrade` | services/assignment-grading-service/internal/service/grading_service.go:37-91 | Guards in order, penalty applied, one grade per submission, submission marked graded unless that write fails, which is ignored. |
| `GradingService.Services.UpdateGrade` | services/assignment-grading-service/internal/service/grading_service.go:94-136 | Only drafts change, with the penalty recomputed from the present submission. |
| `GradingService.Services.PublishGrade` | services/assignment-grading-service/internal/service/grading_service.go:139-172 | Draft to published once, submission marked returned unless that write fails, which is ignored. |
| `GradingSteps.SubmitStores` | services/assignment-grading-service/internal/repository/submission_repository.go:45-59 | A submission that succeeds stores one row for the student and assignment, replacing theirs and no other. |
| `GradingSteps.UpdateAssignmentKeeps` | services/assignment-grading-service/internal/service/assignment_service.go:69-101 | An update, allowed only without submissions, keeps every reference, lateness and score range true. |
| `GradingSteps.UnguardedUpdateBreaks` | services/assignment-grading-service/internal/service/assignment_service.go:76-78 | Without that guard an update lowering the maximum below a given score would break them. |
| `GradingSteps.DeleteAssignmentKeeps` | services/assignment-grading-service/migrations/001_init.sql:24-48 | Cascading deletes leave no dangling reference. |
| `GradingSteps.CreateGradeKeeps` | services/assignment-grading-service/internal/service/grading_service.go:37-91 | A new grade sits in range and keeps one grade per submission. |
| `GradingLaws.PublishExactly` | services/assignment-grading-service/internal/service/grading_service.go:139-172 | A publish succeeds if and only if the grade is stored and a draft; then exactly that grade is published at this time, its other fields and all other grades stay, and its submission is returned. Missing and published grades give their own errors. |
| `GradingLaws.CreateGradeSucceeds` | services/assignment-grading-service/internal/service/grading_service.go:37-80 | A grade is given if and only if the submission is stored and has none, the id is free, the score lies in [0, maximum] and every name is present; each guard gives its own error. |
| `GradingLaws.CreateGradeStores` | services/assignment-grading-service/internal/service/grading_service.go:56-80 | It is a draft with the caller's score, feedback and teacher, the submission's student and assignment, and the score less the penalty of the submission's own time. |
| `GradingLaws.CreateGradeSpares` | services/assignment-grading-service/internal/service/grading_service.go:79-88 | Besides, the submission counts as graded, and no other row changes. |
| `GradingLaws.UpdateGradeExactly` | services/assignment-grading-service/internal/service/grading_service.go:94-136 | A change succeeds if and only if the grade is a stored draft and the score in range; the grade takes the caller's score and feedback and the adjusted score these give, and nothing else changes. |
| `GradingLaws.CreateAssignmentExactly` | services/assignment-grading-service/internal/service/assignment_service.go:27-56 | An assignment is stored, as given, if and only if it is well formed and its id free; no other row changes. |
| `GradingLaws.UpdateAssignmentExactly` | services/assignment-grading-service/internal/service/assignment_service.go:69-110 | An update is refused for submissions if and only if there are some, and succeeds if and only if there are none and the assignment is stored and well formed afterwards; only its five fields change. |
| `GradingLaws.DeleteAssignmentExactly` | services/assignment-grading-service/migrations/001_init.sql:24-48 | A deletion takes exactly the assignment, the submissions to it and its grades, and leaves files and all other rows. |
| `GradingLaws.SubmitSucceeds` | services/assignment-grading-service/internal/service/submission_service.go:40-94 | Work is accepted if and only if the assignment is stored, the file saved, names and time are present, and the student has work there to replace or the id is free. |
| `GradingLaws.SubmitReplaces` | services/assignment-grading-service/internal/repository/submission_repository.go:45-59 | What is stored, field by field, under the old id if there was one; only that row and its file change. |
| `GradingLaws.OneOwner` | services/assignment-grading-service/internal/repository/submission_repository.go:45-59 | Afterwards it is the student's only submission to the assignment. |
| `GradingRuns.EveryStateConsistent` | services/assignment-grading-service/internal/service/grading_service.go:37-172 | In every reachable state: references agree, one submission per student and assignment, one grade per submission, lateness is that of the present due date and policy, and 0 <= adjusted score <= score <= the assignment's present maximum. |
| `GradingRuns.FailureChangesNothing` | services/assignment-grading-service/internal/service/submission_service.go:64-83 | Every operation that fails leaves the tables as they were, and the files too but for a saved file that cannot be deleted. |
| `GradingRuns.GradeGoesWithItsAssignment` | services/assignment-grading-service/migrations/001_init.sql:42-48 | A grade disappears if and only if its assignment is deleted. |
| `GradingRuns.PublishedIsFinal` | services/assignment-grading-service/internal/service/grading_service.go:101-104 | In every run a published grade never changes again while its assignment is not deleted. |
| `GradingHistory.PublishedExactly` | services/assignment-grading-service/internal/service/grading_service.go:139-158 | In every run: a stored grade is published at a time if and only if a publish of its id at that time succeeded and no grade was given under the id since. |
| `GradingHistory.LastWriteStands` | services/assignment-grading-service/internal/service/grading_service.go:37-136 | In every run: a stored grade's score and feedback are those of the last call that succeeded in giving or changing it. |
| `GradingRuns.AssignmentFrozenByWork` | services/assignment-grading-service/internal/service/assignment_service.go:70-78 | In every run, from its first submission on an assignment keeps everything until it is deleted. |
| `GradingRuns.ResubmissionKeepsCurrentExactly` | services/assignment-grading-service/internal/service/submission_service.go:54-80 | Handing graded work in again keeps a current adjusted score current if and only if the score is zero or the new days late take the same effective percentage as the old. |
| `GradingRuns.StepKeepsCurrentExactly` | services/assignment-grading-service/internal/service/grading_service.go:106-128 | From a state in which every adjusted score is what the present lateness makes of its score, an operation leads to another such state if and only if it is not a resubmission that changes the percentage a graded score loses. |
| `GradingRuns.AdjustedScoresAreCurrentExactly` | services/assignment-grading-service/internal/service/grading_service.go:106-128 | In every run: adjusted scores are current throughout if and only if there is no such resubmission. |
| `GradingRuns.AdjustedScoresAreCurrent` | services/assignment-grading-service/internal/service/grading_service.go:106-128 | So after any run without such a resubmission every adjusted score is what the present lateness makes of its score. |
| `GradingRuns.LateResubmissionGoesUnpunished` | services/assignment-grading-service/internal/service/submission_service.go:56-80 | After on-time work was graded, handing in again late changes the lateness and leaves the full score standing. |
| `GradingRuns.StaleScoreIsReachable` | services/assignment-grading-service/internal/service/submission_service.go:56-80 | A concrete run in which that happens. |
| `Gradebook.GetStudentGradebook` | services/assignment-grading-service/internal/service/gradebook_service.go:33-114 | One entry for each assignment, in order, with its last grade and last submission; total and earned points are the sums of the entries'; percentage * total = 100 * earned, or no percentage without points; letters from 90, 80, 70 and 60 on. |
| `Gradebook.GetCourseGradebook` | services/assignment-grading-service/internal/service/gradebook_service.go:117-192 | One summary for each student with a published grade and no other, each with that student's own last grade of every assignment, and percentage and letter as above. |
| `Gradebook.GroupIsByStudent` | services/assignment-grading-service/internal/service/gradebook_service.go:130-134 | Grouping gives each student exactly their grades, in order. |
| `GradebookAgreement.OneGradePerWork` | services/assignment-grading-service/migrations/001_init.sql:33-55 | In every consistent state no student has two grades for one assignment, though the tables only keep one submission per pair and one grade per submission. |
| `GradebookAgreement.SameGradeMap` | services/assignment-grading-service/internal/service/gradebook_service.go:46-50 | The two repositories' different orders do not matter to the grade map. |
| `GradebookAgreement.SumsDifferByUnlisted` | services/assignment-grading-service/internal/service/gradebook_service.go:63-91 | Summing grade by grade is summing assignment by assignment plus the grades of unlisted assignments. |
| `GradebookAgreement.GradebooksAgreeExactly` | services/assignment-grading-service/internal/service/gradebook_service.go:33-192 | With each gradebook on its own listing of assignments, the course's earned points are the student's plus those on assignments off the student's page, so they agree if and only if those grades are worth nothing. |
| `GradebookAgreement.WholeCourseListed` | services/assignment-grading-service/internal/repository/assignment_repository.go:141-181 | One page of 1000 holds a course of at most 1000 assignments whole. |
| `GradebookAgreement.SameTotal` | services/assignment-grading-service/internal/service/gradebook_service.go:136-140 | The total does not depend on the order in which assignments are listed. |
| `GradebookAgreement.GradebooksAgree` | services/assignment-grading-service/internal/service/gradebook_service.go:33-192 | With at most 1000 assignments: same points, percentage and letter, and the same grade entry for each assignment, though the two listings may order assignments due at one time differently. |
| `GradebookAgreement.StudentPercentageInRange` | services/assignment-grading-service/internal/service/gradebook_service.go:93-103 | A student's percentage lies in [0, 100], however many assignments there are. |
| `ConnectionPools.ConnectionPool.Acquire` | services/api-gateway/src/grpc/pool.rs:91-103 | The channel at the counter modulo the pool size, the counter advanced with its wrap; an empty pool panics. |
| `ConnectionPools.UsesExactly` | services/api-gateway/src/grpc/pool.rs:91-103 | How often n consecutive calls use a channel, in closed form. |
| `ConnectionPools.CallsGoRound` | services/api-gateway/src/grpc/pool.rs:91-103 | A fresh pool starts with its first channel; each call gets the channel after the last one's, and after the last the first, until the counter wraps. |
| `ConnectionPools.RoundRobinIsFair` | services/api-gateway/src/grpc/pool.rs:91-103 | From any start index, n consecutive calls use each of k channels floor(n/k) or ceil(n/k) times, before the counter wraps or when k divides its range. |
| `ConnectionPools.WrapIsUnfair` | services/api-gateway/src/grpc/pool.rs:91-103 | Otherwise the wrap uses the first channel twice within at most k calls. |
| `ConnectionPools.AlwaysFairExactly` | services/api-gateway/src/grpc/pool.rs:91-103 | Every window is fair if and only if the number of channels divides 2^64. |

## Left out

- FailedCycleKeepsRoutes: agreement of the overrides of one method is enough for every table but not claimed necessary; that some condition is needed is shown by `DisagreeingOverridesLoseRoute`, and `FailedCycleKeepsVisitedExactly` has the exact one for a given table and the routes of visited services.
- RoutedStaysRouted: settled overrides and verbs without spaces are each needed (`UnsettledOverridesLoseRequest`, `SpacedVerbsLoseRequest`) but are not claimed to be the weakest condition; the answer may come from another backend.
- RequestsReachTheirMethods: one service's methods; routes of several services that meet at one path are decided by order, as `Route` says.
- OpenAdmitsNothing: the gateway breaker only; overlapping calls of the content-management breaker are not modelled, because its transitions span several lock sections.
- FallbackWindowBound: assumes Redis keeps its data over outages and that a key exists strictly until its deadline; whole-second rounding of expiries and the separate Reset command are left out.
- AnswersFollowChains: runs in which some pipeline ends after its first command only are left out; the key then keeps its deadline, or has none until the next call (`Allow` has each such step).
- RedisLimiter.RedisRateLimiter.Allow: the client library sends expiries in whole seconds; a window with a fraction of a second is not cut here.
- UpdateGrade: the time stamps created, updated and graded of all three tables are not modelled.
- GetCourseGradebook: the order of the summaries is left open, as in the source, where it is that of a hash map.
- Text other than ASCII: case mapping is ASCII only, and the panic of the pluraliser on some non-ASCII words is not modelled; a title's length counts characters.
- Database errors other than violated constraints and the ignored status writes: they end an operation before its first write to the tables.
- Floating-point and DECIMAL(10,2) rounding of points, column lengths of the database, and malformed UUIDs.
- Overflow of counters (except that of the pool), of the limiter's window arithmetic and of Go's integer durations (except the longest span in `LatePolicies`).
- A negative MaxAttempts also makes the memory limiter's allocation of a new entry fail, with its lock held; the model only has the index panic.
- Lock ordering, deadlock and lock scheduling; a clock read before its lock is taken (times are nondecreasing where a theorem needs it).
- Requests and admin refreshes that interleave with a refresh cycle while it is querying services; a cycle is one step.
- Interleavings inside one operation of the Go services and of the memory limiter.
- The LRU cache's own implementation, gRPC reflection, the dynamic client, Redis, Postgres, Kafka and file contents: libraries and services outside the repository's own logic.
- Grade statistics, listing pages other than the gradebooks', CSV export, retries, policy caches, trace parsing, status tables, health checks, metrics, configuration and the frontend: easy next to what is proved, or plumbing.
- The grading service's pkg/circuitbreaker wraps a library whose source is not part of this model.
