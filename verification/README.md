# Verified model of the request runtime

bustan is a Python web framework: routes are compiled from controllers, and every request passes
guards, pipes, interceptors and exception filters around its handler. This project models the parts of
it that keep state across requests, take decisions for them, or compile plans ahead of them, and proves
what each promises. Code that changes things in place (the throttling store, the result store, the
pipeline memo, the route planner, the attributed durable store) is written as classes and loops, held
to specification functions; code that interleaves (requests being refused, threads and tokens,
controllers under construction, a memo across restarts) is a state machine over its atomic steps; pure
code is functions. `dafny verify dfyconfig.toml` checks the whole project.

| file | component |
|---|---|
| `Options.dfy`, `OrderedDict.dfy` | optional values; the insertion-ordered dictionary and the vocabulary of histories |
| `Throttler.dfy`, `ThrottleHistory.dfy`, `GuardTraffic.dfy` | the sliding-window throttling store and guard; what the store promises over whole runs; the calls the guard makes of it |
| `RecordedResults.dfy`, `Replay.dfy` | the bounded, timed result store; the cache and idempotency interceptors over it |
| `BodyTypes.dfy`, `BodyFaults.dfy`, `BodyBinding.dfy`, `BodyRefusals.dfy`, `BodyTexts.dfy` | JSON bodies: a declarative typing relation, what a refusal must name, the binder, its answers, and the texts they name places by |
| `DurableStore.dfy` | undoing what a refused request cached in the shared durable store |
| `HandlerThreads.dfy` | synchronous handlers, thread tokens and two kinds of cancellation |
| `PipelineMemo.dfy`, `MemoHistory.dfy` | the memo of settled pipeline components, in one request and across restarts |
| `ControllerInstances.dfy` | controllers built concurrently, by scope |
| `PlannedPipes.dfy` | flags and slices compiled ahead of requests |
| `RouteRegistry.dfy`, `RoutePlan.dfy`, `RouteSnapshots.dfy` | route conflicts, the route plan and version dispatch, snapshot diffs |
| `ExceptionFilters.dfy` | the ranked, once-retrying exception-filter engine |
| `AccessPolicy.dfy` | policy from declaration through compilation to decision |

## Where the code does not do what it might be taken to do

Each of these is proved, with the condition under which the expected property does hold.

- With *different* ttls in one result store a key can outlive `limit` distinct later recordings
  (`RecordedResults.MixedTtlsOutlive`), because a look-up forgets an expired key and makes room.
  `RecordedResults.AnswersIff` says exactly when a key is answered, whatever the ttls;
  `RecordedResults.AnswersExactly` is what that comes to under one ttl.
- An idempotency key names a handler, verb, path and presented value, and neither a principal nor a query.
  Whoever presents another principal's value is answered with its result (`Replay.AnotherCallerIsServed`);
  every replay serves the principal it was recorded for exactly when no two principals present one value
  to one handler, verb and path (`Replay.ReplaysServeTheirCallerIff`).
- A recording is kept under the handler function's name, which the documentation of `_route_identity` takes
  to keep routes apart (`src/bustan/security/policy.py:554-565`). Two routes can share it: controllers that
  inherit one handler, on one path under header versioning. The one is then answered with the other's result
  (`Replay.AnotherRouteIsServed`). Every answer serves the route it was recorded for exactly when no two
  routes of the traffic are asked the same of one handler (`Replay.HitsServeTheirRouteIff` for the cache,
  `Replay.ReplaysServeTheirRouteIff` for idempotency).
- One throttle key can be counted under two budgets, and for two reasons: a caller key, being one string, may
  spell another caller's route key; and two routes that inherit one handler under controllers of different
  limits share a route key (`GuardTraffic.InheritedHandlersShareKey`). The guard's calls are proper exactly
  when neither happens and the traffic is in time and on positive budgets
  (`GuardTraffic.GuardCallsAreProperIff`, `GuardTraffic.OneBudgetIff`).
- A body declared as a union refuses `null` unless the union lists `None`, even where a member such as
  `Any` would take it alone (`BodyTypes.UnionGap` says exactly when).
- A refusal names places by text, and an undeclared key is the caller's to choose. In
  `{"a.b": 1, "a": {"b": 2}}` two unexpected keys come out as `a.b` (`BodyTexts.DottedKeyCollides`). Missing
  fields and mistyped values never share a text, and two unexpected keys do exactly when one of them spells
  the way to the other (`BodyTexts.RefusalTexts`).
- Undoing a refused request's writes is attributed by key. If another request wrote the same key since,
  its entry goes too (`DurableStore.SharedKeyLoses`); `DurableStore.RefusalExactly` says what the store
  holds in every run.
- Only what a request caches while its guards decide is attributed to it. What its middleware cached before
  that stays when it is refused (`DurableStore.MiddlewareStaysBehind`), though
  `docs/reference/request-pipeline.md:21` says that such a caller costs the application a guard and nothing else.
- The store keeps equal keys apart by the type of their token, and the set they are attributed in does
  not. Of two such keys one refused request wrote, the second stays behind (`DurableStore.TwinStaysBehind`).
  What is removed is what was written while deciding exactly when there are none
  (`DurableStore.RemovesExactlyItsOwn`). Where no key has two writers, refusal is erasure exactly when each
  refused request had written nothing before its guards that it did not write again, and no two such keys
  since (`DurableStore.ErasesIffAllReached`).
- A cancellation that is not anyio's lets a request go while its thread runs on, so the thread ceiling
  can be exceeded (`HandlerThreads.NativeCancellationExceeds`). It can be exceeded from a given moment on,
  with no further such cancellation, exactly when the threads nobody waits for, together with the tokens
  there are or the work in hand if that is more, exceed it (`HandlerThreads.CeilingPassableIff`); while the
  ceiling stands at its highest, exactly when there is such a thread (`HandlerThreads.CeilingPassableIffOrphaned`).
- A component or pipeline whose resolution began before a shutdown and that is kept only after the restart
  is served from then on (`MemoHistory.StaleAcrossRestart`), and so is one begun before the start and
  overtaken by an override (`MemoHistory.StaleAcrossStart`). Keeping is safe exactly when the resolution
  began after the start of the generation it is kept in, or the plan declares nothing that is resolved
  through the container (`MemoHistory.KeepingOneIsSafeIff`, `MemoHistory.KeepingWholeIsSafeIff`).
- Without versioning, validation tells hosts and versions apart and the route planner does not: two
  contracts of one verb and path with different hosts or disjoint versions pass validation and are refused
  by the plan (`RoutePlan.ValidButRefusedIff`, `RoutePlan.UnversionedGap`).
- With versioning, validation is not run at all. A plan then takes contracts of overlapping versions whose
  paths a router cannot tell apart, such as `/{x}` and `/{y}` (`RoutePlan.RenamedParameterIsTaken`), exactly
  where the paths are written differently (`RoutePlan.VersionedGap`, `RoutePlan.ByRequestGapIff`,
  `RoutePlan.UriGapIff`).
- By URI a version is written into the path as it is. A version that holds a slash can run into the path of
  another contract, of another version, and the two are refused (`RoutePlan.SlashedVersionMeets`);
  `RoutePlan.UriClaimsMeetIff` says when two contracts meet, for every prefix and all versions.
- A version dispatcher is registered at the hosts of its first member. A later one declared for other hosts
  is accepted and loses them (`RoutePlan.SecondLosesItsHosts`); every contract keeps its hosts exactly when
  contracts of one verb and path declare the same ones (`RoutePlan.HostsKeptIff`).
- In a version dispatcher the first match in declaration order wins, so a version-neutral member hides
  whatever is declared after it (`RoutePlan.NothingAfterNeutral`). Moving it last changes who answers
  exactly when one of those serves the request (`RoutePlan.NeutralPositionMattersIff`).
- A snapshot diff does not see an entry whose module, controller and handler another entry shares
  (`RouteSnapshots.KeptWholeIff`, `RouteSnapshots.AmbiguousEntryIsLost`);
  `RouteSnapshots.RouteDiffIsPatchIff` says exactly when it is a patch all the same.
- The comment on the runtime's limit filter (`src/bustan/runtime/execution.py:180-185`) says every
  filter of the application is offered an exception before it. One that declares `BaseException` and
  nothing else is not (`ExceptionFilters.AskedBeforeLimitFilterIff`).

## Model

| member | source | states |
|---|---|---|
| Throttler.InMemoryThrottlerStorage.OfCapacity | src/bustan/security/throttler.py:123-125 | a store is made iff at least one key fits in it, and it starts empty |
| Throttler.InMemoryThrottlerStorage.CountRequest | src/bustan/security/throttler.py:132-171 | the in-place deque and dictionary updates come to the `Counted` dictionary and the `Answer` report of one call, which `Refines` ties to the full history |
| Throttler.AnswerIs | src/bustan/security/throttler.py:132-171 | whatever the budget, the count is how many requests are left inside the window, and one more if this one was refused; the wait is the least whole number of seconds after which the oldest of them is as old as the window, and none if nothing is left |
| Throttler.CountedHolds | src/bustan/security/throttler.py:157-171 | whatever the budget, the key is left last with what remains of its requests, or not at all if nothing does; every other key keeps its window and its place, but that the one unused longest goes if the key is new and there is no room |
| Throttler.ThrottlerGuard.CanActivate | src/bustan/security/throttler.py:197-248 | without an active request it fails and counts nothing; a skipped route leaves store and exchange untouched; otherwise exactly one request is counted, under the route's own key and budget when it declares both, admission means the count is within the limit, and a refusal (only) sets Retry-After |
| ThrottleHistory.Refines | src/bustan/security/throttler.py:132-171 | after every proper run the pruned store holds exactly the `maxKeys` most recently counted distinct keys in order, each with the accepted requests since it last entered that were inside the window at its last call; every reply is that of a specification that forgets nothing; the key just counted is never the one evicted |
| ThrottleHistory.TracksStep | src/bustan/security/throttler.py:132-171 | one call keeps the refinement and gives the specified reply |
| ThrottleHistory.HeldIffRecent | src/bustan/security/throttler.py:101-171 | a key is held iff fewer than `maxKeys` distinct other keys were counted since it last was |
| ThrottleHistory.SlidingWindowSafety | src/bustan/security/throttler.py:94-171 | between two evictions of a key, the i-th and (i+limit)-th accepted requests are at least ttl apart, and no half-open interval of length ttl, wherever it starts, holds more than `limit` of them |
| ThrottleHistory.ReplyBounds | src/bustan/security/throttler.py:49-63 | the count is between 1 and limit+1 and exceeds the limit iff the request was refused; 1 <= reset_after <= ttl, with equality to ttl for a key with nothing spent; a refusal leaves the log unchanged |
| ThrottleHistory.ReplyExact | src/bustan/security/throttler.py:49-63 | for every proper call, accepted or refused: the count is how many accepted requests the full log holds inside the window after it, and one more if it was refused; reset_after is the least whole number of seconds after which the window holds fewer of them |
| ThrottleHistory.RetryAfterExact | src/bustan/security/throttler.py:56-63 | after a refusal reporting r, with nothing of the key accepted in between, a request s whole seconds later is accepted iff s >= r, and r is the number the header carries |
| ThrottleHistory.MemoryBound | src/bustan/security/throttler.py:101-171 | over any run at all, at most `maxKeys` keys are held, none with more timestamps than the largest limit, so that at most the product of the two are stored |
| GuardTraffic.ProperIff | src/bustan/security/throttler.py:225-248 | a history is proper iff its readings never step back, its budgets are positive and no key is counted under two budgets |
| GuardTraffic.RouteKeyTells | src/bustan/security/throttler.py:245-248 | two route keys are equal iff they name one caller and one handler, handler names holding no colon |
| GuardTraffic.OneBudgetIff | src/bustan/security/throttler.py:225-248 | for all traffic, each key is counted under one budget iff no caller meets two budgets on one handler and no caller key spells another's route key under a different budget |
| GuardTraffic.GuardCallsAreProperIff | src/bustan/security/throttler.py:197-248 | for all traffic the calls are proper iff counted readings never step back, the budgets in use are positive, no caller meets two budgets on one handler, and no caller key spells another's route key under a different budget |
| GuardTraffic.InheritedHandlersShareKey | src/bustan/security/throttler.py:245-248 | one policy per handler is enough for one budget per caller and handler; two requests of one caller and handler on different budgets of their own are counted under one key |
| GuardTraffic.GuardAnswersFromHistory | src/bustan/security/throttler.py:197-248 | on such traffic every counted request is reported on, and admitted or refused, as the full history of the run before it says, whatever the store has forgotten |
| GuardTraffic.ServeVisit | src/bustan/security/throttler.py:197-248 | one request through the guard takes the store from what the calls of the run so far left in it to what the longer run does, and it is admitted iff it is skipped or, on proper traffic, the full history accepts it |
| RecordedResults.ResultStore.Answer | src/bustan/security/policy.py:369-380 | answers with the unexpired entry of the key, forgets it if expired, changes nothing else |
| RecordedResults.ResultStore.Record | src/bustan/security/policy.py:382-404 | the entry moves to the back and the front is dropped exactly while it has expired or the limit is exceeded |
| RecordedResults.Holds | src/bustan/security/policy.py:347-404 | in every history, whatever the ttls and the clock, a held entry is its key's last recording, entries stand in recording order, and at most `limit` are held |
| RecordedResults.AnswersIff | src/bustan/security/policy.py:364-404 | with any mixture of ttls and readings in lock order, a look-up is answered iff the last recording of its key has not expired and at no moment since did `limit` keys stand behind it (those recorded since, less those a look-up found expired); the answer is that recording |
| RecordedResults.PlacesExactly | src/bustan/security/policy.py:382-404 | while a key's last recording is unexpired, it is held iff it was never crowded out, and the keys behind it are its crowd |
| RecordedResults.Survives | src/bustan/security/policy.py:369-404 | with any mixture of ttls an unexpired recording is answered until `limit` distinct other keys were recorded since |
| RecordedResults.Displaced | src/bustan/security/policy.py:391-404 | with one ttl, an unexpired entry is gone once `limit` distinct other keys were recorded since |
| RecordedResults.AnswersExactly | src/bustan/security/policy.py:364-404 | with one ttl and readings in lock order, a key is answered iff its last recording has not expired and fewer than `limit` distinct other keys were recorded since, and the answer is that recording |
| RecordedResults.SortedByExpiry | src/bustan/security/policy.py:391-404 | with one ttl expiries are sorted front to back, and right after a recording nothing expired is held |
| RecordedResults.MixedTtlsOutlive | src/bustan/security/policy.py:391-404 | a concrete history with two ttls in which a key outlives `limit` distinct later recordings |
| Replay.OneQuestionPerKey | src/bustan/security/policy.py:498-527 | two requests are kept under one cache key iff they are of one handler, folded verb, path, query and principal, and only GET and HEAD requests are kept |
| Replay.OneAttemptPerKey | src/bustan/security/policy.py:530-551 | two attempts are kept under one key iff they reach one handler, folded verb and path and present one value |
| Replay.ValuesTellAttempts | src/bustan/security/policy.py:530-551 | reading the headers: two attempts share a key iff the values they carry are the same, under the declared name or, where that carries none, under it in small letters, and so are handler, path and, but for its case, verb |
| Replay.PresentsNothingIff | src/bustan/security/policy.py:530-551 | an attempt has no key iff there is no request, no header is declared, or neither the declared name nor the same in small letters carries a value that is not empty; otherwise its value is read under the first of the two that does |
| Replay.FieldsTellQuestions | src/bustan/security/policy.py:498-527 | two cacheable requests share a key iff handler, path, query, principal and, but for its case, verb are the same |
| Replay.UncacheableIff | src/bustan/security/policy.py:498-527 | a request has no cache key iff its verb is neither GET nor HEAD in any case, its query or its principal cannot be read, or there is no request |
| Replay.Interceptor.LookUp | src/bustan/security/policy.py:428-430 | a hit hands over the recorded value and the handler is not run; a miss is exactly the case in which it is |
| Replay.Interceptor.HandOver | src/bustan/security/policy.py:432-434 | an attempt whose handler returned is recorded under its own key |
| Replay.RecordedByRun | src/bustan/security/policy.py:419-434 | whatever a key was last given was handed over by an attempt of that key whose handler ran |
| Replay.HitReplaysRun | src/bustan/security/policy.py:419-458 | with look-up, run and recording as separate interleaved steps, every hit is the result of an earlier run for the same key, recorded less than its ttl ago |
| Replay.HitServesItsOwnCaller | src/bustan/security/policy.py:419-434 | a cached answer only reaches the principal, handler, path and query it was computed for |
| Replay.ReplaysServeTheirOwnIff | src/bustan/security/policy.py:419-458 | over all runs of a traffic, every answer from a recording agrees with the request recorded, in whatever is read off a request, iff the keys tell apart requests that differ in it |
| Replay.AnotherCallerIsServed | src/bustan/security/policy.py:447-458 | for any two requests of different principals that present one value to one handler, verb and path there is a run in which the second is answered with the first's result |
| Replay.ReplaysServeTheirCallerIff | src/bustan/security/policy.py:447-458 | over all runs of a traffic, every replay serves the principal whose attempt was recorded iff no two principals of it present one value to one handler, verb and path |
| Replay.ReplaysServeTheirRouteIff | src/bustan/security/policy.py:554-565 | over all runs of a traffic, every idempotent replay serves the route whose attempt was recorded iff no two routes of it share handler, verb, path and presented value |
| Replay.HitsServeTheirRouteIff | src/bustan/security/policy.py:554-565 | over all runs of a traffic, every cache hit serves the route it was computed for iff no two routes of it share handler, verb, path, query and principal |
| Replay.AnotherRouteIsServed | src/bustan/security/policy.py:554-565 | for any two requests that differ in route and not in their cache key there is a run in which the second is answered with the result of the first's route |
| Replay.CachedEqualsUncached | src/bustan/security/policy.py:419-434 | if handlers are determined by their key, a replayed answer is the one the handler would give |
| Replay.RunsIffUnanswered | src/bustan/security/policy.py:419-458 | whatever the ttls, an arriving attempt runs its handler iff exact retention leaves it nothing to replay |
| Replay.RunsIffNotRetained | src/bustan/security/policy.py:447-458 | an arriving attempt runs its handler iff no attempt of its key came back within the retention, or `limit` distinct other keys were recorded since one did |
| Replay.OncePerKey | src/bustan/security/policy.py:447-458 | once an attempt of an idempotency key has come back, none arriving within 24 hours runs the handler again unless 1024 distinct other keys were recorded since |
| BodyTypes.RoundTrip | src/bustan/runtime/params.py:1371-1570 | the bound value, erased back to JSON, is the value sent |
| BodyTypes.BuiltHasType | src/bustan/runtime/params.py:1371-1570 | what is bound has the declared type at every depth, required constructor fields included |
| BodyTypes.ConformsIffSaid | src/bustan/runtime/params.py:1371-1570 | a JSON value is of a declared type iff some bound value of that type says it in JSON: no other body is bound, and none is refused |
| BodyTypes.UnionGap | src/bustan/runtime/params.py:1415-1443 | a value fits a member but not the union iff it is null, the union does not list None, and a member would take null |
| BodyTypes.ScalarsTake | src/bustan/runtime/params.py:1304-1320 | an int takes whole numbers only, a float those and fractions, a bool `true` and `false`, a str texts, None null |
| BodyTypes.CollectionsTake | src/bustan/runtime/params.py:1446-1490 | a list takes arrays of its argument, if it has one; a dict takes objects whose values are of the second of two arguments, and any object otherwise |
| BodyTypes.UnionsTake | src/bustan/runtime/params.py:1415-1443 | a union takes null iff it lists None, and any other value iff a member takes it |
| BodyTypes.ClassesTake | src/bustan/runtime/params.py:1131-1173 | a class takes objects that name every required parameter and, unless surplus is collected, no other, with values of the hinted types |
| BodyFaults.FaultFreeIffConforms | src/bustan/runtime/params.py:1371-1533 | unless a conversion refuses first, the located faults of a body are none iff it is of the declared type |
| BodyFaults.ShapeFaultFree | src/bustan/runtime/params.py:1131-1173 | an object's shape has no fault iff it names every required parameter and only declared ones (unless surplus is collected) |
| BodyFaults.UnionFaults | src/bustan/runtime/params.py:1415-1443 | a union that refuses a value reports the faults of its only member besides None, unless there is none such, the value is null or that member refuses in its own words; it then reports the value as not of the union |
| BodyFaults.RaisesIff | src/bustan/runtime/params.py:1404-1412 | a body is refused in a conversion's own words iff at some place the declared type reaches a conversion refuses the value there |
| BodyBinding.BindBodyField | src/bustan/runtime/params.py:1371-1412 | for every JSON value and declared type: terminates, finds no mismatch iff the value conforms, then binds the value the typing relation builds, and otherwise returns exactly the located faults |
| BodyBinding.BindBodyUnion | src/bustan/runtime/params.py:1415-1443 | binds the first member that fits; reports the one real member's own faults where there is just one |
| BodyBinding.BindBodyList | src/bustan/runtime/params.py:1446-1464 | every element's faults are collected, each under its index |
| BodyBinding.BindBodyDict | src/bustan/runtime/params.py:1467-1490 | every value's faults are collected, each under its key |
| BodyBinding.BindBodyDataclass | src/bustan/runtime/params.py:1493-1558 | shape faults and field faults together, and an instance iff there are none |
| BodyBinding.BindDeclaredFields | src/bustan/runtime/params.py:1507-1533 | each hinted field is bound or faulted, each other passes through |
| BodyRefusals.BindBodyValue | src/bustan/runtime/params.py:1325-1368 | bound iff it conforms; a conversion's refusal iff a conversion raises; the root-only refusal iff the body itself is of the wrong type; otherwise every located fault |
| BodyRefusals.RootOnlyIffMisfit | src/bustan/runtime/params.py:1362-1368 | the refusal reads as root-only iff the body's own type is the sole fault |
| BodyRefusals.PlacesAreLocated | src/bustan/runtime/params.py:1446-1533 | each place the declared type reaches stands under the path that leads to it in the body, and no path occurs twice |
| BodyRefusals.ReachedIffWalked | src/bustan/runtime/params.py:1371-1533 | a value and declared type are looked at under a path iff walking that path through body and type together arrives at them |
| BodyRefusals.RefusalIsComplete | src/bustan/runtime/params.py:1086-1111 | one refusal names exactly the local faults of every reachable place; a place is reached iff walking its path through the body and the declared type arrives there; no path, taken as its steps, is named twice as missing, as unexpected or as mistyped, constructor parameters having different names |
| BodyRefusals.RefusalNames | src/bustan/runtime/params.py:1131-1173 | read off body and type by walking a path: it is missing iff the class it arrives at requires its last name and the object lacks it, unexpected iff the object has it and the class neither declares it nor collects surplus, and mistyped, as the declared type, iff the value it arrives at is not of that type at all |
| BodyTexts.QuotedTells | src/bustan/runtime/params.py:1291-1293 | two keys quoted in a path are told apart, and from what follows them, whatever characters they hold and whichever characters are shown as they are |
| BodyTexts.TextForwards | src/bustan/runtime/params.py:1283-1300 | the text built on the way down reads forwards as the first step and what each further step adds |
| BodyTexts.StepText | src/bustan/runtime/params.py:1283-1300 | a field adds a dot, but at the root, and its name; an index and a key add themselves in brackets |
| BodyTexts.DecimalSpells | src/bustan/runtime/params.py:1287-1289 | an index is written as the shortest decimal numeral of it |
| BodyTexts.QuotedIs | src/bustan/runtime/params.py:1291-1293 | a key stands between double quotes iff it holds a single and no double one, and otherwise between single ones |
| BodyTexts.EscapedReads | src/bustan/runtime/params.py:1291-1293 | each character of a quoted key reads back as itself, and is written in the shortest of the forms open to it |
| BodyTexts.TextTells | src/bustan/runtime/params.py:1117-1120 | two places reached by plain names, indices and quoted keys have one text iff they are one place |
| BodyTexts.TextsMeetIff | src/bustan/runtime/params.py:1117-1120 | two names of any kind below two places come out under one text iff they are one, or one of the names spells the way from its place to the other |
| BodyTexts.RefusalTexts | src/bustan/runtime/params.py:1131-1173 | in one refusal no text names two missing fields or two mistyped values, and one text names two unexpected keys iff one of the keys spells the way to the other |
| BodyTexts.DottedKeyCollides | src/bustan/runtime/params.py:1165-1171 | one body whose two unexpected keys have one text |
| DurableStore.AttributedStore.BeginDeciding | src/bustan/runtime/execution.py:934-954 | from here on the request's writes are attributed to it, none so far |
| DurableStore.AttributedStore.AdmitRequest | src/bustan/runtime/execution.py:566-568 | the attribution is forgotten and the store untouched |
| DurableStore.AttributedStore.FailDeciding | src/bustan/runtime/execution.py:668-670 | a failure that is not a refusal leaves the store untouched |
| DurableStore.AttributedStore.SetItem | src/bustan/runtime/execution.py:910-914 | a write is stored under its own slot, and attributed, unless an equal key already is, iff its request is being decided |
| DurableStore.AttributedStore.RefuseRequest | src/bustan/runtime/execution.py:668-670 | a refusal removes the attributed keys and forgets the attribution |
| DurableStore.AttributedStore.EvictDurablePartitions | src/bustan/runtime/execution.py:957-980 | removes the given keys and nothing else |
| DurableStore.CreatedIsHeldTo | src/bustan/runtime/execution.py:910-954 | in every interleaving, what is held against a request being decided is, of each class of equal keys it wrote since it began, the first |
| DurableStore.RemovesExactlyItsOwn | src/bustan/runtime/execution.py:934-980 | its refusal removes those; they are every key it wrote since it began iff no two different ones are equal apart from the type of their token |
| DurableStore.AdmittedStaysAdmitted | src/bustan/runtime/execution.py:566-568 | until it begins to be decided again, nothing a request writes after it is admitted is attributed to it, so none of it is undone for its sake |
| DurableStore.RefusalExactly | src/bustan/runtime/execution.py:899-980 | in every interleaving a key is in the store iff some write of it stands that no refusal is held to and no refusal evicted the key since; it then holds what that write stored |
| DurableStore.RefusalErasesIff | src/bustan/runtime/execution.py:899-980 | the store is that of the run without what requests wrote before they were refused iff at each key one of two holds: no refused request's write stands there, and if that run holds the key then no refusal evicted it; or one stands, and it was evicted again and that run does not hold the key, or it was not and that run holds the same instance |
| DurableStore.RefusalIsErasure | src/bustan/runtime/execution.py:899-980 | with no key written by two requests, refusal is erasure iff no refused request's write stands because the request was not held to it, unless evicted since |
| DurableStore.ErasesIffAllReached | src/bustan/runtime/execution.py:464-571 | with no key written by two requests and none by a request already refused, refusal is erasure iff, when each request was first refused, it had written nothing before its guards that it did not write again while they decided, and no two different keys since that are equal apart from the type of their token |
| DurableStore.MiddlewareStaysBehind | src/bustan/runtime/execution.py:464-472 | for any request and key, a possible run with a single writer and no such two keys after whose refusal what was written before the guards is still stored |
| DurableStore.TwinStaysBehind | src/bustan/kernel/ioc/scopes.py:115-160 | for any two such keys, a possible run with a single writer after whose refusal the second is still stored |
| DurableStore.SharedKeyLoses | src/bustan/runtime/execution.py:957-980 | a concrete run in which a refusal takes a served request's entry with it |
| HandlerThreads.TokensBalance | src/bustan/runtime/execution.py:1311-1333 | in every interleaving each call acquires at most one token, has released it iff it no longer holds one, and never releases one unacquired |
| HandlerThreads.StandsWhereItsStepsLed | src/bustan/runtime/execution.py:1311-1333 | in every interleaving, the steps taken tell where each call stands, and in what order they can have come: one cancelled in the queue is over and never held a token, one shielded goes on only once its thread is back, and one is over iff it was cancelled there or gave its token back |
| HandlerThreads.PossibleIffMayFollow | src/bustan/runtime/execution.py:1311-1333 | which step may come next is settled by the steps taken so far, and for a token by how many are out |
| HandlerThreads.QueuedIsServedIff | src/bustan/runtime/execution.py:1311-1314 | a queued call can still come by a token, whatever the calls before it are doing and with nobody cancelled natively, iff the ceiling is not zero |
| HandlerThreads.TokenReturns | src/bustan/runtime/execution.py:1317-1333 | from wherever a call holds a token, its own steps alone return it |
| HandlerThreads.ThreadIsWaitedFor | src/bustan/runtime/execution.py:1319-1331 | an occupied thread belongs to a call still waiting for it, unless a native cancellation let that call go |
| HandlerThreads.TokensBounded | src/bustan/runtime/execution.py:1088-1107 | tokens in use never exceed the highest ceiling set |
| HandlerThreads.ThreadsBounded | src/bustan/runtime/execution.py:1278-1333 | occupied threads never exceed the highest ceiling set by more than the threads nobody waits for, which only native cancellations leave behind |
| HandlerThreads.CeilingPassableIff | src/bustan/runtime/execution.py:1278-1333 | from any reachable state, with no further native cancellation or change of ceiling, more threads than the highest ceiling can come to be occupied iff orphaned threads plus the greater of tokens and work in hand exceed it |
| HandlerThreads.CeilingPassableIffOrphaned | src/bustan/runtime/execution.py:1319-1333 | while the ceiling stands at its highest, it can be passed iff some occupied thread has nobody waiting for it |
| HandlerThreads.ThreadsFillUp | src/bustan/runtime/execution.py:1311-1333 | the continuation that fills the threads up: every holder is served or releases, then fresh calls take the tokens left |
| HandlerThreads.NativeCancellationExceeds | src/bustan/runtime/execution.py:1321-1328 | a concrete run: one token, two threads occupied |
| PipelineMemos.PipelineMemo.Follow | src/bustan/runtime/controller_factory.py:98-107 | the memo is emptied iff it was holding for another container or generation |
| PipelineMemos.FollowedKeepsIff | src/bustan/runtime/controller_factory.py:98-107 | what is held survives iff it was kept for that container and generation, or there was nothing; otherwise all of it goes |
| PipelineMemos.PipelineMemo.Get | src/bustan/runtime/controller_factory.py:69-73 | answers from the followed memo only |
| PipelineMemos.PipelineMemo.Keep | src/bustan/runtime/controller_factory.py:75-79 | adds one entry to the followed memo |
| PipelineMemos.PipelineMemo.KeepPipeline | src/bustan/runtime/controller_factory.py:88-96 | adds one pipeline beside its plan, emptying the table first when eight are held |
| PipelineMemos.KeptBesides | src/bustan/runtime/controller_factory.py:88-96 | the others stay beside it iff fewer than eight were held |
| PipelineMemos.ControllerFactory.ResolveManaged | src/bustan/runtime/controller_factory.py:277-329 | the answer is the container's own, with or without a kept entry; the container is asked iff none is kept, and an entry is kept besides iff the component is settled |
| PipelineMemos.ControllerFactory.ResolveComponents | src/bustan/runtime/controller_factory.py:277-355 | the components, in order, are those resolved afresh; settled iff each one is; exactly the settled ones among them are kept besides, and nothing is asked of the container iff all it knows of were kept |
| PipelineMemos.ControllerFactory.ResolvePipeline | src/bustan/runtime/controller_factory.py:190-252 | under any override, resolving with the memo gives the pipeline resolved without one; a settled plan that declares anything is kept whole unless it is overridden, and a plan kept whole asks the container nothing |
| PipelineMemos.SettledPlanForEveryone | src/bustan/runtime/controller_factory.py:331-355 | a settled plan resolves to one pipeline whoever asks |
| PipelineMemos.ResolvedInOrder | src/bustan/runtime/controller_factory.py:277-329 | components come in declaration order: a managed one as what the container answers for its owner, token, slot and reach, an instance as itself, a plain class as a new object |
| PipelineMemos.SettledIff | src/bustan/runtime/controller_factory.py:331-355 | they are settled iff none is a plain class and each managed one is steady in a started container |
| MemoHistory.LaterIffReached | src/bustan/kernel/ioc/container.py:140-165 | what a container may have become since a request began is exactly what starts, overrides before start and shutdowns make of it |
| MemoHistory.ReachedIsOrderly | src/bustan/runtime/controller_factory.py:40-107 | in every run at all, containers have only moved on since a request began, the memo remembers no generation yet to come, and at most eight pipelines are kept |
| MemoHistory.NeverChangesAnAnswer | src/bustan/runtime/controller_factory.py:40-107 | in every run of requests, starts, shutdowns, overrides before start, and plans freed and their identities reused, in which what is kept began to be resolved after the start of the generation it is kept in, what the memo finds is what the container would answer now, for that very plan; at most eight pipelines are kept |
| MemoHistory.StepKeepsInvariant | src/bustan/runtime/controller_factory.py:40-107 | each step of such a run keeps that invariant |
| MemoHistory.ReusedIff | src/bustan/runtime/controller_factory.py:61-67 | the identity of a plan can pass to another plan iff the memo does not hold it |
| MemoHistory.OverrideReachesNothingKept | src/bustan/runtime/controller_factory.py:331-355 | nothing kept before start can be changed by an override, because it declares nothing resolved through the container |
| MemoHistory.WholeBetweenSame | src/bustan/runtime/controller_factory.py:205-252 | a pipeline whose parts are resolved one by one, each at a moment of its own within one generation after its start, is the one the container answers with now |
| MemoHistory.KeepingOneIsSafeIff | src/bustan/runtime/controller_factory.py:317-327 | across everything the container may have become, a component kept is sure to be the current answer iff its resolution began after the start of the generation it is kept in |
| MemoHistory.KeepingWholeIsSafeIff | src/bustan/runtime/controller_factory.py:240-252 | the same of a pipeline: iff its resolution began after that start, or its plan declares nothing resolved through the container, or a class built anew each time, so that it is never kept |
| MemoHistory.StaleAcrossRestart | src/bustan/runtime/controller_factory.py:240-252 | a run, from the empty memo through a start, a request, a shutdown and a restart, in which the component and the pipeline that request keeps are served although no resolution would answer with them |
| MemoHistory.StaleAcrossStart | src/bustan/runtime/controller_factory.py:331-355 | the same within one generation, through a request begun before the start and an override |
| ControllerInstances.SingletonIsOne | src/bustan/runtime/controller_factory.py:122-171 | in every interleaving, all callers of a singleton controller get one instance, and it was built once |
| ControllerInstances.RequestHasOne | src/bustan/runtime/controller_factory.py:122-171 | all stages of a request get one request-scoped controller, even when two of them built it |
| ControllerInstances.NeverShared | src/bustan/runtime/controller_factory.py:122-171 | different requests never share a request-scoped controller, nor callers a transient one, nor different controllers anything |
| ControllerInstances.OneInside | src/bustan/runtime/controller_factory.py:161-169 | at most one caller is inside the construction lock of a controller |
| ControllerInstances.LockIsHeldInside | src/bustan/runtime/controller_factory.py:161-171 | in every interleaving the construction lock of a controller is held iff some caller is inside it, and by that caller |
| ControllerInstances.EveryoneIsServed | src/bustan/runtime/controller_factory.py:122-171 | from every reachable state there is a continuation, without failures or newcomers, in which every caller that has not failed is handed its controller |
| ControllerInstances.NewcomerIsServed | src/bustan/runtime/controller_factory.py:122-171 | whoever comes next, for whatever controller, can be served too |
| ControllerInstances.HandedOverAtOnce | src/bustan/runtime/controller_factory.py:134-141 | a singleton already built is handed over without its lock |
| PlannedPipes.RunPipes | src/bustan/pipeline/pipes.py:20-53 | the loop threads the value, the parameter context and the world through every applicable pipe, stopping at the first failure |
| PlannedPipes.StagesAre | src/bustan/pipeline/pipes.py:38-53 | the stages are the author's own in order, then validation iff it is automatic, the parameter is of a model class, custom parameters are validated if it is one, and the author validates nowhere |
| PlannedPipes.PipedInTurn | src/bustan/pipeline/pipes.py:20-35 | stages run one after the other on what the one before returned, and none after a failure |
| PlannedPipes.FlagsAreExact | src/bustan/runtime/execution.py:1248-1275 | a flag compiled before any request is set iff some stage applies to that parameter of every request |
| PlannedPipes.ApplyPipes | src/bustan/runtime/execution.py:1195-1227 | piping the marked parameters only gives the arguments, effects and failure of piping every non-request parameter |
| PlannedPipes.OneParameterMore | src/bustan/runtime/execution.py:1195-1246 | parameter by parameter: the request is passed as it is, any other goes through its own stages from the world the ones before left, and nothing follows a failure |
| PlannedPipes.PrepareArguments | src/bustan/runtime/execution.py:595-615 | choosing the flags by whether the route has pipes, and skipping when none is set, changes nothing a handler receives |
| PlannedPipes.SlicesAreTheWhole | src/bustan/runtime/execution.py:287-311 | under any componentwise override, the gate and remainder slices, the empty ones skipped, come to the whole plan resolved at once |
| PlannedPipes.OverridesReplace | src/bustan/testing/overrides.py:109-118 | each component is replaced by what the table of its own slot holds for it, in its place |
| RouteRegistry.Validate | src/bustan/runtime/registry.py:24-51 | accepts iff no two contracts share verb, hosts, canonical pattern and an overlapping version |
| RouteRegistry.DuplicateConflicts | src/bustan/runtime/registry.py:28-34 | an exact duplicate is a special case of a conflict |
| RouteRegistry.SamePatternIff | src/bustan/runtime/registry.py:174-191 | two paths have one canonical pattern iff their segments read alike to a router, one by one |
| RouteRegistry.SegmentsIff | src/bustan/runtime/registry.py:178-179 | a path is read as some segments iff it spells them with a slash between each two and any number of slashes around |
| RouteRegistry.ReadAlikeIff | src/bustan/runtime/registry.py:179-189 | two segments read alike iff both are parameters, both are wildcards, or they are one literal |
| RouteRegistry.PathsReadAlikeIff | src/bustan/runtime/registry.py:174-191 | for all paths, the canonical patterns are the same iff the segments read alike, one by one |
| RouteRegistry.ConflictIff | src/bustan/runtime/registry.py:156-191 | for all contracts: they conflict iff they share verb and hosts, their segments read alike one by one, and both are neutral or neither is and they share a version |
| RouteRegistry.SplitJoined | src/bustan/runtime/registry.py:178-191 | splitting joined segments gives the segments back |
| RoutePlan.BuildUriPaths | src/bustan/runtime/routing.py:300-313 | each path once, and a path is among them iff the contract is neutral and it is its own, or it is the joined path of a declared version, or the default is declared and it is the bare path |
| RoutePlan.VersionsInTurn | src/bustan/runtime/routing.py:307-312 | version by version: the slash, the prefix and the version before the path, the root path left out, and the bare path right behind the default's |
| RoutePlan.DedupedInOrder | src/bustan/runtime/routing.py:313 | paths keep the order they first appear in |
| RoutePlan.RoutePlanBuilder.Add | src/bustan/runtime/routing.py:139-175 | a contract is taken iff the contracts so far and it are acceptable together |
| RoutePlan.RoutePlanBuilder.ClaimAll | src/bustan/runtime/routing.py:152-163 | every path of the contract is claimed and planned, or the contract is refused because some path of it was taken |
| RoutePlan.RoutePlanBuilder.Hold | src/bustan/runtime/routing.py:204-223 | a contract is held for a dispatcher iff its versions overlap none held for the same verb and path |
| RoutePlan.RoutePlanBuilder.Build | src/bustan/runtime/routing.py:177-247 | the plan holds one entry per claimed path at its contract's hosts, or one dispatcher per verb and path with exactly its contracts in order, at the hosts of the first |
| RoutePlan.CompileRoutePlan | src/bustan/runtime/routing.py:75-106 | compiled iff the whole list is acceptable (and, unversioned, valid); then no two entries share verb and path |
| RoutePlan.AcceptedIffApart | src/bustan/runtime/routing.py:195-202 | unversioned or by URI, a list is accepted iff no two contracts claim one verb and path |
| RoutePlan.UriSeparatesVersions | src/bustan/runtime/routing.py:157-163 | an accepted URI plan never holds two contracts of one path with overlapping versions, nor a neutral one beside one serving the default |
| RoutePlan.InExactlyOneDispatcher | src/bustan/runtime/routing.py:177-193 | each contract sits in exactly one dispatcher |
| RoutePlan.DispatcherMembersApart | src/bustan/runtime/routing.py:204-223 | the members of a dispatcher have pairwise disjoint versions and at most one is neutral |
| RoutePlan.PlannedKeepsHosts | src/bustan/runtime/routing.py:225-247 | without dispatchers every contract is registered at the hosts it declares |
| RoutePlan.HostsKeptIff | src/bustan/runtime/routing.py:225-247 | with dispatchers every contract is registered at the hosts it declares iff contracts of one verb and path declare the same ones |
| RoutePlan.SecondLosesItsHosts | src/bustan/runtime/routing.py:225-247 | for any two contracts of one verb and path, apart in version and different in hosts: both are accepted, and the only plan registers both at the hosts of the first |
| RoutePlan.Dispatch | src/bustan/runtime/routing.py:316-331 | the loop finds the first member that is neutral or declares the version asked for |
| RoutePlan.DispatchedIsServing | src/bustan/runtime/routing.py:316-331 | a version is answered iff some member declares it or is neutral, and by such a member |
| RoutePlan.DispatchedIsFirst | src/bustan/runtime/routing.py:316-331 | the member served is the first that declares no version, all of them or the one asked for, and none iff no member does |
| RoutePlan.OrderIsImmaterial | src/bustan/runtime/routing.py:322-326 | without a neutral member, declaration order does not change who serves a version |
| RoutePlan.NothingAfterNeutral | src/bustan/runtime/routing.py:324-326 | no member declared after a neutral one is ever chosen |
| RoutePlan.NeutralLastServesSpecificFirst | src/bustan/runtime/routing.py:324-326 | wherever a neutral member stands, moving it last changes the answer iff no member before it serves the request and one after it does |
| RoutePlan.NeutralPositionMattersIff | src/bustan/runtime/routing.py:324-326 | in an accepted dispatcher, moving a neutral member from any position to the end changes the answer iff a member after it serves the request |
| RoutePlan.UnversionedAcceptsIff | src/bustan/runtime/routing.py:152-155 | without versioning a list is accepted iff no two contracts share verb and path |
| RoutePlan.ValidButRefusedIff | src/bustan/runtime/routing.py:152-155 | two contracts pass validation and are refused by the plan iff they share verb and path and differ by host or have no version in common |
| RoutePlan.UnversionedGap | src/bustan/runtime/routing.py:92-93 | a validated list is refused iff some two contracts share verb and path, and those differ by host or have no version in common |
| RoutePlan.HostsDoNotSeparate | src/bustan/runtime/routing.py:152-155 | contracts differing only by host pass validation and are refused by the plan |
| RoutePlan.ByRequestAcceptsIff | src/bustan/runtime/routing.py:204-223 | with dispatchers a list is accepted iff no two contracts of one verb and path overlap in version |
| RoutePlan.ByRequestGapIff | src/bustan/runtime/routing.py:92-93 | with dispatchers, two contracts validation would refuse are taken iff they conflict and their paths are written differently, and two it would take are refused iff they differ by host alone |
| RouteRegistry.SegmentMoreTells | src/bustan/runtime/registry.py:174-191 | a path behind anything besides slashes has another canonical pattern |
| RoutePlan.UriClaimsMeetIff | src/bustan/runtime/routing.py:300-313 | by URI, for any prefix, two contracts of one verb claim a path in common iff a version of one runs into its path as one of the other into the other's, or both serve one path bare, or the bare path of one is the path of a version of the other |
| RoutePlan.PlainVersionsMeetIff | src/bustan/runtime/routing.py:300-313 | versions without a slash do so iff they are one version of one path |
| RoutePlan.SlashedVersionMeets | src/bustan/runtime/routing.py:300-313 | for any split of a versioned path at two places: two contracts that share neither version nor path, pass validation and are refused by URI under every prefix |
| RoutePlan.UriGap | src/bustan/runtime/routing.py:92-93 | by URI, of any two contracts, those validation would refuse are taken iff they conflict and do not meet so, and those it would take are refused iff they are of one verb, meet so and do not conflict |
| RoutePlan.UriGapIff | src/bustan/runtime/routing.py:92-93 | for versions without a slash the first are those that conflict and whose paths are written differently, and the second those that meet and do not share path, hosts and a version |
| RoutePlan.VersionedGap | src/bustan/runtime/routing.py:92-93 | under any versioning, a list the plan takes would fail validation iff some two of its contracts conflict and write their paths differently |
| RoutePlan.RenamedParameterIsTaken | src/bustan/runtime/routing.py:92-93 | one parameter under two names: neutral contracts on `/{x}` and `/{y}` conflict, and the plan takes both under every versioning |
| RouteSnapshots.DuplicateIdentities | src/bustan/runtime/registry.py:209-217 | exactly the controller and handler pairs more than one entry has |
| RouteSnapshots.DiffRouteSnapshots | src/bustan/runtime/registry.py:83-146 | exactly the additions, removals and changes between the two snapshots, each once, in the order of their identities |
| RouteSnapshots.DiffReports | src/bustan/runtime/registry.py:83-146 | entry by entry: added iff it stands in the second and nothing of its identity in the first, removed iff the other way round, changed iff both stand, go by one identity and differ |
| RouteSnapshots.FieldsAre | src/bustan/runtime/registry.py:134-144 | a change lists exactly the fields that differ, in the order of a snapshot |
| RouteSnapshots.DiffIsPatch | src/bustan/runtime/registry.py:83-146 | for all snapshots, applying the diff to the entries it saw of the first gives those it saw of the second |
| RouteSnapshots.EmptyIffSame | src/bustan/runtime/registry.py:106-146 | the diff is empty iff both hold the same entries |
| RouteSnapshots.LeastIdentity | src/bustan/runtime/registry.py:107 | the first identity in the order of tuples of text |
| RouteSnapshots.TextBeforeIff | src/bustan/runtime/registry.py:107 | one text is before another iff it begins it, or has the lesser character where they first differ |
| RouteSnapshots.IdentityBeforeIff | src/bustan/runtime/registry.py:107 | changes go by controller and then handler, and between identities that need the module, by it first |
| RouteSnapshots.SwappingInverts | src/bustan/runtime/registry.py:106-146 | swapping the indexes inverts every change and adds none |
| RouteSnapshots.RouteDiffInverts | src/bustan/runtime/registry.py:83-146 | for all snapshots, the diff of b and a has as many changes as that of a and b, each the inverse of one of them |
| RouteSnapshots.KeptWholeIff | src/bustan/runtime/registry.py:93-104 | a diff sees the whole of a snapshot iff no two different entries share module, controller and handler |
| RouteSnapshots.RouteDiffIsPatchIff | src/bustan/runtime/registry.py:83-146 | for all snapshots, applying the diff of a and b to a yields b iff the entries it does not see are the same in both, those b shows put aside; it is empty iff it sees the same entries in both |
| RouteSnapshots.RouteDiffIsPatch | src/bustan/runtime/registry.py:83-146 | when module, controller and handler are unique in each snapshot, applying the diff of a and b to a yields b, and it is empty iff they hold the same routes |
| RouteSnapshots.AmbiguousEntryIsLost | src/bustan/runtime/registry.py:93-104 | otherwise a removed entry can go unreported |
| ExceptionFilters.Nearest | src/bustan/pipeline/filters.py:193-203 | the least distance to a declared type the exception is an instance of, none iff there is no such type |
| ExceptionFilters.MatchingFilters | src/bustan/pipeline/filters.py:171-186 | collecting and sorting gives the one order `TryOrderMeaning` describes |
| ExceptionFilters.TryOrderMeaning | src/bustan/pipeline/filters.py:171-203 | the order tried is a permutation of the matching filters, specific before catch-all, then nearest, then later-declared first, and no other order is |
| ExceptionFilters.MatchesIff | src/bustan/pipeline/filters.py:189-203 | a filter matches iff it names a class the exception is of, by inheritance or by registration |
| ExceptionFilters.RankedBeforeIff | src/bustan/pipeline/filters.py:171-212 | of two matching filters the one offered first is the one that names something specific, else the one whose class is nearer, else the one declared later |
| ExceptionFilters.HandleException | src/bustan/pipeline/filters.py:138-168 | ends after at most two passes and 2n+1 catch calls, always with a result: the first pass's, else the second's over what the first failed with, else the fallback's, and the calls made are exactly those |
| ExceptionFilters.PassEnds | src/bustan/pipeline/filters.py:138-168 | a pass ends with the first filter that does not decline |
| ExceptionFilters.AnswerIs | src/bustan/pipeline/filters.py:138-168 | what is answered and every call made, case by case: by the first filter that does not decline, by the first that does not decline what it failed with, or by the fallback on whichever exception came last |
| ExceptionFilters.AskedBeforeLimitFilterIff | src/bustan/runtime/execution.py:983-992 | a matching filter of the application ranks before the limit filter iff it declares anything besides BaseException |
| ExceptionFilters.LimitFilterIsTransparent | src/bustan/runtime/execution.py:180-199 | for exceptions it does not claim, the limit filter changes no answer |
| ExceptionFilters.LimitFilterAnswersLast | src/bustan/runtime/execution.py:193-215 | one it claims and every application filter declines is answered by it |
| AccessPolicy.MergePolicyMetadata | src/bustan/pipeline/metadata.py:266-325 | the accumulating loop computes the fold of `Merge` |
| AccessPolicy.MergeAssociates | src/bustan/pipeline/metadata.py:266-325 | merging is associative |
| AccessPolicy.MergeIdentity | src/bustan/pipeline/metadata.py:266-325 | the undeclared policy is its identity |
| AccessPolicy.MergedConcat | src/bustan/pipeline/metadata.py:266-325 | merging in parts is merging at once |
| AccessPolicy.MergedMeaning | src/bustan/pipeline/metadata.py:281-312 | a merge has the last declared strategy, cache, idempotency, audit, owner and deprecation, the last limit and the last window each by itself, and is public, skips, or demands a role or permission iff some declaration does |
| AccessPolicy.DemandedInOrder | src/bustan/pipeline/metadata.py:281-312 | roles and permissions are demanded in the order they were declared in |
| AccessPolicy.Declared.ExtendPolicyMetadata | src/bustan/pipeline/metadata.py:178-241 | however many decorators are stacked, the attribute is one merge of them all |
| AccessPolicy.PolicyGuard.CanActivate | src/bustan/pipeline/guards.py:42-84 | gives the verdict `IsVerdict` singles out, and writes a principal iff a strategy identified one on a request |
| AccessPolicy.OneVerdict | src/bustan/pipeline/guards.py:42-84 | exactly one of admitted, misconfigured, unauthenticated and rejected (with what is missing) fits a plan and a request |
| AccessPolicy.RefusedAs | src/bustan/pipeline/guards.py:42-84 | misconfigured iff nothing is registered for the strategy, unauthenticated iff nobody is known where somebody has to be, rejected with exactly the roles that somebody lacks or, lacking none, the permissions |
| AccessPolicy.MissingInOrder | src/bustan/pipeline/guards.py:68-84 | what is missing is listed in the order it is demanded in |
| AccessPolicy.AsksIffTurnsAway | src/bustan/runtime/compiler.py:473-474 | a declaration asks for access iff, were it not public, it would turn away a caller nobody knows |
| AccessPolicy.CompiledPlanDecidesAsDeclared | src/bustan/runtime/compiler.py:477-503 | for every pair of levels the compiler takes, the guard on the compiled plan admits iff the declarations do: handler public, or controller public and the handler asks for nothing, or every role and permission of both levels is held by the principal of the last-declared strategy |
| AccessPolicy.CompiledPlanIs | src/bustan/runtime/compiler.py:477-503 | the compiled plan is the merge of all declarations, controller first, public iff the route is open to anybody |
| AccessPolicy.RefusedIff | src/bustan/runtime/compiler.py:487-498 | a route is refused iff a level is both public and demanding, or callers are authenticated without a usable registry |
| AccessPolicy.LeftOutOnlyWhereOpen | src/bustan/runtime/compiler.py:285-288 | the guard is left out only of routes anybody may call |

## Left out

- Clocks are parameters and readings are exact reals; rounding of floating-point readings is not modelled. The order of the result store's clock readings, taken outside its lock, is the hypothesis `Ordered`.
- Histories that count one throttle key under two budgets, or limits or windows below one, are outside `Proper`, and `GuardTraffic.GuardCallsAreProperIff` says when the guard makes none; the memory bound does not need it.
- Handler names hold no colon and declared names are identifiers (`HandlersPlain`, `PlainName`), as Python's are.
- RoutePlan.UriGapIff: is of paths that begin with a slash and versions without one that are not empty behind the prefix (`WellWritten`); `UriGap` and `UriClaimsMeetIff` are of all.
- A middleware that runs the rest of its route twice at once, so that one request is decided twice at the same time.
- The text of a declared rate-limit window and the caller key resolver (forwarded addresses, trusted proxies) are inputs.
- Python reflection is an input: class resolution orders, constructor parameters, resolved annotations, compiled bindings. Values JSON cannot carry are converted by the uninterpreted `Program.converts`, and a constructor whose shape fits is taken to succeed.
- `InitVar` unwrapping, the sentences of refusals around the paths they name, problem documents, logging, metrics, tracing and audit records.
- Capacity eviction of the durable store, whose LRU order belongs to the container.
- anyio's limiter queue and the event loop without asyncio; handlers that are coroutines hold no thread.
- The dependency-injection container: bindings are seen through what is steady, what a component resolves to, a started flag and a generation. Verification of a component's type and its errors are left to it.
- MemoHistory.NeverChangesAnAnswer: holds of runs that keep in time (`Timely`); `KeepingOneIsSafeIff` and `KeepingWholeIsSafeIff` say exactly when keeping is safe, and two witness runs what happens otherwise. In a run that does not keep in time, a component found in the memo is not fed into a pipeline that is kept.
- Reading the requested version from headers or the media type, and normalising declared versions: the dispatcher takes the version asked for.
- Exceptions that are not instances of `Exception`, which the filter engine lets through.
- The merging of pipeline metadata and the loop over a route's other guards, each a concatenation or a first failure.
- Transport adapters, ASGI, the command line, OpenAPI documents and health probes.
