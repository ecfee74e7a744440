# Verification model of the MCP server core

A Dafny model of the parts of the server that carry state, race with one another, or transform data
under a promise, with proofs of what they promise. Each `.dfy` file is one module; run
`dafny verify dfyconfig.toml`.

| modules | what they model |
|---|---|
| `UriTemplate`, `UriGreedy`, `UriTemplateMatcher` | resource URI templates: tokenizing, validation, greedy matching |
| `TaskStore`, `TaskIsolation`, `TaskLifecycle`, `TaskStoreObject` | the task store with expiry, peers, cancellation and results |
| `TokenBucket`, `SessionRateLimit` | the token bucket and the session-creation limiter |
| `CachedFetch`, `CachedFetchSpacing`, `CachedFetchProgress`, `SharedCache` | the double-checked cache behind discovery and key sets, nested |
| `RuntimeLists`, `RuntimeRaces`, `Debounce`, `RuntimeObject` | config reload, list refresh, debounced change notifications |
| `Json`, `JsonCanonical`, `SchemaCache` | JSON text, canonical cache keys, the compiled-schema cache |
| `TemplatePath`, `TemplateExpression`, `Templating`, `TemplatedValues` | the `${…}` template renderer |
| `RouterPlugins`, `RouterBuild` | HTTP-router plugins and the router they come to |
| `AuthSettings`, `AuthChain`, `AuthOrder` | startup validation of auth providers, the provider chain, and when its order matters |
| `Base64`, `Decimal`, `Pagination` | cursors and pages |
| `Text`, `Strings`, `Wrappers` | string operations of the standard library, `Option` and `Result` |

Values are datatypes and functions. What the source updates in place is a class (or a method with a
loop) that is proved against those functions; what the source interleaves is a state machine whose
steps are the source's critical sections, and the properties are about every run of it. Time is an
input of each step that never goes back. Fetches, compilers, URL parsing, token validation and plugins
are function or relation parameters.

The Base64 alphabet is pinned by a published example, `Base64.FoobarExample`.

Several promises hold only under a condition. There the model keeps the code as it is, and a lemma says
exactly when the promise is met:

- greedy matching finds every instance exactly of templates that end in a variable or have none;
- matched arguments spell the URI again exactly when a variable name is repeated only right after
  another variable;
- a swap of engines can never lead the cached list away from the current engine exactly when the new engine
  makes every list already committed, those of reloads between their two writes and of a refresh between its
  freshness check and its write-back; a run of such swaps stays in agreement, and where no two engines make
  the same list they are the swaps outside both gaps;
- what a reload announces is what it changes exactly if the list cached at its write differs from its own just
  when the one cached at its comparison did;
- cancelling a task stops its worker for good exactly if none is attached afterwards while the entry lives;
- clients are isolated from one another exactly without a global bucket, or with limits that admit
  nobody;
- the order of jwks and introspection providers cannot matter, for tokens that name an issuer, exactly when
  effective issuers, discovered ones included, are distinct (startup compares only configured ones); for
  opaque tokens, exactly when at most one provider introspects;
- an expression or a path survives being written and read exactly when it is plain: a default literal
  with a bar in it is split, and `${x|csv}` of a null is the text `null`, not a missing value.

## Model

| member | source | states |
|---|---|---|
| UriTemplate.TokenizeInvertsPrint | src/engine/resources.rs:274-301 | a template tokenizes to a list of tokens exactly when the list is well formed and prints as the template |
| UriTemplate.MatchIffTight | src/engine/resources.rs:303-336 | soundness and recovery: matching gives some pieces exactly when they spell the URI and each variable's text ends at the first occurrence of the literal after it |
| UriGreedy.CompleteWhenEndsInVar | src/engine/resources.rs:303-336 | a template ending in a variable matches every instance of it (the exchange argument) |
| UriGreedy.GreedyCompleteness | src/engine/resources.rs:303-336 | for such a template, a URI matches exactly when it is the template with some text for every variable |
| UriGreedy.MissedUri | src/engine/resources.rs:303-336 | a template with a variable that ends in a literal misses some instance |
| UriGreedy.CompleteExactly | src/engine/resources.rs:303-336 | completeness holds exactly for templates that end in a variable or have none |
| UriGreedy.ArgsHoldLast | src/engine/resources.rs:303-336 | the argument map holds the text of each name's last occurrence |
| UriGreedy.ArgsExactly | src/engine/resources.rs:303-336 | the map has an entry for a name exactly if a variable has that name, with the text of its last one; without variables it is empty |
| UriGreedy.ByNameRecovers | src/engine/resources.rs:303-336 | with repeats only directly after variables, the map gives back every piece |
| UriGreedy.RepeatLosesText | src/engine/resources.rs:303-336 | any other repeat of a name loses text of some URI |
| UriGreedy.RebuildsExactly | src/engine/resources.rs:303-336 | substituting the map rebuilds every matched URI exactly under that condition |
| UriTemplateMatcher.ValidTemplateRoundTrips | src/engine/resources.rs:200-240 | validation passes exactly templates that are the print of well-formed tokens with no closing brace in a literal and that parse as a URL with `x` for every variable; the first of these that fails is the error |
| UriTemplateMatcher.ReadPlaceholder | src/engine/resources.rs:204-222 | the inner scan returns the name up to the next closing brace, or that there is none |
| UriTemplateMatcher.NormalizeTemplate | src/engine/resources.rs:200-226 | the loop computes the template with `x` for every placeholder, or finds a bad one |
| UriTemplateMatcher.ValidateResourceTemplateUri | src/engine/resources.rs:200-240 | the scanning loop gives the verdict of the specification, error included |
| UriTemplateMatcher.TokenizeTemplate | src/engine/resources.rs:274-301 | the tokenizing loop computes `Tokenize` |
| UriTemplateMatcher.FindNextLiteral | src/engine/resources.rs:314-317 | the look-ahead finds the literal that ends a variable |
| UriTemplateMatcher.MatchVar | src/engine/resources.rs:313-329 | a variable takes the text up to the literal after it, as `MatchFrom` does |
| UriTemplateMatcher.MatchToken | src/engine/resources.rs:306-331 | one turn of the matching loop: the text a token takes and where the next starts, as `MatchFrom` does |
| UriTemplateMatcher.MatchUriTemplate | src/engine/resources.rs:264-336 | the matching loop succeeds exactly when `Match` does, with the arguments of its pieces: the names of the template's variables, no others, each with its last text |
| TaskStore.StepIsLocal | src/engine/tasks.rs:39-217 | every operation acts on each task's slot on its own, cleanup included |
| TaskStore.AnswerIsLocal | src/engine/tasks.rs:39-202 | an answer about a task depends on that task's slot alone |
| TaskIsolation.AlikeRuns | src/engine/tasks.rs:39-235 | from stores a peer cannot tell apart, its answers are those of its own operations alone |
| TaskIsolation.PeersDoNotInterfere | src/engine/tasks.rs:39-235 | in every run a peer's answers equal those of the run with everybody else's operations deleted, although all of them trigger the common expiry cleanup |
| TaskLifecycle.ResultIffTerminal | src/engine/tasks.rs:88-122 | in every reachable state a task has a result exactly when its status is terminal |
| TaskLifecycle.ResultTellsStatus | src/engine/tasks.rs:105-119 | in every reachable state a task is completed exactly when its result is no error, cancelled only with the cancellation result, and carries the message of a raised error |
| TaskLifecycle.KeptUntilExpired | src/engine/tasks.rs:209-235 | the owner sees a task exactly until its time to live has passed, whatever anybody does in between |
| TaskLifecycle.KeptForItsTime | src/engine/tasks.rs:39-77 | from the creating operation on: its owner sees a task exactly while it is younger than the milliseconds it was given, or always without any; a number above the largest 64-bit integer counts as that |
| TaskLifecycle.EndsAsCreated | src/engine/tasks.rs:39-122 | the answers that create and end a task: identifier, time to live, poll interval and creation time the same in both, status, message and time those of the ending, and the peer the creating one |
| TaskLifecycle.ListsAllShown | src/engine/tasks.rs:124-143 | a peer's list is exactly the tasks it would be shown one by one |
| TaskLifecycle.OverForGood | src/engine/tasks.rs:88-201 | once over, no operation ends a task again, and every later read shows the same task and result |
| TaskLifecycle.EndsOnce | src/engine/tasks.rs:88-201 | at most one finish or cancel of a task succeeds; later results are what it recorded, and tasks shown or listed later are the one it answered with, status, message and time included |
| TaskLifecycle.ReadsAgree | src/engine/tasks.rs:145-168 | all results ever read for a task are the same |
| TaskLifecycle.TerminalTasksAreFrozen | src/engine/tasks.rs:88-201 | the same from the empty store, for identifiers drawn once |
| TaskLifecycle.NothingLeftRunning | src/engine/tasks.rs:79-86 | in every run, attaching included, an entry that is gone has had its token cancelled and the worker last attached aborted, and a handle taken out is aborted |
| TaskLifecycle.OverKeepsWorker | src/engine/tasks.rs:79-86 | a task that is over, while its entry lives, holds the worker last attached, and so holds one exactly if one was attached since it ended |
| TaskLifecycle.LateWorkerRunsOn | src/engine/tasks.rs:79-116 | nobody aborts a worker attached to a task already over while the entry lives |
| TaskLifecycle.CancelThenAttach | src/engine/tasks.rs:170-202 | a worker attached after the cancellation runs on until the entry goes, though the task stays cancelled and its token is |
| TaskStoreObject.TaskStore.Create | src/engine/tasks.rs:39-77 | new store and returned task are the specification's |
| TaskStoreObject.TaskStore.AttachHandle | src/engine/tasks.rs:79-86 | the handle is kept or aborted as specified |
| TaskStoreObject.TaskStore.Finish | src/engine/tasks.rs:88-122 | the outcome is recorded only in a task that is not over, with status and message as specified |
| TaskStoreObject.TaskStore.GetTask | src/engine/tasks.rs:124-132 | only the owner sees the task |
| TaskStoreObject.TaskStore.ListTasks | src/engine/tasks.rs:134-143 | exactly the owner's unexpired tasks |
| TaskStoreObject.TaskStore.PollResult | src/engine/tasks.rs:145-168 | one look of `wait_for_result`: result, not found, or still waiting |
| TaskStoreObject.TaskStore.Cancel | src/engine/tasks.rs:170-202 | cancellation with its errors, token cancelled and handle aborted |
| TaskStoreObject.TaskStore.CleanupExpired | src/engine/tasks.rs:209-217 | removes exactly the expired entries, running their destructors; which those are is `KeptForItsTime` |
| TokenBucket.RefillRefinesIdeal | src/http/hardening.rs:296-314 | without saturation the bucket equals one of unbounded integers, remainder included; with it the token counts still agree and are the capacity |
| TokenBucket.RefillInPieces | src/http/hardening.rs:296-314 | while the product does not saturate, refilling twice is refilling once, remainder included |
| TokenBucket.TokensInPieces | src/http/hardening.rs:296-314 | saturation included, the token counts of the two ways are the same |
| TokenBucket.EarlierReading | src/http/hardening.rs:296-314 | a reading before the last one refills nothing and takes nothing |
| TokenBucket.DeletedTakes | src/http/hardening.rs:296-314 | two buckets that refill alike answer the same run alike after denied takes are deleted for one of them |
| TokenBucket.DeniedRefill | src/http/hardening.rs:296-314 | after a denied take every later refill is what it would have been without it |
| TokenBucket.DeniedTakesLeaveNoTrace | src/http/hardening.rs:296-314 | deleting denied takes from any run, saturation included, changes no other answer |
| TokenBucket.PaidFor | src/http/hardening.rs:296-314 | every admission of a run is paid for by credit |
| TokenBucket.CreditConserved | src/http/hardening.rs:296-314 | while nothing is cut off at the capacity, credit left plus admissions equals credit at the start plus what time brought, exactly |
| TokenBucket.DeniedWhenEmpty | src/http/hardening.rs:296-314 | a take is denied exactly when not one whole token is there |
| TokenBucket.WindowBound | src/http/hardening.rs:296-314 | from the first take of a run to the last at most capacity plus the rounded-up refill is admitted, saturation included |
| TokenBucket.AnyWindowBound | src/http/hardening.rs:296-314 | the bound between any two takes of a run |
| SessionRateLimit.SessionCreationRateLimiter.TakeGlobal | src/http/hardening.rs:332-338 | the global bucket takes as specified |
| SessionRateLimit.SessionCreationRateLimiter.AllowWithKey | src/http/hardening.rs:332-350 | answer and both kinds of buckets as specified, the key's bucket made when first met |
| SessionRateLimit.PerKeyIsolation | src/http/hardening.rs:332-350 | without a global bucket a key gets the answers of the run restricted to it |
| SessionRateLimit.GlobalBucketLeaks | src/http/hardening.rs:332-338 | a global bucket that admits anybody lets one key use up another's turn |
| SessionRateLimit.IsolationExactly | src/http/hardening.rs:332-350 | the exact condition for isolation |
| SessionRateLimit.BurstAdmitted | src/http/hardening.rs:287-350 | of requests one client makes at one instant, a new limiter admits exactly as many as its buckets have capacity; requests without a key are one client |
| SessionRateLimit.GlobalWindow | src/http/hardening.rs:332-350 | between any two requests of a run the global window bound holds |
| SessionRateLimit.KeyWindow | src/http/hardening.rs:338-350 | over a whole run from any state in order, the requests of one key obey its own window bound |
| SessionRateLimit.AnyKeyWindow | src/http/hardening.rs:338-350 | between any two requests of any run of a new limiter the requests of one key obey its own window bound |
| CachedFetch.StepKeepsInv | src/auth/inbound/provider.rs:339-378 | every step of every task keeps the lock and freshness invariant of both caches |
| CachedFetchSpacing.OnlyStoresChangeEntry | src/auth/inbound/provider.rs:362-378 | only a successful fetch changes an entry; a failed one leaves it |
| CachedFetchSpacing.SingleFlight | src/auth/inbound/provider.rs:353-378 | in every reachable state at most one fetch per cache is in flight |
| CachedFetchSpacing.AnswersAreCached | src/auth/inbound/provider.rs:339-378 | what a call returns is in its cache then: fetched less than ten minutes before the call looked, or just stored by it |
| CachedFetchSpacing.LookDecides | src/auth/inbound/provider.rs:339-378 | in clock arithmetic: a look answers exactly if the entry is under ten minutes old, and with that entry; else the call goes on to the lock, or to a fetch, through discovery where no URL is configured |
| CachedFetchSpacing.InnerLookDecides | src/auth/inbound/provider.rs:297-378 | the same for the discovery call inside a key-set fetch |
| CachedFetchSpacing.AnswersAreYoung | src/auth/inbound/provider.rs:339-378 | in every run no call answers with a document fetched ten minutes or more before the call was made |
| CachedFetchSpacing.NothingMeansFailure | src/auth/inbound/provider.rs:297-378 | a call returns nothing only after a failed fetch, or for want of a key-set URL |
| CachedFetchSpacing.FetchesAreSpaced | src/auth/inbound/provider.rs:339-378 | two writes of one cache are at least its lifetime apart, for any number of interleaved and dropped calls |
| CachedFetchSpacing.FetchesPerInterval | src/auth/inbound/provider.rs:339-378 | an interval of length L holds at most L / ttl + 1 writes |
| CachedFetchProgress.NoDeadlock | src/auth/inbound/provider.rs:257-265 | whenever a call is unfinished some call can step, because the key-set lock is taken before the discovery lock only |
| CachedFetchProgress.NeverDeadlocked | src/auth/inbound/provider.rs:220-305 | the same in every state any run leads to |
| CachedFetchProgress.StepDescends | src/auth/inbound/provider.rs:339-378 | every step brings its own call nearer to its end and moves no other |
| CachedFetchProgress.CallsAreShort | src/auth/inbound/provider.rs:220-378 | a call takes at most fourteen steps in any run |
| CachedFetchProgress.CallsCanFinish | src/auth/inbound/provider.rs:220-378 | from every state all calls can be brought to an end |
| SharedCache.WholeCall | src/auth/inbound/provider.rs:339-378 | what an undisturbed call returns and leaves, for each of its ways: the entry if it is under ten minutes old at either look, else what the fetch brings |
| SharedCache.SharedCache.CachedFetch | src/auth/inbound/provider.rs:339-378 | the method takes exactly the protocol's steps, and comes to just that |
| RuntimeLists.ListCacheAgrees | src/runtime/core.rs:135-166 | in every orderly run, outside a reload's two writes, the cached list is one the current engine makes |
| RuntimeLists.HarmlessRunsAgree | src/runtime/core.rs:135-166 | the same in every run, overlapping reloads included, that swaps only to engines that make the lists already committed: those of reloads between their writes and of a refresh past its check |
| RuntimeLists.ToolsCacheAgrees | src/runtime/core.rs:354-388 | for tools it is the current engine's very payload |
| RuntimeRaces.StaleWriteBack | src/runtime/core.rs:390-465 | for lists that may differ from one time to the next: a run with one whole reload between the check and the write-back of a refresh, after which the outdated list stays |
| RuntimeRaces.StaleToolsWriteBack | src/runtime/core.rs:354-380 | for tools, fixed in their engine: a run of two reloads one after the other and a refresh that begins between the writes of the first, after which the tools of the first stay with the engine of the second |
| RuntimeRaces.CrossedReloads | src/runtime/core.rs:150-163 | a run in which two reloads leave one's engine with the other's list |
| RuntimeRaces.HarmlessSwaps | src/runtime/core.rs:135-166 | for all engines, a swap can never lead to disagreement exactly when the new engine makes every committed list |
| RuntimeRaces.HarmlessSwapsExactly | src/runtime/core.rs:135-166 | where no two engines make the same list, those are exactly the swaps outside both gaps |
| RuntimeRaces.AnnouncedExactly | src/runtime/core.rs:138-163 | a reload announces its list exactly if another one was cached at its comparison; a change goes unannounced, or an announcement is idle, exactly when the cache at the write compares differently |
| RuntimeRaces.UnannouncedChange | src/runtime/core.rs:138-163 | an orderly run in which a reload changes the list and tells nobody |
| RuntimeRaces.RefreshAnnouncedExactly | src/runtime/core.rs:369-384 | a refresh announces its list exactly if its write changes the cached one, and stays silent when the cache has come to hold it in between |
| RuntimeRaces.SwapRetires | src/runtime/core.rs:340-352 | a swapped-out engine is never current again |
| RuntimeRaces.StaleRefreshDiscarded | src/runtime/core.rs:340-385 | in every run from the start, a refresh whose engine was swapped before its check writes and notifies nothing |
| Debounce.PendingIffOutstanding | src/runtime/core.rs:282-338 | in every reachable state a feature is pending exactly when one timer for it is outstanding |
| Debounce.FlushFindsPending | src/runtime/core.rs:312-322 | a flush always finds its feature pending |
| Debounce.EventsAreFlushed | src/runtime/core.rs:282-338 | every accepted event is followed by a flush of its feature that starts after it |
| Debounce.PendingCanFlush | src/runtime/core.rs:302-310 | a pending feature can be flushed within one debounce interval |
| Debounce.FlushesAreSpaced | src/runtime/core.rs:282-338 | two flushes of a feature are at least the debounce interval apart |
| Debounce.FlushesNeedEvents | src/runtime/core.rs:282-310 | a feature is flushed at most once for each of its events that finds it enabled, so never for events while it is disabled |
| RuntimeObject.ReloadAlone | src/runtime/core.rs:135-166 | an undisturbed reload, as steps of the machine |
| RuntimeObject.RefreshAlone | src/runtime/core.rs:354-388 | an undisturbed refresh, as steps of the machine |
| RuntimeObject.Runtime.ReloadConfig | src/runtime/core.rs:135-166 | the method is those steps |
| RuntimeObject.Runtime.RefreshToolsList | src/runtime/core.rs:354-388 | the method is those steps and says whether the list changed |
| RuntimeObject.Runtime.ScheduleRegistryListChanged | src/runtime/core.rs:282-310 | the pending set and whether a timer is spawned, as a step of the debounce machine |
| RuntimeObject.Runtime.FlushRegistryListChanged | src/runtime/core.rs:312-338 | the pending set as the flush step of the debounce machine leaves it; announces exactly a feature that was pending and is enabled |
| Json.WriteInjective | src/engine/schema_validator_cache.rs:62-65 | from JSON text and what follows it, value and rest can be told |
| Json.TextInjective | src/engine/schema_validator_cache.rs:62-65 | two values have the same text exactly when they are equal |
| Json.TextShape | src/engine/schema_validator_cache.rs:62-65 | compact JSON: the words for null, true and false, numbers as they are, strings quoted and escaped, and arrays and objects as the texts of their parts between commas |
| Json.EscapeStandsFor | src/engine/schema_validator_cache.rs:62-65 | every character is written as what stands for it in a string (section 7 of RFC 8259) |
| JsonCanonical.SortedOnlyOneWay | src/engine/schema_validator_cache.rs:70-71 | members in key order are determined by which they are |
| JsonCanonical.SortCommutes | src/engine/schema_validator_cache.rs:70-77 | sorting before or after canonicalizing the values is the same |
| JsonCanonical.CanonicalIsValid | src/engine/schema_validator_cache.rs:67-82 | a canonical value is a proper value with its members in key order |
| JsonCanonical.CanonicalIffSame | src/engine/schema_validator_cache.rs:67-82 | canonical forms agree exactly when the values are equal up to member order at every depth |
| JsonCanonical.KeysAgreeIffSame | src/engine/schema_validator_cache.rs:62-82 | so do cache keys |
| JsonCanonical.CanonicalIsSame | src/engine/schema_validator_cache.rs:67-82 | canonicalizing changes nothing but member order |
| JsonCanonical.SameIsEquivalence | src/engine/schema_validator_cache.rs:62-82 | being equal up to member order is an equivalence |
| JsonCanonical.CanonicalOnce | src/engine/schema_validator_cache.rs:67-82 | canonicalizing twice is canonicalizing once |
| SchemaCache.StepKeepsInv | src/engine/schema_validator_cache.rs:31-59 | every step of interleaved calls keeps what is filed, and files only what compiled, under its own key |
| SchemaCache.AnswersFit | src/engine/schema_validator_cache.rs:31-59 | in every run an answer is a validator compiled from an equivalent schema, or the compiler's error for the schema asked |
| SchemaCache.OneValidatorPerSchema | src/engine/schema_validator_cache.rs:53-58 | first inserted wins for good: two answers are the same validator exactly when the schemas are equivalent |
| SchemaCache.AnsweredSchemaHits | src/engine/schema_validator_cache.rs:41-49 | a schema once answered is found, never compiled again |
| SchemaCache.WholeCallIsRun | src/engine/schema_validator_cache.rs:31-59 | an undisturbed call, as steps of the machine |
| SchemaCache.SchemaValidatorCache.GetOrCompile | src/engine/schema_validator_cache.rs:31-59 | the method does what those steps do and keeps what was filed |
| TemplatePath.ReadBracket | src/engine/templating.rs:268-275 | the inner loop takes the text to the next closing bracket, or to the end |
| TemplatePath.ParsePath | src/engine/templating.rs:250-288 | the loop computes `Tokens` |
| TemplatePath.PathRoundTrip | src/engine/templating.rs:250-288 | tokens are read back from the path written for them exactly when they are plain, and only plain tokens are ever read |
| TemplatePath.AnyPath | src/engine/templating.rs:250-288 | how any path is read: parts that start with a dot or a bracket on their own, empty names dropped, brackets closed or not an index if they hold a number, with a plus sign and leading zeros or not, and else nothing |
| TemplatePath.SelectPath | src/engine/templating.rs:224-241 | the loop follows the path's tokens; for proper JSON it selects exactly what stands under them |
| TemplatePath.SelectsExactly | src/engine/templating.rs:224-241 | a path selects a value exactly if that stands under its tokens: a name is the member with that very key, an index the item at that position; so it selects nothing exactly where nothing stands |
| TemplatePath.FollowAppends | src/engine/templating.rs:224-241 | following one path after another is following both |
| TemplateExpression.ParseExpression | src/engine/templating.rs:156-194 | the loop over filters computes `Parse`, first error first |
| TemplateExpression.ExpressionRoundTrip | src/engine/templating.rs:156-194 | an expression is parsed back from its text exactly when it is plain |
| TemplateExpression.ParsesExactly | src/engine/templating.rs:156-194 | how any text is read: spaces, letter case of `csv` and the number of question marks mean nothing; base, filters in order, and the first fault |
| TemplateExpression.RenderExpression | src/engine/templating.rs:117-151 | the loop applies the filters in order |
| TemplateExpression.MissingIffStaysMissing | src/engine/templating.rs:121-146 | after all filters nothing is there exactly when nothing was, every default is null, and no csv met a null |
| TemplateExpression.OutcomeExactly | src/engine/templating.rs:138-151 | an expression is left out, fails, or has a non-null value, exactly under that condition and its question mark |
| TemplateExpression.DefaultsInOrder | src/engine/templating.rs:122-128 | a value that is there wins over defaults, else the first default that is not null |
| TemplateExpression.DefaultSupplies | src/engine/templating.rs:196-207 | a missing base gets the JSON value its default is, or else that text; a blank or null default leaves it missing |
| TemplateExpression.CsvSplitsBack | src/engine/templating.rs:304-313 | csv splits back into the texts of the items exactly when none has a comma |
| TemplateExpression.ShownAs | src/engine/templating.rs:294-313 | in a text a string shows as it is, every other value as its compact JSON |
| TemplateExpression.ResponsePaths | src/engine/templating.rs:211-221 | `$` is the response and `$.` selects from it |
| TemplateExpression.PathRenders | src/engine/templating.rs:211-241 | a written path renders to the value it selects |
| Templating.PiecesRoundTrip | src/engine/templating.rs:82-101 | a template string and its list of literals and expressions determine each other |
| Templating.RenderNext | src/engine/templating.rs:83-99 | one turn of the loop takes the text up to and with the next expression |
| Templating.RenderMixed | src/engine/templating.rs:81-101 | the loop computes the in-order concatenation, or the first error |
| Templating.MixedExactly | src/engine/templating.rs:81-101 | any string comes to its literals with the texts of its values between them, nothing for what is left out; or to the error of the first expression that fails, or else of one left open |
| Templating.RenderString | src/engine/templating.rs:75-102 | a lone placeholder keeps its value, anything else becomes text |
| Templating.ReadsInParts | src/engine/templating.rs:81-101 | a template reads as its two parts exactly when no `${` straddles the seam |
| Templating.RendersInParts | src/engine/templating.rs:81-101 | and then renders to what they render to |
| Templating.ValueAppearsVerbatim | src/engine/templating.rs:95-98 | substituted text is never rescanned, whatever it holds |
| Templating.SingleExactly | src/engine/templating.rs:104-112 | a string is taken for a lone placeholder exactly when it is one expression and nothing else |
| Templating.PlaceholderKeepsType | src/engine/templating.rs:104-112 | a placeholder with only space around it gives the selected value itself |
| Templating.RenderInner | src/engine/templating.rs:41-70 | the recursion over arrays and objects computes `RenderJson` |
| Templating.RenderArray | src/engine/templating.rs:47-56 | the loop over an array collects the children not left out, or stops at the first error |
| Templating.RenderObject | src/engine/templating.rs:57-68 | the loop over an object does the same with its members |
| Templating.RenderValue | src/engine/templating.rs:31-36 | a value left out at the top is null |
| TemplatedValues.ArrayKeepsChildren | src/engine/templating.rs:47-56 | an array keeps exactly the children not left out, in order; the first failing child decides the error |
| TemplatedValues.ObjectKeepsMembers | src/engine/templating.rs:57-68 | an object does the same, each member under its key |
| TemplatedValues.RenderedKeysDistinct | src/engine/templating.rs:57-68 | no key comes twice |
| TemplatedValues.InertRendersToItself | src/engine/templating.rs:41-112 | a value without `${` in its strings renders to itself |
| RouterPlugins.LayeredTwice | src/http/router.rs:81-86 | layering a layered router is layering once with all layers |
| RouterPlugins.StepKeepsConsistent | src/http/router.rs:552-636 | every operation keeps route order, route set and segment keys in agreement, without duplicates or reserved paths |
| RouterPlugins.AcceptedExactly | src/http/router.rs:552-636 | operations are accepted exactly when no step has an objection against it, else the first objection is the error |
| RouterPlugins.SegmentNeverMissing | src/http/router.rs:621-631 | the missing-segment error is unreachable |
| RouterPlugins.SegmentsGrow | src/http/router.rs:612-632 | from then on a segment takes exactly the wraps that name it or everything, in order |
| RouterPlugins.RouterIsDeclared | src/http/router.rs:482-649 | the router built operation by operation is the declared one, first declared layer outermost |
| RouterPlugins.BookkeepingAgrees | src/http/router.rs:482-606 | after any accepted declaration the bookkeeping agrees and avoids reserved paths |
| RouterBuild.NormalizedShape | src/http/router.rs:90-110 | only blank paths are refused, only a lone star stays one, all others come out rooted |
| RouterBuild.NormalizedText | src/http/router.rs:90-110 | the trimmed path, rooted, short of nothing but slashes at its end |
| RouterBuild.NormalizedExactly | src/http/router.rs:114-139 | every target is normalized, or the first that cannot be gives the error |
| RouterBuild.TargetExactly | src/http/router.rs:90-139 | a target keeps its kind; a blank path and a star for a route are refused, each with its own error; every other path comes out rooted |
| RouterBuild.NormalizeTargets | src/http/router.rs:114-139 | the loop does that, and refuses an empty list |
| RouterBuild.StepsOfExactly | src/http/router.rs:510-549 | a plugin that answers properly declares one step for each target: the i-th normalized target with the i-th operation answered and the index i; else the error is what is wrong with its targets or its answer |
| RouterBuild.ZipPairs | src/http/router.rs:558 | targets and operations are paired position by position |
| RouterBuild.AllStepsExactly | src/http/router.rs:510-549 | all plugins declare the steps of each after those of the one before |
| RouterBuild.ProcessAppliesAll | src/http/router.rs:510-549 | asking and applying plugin by plugin comes to applying all they declare; a failure is that of the first plugin it stops at |
| RouterBuild.BuildsTheDeclared | src/http/router.rs:419-472 | told from the plugins' own answers: a router comes exactly when every plugin answers properly without objection, and it is the one those answers declare; else the error is that of the first plugin that answers improperly or declares a step objected to |
| RouterBuild.ApplyLayers | src/http/router.rs:81-86 | the backwards loop puts the first layer outermost |
| RouterBuild.PluginRouteState.constructor | src/http/router.rs:482-506 | the starting state, reserved paths included |
| RouterBuild.PluginRouteState.ApplyOps | src/http/router.rs:552-637 | whole new state and error of applying the paired targets and operations (`ZipPairs`); what was applied before an error stays |
| RouterBuild.PluginRouteState.ProcessPlugins | src/http/router.rs:510-549 | state and error of the loop over plugins |
| RouterBuild.PluginRouteState.Assemble | src/http/router.rs:641-649 | the loop nests every segment once |
| RouterBuild.BuildRouter | src/http/router.rs:419-472 | the whole build does that: every segment wrapped in the layers the plugins answered for it |
| RouterBuild.RouteCollides | src/http/router.rs:482-570 | after any accepted declaration a further route is refused exactly at the endpoint, at a path declared before, and, with OAuth on, at the metadata path and the endpoint's own below it |
| AuthSettings.VerdictExactly | src/auth/inbound/factory.rs:232-320 | startup passes exactly the configurations with distinct names and normalized issuers, at most one that allows a missing issuer, at most one bearer, an issuer or discovery for key sets, and a resource where needed |
| AuthSettings.FaultReported | src/auth/inbound/factory.rs:232-320 | the error is the first thing wrong with the first bad provider, or else with the bearers, or the resource |
| AuthSettings.SameIssuer | src/auth/inbound/factory.rs:278-295 | space around issuers and the case of ASCII letters tell none apart; anything else does |
| AuthSettings.ValidateAuthSettings | src/auth/inbound/factory.rs:232-320 | the loop with its sets and counters gives that verdict and the first fault |
| AuthChain.AllowedExactly | src/auth/inbound/authorization.rs:231-376 | allowed exactly when a provider accepts the token after all before it left it to it; forbidden exactly when such a provider finds it short of scopes |
| AuthChain.AuthorizedExactly | src/auth/inbound/authorization.rs:152-401 | every decision, challenge included, for every activation: that of the first provider the token concerns, or, where it concerns none, unauthorized with the default challenge; a bearer alone challenges with nothing |
| AuthChain.JwtHasThreeParts | src/auth/inbound/token.rs:19-21 | a token looks like a JWT exactly if it is three parts between two dots |
| AuthChain.AcceptedMeansOne | src/auth/inbound/authorization.rs:300-340 | with configured issuers, at most one jwks or introspection provider decides a token in three parts |
| AuthChain.OneDecidesExactly | src/auth/inbound/authorization.rs:300-340 | for tokens that name an issuer, for those in three parts that do not, and for all others: when no two jwks or introspection providers decide, exactly |
| AuthOrder.BlockInAnyOrder | src/auth/inbound/authorization.rs:231-243 | a block of which at most one decides comes to the same decision in any order |
| AuthOrder.SameExactly | src/auth/inbound/authorization.rs:231-243 | every order of a block decides alike, whatever validation makes of the token, exactly when at most one decides |
| AuthOrder.OrderMattersExactly | src/auth/inbound/authorization.rs:231-340 | order cannot matter, for tokens that name an issuer, exactly when effective issuers are distinct; for those in three parts that do not, when at most one introspection provider takes them; for all others, when at most one introspects |
| AuthOrder.AcceptedOrder | src/auth/inbound/factory.rs:248-301 | in a configuration startup accepts order never matters for tokens in three parts without an issuer, nor for those with one where all issuers are configured |
| AuthOrder.OrderDoesNotMatter | src/auth/inbound/authorization.rs:231-243 | reordering such a block leaves allowed, unauthorized or forbidden; the answer itself changes exactly when nobody decides and the default challenge changes |
| AuthOrder.DiscoveryMakesOrderMatter | src/auth/inbound/factory.rs:248-301 | a configuration startup accepts in which, through discovery, order is the answer |
| AuthChain.DefaultScopeIsFirst | src/auth/inbound/authorization.rs:393-401 | the default challenge is that of the first provider with scopes, and there is none without such |
| AuthChain.DefaultScopeFollowsOrder | src/auth/inbound/authorization.rs:393-401 | swapping two leading providers whose scopes read differently changes it |
| Base64.DecodeEncode | src/engine/pagination.rs:43-50 | decoding undoes encoding (section 4 of RFC 4648) |
| Base64.EncodeDecode | src/engine/pagination.rs:47-50 | only encodings decode: padding and trailing bits are strict |
| Decimal.ParsePrint | src/engine/pagination.rs:56-58 | parsing a printed offset gives it back |
| Decimal.ParsesExactly | src/engine/pagination.rs:56-58 | the texts that parse as a number: one that fits, printed, behind zeros and perhaps a plus sign |
| Pagination.CursorRoundTrip | src/engine/pagination.rs:43-59 | a cursor decodes to the offset it was made from |
| Pagination.CursorAccepted | src/engine/pagination.rs:47-59 | the accepted cursors, exactly |
| Pagination.PageRefused | src/engine/pagination.rs:23-31 | a request is refused exactly when its cursor is not the encoding of the version tag and a position within the list |
| Pagination.PageEnds | src/engine/pagination.rs:18-41 | a page is the next slice, with a cursor to the rest exactly when there is one |
| Pagination.WalkIsPages | src/engine/pagination.rs:18-41 | following cursors gives the list's pages |
| Pagination.WalkVisitsAll | src/engine/pagination.rs:18-59 | the walk visits every item once and in order, in max(1, ceil(n / page size)) pages, all but the last full |

## Left out

- Waking waiters: `wait_for_result` is one look at the store; that a waiting caller is woken is not modelled.
- Fresh identifiers: task identifiers are drawn at most once per run, and who owns one is a function; the random generator is not modelled.
- Clock steps backwards: every clock input is monotone, also where the source reads wall-clock time.
- Interleaving inside one `allow_with_key` call: the global and the per-key lock are taken in one step; a request carries the time of each.
- Fairness: no lock is assumed to serve waiters in any order, so progress says that calls can finish, not that they will.
- What is fetched: discovery candidates, HTTP status handling and parsing are one outcome of a fetch.
- RuntimeLists.ListCacheAgrees: is stated for runs without a swap in either gap, because the code does not exclude one; `HarmlessRunsAgree` covers all harmless swaps, and `HarmlessSwaps` shows that none else is harmless.
- Prompt and resource refreshes: they have the shape of the tools refresh; plugin answers that differ from time to time are the `makes` relation.
- Sending notifications: who is told after a flush or a reload is a count, not a message.
- Poisoned locks: a panic while a lock is held is not modelled; the source goes on with what is there.
- JSON numbers: a number is the text it prints as; parsing numbers is part of the oracle for default literals.
- UTF-8: text is a sequence of code points; a cursor's bytes are read one by one, which ends in the same error for non-ASCII ones.
- Duplicate object keys: a path is only said to select from objects without any, which is what JSON in memory is; a rendered object appends its members, as inserting distinct keys into a map does.
- Plugin transforms: a layer is a name, a router the term of what it is made of; what axum does with them is not modelled.
- Changing validation outcomes: within one request what a provider makes of a token does not change.
- Header parsing: the bearer token and the issuer claim of a token are inputs of the provider chain.
- Session bookkeeping of the hardening manager, the resource catalog, retry loops, header merging, feature gates: easy members beside the ones above.
