# Verified model of the ThinkPixelGR evaluator

ThinkPixelGR evaluates a request against guardrail policies: it resolves the policies that apply, runs
their detectors under nested deadlines, aggregates findings and failures into one decision, rewrites the
content when that decision is to redact, and keeps metrics. This project models those parts in Dafny and
proves what they keep, for every input and every run.

| file | models |
|---|---|
| `Common.dfy`, `Text.dfy` | result types; byte strings, their order, decimal numbers |
| `Paths.dfy` | the printed paths of string leaves, and a reader that inverts them |
| `Content.dfy` | the content envelope, its JSON tree, the visitors, the leaf-by-leaf rewrite |
| `Tree.dfy` | the strings of an envelope by the steps that lead to them: what visiting finds, what rewriting changes |
| `Splicing.dfy` | sorting, choosing and splicing the replacements of one string |
| `Additions.dfy` | what becomes of the spans cut out of a string when more are asked for |
| `Redaction.dfy` | applying a run's replacements to an envelope, messages in place |
| `Keywords.dfy` | keyword matching and what it removes |
| `Policy.dfy` | compiling the configuration, resolving a request's policies |
| `Detectors.dfy`, `DetectorFacts.dfy` | pattern, keyword and secret detectors, and what they hand over |
| `Detection.dfy` | what each kind of detector reports, in terms of the matches in each string |
| `Effective.dfy` | which policies judge a request, and with which settings, in terms of the configuration |
| `Evaluation.dfy` | the evaluation loops as a timed run, against a trace of the run |
| `RunFacts.dfy`, `DecisionFacts.dfy` | what every run keeps; what the decision means; the built-in executor |
| `Failures.dfy` | how one executor call ends, what a failure records, what the reported times are worth |
| `Budgets.dfy` | exactly how long policies and evaluations take with the built-in executor |
| `RedactedRun.dfy`, `Guarantees.dfy` | end to end: from an accepted configuration to the returned content |
| `Witnesses.dfy` | whole evaluations from a configuration on: a redaction displaced, a message overwritten, the defaults at work |
| `SchemaErrors.dfy` | the leaves of a schema validation error |
| `Metrics.dfy`, `Observability.dfy` | histograms, counters and the metrics service over any history |
| `Counters.dfy` | what counters and buckets count, in terms of the observations |
| `Labels.dfy` | Prometheus label quoting |

`dafny verify dfyconfig.toml` checks everything.

Conventions. A Go string is a sequence of bytes, and one `char` stands for one byte, so offsets are byte
offsets. Durations and moments are whole nanoseconds. Time passes only inside executor calls, and a context
is done from the very moment its deadline or cancellation is reached: timer delay and the time the evaluator
itself spends are not modelled. An executor is a function of the content, the number of the call, the
detector and the time its context has left; every statement quantifies over all such functions, so every
sequence of delays, answers and errors is covered. Regular expressions, the schema compiler, entropy and the
detectors without spans are parameters; of the expressions only the library's promise is used that spans lie
in the text and do not run backwards (`Detectors.Sound`). The library sorts are methods of this project with
the library's contract: the unstable one promises a sorted rearrangement and nothing about ties.

The premises of the redaction theorems are met by real runs: `Guarantees.KeywordFound` and
`Guarantees.RedactionHappens` lead from a keyword in the content to a completed run that decides to redact, with
an executor that `DecisionFacts.BuiltinExecutorRuns` shows to be a built-in one.

Four statements of the repository's documents do not hold of its code, the first two as they are written and the
last two in their natural reading. The model follows the code, gives the input that fails, and proves exactly when
the statement does hold:

- `docs/contracts/deterministic-detectors-v1.md:78-80` says redaction does not mutate the request. Messages are
  rewritten in the slice shared with the request (`internal/engine/evaluator.go:530-532`).
  `Redaction.RequestIsMutated` shows it, and `Witnesses.EvaluationMutatesRequest` for the service from starting
  with a configuration to answering a request. `Redaction.ApplyReplacements` states exactly what changes, and
  `Redaction.RequestKeptExactly` says exactly when nothing does: when every message passes a one-pass test
  around its chosen spans; `RedactedRun.RunKeepsRequestExactly` says it of a whole run.
  `Redaction.RequestKeptWhenPutBack` brings that down to the values alone in all but one case, and
  `Redaction.ShiftsCanCancel` shows that this case is real.
- The same lines say matches are replaced. A match that starts inside an applied one is dropped whole, so its
  tail can survive (`internal/engine/evaluator.go:517`). `Splicing.OverlapDropsLater` shows it for all such
  pairs, `Witnesses.CallerUncoversSecret` for two keyword detectors of one run; `Splicing.MatchedBytesGoExactly`
  gives the exact condition for one string and `RedactedRun.FindingsGoExactly` for a whole run.
- The repository's `README.md:67-68` says that mandatory policies cannot be removed by caller-selected ones.
  That holds literally: they always run, come first, and bound the action from below
  (`DecisionFacts.CallerCannotWeaken`). The natural reading that what they do stays done fails, because the
  spans of a policy the caller selects compete with theirs: in `Witnesses.CallerUncoversSecret` the mandatory
  redaction of a secret is displaced. `RedactedRun.CallerKeepsCutsExactly` gives the exact condition under which
  no byte is uncovered.
- `docs/contracts/evaluation-api-v1.md:73-78` gives every policy a timeout and says that remaining detectors are
  skipped once it expires, which they are (`RunFacts.OverrunIsOneCall`). The natural reading that a policy takes
  no longer than its timeout fails: the built-in executor notices an expired deadline only after detecting
  (`internal/engine/evaluator.go:34-43`), so a policy can overrun by any amount
  (`DecisionFacts.BuiltinsCanOverrun`). `Budgets.BudgetKeptExactly` gives the exact condition on the detection
  times, `Budgets.EvaluationTimeExact` the exact length of a whole evaluation and
  `Budgets.EvaluationBudgetExact` when it keeps to the sum of the timeouts. For every executor,
  `RunFacts.PolicyTimeExact` says that a policy keeps its budget exactly when each call it makes returns by
  then, and `RunFacts.OverrunIsOneCall` bounds the overrun to one call.

## Model

| member | source | states |
|---|---|---|
| Paths.PathRoundTrip | internal/engine/evaluator.go:478-496 | every printed path reads back to exactly the steps it was printed from, for all keys and indexes |
| Paths.PathInjective | internal/engine/evaluator.go:560-570 | two different positions below one parent never get the same path |
| Paths.ReadQuotedInverts | internal/engine/evaluator.go:563 | a quoted key is delimited by its closing quote and determines the key, whatever follows |
| Tree.PrintedPaths | internal/engine/evaluator.go:560-570 | the printed form by example: identifier keys plain, empty, digit-first and other keys quoted, indexes and message numbers in brackets |
| Tree.PlainKeys | internal/engine/evaluator.go:560-570 | a key is printed plain exactly when it starts with a letter or underscore and goes on with those and digits |
| Text.LessExact | internal/engine/evaluator.go:491 | the order of keys, paths and values is decided by the first byte in which they differ |
| Content.SortKeys | internal/engine/evaluator.go:487-491 | keys gathered in any order come out as the one sorted list of the map's keys |
| Content.VisitJSONStrings | internal/engine/evaluator.go:478-496 | the visitor calls once per string leaf, depth first with sorted keys, naming each by its path |
| Content.VisitText | internal/engine/evaluator.go:464-471 | non-empty text and then every message, in order |
| Content.VisitStrings | internal/engine/evaluator.go:473-476 | text, messages and data leaves in order |
| Tree.SpotsExact | internal/engine/evaluator.go:478-496 | a string is visited at some steps if and only if following those steps from the value leads to it |
| Tree.SpotsInOrder | internal/engine/evaluator.go:481-495 | strings are visited depth first, items by number and fields by key |
| Tree.StringLeavesExact | internal/engine/evaluator.go:464-476 | what is visited is exactly the text unless empty, every message, and every string in the data, each under its path |
| Tree.StringLeavesInOrder | internal/engine/evaluator.go:464-476 | in this order: text, messages by number, data depth first |
| Content.PathsNameLeaves | internal/engine/evaluator.go:464-496 | all leaves of an envelope have different paths; text, message and data paths never collide |
| Content.TransformCommutes | internal/engine/evaluator.go:539-558 | rewriting and then visiting gives the same positions in the same order, each string rewritten under its own path |
| Content.TransformKeepsShape | internal/engine/evaluator.go:539-558 | keys, shape, numbers, booleans and nulls are untouched |
| Tree.TransformAt | internal/engine/evaluator.go:539-558 | wherever steps lead, they lead in the rewritten value to the old string rewritten under its path, the same scalar, as many items or the same keys, and nowhere else |
| Splicing.SortedIsUnique | internal/engine/evaluator.go:505-513 | within one path the three-key comparator allows a single sorted order |
| Splicing.OrderIrrelevant | internal/engine/evaluator.go:503-528 | within one string, any permutation of the items of its path gives the same result |
| Splicing.SelectSpans | internal/engine/evaluator.go:514-522 | the scanning loop computes the greedy choice |
| Splicing.SelectedChained | internal/engine/evaluator.go:514-522 | chosen spans were asked for, are in range and follow one another |
| Splicing.ChainedApart | internal/engine/evaluator.go:514-522 | any two chosen spans are ascending and do not overlap |
| Splicing.GreedyCoverage | internal/engine/evaluator.go:505-522 | an in-range span is chosen or blocked by a chosen one starting no later and no shorter on a tie; its first byte is always covered |
| Splicing.SmallestValueWins | internal/engine/evaluator.go:507-509 | among equal non-empty spans the smallest value is the one used |
| Splicing.SpliceRightToLeft | internal/engine/evaluator.go:523-526 | the backward loop, for any spans, stopping where a slice would be out of range |
| Splicing.SplicedIsWoven | internal/engine/evaluator.go:523-526 | on chosen spans the backward splicing never stops and equals gap, value, gap, value, ..., tail |
| Splicing.OutsideBytesSurvive | internal/engine/evaluator.go:523-526 | without the inserted values the result is exactly the bytes outside the chosen spans, in order |
| Splicing.WeaveLength | internal/engine/evaluator.go:523-526 | output length is input length less what is cut plus what is inserted |
| Splicing.Apply | internal/engine/evaluator.go:503-528 | sort, choose and splice, for any items of one path; on spans that run forward, the order-independent rewrite |
| Splicing.BackwardSpans | internal/engine/evaluator.go:517-525 | a span that runs backwards is not rejected: it repeats text or stops the program |
| Splicing.MatchedBytesGoExactly | internal/engine/evaluator.go:515-522 | no matched byte survives if and only if a one-pass test on the requested spans holds |
| Splicing.NestedSpansLeaveNothing | internal/engine/evaluator.go:515-522 | pairwise nested or disjoint spans leave no matched byte |
| Splicing.OverlapDropsLater | internal/engine/evaluator.go:517 | of any two spans the one that starts later, inside the other, is dropped whole and its tail survives |
| Splicing.PartialOverlapLeavesTail | internal/engine/evaluator.go:517 | a concrete partial overlap whose tail survives |
| Additions.AddedSpansKeepCuts | internal/engine/evaluator.go:505-522 | what was cut stays cut when added spans never overlap old ones partially, or when no matched byte of all of them survives |
| Additions.CutsKeptExactly | internal/engine/evaluator.go:505-522 | added spans uncover nothing if and only if a one-pass test on all spans in order succeeds |
| Redaction.ApplyReplacements | internal/engine/evaluator.go:498-537 | the envelope redacted leaf by leaf; messages change in the shared slice, and the request is unchanged if and only if every message is a fixed point |
| Redaction.RedactionCommutesWithVisiting | internal/engine/evaluator.go:498-558 | the redacted envelope has the same leaves at the same paths, each rewritten by what is recorded for its path |
| Redaction.RedactionKeepsTheRest | internal/engine/evaluator.go:529-536 | kind, roles, message count and everything in data but strings are kept |
| Redaction.LookupFindsOwnRecords | internal/engine/evaluator.go:499-504 | looking up by path gives each leaf exactly what its own visit recorded |
| Redaction.EnvelopeIgnoresOrder | internal/engine/evaluator.go:498-537 | any permutation of a run's replacements gives the same envelope: text, messages and data |
| Redaction.RequestKeptExactly | internal/engine/evaluator.go:530-532 | for all replacements, the request survives if and only if every message passes a one-pass test; a message no fitting replacement is aimed at passes |
| Redaction.RequestKeptWhenPutBack | internal/engine/evaluator.go:530-532 | when values hold foreign bytes, change the length or fill their spans, the request survives if and only if every value put in is the text it replaces |
| Redaction.ShiftsCanCancel | internal/engine/evaluator.go:523-526 | the case left over: values of other lengths can spell the same message |
| Redaction.RequestIsMutated | internal/engine/evaluator.go:530-532 | one matched message is overwritten in the caller's own slice |
| Keywords.MatchKeyword | internal/policy/resolver.go:256-275 | the offset loop returns the occurrences found by searching on from the end of the last |
| Keywords.MatchesAreExact | internal/policy/resolver.go:256-275 | spans are ascending, disjoint and genuine; every occurrence starts inside one; no set of disjoint occurrences is larger |
| Keywords.KeywordMatches | internal/policy/resolver.go:256-275 | the same in terms of letters: a match is the keyword letter by letter, in either case unless case matters |
| Keywords.KeywordIsRemoved | internal/engine/evaluator.go:291-300 | one keyword alone in a string: all its spans apply and no untouched stretch of the result holds it |
| Policy.CanonicalIDInjective | internal/config/config.go:52 | canonical ids are equal only for equal id and version |
| Policy.NewResolver | internal/policy/resolver.go:36-139 | compilation succeeds if and only if the configuration is acceptable, and yields the compiled catalog |
| Policy.CompilePolicies | internal/policy/resolver.go:38-129 | every policy accepted and no canonical id twice, if and only if there is no error |
| Policy.CompilePolicy | internal/policy/resolver.go:39-124 | a policy with its defaults, if and only if its metadata, action, timeouts, mode and detectors are acceptable |
| Effective.AcceptedExactly | internal/policy/resolver.go:36-139 | the configurations that start the service, from the settings themselves: each policy and detector fit, no revision twice, the platform's policies there |
| Policy.AcceptedIsValid | internal/policy/resolver.go:45-77 | compiled policies have positive, ordered timeouts, known action and mode, one type per detector, and redact only with span detectors |
| Policy.Resolver.Resolve | internal/policy/resolver.go:207-236 | the loop with its seen map computes the resolution |
| Policy.ResolutionExact | internal/policy/resolver.go:207-236 | it succeeds if and only if profile and ids are known, and yields the named, stage-supporting policies once each in order of first appearance |
| Policy.ResolvedWellFormed | internal/policy/resolver.go:207-236 | every policy a request resolves to keeps what compilation established |
| Policy.MandatoryFirst | internal/policy/resolver.go:208-219 | the mandatory-only resolution is a prefix of every resolution that succeeds |
| Effective.EffectivePolicies | internal/policy/resolver.go:207-236 | every policy that the platform, the tenant, the profile or the caller names is found if it supports the stage, nothing else is, and they come in this order |
| Effective.ResolutionErrors | internal/policy/resolver.go:212-232 | a failed resolution reports the unknown profile, or else the first id that names no policy |
| Effective.CatalogHolds | internal/policy/resolver.go:36-139 | the compiled catalog holds the platform's and tenants' lists, every profile and every policy of the configuration under its canonical id |
| Effective.FailureActsAsConfigured | internal/policy/resolver.go:51-56 | a recorded failure calls for block exactly when the mode is closed or omitted, for monitor exactly when it says so, and else for nothing |
| Effective.OmittedModeBlocks | internal/policy/resolver.go:51-53 | a run blocks when a policy with an omitted failure mode records a failure, whatever the executor |
| Effective.BudgetsAsConfigured | internal/policy/resolver.go:45-47 | a policy has exactly its own timeout or 100 ms, a detector its own or its policy's, and each call the smaller of that and what is left |
| Detectors.EvaluateDetector | internal/engine/evaluator.go:262-303 | the appending closures produce the two halves of the same list of hits |
| Detection.PatternsReported | internal/engine/evaluator.go:277-289 | a pattern detector reports exactly the matches of its pattern, a finding and at the same index a replacement, with the configured labels and placeholder |
| Detection.PatternsInOrder | internal/engine/evaluator.go:277-289 | once for each match and in the order of the matches |
| Detection.KeywordsReported | internal/engine/evaluator.go:290-301 | a keyword detector reports exactly the spans of its keywords, with the configured labels and placeholder |
| Detection.KeywordsCounted | internal/engine/evaluator.go:290-301 | as often as its keywords have spans |
| Detection.SecretsReported | internal/engine/evaluator.go:397-447 | a secret detector reports exactly the secrets of the enabled kinds, each place once and labelled with the first kind that recognises it, entropy defaults included |
| Detectors.EvaluateSecrets | internal/engine/evaluator.go:397-447 | findings and replacements are those of the first candidate at each place |
| Detectors.PlaceKeyInjective | internal/engine/evaluator.go:418 | the printed key identifies path, start and end |
| Detectors.SecretCollector.Add | internal/engine/evaluator.go:417-427 | the seen map on printed keys reports a place exactly when no earlier candidate took it |
| DetectorFacts.DetectedAligned | internal/engine/evaluator.go:262-303 | findings and replacements agree index by index; replacements are non-empty, run forward and fit the string they name |
| DetectorFacts.SecretPlacesExact | internal/engine/evaluator.go:416-445 | secret findings are at pairwise different places and miss no candidate place |
| DetectorFacts.EarliestWins | internal/engine/evaluator.go:417-436 | at one place the earliest pattern is the one reported |
| DetectorFacts.DetectedForLeaf | internal/engine/evaluator.go:277-302 | looking up a detector's replacements by path gives what it finds in that leaf alone |
| Evaluation.Progress.ApplyFailureDecision | internal/engine/evaluator.go:238-252 | the decision and reason after a failure |
| Evaluation.Evaluator.TryDetector | internal/engine/evaluator.go:126-167 | one executor call: answer, failure or abort, with time and aggregates updated |
| Evaluation.Evaluator.EvaluatePolicy | internal/engine/evaluator.go:112-170 | the detector loop follows the trace of the policy and aborts exactly when the trace does |
| Evaluation.Evaluator.Evaluate | internal/engine/evaluator.go:79-185 | the response is exactly what the run adds up to, or the error the caller's context or resolution causes |
| Failures.CallOutcome | internal/engine/evaluator.go:119-153 | how any executor call ends, in terms of the call: the caller's end, an answer in time, a timeout whose scope is the policy's also on a tie, or an error with its published code |
| Failures.TurnOutcome | internal/engine/evaluator.go:114-124 | before a call: the caller's end, then one policy-scoped failure when the time is up |
| Failures.LoggedOutcomes | internal/engine/evaluator.go:119-148 | in every run a timeout is policy-scoped exactly when no more time was left than the detector was allowed, and an answer counts only in time |
| Failures.DetectorTimesExact | internal/engine/evaluator.go:131 | a detector's reported time is that of its calls, each cut down to milliseconds, and exists exactly when it was called |
| Failures.PolicyTimesExact | internal/engine/evaluator.go:169 | the same for a policy's reported time |
| Failures.TotalExact | internal/engine/evaluator.go:182 | the reported total is the whole milliseconds between start and end |
| RunFacts.RunsConserveDetectors | internal/engine/evaluator.go:106-170 | executed detectors are a prefix, one event each; only the last event can be policy-scoped; a proper prefix needs one; later policies run |
| RunFacts.PolicyTimeExact | internal/engine/evaluator.go:112-170 | for any executor, a policy is done by its deadline if and only if each call it makes returns by then |
| RunFacts.RunInTime | internal/engine/evaluator.go:106-170 | when the calls of this run return by their policies' deadlines, it takes at most the sum of the policy timeouts and never passes the caller's deadline, completed or aborted |
| RunFacts.StepsInTime | internal/engine/evaluator.go:113-127 | an entry's events exceed neither detector timeout nor remaining budget if and only if the calls it made kept to their contexts; then the policy keeps its timeout |
| RunFacts.OverrunIsOneCall | internal/engine/evaluator.go:114-135 | for any executor every call starts in time and at most the last ends late |
| RunFacts.FailuresAreBounded | internal/engine/evaluator.go:199-236 | any executor error is recorded with a published code, policy-scoped exactly for policy timeouts, with a timeout between 1 ms and the policy's, a policy timeout in whole milliseconds |
| RunFacts.CompletedBeforeCaller | internal/engine/evaluator.go:107-141 | a run that completes ends before the caller's deadline and before the caller cancels |
| RunFacts.TimingsNest | internal/engine/evaluator.go:131-182 | detector times sum to at most policy times, which sum to at most the total, after separate rounding |
| DecisionFacts.DecisionExact | internal/engine/evaluator.go:99-174 | in whatever order events come: block if and only if anything calls for it, redact if and only if a redacting policy found something and nothing blocks, monitor and allow likewise |
| DecisionFacts.DecisionExplained | internal/engine/evaluator.go:99-174 | the action is the highest asked for, the reason that of the first event asking for it, or the first fail-open failure's |
| DecisionFacts.CallerCannotWeaken | internal/engine/evaluator.go:92-170 | whatever the caller selects, the mandatory run is a prefix of the events and decides no higher |
| DecisionFacts.BuiltinExecutorRuns | internal/engine/evaluator.go:34-43 | the built-in executor answers in time with its detector's hits or fails with an expired deadline |
| DecisionFacts.BuiltinRunEntries | internal/engine/evaluator.go:119-148 | built-in failures are timeouts of the right scope and value, detector-scoped only below the policy's timeout; answers are the detectors' own |
| DecisionFacts.BuiltinsCanOverrun | internal/engine/evaluator.go:34-43 | any overrun of a policy timeout is possible with the built-in executor |
| Budgets.BuiltinPolicyTime | internal/engine/evaluator.go:112-170 | a policy takes exactly the detections that start before its deadline and the caller's end, each to its end |
| Budgets.BudgetKeptExactly | internal/engine/evaluator.go:34-43 | a policy keeps its budget if and only if its detections fit, or the first of them fit and end when no more may start |
| Budgets.BudgetWithoutCaller | internal/engine/evaluator.go:112-170 | without a caller limit: all detections fit into the timeout, or some of them fill it to the very end |
| Budgets.EvaluationTimeExact | internal/engine/evaluator.go:106-182 | an evaluation takes exactly what its policies spend one after the other, completed or aborted |
| Budgets.EvaluationBudgetExact | internal/engine/evaluator.go:106-182 | without a caller limit it keeps to the sum of the timeouts if and only if what some policies overrun is left unused by others; none overruns if and only if each one's detections fit or fill its timeout |
| DecisionFacts.RedactCarriesContent | internal/engine/evaluator.go:156-181 | a redact decision always comes with replacements |
| RedactedRun.RedactedStringByString | internal/engine/evaluator.go:156-181 | every string of the result is the old one rewritten by exactly what the redacting detectors ask for in it |
| RedactedRun.FindingsAreHit | internal/engine/evaluator.go:156-181 | the first byte of every non-empty place a redacting finding names is cut out |
| RedactedRun.FindingsGoExactly | internal/engine/evaluator.go:156-181 | a run cuts out every byte its redacting findings name in a string if and only if the one-pass test succeeds on what is asked for in it |
| RedactedRun.KeywordIsRemovedInRun | internal/engine/evaluator.go:156-181 | where one keyword is a run's only redactor of a string, no untouched stretch of the returned string holds it |
| RedactedRun.CallerKeepsCutsExactly | internal/engine/evaluator.go:92-181 | what the mandatory policies alone cut out of a string stays cut out in the full run if and only if a one-pass test succeeds on what both ask for |
| RedactedRun.RunKeepsRequestExactly | internal/engine/evaluator.go:176-181 | a redact response leaves the caller's request as it was if and only if, in every message, what the run asks for passes the one-pass test |
| RedactedRun.RedactResponse | internal/engine/evaluator.go:176-181 | a redact response carries the request's content redacted string by string |
| Guarantees.BuiltinsAnswerForward | internal/engine/evaluator.go:34-43 | the built-in executor only answers with replacements that run forward |
| Guarantees.KeywordFound | internal/engine/evaluator.go:277-301 | a keyword detector reports something whenever a keyword occurs in the text or a message |
| Guarantees.RedactionHappens | internal/engine/evaluator.go:154-166 | a witness for the theorems about redact decisions: one redacting policy with one detector that finds something in no time; the general rule is DecisionFacts.DecisionExact |
| Guarantees.AcceptedConfigurationsRun | internal/engine/evaluator.go:79-185 | for every accepted configuration and completed built-in run all run guarantees hold together |
| Witnesses.CallerUncoversSecret | internal/engine/evaluator.go:106-181 | an accepted configuration and a request for which selecting a second policy turns "my <S>" into "Xecret", both runs deciding to redact |
| Witnesses.EvaluationMutatesRequest | internal/engine/evaluator.go:79-185 | the service started with that configuration answers a request with one message by redacting, and overwrites the caller's message |
| Witnesses.DefaultsAtWork | internal/engine/evaluator.go:106-148 | an omitted timeout, failure mode and detector timeouts on a tie: one policy-scoped failure of 100 ms, the next detector left out, block, and no policy for another tenant |
| Witnesses.PublishedReason | internal/engine/evaluator.go:246-251 | the reason a failure gives, with the published names of its code and mode |
| Witnesses.QuietEvaluation | internal/engine/evaluator.go:99-174 | the service answers a request that no policy applies to with allow and the default reason |
| SchemaErrors.SortSliceStable | internal/engine/evaluator.go:696-703 | the in-place stable sort |
| SchemaErrors.StableSortUnique | internal/engine/evaluator.go:696-703 | a sorted list is determined by its errors at each place in order |
| SchemaErrors.ValidationLeaves | internal/engine/evaluator.go:688-705 | sorting at every level equals one stable sort of the depth-first leaves; none is lost or repeated |
| SchemaErrors.LeavesAreLeaves | internal/engine/evaluator.go:689-691 | only errors without causes are reported |
| SchemaErrors.LeavesReached | internal/engine/evaluator.go:688-695 | one leaf for every chain of causes that ends in an error without causes, depth first |
| SchemaErrors.ReportedInOrder | internal/engine/evaluator.go:696-703 | reported by instance location, then by keyword location, none lost or repeated |
| Metrics.BoundedLabel | internal/observability/observability.go:215-223 | labels have 1 to 128 bytes; values of such a length are kept, empty ones become the fallback and longer ones "oversized" |
| Metrics.MetricStage | internal/observability/observability.go:225-232 | one of nine stages, known ones unchanged and others "unknown" |
| Metrics.Histogram.Observe | internal/observability/observability.go:280-286 | buckets, count and sum follow the samples |
| Metrics.BucketsAreCumulative | internal/observability/observability.go:282-286 | buckets grow with their bounds and never exceed the count |
| Metrics.HistogramMap.ObserveHistogram | internal/observability/observability.go:274-287 | one label's histogram gains the sample, all others are unchanged |
| Observability.Service.RecordEvaluation | internal/observability/observability.go:178-195 | all counters and histograms stay what the history adds up to, in whatever order timings are visited |
| Observability.StageCountsAgree | internal/observability/observability.go:184-185 | a stage's sample count equals the sum of its evaluation counters, over any history |
| Observability.StageHistogramMeaning | internal/observability/observability.go:123-287 | a bucket is the number of durations at or below its bound, the count the stage's evaluations |
| Observability.DetectorHistogramMeaning | internal/observability/observability.go:187-195 | a detector label's bucket is the number of timings reported under it at or below the bound, in whatever order they are listed, its count their number |
| Counters.EvaluationCounterMeaning | internal/observability/observability.go:179-184 | an evaluation counter is the number of observations with its stage, outcome and action |
| Counters.ServiceCounters | internal/observability/observability.go:184-194 | all counters of a service: the observations, findings and failures with their labels |
| Counters.StageBucketMeaning | internal/observability/observability.go:123-185 | a stage's bucket is the number of its evaluations that took no longer than 1, 5, 10, ... milliseconds |
| Counters.StageSumMeaning | internal/observability/observability.go:280-281 | a stage's sum is the time its evaluations took |
| Counters.DetectorBucketMeaning | internal/observability/observability.go:189-191 | a detector label's bucket is the number of timings reported under it that are no longer than its bound, its count their number |
| Observability.KeysAreBounded | internal/observability/observability.go:225-264 | any strings create at most 135 evaluation keys, 9 stages and 28 failure keys |
| Labels.PassesEscapeOnce | internal/observability/observability.go:334-339 | the three replacement passes escape each byte exactly once |
| Labels.LabelRoundTrip | internal/observability/observability.go:334-339 | a quoted label reads back to its value and ends exactly at its closing quote |
| Labels.LabelStaysOnOneLine | internal/observability/observability.go:336 | a quoted label holds no raw newline |
| Labels.QuotedExample | internal/observability/observability.go:334-339 | the escapes by example: quote, backslash and newline |

## Left out

- Keywords.MatchesAreExact: as for `Keywords.MatchKeyword`.
- Keywords.KeywordMatches: as for `Keywords.MatchKeyword`.
- Detection.KeywordsReported: as for `Keywords.MatchKeyword`.
- Keywords.KeywordIsRemoved: as for `Keywords.MatchKeyword`.
- RedactedRun.KeywordIsRemovedInRun: as for `Keywords.MatchKeyword`.
- Keywords.MatchKeyword: case folding is byte by byte over ASCII; Unicode lower-casing, which can change byte lengths and so shift offsets, is not modelled.
- Paths.PathRoundTrip: as for `Paths.ReadQuotedInverts`.
- Paths.PathInjective: as for `Paths.ReadQuotedInverts`.
- Paths.ReadQuotedInverts: quoting is exact for ASCII keys; non-printing characters above ASCII and invalid UTF-8, which `%q` also escapes, stand for themselves.
- Redaction.ApplyReplacements: asks for spans that do not run backwards, which the code does not check; every built-in producer is proved to deliver them.
- RunFacts.RunInTime: goes one way, since a policy that overruns can be made up for by one that is quick; `Budgets.EvaluationTimeExact` is exact for the built-in executor.
- Evaluation.Evaluator.Evaluate: the random evaluation id, spans and traces are not part of the response; the time the evaluator itself spends between executor calls is not modelled; durations and counters are unbounded integers; the executor is asked for replacements that run forward.
- Policy.NewResolver: the settings checks of request limits, allow and deny lists and schemas are a parameter.
- Policy.CompilePolicies: as for `Policy.NewResolver`.
- Policy.CompilePolicy: as for `Policy.NewResolver`.
- Detectors.EvaluateDetector: what the detectors without spans find is a parameter.
- Counters.StageBucketMeaning: as for `Observability.Service.RecordEvaluation`.
- Observability.Service.RecordEvaluation: counters do not wrap at 64 bits, samples and sums are real numbers instead of floating point, and the mutex is modelled by each method being one step.
- Finding confidence (always 1) and the attribute findings of request limits, allow and deny lists and schemas: a parameter of the scanner.
- Regular expression matching, schema validation, YAML parsing and `shannonEntropy`: parameters or a finite error tree.
- `pointerJSONPath`: drops empty segments and treats digit-prefixed keys as indexes, so it has no inverse to prove.
- `RecordHTTP`, audit events, trace contexts and the layout of the metrics page: fixed-width checks, logging and printing.
- Authentication, configuration files, HTTP handlers and process start-up: no logic that these properties need.
