# Verified model of nestjs-commons

A Dafny model of the parts of the NestJS packages that hold real algorithms or state, with proofs of what
they promise. `dafny verify dfyconfig.toml` checks everything.

| files | model |
|---|---|
| `task_graph.dfy`, `workflow_compiler.dfy`, `workflow_runs.dfy` | compiling a workflow host into task declarations, and running the result |
| `interceptors.dfy` | the interceptor chain around a task function |
| `attestor_cache.dfy`, `healthz.dfy`, `healthz_theorems.dfy`, `health_report.dfy` | health checks: cache, overlapping requests as a step system, aggregate report |
| `races.dfy` | a health check against its timeout |
| `backoff.dfy`, `sleep_race.dfy`, `retry.dfy`, `retry_theorems.dfy` | the retry loop, its backoff sleep against an abort, and the arithmetic of its delays |
| `regex.dfy`, `text_runs.dfy`, `sanitize.dfy`, `sanitize_theorems.dfy`, `sanitize_cuts.dfy`, `slugify.dfy` | the string helpers, on an ordered backtracking semantics of their regular expressions |
| `issue_paths.dfy` | the path printer of validation issues and a parser that inverts it |
| `disk_validation.dfy`, `disk_registry.dfy`, `registry_history.dfy` | disk configuration checks, the registry of swappable disks, and its histories |
| `workflow_paging.dfy` | listing server workflows page by page, and the orphans among them |

## Main results

- A workflow host compiles exactly when it has a task, every parent is a task, and no task depends on
  itself through parents; and that is exactly when the workflow can run to the end. A run of a compiled
  workflow cannot get stuck. Soundness of the declaration loop does not depend on the sort.
- The documented cap of one health check per `minIntervalMs` (`packages/healthz/src/health-attestor.ts:83-86`)
  does not hold always, because a check in flight is not shared: two requests at the same moment both start
  it (`OverlapBreaksCap`), and so does a single request with two attestors of one name
  (`SharedNameBreaksCap`). `CapExact` gives the condition for every schedule: the cap holds if and only if
  each check that starts finds no check of its name younger than the interval in flight. Distinct names and
  requests that do not overlap are enough (`RequestsApartAreCapped`). What holds always is
  `IntervalRespected`.
- The runner documents that no exception escapes it (`packages/healthz/src/runner/attestor-runner.service.ts:14-16`).
  Its catch clause builds a log message from the error, and that can throw: `RaisedExactly` shows that an
  exception escapes if and only if the error thrown at once, or the rejection that was first, cannot be put
  into a text. In every other case it returns, and `DownExactly` says with which status.
- The unrolled script and style patterns match exactly up to the first closing tag under full backtracking,
  in front of a text a script block, a style block that opens no script block and any other tag are cut out
  whole, and sanitized text has no tag, only single blanks, and is a fixed point. (A script block that opens
  inside a style block reaches beyond its end, because scripts go first.)
- A slug is the joined alphanumeric runs, cut to length; it is a fixed point exactly when truncation left
  no part of a separator at its end.
- The registry of disks: an object that runs any history of start-ups, resolves, swaps and restores holds what
  is read off the history, hands out one proxy per reference for good, and after a start-up without a failure
  runs no factory again.
- Retry delays, the total wait of a run, the order of calls and notices, and abort listeners, for every
  environment and every interleaving of timer and abort. Which result a run has is an equivalence over the
  environment alone (`AbortedExactly`, `ResolvedExactly`, `RejectedExactly`).
- Every outcome in a health report goes back to what a check of that name settled with (`StoredOutcomes`,
  `OutcomeProvenance`).
- Where a promise does not hold in every case, the exact condition is proved: `RefinesExactly`,
  `DotSlugExactly`, `OneEntryPerReference`, `OrphansBeyondLimit`, besides `CapExact`.

## Modelling decisions

- The graph library is not part of this repository. `TopologicalSort` is a verified sort with the contract
  that the code and its comment rely on: none exactly for a cycle, otherwise a topological order. Where
  several orders exist the library may pick another one; this only affects which unknown parent an error
  names first. An edge from a name that is no vertex is not added.
- Regular expressions are syntax trees. `Regex.Ends` lists the ends of a match in the order the ECMAScript
  matcher tries them, and `Regex.ReplaceAll` is global replacement with that matcher.
- Strings are ASCII, where NFC, NFD and the removal of diacritical marks change nothing. A slug separator
  is any non-empty string of characters that are neither letters, digits nor regular-expression
  metacharacters.
- Times are integers. The cache is modelled under any clock, and `RefinesExactly` says when one that is set
  back matters; the interval theorems assume that it never goes back. Delays are exact reals;
  `Math.random()`, abort signals, driver factories and the outcomes of `fn` and `check()` are chosen by the
  environment. `shouldRetry` neither throws nor aborts, and `onRetry` does not throw. The environment also
  lists what the timer and the signal do during each backoff; a timer that is still armed fires in the end.
- A run whose runner raises is, for the shared cache and the other runs, one that never settles, and its
  request gets no report.
- Attestors that share a name share a cache entry, so the rate results assume one interval per name.
- Looking up the cache and starting a check is one step: there is no await between them.

## Model

| member | source | states |
|---|---|---|
| TaskGraph.DirectedGraph.AddVertex | packages/hatchet/src/explorer/declaration-builder.service.ts:255-258 | vertices keep insertion order and never repeat |
| TaskGraph.DirectedGraph.AddEdge | packages/hatchet/src/explorer/declaration-builder.service.ts:260-267 | an edge is added exactly between existing vertices |
| TaskGraph.DirectedGraph.TopologicalSort | packages/hatchet/src/explorer/declaration-builder.service.ts:269-277 | none if and only if the graph has a cycle, otherwise all vertices once with sources first |
| TaskGraph.StuckIsCyclic | packages/hatchet/src/explorer/declaration-builder.service.ts:269-277 | a non-empty set in which everything has a source inside the set contains a cycle |
| TaskGraph.OrderedIsAcyclic | packages/hatchet/src/explorer/declaration-builder.service.ts:124-128 | an order with sources first rules out every cycle |
| WorkflowCompiler.BuildWorkflowHostGraph | packages/hatchet/src/explorer/declaration-builder.service.ts:245-280 | fails exactly when the parent relation is cyclic; otherwise vertices are the methods and edges the known parents |
| WorkflowCompiler.SameCycles | packages/hatchet/src/explorer/declaration-builder.service.ts:260-277 | dropping edges from unknown parents hides no cycle and invents none |
| WorkflowCompiler.ResolveParents | packages/hatchet/src/explorer/declaration-builder.service.ts:133-144 | parents resolve in metadata order, or the error names the first that is missing |
| WorkflowCompiler.DeclareTasks | packages/hatchet/src/explorer/declaration-builder.service.ts:121-170 | for any order: success exactly when every parent comes earlier, with each parent resolved to its latest earlier declaration; otherwise the first failure |
| WorkflowCompiler.DeclaredIsSound | packages/hatchet/src/explorer/declaration-builder.service.ts:121-170 | whatever order got through, the first occurrence is a rank that decreases along parents, so the declared tasks are parent-closed and acyclic |
| WorkflowCompiler.CompiledFromOrder | packages/hatchet/src/explorer/declaration-builder.service.ts:128-170 | a permutation of the methods that got through declares each task once with its parents declared earlier |
| WorkflowCompiler.SortedResolves | packages/hatchet/src/explorer/declaration-builder.service.ts:124-144 | after sorting, a parent that does not resolve is no task at all |
| WorkflowCompiler.CreateWorkflow | packages/hatchet/src/explorer/declaration-builder.service.ts:108-173 | success exactly for at least one task, known parents and no cycle; which error otherwise, a cycle before an unknown parent |
| WorkflowCompiler.AcceptedMetadata | packages/hatchet/src/explorer/declaration-builder.service.ts:133-137 | in terms of the metadata: every listed parent is a task and no task lists itself |
| WorkflowCompiler.CompiledMetadata | packages/hatchet/src/explorer/declaration-builder.service.ts:133-144 | each declared task has exactly the parents its metadata lists, in that order, and none without a list |
| WorkflowRuns.NoDeadlock | packages/hatchet/src/explorer/declaration-builder.service.ts:146-169 | in an accepted workflow, while a task is missing some task has all parents finished |
| WorkflowRuns.MaximalRunIsComplete | packages/hatchet/src/explorer/declaration-builder.service.ts:146-169 | a run that cannot be continued executed every task exactly once; continuing decreases what is left |
| WorkflowRuns.AcceptedIffRunnable | packages/hatchet/src/explorer/declaration-builder.service.ts:108-173 | a host is accepted exactly when it has a task and some run executes all of them |
| WorkflowRuns.DeclarationOrderRuns | packages/hatchet/src/explorer/declaration-builder.service.ts:124-170 | the declaration order is itself a valid run |
| Interceptors.ExecuteWithInterceptors | packages/hatchet/src/explorer/declaration-builder.service.ts:347-364 | the backwards loop computes the chain whose first interceptor wraps the rest, for arbitrary interceptors |
| Interceptors.ChainSplits | packages/hatchet/src/explorer/declaration-builder.service.ts:355-361 | the front of the list wraps the chain of the back, wherever it is split |
| Interceptors.BracketTrace | packages/hatchet/src/explorer/declaration-builder.service.ts:340-342 | with one call of next each: entered in order, body, left in reverse, outcome unchanged |
| Interceptors.RunsMultiply | packages/hatchet/src/explorer/declaration-builder.service.ts:355-363 | if interceptors call next n1, n2, ... times the body runs n1 * n2 * ... times, zero included |
| AttestorCache.Cache.Get | packages/healthz/src/cache/attestor-cache.ts:41-55 | answers what the log of stores says, except after the clock was set back behind an eviction; evicts an expired entry and nothing else |
| AttestorCache.Cache.Set | packages/healthz/src/cache/attestor-cache.ts:61-71 | stores under the name with its expiry; a non-positive time to live changes nothing |
| AttestorCache.HistoryRefines | packages/healthz/src/cache/attestor-cache.ts:29-72 | a read whose clock is not behind any earlier call sees the last positive store of its name while it is fresh |
| AttestorCache.RefinesExactly | packages/healthz/src/cache/attestor-cache.ts:41-71 | for every history and any clock: a read differs from the log if and only if the last store was evicted and the clock is back before its expiry |
| AttestorCache.ClockSetBack | packages/healthz/src/cache/attestor-cache.ts:48-52 | that happens for every entry fetched at or after its expiry and read again at an earlier time |
| HealthzTheorems.IntervalRespected | packages/healthz/src/healthz.service.ts:69-93 | no check starts before an earlier stored result of its name is an interval old, under any overlap |
| HealthzTheorems.StoredOutcomes | packages/healthz/src/healthz.service.ts:80-90 | every stored outcome was reported before by a run of that name, and every report is what that run's check settled with |
| HealthzTheorems.StartKeepsDistance | packages/healthz/src/healthz.service.ts:69-93 | a starting check is an interval after all earlier starts exactly when no young check of its name is in flight |
| HealthzTheorems.CapExact | packages/healthz/src/health-attestor.ts:76-90 | the documented cap holds over a schedule if and only if every start found no young check in flight |
| HealthzTheorems.SequentialIsCapped | packages/healthz/src/health-attestor.ts:76-90 | executions that do not overlap start at least an interval apart |
| HealthzTheorems.RequestsApartAreCapped | packages/healthz/src/health-attestor.ts:62-90 | with distinct names the cap holds if every lookup finds all runs of other requests done |
| HealthzTheorems.SharedNameBreaksCap | packages/healthz/src/health-attestor.ts:62-64 | two attestors of one name break the cap within one request, for every interval |
| HealthzTheorems.OverlapBreaksCap | packages/healthz/src/health-attestor.ts:83-86 | two overlapping requests break the cap for every interval |
| HealthzTheorems.OutcomeProvenance | packages/healthz/src/healthz.service.ts:69-93 | a finished run holds what its own check settled with, or what a check of its name settled with and that was younger than its interval at this run's own lookup |
| HealthReport.DeriveStatus | packages/healthz/src/healthz.service.ts:109-125 | down iff a check that is critical or does not say is down, degraded iff only others are, ok iff all are ok; the loop with its early exit computes the scan of the list |
| HealthReport.StatusIgnoresOrder | packages/healthz/src/healthz.service.ts:109-125 | permutations of the runs scan to the same status, wherever the loop stops early |
| HealthReport.Aggregate | packages/healthz/src/healthz.service.ts:55-67 | check entry i has name i and the status, duration and details of run i; the derived status |
| HealthReport.ReportDescribesAttestors | packages/healthz/src/healthz.service.ts:55-107 | entry i describes attestor i under any completion order: what its own check settled with, or what a check of its name did and was fresh at this request's lookup |
| Races.ExecutionOutcome | packages/healthz/src/runner/attestor-runner.service.ts:25-66 | in every interleaving, and when the check throws at once: settles at most once, with the answer of the first side, and leaves no armed timer |
| Races.RaisedExactly | packages/healthz/src/runner/attestor-runner.service.ts:36-46 | an exception escapes iff the error thrown at once, or the rejection that was first, cannot be rendered |
| Races.UnrenderableEscapes | packages/healthz/src/runner/attestor-runner.service.ts:37-41 | every such error escapes, both ways |
| Races.DownExactly | packages/healthz/src/runner/attestor-runner.service.ts:29-47 | if no unrenderable error reaches the catch clause it returns; down iff the check threw, rejected, lost to the timeout or reported down; failures carry no details, reports come through unchanged |
| Races.LateEventsIgnored | packages/healthz/src/runner/attestor-runner.service.ts:50-66 | settlements after the end change nothing |
| Races.ExecutionProgress | packages/healthz/src/runner/attestor-runner.service.ts:50-66 | it never hangs: some event can happen without the check until it settled, and each leaves fewer |
| SleepRace.SleepOutcome | packages/toolkit/src/async/retry.ts:6-28 | in every interleaving a sleep settles at most once, by whichever of timer and abort came first; then no timer is armed and the listener stays only on a signal that aborted it |
| Backoff.DelayBounds | packages/toolkit/src/async/retry.ts:158-160 | each delay is in [0, maxDelayMs] and within base * jitter + 1/2 of its base |
| Backoff.DelayExactly | packages/toolkit/src/async/retry.ts:158-160 | the delay is the integer nearest to base * (1 + jitter * (2 * draw - 1)), halves going up, clamped to [0, maxDelayMs] |
| Backoff.DelayMonotone | packages/toolkit/src/async/retry.ts:159 | a larger draw never gives a shorter delay |
| Backoff.GrowthShape | packages/toolkit/src/async/retry.ts:158 | the exponential starts at minDelayMs and grows by the factor |
| Backoff.BaseShape | packages/toolkit/src/async/retry.ts:158 | bases never shrink, follow the exponential below the cap and stay at the cap |
| Backoff.Crossover | packages/toolkit/src/async/retry.ts:158 | there is one attempt from which on the base is the cap, and before it the exponential |
| Backoff.TotalWaitBound | packages/toolkit/src/async/retry.ts:158-160 | the total wait is at most n caps and at most the closed geometric bound plus n/2 |
| Retry.SleepFor | packages/toolkit/src/async/retry.ts:6-28 | through any callbacks of timer and signal: one settlement, waking iff no abort came before the timer, and the trace that the race leaves |
| Retry.BackOff | packages/toolkit/src/async/retry.ts:156-163 | notice, drawn delay and sleep; goes on exactly when the round should, and an abort after the timer is seen by the next attempt |
| Retry.WithRetry | packages/toolkit/src/async/retry.ts:118-168 | invalid retries are refused; otherwise trace and result are those of the rounds up to the first that stops |
| Retry.ValidRetriesMeans | packages/toolkit/src/async/retry.ts:133-135 | exactly the natural numbers are valid |
| RetryTheorems.CallsInOrder | packages/toolkit/src/async/retry.ts:139-144 | fn is called for attempts 0, 1, ... and at most retries + 1 times |
| RetryTheorems.NoticesInOrder | packages/toolkit/src/async/retry.ts:146-156 | onRetry gets 1..m with the errors thrown; m is calls - 1, or calls exactly when aborted around a backoff |
| RetryTheorems.TraceInOrder | packages/toolkit/src/async/retry.ts:139-163 | what follows what: a notice its call, a backoff its notice, the next call a backoff that woke |
| RetryTheorems.AbortIsLast | packages/toolkit/src/async/retry.ts:139-163 | nothing is called or awaited on an aborted signal |
| RetryTheorems.RunResult | packages/toolkit/src/async/retry.ts:142-167 | the first success, or the abort reason after an abort, or else the last error; earlier errors were all to be retried |
| RetryTheorems.AbortedExactly | packages/toolkit/src/async/retry.ts:140-163 | in terms of the environment: rejects with the abort reason iff the signal aborts, in a round reached without one, at a moment that ends the run |
| RetryTheorems.AbortHasCause | packages/toolkit/src/async/retry.ts:140-163 | no abort in trace or result unless there is a signal and it aborts in some round |
| RetryTheorems.ResolvedExactly | packages/toolkit/src/async/retry.ts:142-144 | resolves with v iff the first attempt that does not throw returns v and no abort is seen before |
| RetryTheorems.RejectedExactly | packages/toolkit/src/async/retry.ts:151-167 | rejects with an error iff it is the last allowed or not to be retried, and no abort is seen before |
| RetryTheorems.SleepsAreBounded | packages/toolkit/src/async/retry.ts:158-163 | the backoffs are the delays of attempts 0, 1, ..., each within the cap, at most retries of them |
| RetryTheorems.RunWaits | packages/toolkit/src/async/retry.ts:158-163 | all sleeps of a run together last at most one cap each, at most retries caps, and at most the closed geometric bound |
| RetryTheorems.SleepListeners | packages/toolkit/src/async/retry.ts:14-27 | the listeners a sleep leaves in the trace are those the race leaves on the signal |
| RetryTheorems.OneListener | packages/toolkit/src/async/retry.ts:10-27 | never more than one live abort listener |
| RetryTheorems.NoListenerLeft | packages/toolkit/src/async/retry.ts:10-27 | no listener remains on a signal that did not abort |
| Sanitize.UnrolledLoop | packages/toolkit/src/string/sanitize.ts:32-33 | after the opening tag all backtracking alternatives end at the first closing tag, or nowhere |
| Sanitize.BlockEnds | packages/toolkit/src/string/sanitize.ts:32-33 | the pattern matches from an opening tag at a word boundary to the first closing tag, and in no other way |
| SanitizeCuts.BlockIsSpelled | packages/toolkit/src/string/sanitize.ts:32-33 | the pattern matches exactly <name, not continued by a letter, digit or underscore, up to the first </name>, in any mixture of cases |
| SanitizeCuts.TextKept | packages/toolkit/src/string/sanitize.ts:30-35 | text in front of the first < stays, and the rest is treated as on its own |
| SanitizeCuts.ScriptCut | packages/toolkit/src/string/sanitize.ts:31-32 | a script block in front goes whole, whatever its content and the case of its tags, and nothing behind it changes |
| SanitizeCuts.StyleCut | packages/toolkit/src/string/sanitize.ts:33 | a style block in front goes whole, if its content opens no script block |
| SanitizeCuts.TagCut | packages/toolkit/src/string/sanitize.ts:34-35 | any tag in front goes, also with a further < inside, if it opens no script or style block; the text behind it stays |
| SanitizeTheorems.TagEnds | packages/toolkit/src/string/sanitize.ts:34-35 | a tag runs from < to the first > behind it |
| SanitizeTheorems.TagsGone | packages/toolkit/src/string/sanitize.ts:34-35 | one pass leaves no < with a > after it, for every input |
| SanitizeTheorems.StripTagsFixedPoint | packages/toolkit/src/string/sanitize.ts:30-35 | the removal passes leave a text alone exactly when it has no < before a > |
| SanitizeTheorems.SanitizeIsWords | packages/toolkit/src/string/sanitize.ts:38-45 | the result is the words of the stripped text with single blanks |
| SanitizeTheorems.SanitizedIsClean | packages/toolkit/src/string/sanitize.ts:24-46 | no tag, no tab or line break, only single blanks, and no blank at the ends when trimming |
| SanitizeTheorems.SanitizeFixedPoint | packages/toolkit/src/string/sanitize.ts:24-46 | a text is left alone iff it has no tag, only single blanks, and trimmed ends when asked |
| SanitizeTheorems.SanitizeIdempotent | packages/toolkit/src/string/sanitize.ts:24-46 | a second application changes nothing, for either option |
| TextRuns.CollapseIsJoin | packages/toolkit/src/string/slugify.ts:41-42 | replacing runs of other characters keeps exactly the words, with the replacement in each gap |
| TextRuns.WordsOfJoin | packages/toolkit/src/string/slugify.ts:41-42 | splitting into words undoes joining them |
| Slugify.SlugIsJoinedWords | packages/toolkit/src/string/slugify.ts:30-48 | a slug is the first maxLength characters of the joined alphanumeric runs |
| Slugify.Alphanumerics | packages/toolkit/src/string/slugify.ts:42 | a slug keeps the letters a-z and the digits 0-9 |
| Regex.LowerAlphabet | packages/toolkit/src/string/slugify.ts:36 | each of the letters A-Z becomes the letter of the same place in a-z, and nothing else changes |
| Slugify.SlugFixedPoint | packages/toolkit/src/string/slugify.ts:30-48 | fixed point iff it does not end in part of a separator, which only truncation causes; two applications suffice |
| Slugify.DotSlugExactly | packages/toolkit/src/string/slugify.ts:30-48 | the separator is not escaped: with a dot, the slug is the cut join of the words for every length if and only if the input is empty or has no alphanumeric at either end |
| IssuePaths.FormatPath | packages/hatchet/src/exceptions/validation-issue.ts:22-41 | the loop prints the path |
| IssuePaths.RoundTrip | packages/hatchet/src/exceptions/validation-issue.ts:17-41 | the parser recovers a path from its rendering exactly when every key is clean |
| IssuePaths.DigitsStart | packages/hatchet/src/exceptions/validation-issue.ts:27 | indices are printed without leading zeros |
| IssuePaths.ParseSound | packages/hatchet/src/exceptions/validation-issue.ts:17-41 | whatever parses is the rendering of the clean path it parses to |
| IssuePaths.RenderingInjective | packages/hatchet/src/exceptions/validation-issue.ts:17-41 | clean paths that look alike are equal |
| IssuePaths.UncleanKeysCollide | packages/hatchet/src/exceptions/validation-issue.ts:26-38 | wherever they stand: an empty first key leaves no trace, a key with a dot or a bracketed index prints like its parts, a symbol like a key |
| IssuePaths.NormalizeIssues | packages/hatchet/src/exceptions/validation-issue.ts:65-80 | count, order and messages are kept; the path prints entry by entry the key or the key inside the entry, and is omitted exactly when it is empty |
| DiskValidation.AssertNoDuplicateRefs | packages/flydrive/src/internal/validation.ts:13-25 | passes iff references are distinct; otherwise reports the first repetition |
| DiskValidation.AssertDriversMatchDisks | packages/flydrive/src/internal/validation.ts:48-76 | passes iff the two sets are equal; otherwise reports both differences with multiplicity |
| DiskValidation.WithoutOfParts | packages/flydrive/src/internal/validation.ts:56-57 | the reported references keep their order |
| DiskValidation.ForRootAsync | packages/flydrive/src/flydrive.module.ts:112-137 | passes iff declared references are distinct, contain the default and equal the returned ones as a set; otherwise the first repetition is reported before a missing default, and that before both differences |
| DiskValidation.OneEntryPerReference | packages/flydrive/src/flydrive.module-config.ts:77-86 | of entries that pass there is exactly one per declared reference if and only if no reference was returned twice |
| DiskValidation.RepeatedEntriesPass | packages/flydrive/src/internal/validation.ts:48-76 | whatever passes still passes with any of its entries repeated, against that documentation |
| DiskRegistry.SwappableDisk.constructor | packages/flydrive/src/internal/swappable-disk.ts:20-38 | starts with the original driver behind a fresh proxy |
| DiskRegistry.SwappableDisk.Swap | packages/flydrive/src/internal/swappable-disk.ts:40-42 | replaces the driver behind the same proxy |
| DiskRegistry.SwappableDisk.Restore | packages/flydrive/src/internal/swappable-disk.ts:44-46 | brings the original driver back behind the same proxy |
| DiskRegistry.Registry.Ensure | packages/flydrive/src/disk-registry.ts:61-82 | memoises; which failure when; objects handed out before stay the same and new entries are new objects |
| DiskRegistry.Registry.Resolve | packages/flydrive/src/disk-registry.ts:43-45 | the same proxy on every call, with the current driver behind it |
| DiskRegistry.Registry.Swap | packages/flydrive/src/disk-registry.ts:50-52 | changes the current driver of this reference only |
| DiskRegistry.Registry.Restore | packages/flydrive/src/disk-registry.ts:57-59 | restores the driver of this reference only |
| DiskRegistry.Registry.OnModuleInit | packages/flydrive/src/disk-registry.ts:32-36 | fails iff some needed factory throws, with that failure; in any case exactly the entries in front of the first such one were ensured in order and stay |
| DiskRegistry.InitRegisters | packages/flydrive/src/disk-registry.ts:32-36 | start-up leaves every entry it got to in the table |
| RegistryHistory.StartUpIsResolves | packages/flydrive/src/disk-registry.ts:32-45 | start-up changes the registry as resolving its entries one by one does |
| RegistryHistory.Replay | packages/flydrive/src/disk-registry.ts:22-82 | a registry that runs any further history holds what the whole history says; each successful resolve, and nothing else, hands out a proxy, always the one its reference still has at the end |
| RegistryHistory.StartedIsComplete | packages/flydrive/src/disk-registry.ts:15-17 | after a start-up that did not fail, whatever follows: calls fail exactly for references outside the configuration, and no factory is run again |
| RegistryHistory.HistoryDetermines | packages/flydrive/src/disk-registry.ts:43-82 | over every history of start-ups and calls: behind a reference is the most recent swap since the last restore, else its factory's driver; other references do not matter |
| RegistryHistory.FailsExactly | packages/flydrive/src/disk-registry.ts:61-76 | after any history a call fails as not registered iff the reference is unknown, and otherwise iff its factory has not returned before and throws now |
| RegistryHistory.ConstructedOnce | packages/flydrive/src/disk-registry.ts:15-17 | over every history of start-ups and calls each factory returns at most once, and exactly for the references in the table |
| RegistryHistory.ValidatedResolves | packages/flydrive/src/flydrive.module.ts:117-134 | after validation declared references and the default resolve at any time unless a factory throws |
| WorkflowPaging.FetchAllServerWorkflows | packages/hatchet/src/explorer/worker-management.service.ts:165-192 | exactly the first min(N, 500) names in order after min(10, N/50 + 1) requests |
| WorkflowPaging.DetectOrphans | packages/hatchet/src/explorer/worker-management.service.ts:116-150 | exactly the names of that prefix that are not local; none without local names |
| WorkflowPaging.OrphansOfParts | packages/hatchet/src/explorer/worker-management.service.ts:136-137 | orphans keep server order |
| WorkflowPaging.OrphansOfOne | packages/hatchet/src/explorer/worker-management.service.ts:136-137 | a foreign name is one orphan, a local name none |
| WorkflowPaging.OrphansBeyondLimit | packages/hatchet/src/explorer/worker-management.service.ts:168-169 | the reported orphans are those of the whole server if and only if every name behind the limit is local |

## Left out

- NestJS wiring, decorators and metadata reflection: method names, metadata and attestor lists are given inputs.
- Task hosts with a single method, trigger sources and input validation of runs: short branches that would add only easy members.
- The Hatchet client, worker start, event emission and logging: network clients and wrappers.
- `formatIssueSummary`: a join of strings, an easy member.
- configx, uuid, deep equality and the exception filter: the work is done by libraries or is a short table.
- Unicode beyond ASCII: normalisation forms, case folding and white space outside ASCII.
- Slug separators that are letters, digits, empty or regular-expression metacharacters, except for the dot in `DotSlugExactly`: the separator is spliced into a pattern unescaped, and the code then does something else.
- `runOne` and the runner act on values in the step systems, because their runs interleave; `AttestorCache.Cache` is the mutable form of the cache, tied to the same functions. Aliasing of cached outcome objects is not captured.
- Numbers in paths are naturals: negative, fractional and exponent forms of JavaScript numbers are not modelled.
- A clock that is set back, except for the cache itself; floating-point rounding and overflow of delays: integers and exact reals are used.
- DiskRegistry.Registry.Ensure: the factory's outcome is a parameter, so a factory with effects on the registry itself is not modelled.
- Interceptors.ExecuteWithInterceptors: interceptors are deterministic functions of `next` and the log; concurrent calls of `next` are not modelled.
