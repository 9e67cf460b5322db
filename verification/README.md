# Verified models of apm2go's algorithms and protocols

Dafny models of the parts of apm2go whose correctness is not obvious from reading one function, with machine-checked
proofs of what those parts promise. `dafny verify dfyconfig.toml` checks everything.

The models follow the code, branch by branch. Code that updates state in place is a class or a method with loops, proved
against a specification function or a step of a state machine; what the system promises is then proved about that
function, or about every run of that machine.

| area | files |
|---|---|
| Rollup and retention of spans | `Aggregates`, `Maintenance`, `RollupRuns`, `Lifetimes`, `CatchingUp`, `RollupMaintainer` |
| Inventory of JVMs and attaching to them | `Lifecycle`, `AttachRuns`, `RetryBudget`, `Eligibility`, `InventoryManager` |
| eBPF supervisor and its configuration | `Targets`, `Supervision` |
| Span pipeline, rate limiter, cardinality guard | `PipelineRuns`, `SpanPipeline`, `RateLimit`, `Cardinality` |
| Ingest tokens | `TokenRuns`, `TokenRegistry` |
| Deadlocks in thread dumps | `WaitForGraph`, `ThreadDump`, `Firsts`, `DeadlockMerge` |
| Tiers of the service map | `ServiceMap` |
| Tree of the trace waterfall | `SpanForest`, `Timestamps`, `Waterfall` |
| Latency histogram | `Buckets`, `LatencyHistogram` |
| Difference of class histograms | `ClassHistogram`, `HistogramDiffing` |
| Properties files | `PropertyText`, `PropertyFile` |
| Request routes | `Route` |
| Shared | `Wrappers`, `Sorting`, `Strings`, `Finite` |

## What the proofs turned up

Each of these is a lemma. Beside it stands the condition under which the intended property does hold, an if and only if; for
the repeated warning it is the exact number of repetitions.

- The service map's relaxation loop never ends when a call loop can be reached from an entry point, so two services that
  call each other, behind a third, hang the page (`ServiceMap.LoopBehindEntryNeverEnds`). It ends if and only if no such
  loop exists (`ServiceMap.EndsIffNoReachableLoop`).
- The waterfall's comment says no span is discarded. Spans that name each other as parents are
  (`Waterfall.MutualParentsAreLost`). None is lost if and only if no span is its own ancestor
  (`SpanForest.NothingLostIffAcyclic`).
- The waterfall sorts siblings by their timestamps' text, in which a fraction has no trailing zeros, so "00.12Z" comes
  before "00.1Z", and a span that started on the full second is shown after all its siblings of that second, which it
  preceded (`Waterfall.FullSecondShownLast`). Siblings are in the order they started if and only if no two of them started
  within one second at fractions of which one continues the other (`Waterfall.SiblingsInStartOrderIff`); such a pair is
  always the wrong way round (`Timestamps.TextOrderIffNoClash`).
- The very first rollup pass reads its starting point before it takes the write lock. A span written in that gap is left
  behind if and only if it is older than the minute the pass starts at, which is that of the oldest span stored when it
  began or, with none stored, the minute in which it read the clock (`RollupRuns.FirstPassMisses`,
  `RollupRuns.FirstPassMissesNothingIff`), and then no later pass makes up for it (`RollupRuns.MissedForGood`).
  It does happen (`RollupRuns.FirstPassCanMissASpan`).
- The supervisor's set comparison accepts, for an offer that repeats a target, any other target in that place, so such an
  offer can go unnoticed (`Supervision.DuplicateOfferGoesUnnoticed`). The comparison is exact against every stored set if
  and only if the offer has no duplicates (`Targets.SameTargetsIsExact`, `Supervision.IgnoredOnlyIfHeldIffDistinct`). The
  program's own scan offers each pid once, so only another caller of `SetTargets` can get there.
- Deciding on an entry often enough before the first attach it spawned marks it makes the loop inject more often than
  max(1, `MaxRetries`) times, whatever the configuration, as long as it attaches automatically
  (`RetryBudget.SlowStartExceedsBudget`). From any state a run can reach, the budget of a tracked entry can be exceeded
  without another decision on it if and only if its automatic injections so far and the spawned attaches that have not
  marked it yet are together more than the budget (`RetryBudget.CanExceedIff`). If each spawned attach marks its entry
  before that entry is decided on again, the budget always holds (`RetryBudget.AutomaticInjectionsBounded`).
- A process that a single scan misses is marked as exited and stays so, however often later scans see it: its entry is
  forgotten, and the process looked at afresh, if and only if some scan more than ten minutes later misses it too
  (`Eligibility.MissedOnceStaysExited`). Until then it is not attached to, and a manual attach by its pid does not find it
  (`InventoryManager.Manager.KeyForPid`).
- Every sighting of a JVM that has another agent adds the same warning once more for as long as it is waiting for its
  start-up to settle (`Eligibility.SettlingRepeatsWarning`).
- Class lists that repeat a class, as JVMs with several class loaders print them, break the symmetry of `Diff`
  (`ClassHistogram.DuplicateBreaksMirror`). `Diff` is symmetric against every list without repetitions if and only if the
  list itself repeats no class (`ClassHistogram.SymmetricIffDistinct`).
- A histogram quantile understates durations above 1000 seconds, and only those (`LatencyHistogram.QuantileError`).
- A service name containing NUL is stored as its tail (`Cardinality.NulServiceIsCut`); an admitted one is stored as
  itself if and only if it has none (`Cardinality.ServiceStoredAsIsIff`).
- A revocation is undone by the next restart if and only if the file held the token and no save up to that restart, its
  own included, got as far as the rename (`TokenRuns.RevokeComesBackIff`). Likewise a token whose issue failed is accepted
  after the next restart if and only if some later save did (`TokenRuns.IssueSurvivesIff`).
- A properties file comes back as it was written if and only if its keys need no escaping and neither begin nor end in
  white space, and its values do not end in white space that escaping leaves alone (`PropertyFile.FileRoundTrip`).
- A link in a query string takes the place of the request path (`Route.LinkInQueryReplacesPath`), which contradicts the
  comment that queries are dropped; `Route.QueryDecides` says what happens for every path and every query or fragment.
  Normalising a route again changes it if and only if it holds "://" (`Route.NormalizingTwice`).

## Model

| member | source | states |
|---|---|---|
| `RollupRuns.ExactlyOnce` | internal/store/maintenance.go:85-139 | After any interleaving of writes, both halves of passes, aborts and retention: every on-time span is either stored as often as it was written while its minute has no row, or, being an entry span, counted in the one row of its own minute, which holds exactly the on-time spans of that minute and group, unless retention removed that row |
| `RollupRuns.RunKeepsInv` | internal/store/maintenance.go:85-234 | The invariant behind it holds along every run: rows exact, passes tiling the time up to the watermark, late spans below it |
| `RollupRuns.DepsCountPairsOfOnePass` | internal/store/maintenance.go:156-174 | After any run a dependency row exists exactly for the caller/callee pairs with both spans on time in the range of its pass, and counts exactly those |
| `RollupRuns.NothingForgotten` | internal/store/maintenance.go:177-204 | On-time and late spans together are all spans ever written, each as often |
| `RollupRuns.InsertedRowsAreNew` | internal/store/maintenance.go:108-125 | Clearing the range first leaves no row a new one could clash with, in either table |
| `RollupRuns.DropOnlyBelow` | internal/store/maintenance.go:216-234 | Span retention deletes nothing at or above the watermark, and nothing at all before the first rollup |
| `Lifetimes.SpansKeptIff` | internal/store/maintenance.go:216-234 | Span retention deletes exactly the spans that are both past their lifetime and below the watermark, and none without a lifetime or a watermark; nothing but spans is touched |
| `Lifetimes.RowsKeptIff` | internal/store/maintenance.go:246-257 | Rollup retention keeps exactly the rows, of both kinds, whose minute is within the lifetime, unchanged |
| `Lifetimes.YoungSpansStay` | internal/store/maintenance.go:208-234 | In every run a span is stored as often as it was written until some retention reaches its time |
| `Lifetimes.RowsExpireByAge` | internal/store/maintenance.go:246-257 | In every run no row is removed before its minute is past the lifetime of rollups |
| `Lifetimes.CountedUntilExpired` | internal/store/maintenance.go:85-257 | After any run an on-time entry span of a rolled-up minute is counted in the row of its minute until a retention reaches that minute |
| `CatchingUp.NoRowForRunningMinute` | internal/store/maintenance.go:91-99 | In every run a minute that has a row, of either kind, was over when the clock was last read |
| `CatchingUp.PassIsFinished` | internal/store/maintenance.go:91-99 | A pass covers full, finished minutes from where it resumes, six hours at most, and less only if it reaches the running minute |
| `CatchingUp.PassesGetThere` | internal/store/maintenance.go:91-99 | After n undisturbed passes rollups have come n times six hours further, or to the running minute |
| `CatchingUp.FinishedMinutesAreCounted` | internal/store/maintenance.go:85-139 | Whatever came before: once that many passes have run, every on-time entry span of a finished minute is counted in the row of its minute |
| `CatchingUp.StartsAtOldest` | internal/store/maintenance.go:183-192 | Without a watermark rollups start at the minute of the oldest span, or with none stored at that of the clock |
| `RollupRuns.FirstPassMisses` | internal/store/maintenance.go:85-103 | The spans a very first pass leaves behind are exactly those written between its watermark read and its commit, whatever retention does there too, with a timestamp before the minute it starts at: that of the oldest span it saw, or with none stored the minute of its first look at the clock |
| `RollupRuns.FirstPassMissesNothingIff` | internal/store/maintenance.go:85-103 | So it leaves none behind if and only if every span written in that gap is from that minute on |
| `RollupRuns.MissedForGood` | internal/store/maintenance.go:85-139 | A span left behind never gets a row, in any continuation of the run |
| `RollupRuns.NoRowBeforeFirstRange` | internal/store/maintenance.go:181-192 | No run ever makes a row for a minute before the first range rolled up |
| `RollupRuns.FirstPassCanMissASpan` | internal/store/maintenance.go:85-103 | Such a run exists for every pair of a stored and an older span: the older one is left behind and never gets a row, however the run goes on |
| `Aggregates.RowsOnOneSide` | internal/store/maintenance.go:141-154 | At a minute-aligned cut the latency rollup of the whole range is that of the two parts side by side: each row on one side, whole |
| `Aggregates.TotalSplits` | internal/store/maintenance.go:93-99 | Splitting a catch-up range anywhere splits every column of every row without loss |
| `Aggregates.DepTotalSplits` | internal/store/maintenance.go:156-174 | Splitting a range loses exactly the parent/child pairs that straddle the cut, in either direction |
| `Aggregates.KeyHasRow` | internal/store/maintenance.go:143-154 | A group is inserted exactly when some entry span of the range belongs to it |
| `Aggregates.RowOfOne` | internal/store/query_services.go:15-19 | A span alone makes a row exactly if it is a server or consumer span or a root of the range; the row is that of its minute, labels and bucket, with its error and its duration |
| `Aggregates.RowIsSane` | internal/store/maintenance.go:147-149 | A row has no more errors than spans, and its mean lies between the durations of its spans |
| `Aggregates.DepKeyHasRow` | internal/store/maintenance.go:157-174 | A dependency row is inserted exactly when some pair of the range belongs to it |
| `Aggregates.CallOfTwo` | internal/store/maintenance.go:157-174 | Two spans are one call exactly if one names the other as parent in one trace from another service, both in their ranges; it counts for the callee's minute, error and duration |
| `Aggregates.PairsAppend` | internal/store/maintenance.go:157-174 | Pairs add up over callers and callees, so every dependency row is made of such calls |
| `RollupMaintainer.GroupSpans` | internal/store/maintenance.go:143-154 | One pass over the spans builds exactly the rows of the latency query |
| `RollupMaintainer.GroupPairs` | internal/store/maintenance.go:157-174 | A nested pass over all pairs builds exactly the rows of the dependency query |
| `RollupMaintainer.Maintainer.ReadWatermark` | internal/store/maintenance.go:177-204 | The recorded watermark, else the oldest span's minute, else the current minute |
| `RollupMaintainer.Maintainer.Rollup` | internal/store/maintenance.go:85-139 | An undisturbed pass, with its two readings of the clock, clears, re-derives and advances the watermark by at most six hours, and reports the minutes processed; nothing happens when no minute has finished |
| `RollupMaintainer.Maintainer.Retention` | internal/store/maintenance.go:208-262 | Expires spans, then both rollup tables, as `Lifetimes.SpansKeptIff` and `Lifetimes.RowsKeptIff` characterise; a lifetime of zero keeps everything |
| `RollupMaintainer.RollupIdempotent` | internal/store/maintenance.go:110-125 | Re-running a range leaves the tables as the first run did |
| `RollupMaintainer.PassReplacesRange` | internal/store/maintenance.go:108-136 | A pass leaves in its range exactly the rows derived from the spans, stale ones gone |
| `RollupMaintainer.OtherRowsStay` | internal/store/maintenance.go:108-136 | All rows outside the range stay as they are |
| `AttachRuns.OneInjectionPerProcess` | internal/inventory/manager.go:269-325 | In every interleaving of sightings, decisions, spawned and manual attaches, toggles and reaping, two injections running at once are for different processes, and an entry shown as attaching has its key in flight and an injection whose outcome is still to come |
| `AttachRuns.NoKeyLeftBehind` | internal/inventory/manager.go:272-275 | Once no call holds anything, nothing is in flight |
| `AttachRuns.StepKeepsLocked` | internal/inventory/manager.go:94-348 | Every step keeps the lock discipline: holders known, holders apart, no key without a holder, no attaching entry without an injection |
| `RetryBudget.AutomaticInjectionsBounded` | internal/inventory/manager.go:197-218 | If each spawned attach marks its entry before that entry is decided on again, automatic injections since the last manual attach never exceed max(1, MaxRetries) |
| `RetryBudget.SlowStartExceedsBudget` | internal/inventory/manager.go:114-119 | Without that condition the bound fails for every configuration that attaches and every attachable process: a run injects more than max(1, MaxRetries) times |
| `RetryBudget.CanExceedIff` | internal/inventory/manager.go:197-288 | In every reachable state: some continuation without another decision on an entry takes it over its budget if and only if its automatic injections since the last manual attach and its spawned, still unmarked attaches are together more than the budget; a forgotten entry is counted afresh |
| `RetryBudget.LastFailureIsFinal` | internal/inventory/manager.go:303-309 | After any run, once the last attempt allowed has failed and no other call for the process is waiting, no further injection starts in any continuation in which the process stays tracked and no operator asks for it |
| `RetryBudget.FailureIsFinalIff` | internal/inventory/manager.go:303-309 | A failed attempt leaves the entry given up on exactly when it was the last one allowed |
| `RetryBudget.QuietStaysQuiet` | internal/inventory/manager.go:205-217 | An entry given up on with no call under way stays so along every run without a manual attach in which it stays tracked, and its count of automatic injections does not change |
| `Eligibility.ExcludedIsLeftAlone` | internal/inventory/manager.go:162-168 | In every run a process that the filter excludes at each sighting is never attached to unless an operator asks; while tracked it is shown as skipped for that reason or as exited |
| `Eligibility.UnattachableIsLeftAlone` | internal/inventory/manager.go:169-179 | Nor is one that no agent can be loaded into |
| `Eligibility.AttachedAtSightIff` | internal/inventory/manager.go:106-218 | A JVM seen first, or still settling, is attached to at once if and only if automatic attaching is on, it is accepted, attachable and old enough, and nobody has kept it back |
| `Eligibility.ShownAtSight` | internal/inventory/manager.go:162-195 | Which of skipped, attached, pending and discovered it is shown as, and why, in all cases |
| `Eligibility.SightingRefreshes` | internal/inventory/manager.go:127-159 | A sighting refreshes what is known of its JVM, keeps first sight, attempts and the operator's mark, and touches no other entry |
| `Eligibility.SettlingRepeatsWarning` | internal/inventory/manager.go:180-183 | While a JVM with another agent settles, its warnings grow by one with every sighting |
| `Eligibility.RetriedIff` | internal/inventory/manager.go:211-214 | After a failure with attempts left the loop tries again if and only if more than the backoff has passed and nobody has kept the process back |
| `Eligibility.BackoffIsKept` | internal/inventory/manager.go:211-214 | In every run nothing is attempted between a failure and its retry time unless an operator asks |
| `Eligibility.SuccessIsFinal` | internal/inventory/manager.go:197-218 | After any run, once an injection succeeded and no other call is waiting, the process is not attached to again in any continuation in which it stays tracked and no operator asks |
| `Eligibility.ManualOnlyIsLeftAlone` | internal/inventory/manager.go:205-207 | In every run a process kept back by an operator is not attached to until released or asked for |
| `Eligibility.AutoAttachOff` | internal/inventory/manager.go:199-201 | With automatic attaching off every attach of a run is an operator's |
| `Eligibility.ReleaseUndoesIff` | internal/inventory/manager.go:242-262 | Keeping back and releasing restores the state if and only if the process was not kept back before |
| `Eligibility.ManualAttachStartsOver` | internal/inventory/manager.go:228-236 | A failed manual attach counts as the first attempt: the loop takes over after the backoff if and only if automatic attaching is on and more than one attempt is allowed |
| `Eligibility.ForgottenIff` | internal/inventory/manager.go:328-348 | An entry missed by two scans in a row is forgotten by the second if and only if more than ten minutes lie between them |
| `Eligibility.SeenIsKept` | internal/inventory/manager.go:332-335 | Reaping touches nothing that was seen |
| `Eligibility.MissedOnceStaysExited` | internal/inventory/manager.go:127-159 | In every run after one scan missed a process its entry is forgotten if and only if a scan more than ten minutes later misses it too; until then it is shown as exited and not attached to, however often it is seen |
| `Eligibility.SuccessShows` | internal/inventory/state.go:78-94 | A success is shown with its time and endpoint, no reason and no retry, earlier warnings gone |
| `Eligibility.WarningsKept` | internal/inventory/state.go:84-90 | Exactly the non-empty warnings are kept |
| `Eligibility.WarningsInOrder` | internal/inventory/state.go:84-90 | In their order |
| `InventoryManager.Manager.Reconcile` | internal/inventory/manager.go:94-123 | A discovery pass is exactly the run of sighting and deciding on each process found, in order, and then reaping the others; it returns the keys whose attaches it spawned |
| `InventoryManager.Manager.Consider` | internal/inventory/manager.go:106-118 | One sighting and the decision on it, as the two steps do |
| `InventoryManager.Manager.Attach` | internal/inventory/manager.go:269-325 | An undisturbed attempt is refused for a key in flight or no longer tracked, else marks the entry and records the outcome of exactly that attempt, and leaves nothing in flight behind |
| `InventoryManager.AttachIsRun` | internal/inventory/manager.go:269-325 | Such an attempt is a run: the steps of its call, one after the other |
| `InventoryManager.Manager.ObserveJvm` | internal/inventory/manager.go:127-194 | A sighting creates and classifies, refreshes, or re-classifies a pending entry, as the step does, about which `Eligibility.ShownAtSight` and `Eligibility.SightingRefreshes` say how |
| `InventoryManager.Manager.ReapMissing` | internal/inventory/manager.go:328-348 | In any map order: unseen entries are marked gone, entries gone for over ten minutes forgotten, all others untouched |
| `InventoryManager.Manager.KeyForPid` | internal/inventory/manager.go:407-417 | Finds a tracked entry of that pid that has not exited, and fails only if there is none |
| `InventoryManager.Manager.OverrideForManual` | internal/inventory/manager.go:228-234 | A manual attach clears the retry budget and the manual-only mark of its entry and nothing else |
| `InventoryManager.Manager.SetManualOnly` | internal/inventory/manager.go:245-261 | The operator toggle moves discovered entries to skipped and back only those it skipped itself |
| `InventoryManager.Manager.Claim` | internal/inventory/manager.go:272-274 | Claiming a key reports whether it was claimed already and leaves it claimed |
| `InventoryManager.Manager.BeginInjection` | internal/inventory/manager.go:277-288 | Marks a tracked entry as attaching and hands out its attempt number; an untracked one is refused |
| `InventoryManager.Manager.EndInjection` | internal/inventory/manager.go:294-314 | Records the outcome of that attempt, if the entry is still there, with a retry time only while attempts remain |
| `InventoryManager.Manager.Unclaim` | internal/inventory/manager.go:275 | Releases exactly that key |
| `InventoryManager.ApplyResult` | internal/inventory/state.go:78-94 | Folding a success keeps exactly the non-empty warnings in order, plus one if nothing was injected |
| `Supervision.RunsOnLastOffer` | internal/ebpf/supervisor.go:68-212 | In every interleaving of offers without duplicates, whatever their names: while OBI runs and no signal is pending its configuration is a rendering of the last set offered, namely the one canonical configuration of that set if its names are distinct; while the supervisor waits for targets that set is empty |
| `Supervision.LoopRunsOnLastOffer` | internal/ebpf/supervisor.go:119-212 | The same for the loop itself, whatever sequence of offers, starts, failures, exits and cancellation happens around it |
| `Supervision.SettlesOnLastOffer` | internal/ebpf/supervisor.go:119-148 | Whatever has happened short of a cancellation, exits, failed starts and offers at any moment: after at most six further moves that succeed OBI runs on a rendering of the last set offered, or the loop waits if that set is empty, and there it stays |
| `Supervision.ActsGoOn` | internal/ebpf/supervisor.go:119-148 | Such moves are always possible |
| `Supervision.StoppedIffCancelled` | internal/ebpf/supervisor.go:119-148 | In every interleaving the supervisor has stopped if and only if it was cancelled: neither a failed start nor an exit of OBI ends it |
| `Supervision.LoopStopsIffCancelled` | internal/ebpf/supervisor.go:119-148 | The same for the loop itself |
| `Supervision.FollowsIsRun` | internal/ebpf/supervisor.go:119-212 | Each thing the loop does is a step of the interleaved machine, so every sequence of happenings is one of its runs |
| `Supervision.Supervisor.Run` | internal/ebpf/supervisor.go:119-148 | The loop, driven by such a sequence, ends in the phase and state the reactions lead to |
| `Supervision.Supervisor.Advance` | internal/ebpf/supervisor.go:120-212 | The loop's next move: deciding on a snapshot, starting OBI on its rendering, backing off, taking the signal, or staying blocked |
| `Supervision.SignalledIffDifferent` | internal/ebpf/supervisor.go:68-83 | An offer without duplicates raises the signal exactly when it is not the held set over again in some order |
| `Supervision.DuplicateOfferGoesUnnoticed` | internal/ebpf/supervisor.go:273-292 | An offer that repeats a key goes unnoticed by a supervisor holding any other target in that place, which leaves OBI on another configuration; the scan in internal/ebpf/discover.go never makes such an offer |
| `Supervision.IgnoredOnlyIfHeldIffDistinct` | internal/ebpf/supervisor.go:68-83 | Every supervisor that ignores an offer holds that very set, in some order, if and only if the offer has no duplicates |
| `Supervision.Supervisor.SetTargets` | internal/ebpf/supervisor.go:68-83 | Replaces the held set and fills the one-slot channel as the step does, or does nothing |
| `Supervision.Supervisor.Snapshot` | internal/ebpf/supervisor.go:85-89 | What a decision of the loop acts on |
| `Supervision.Supervisor.Configure` | internal/ebpf/config.go:85-122 | What OBI is started on is a rendering of the snapshot |
| `Targets.KeyIdentifiesTarget` | internal/ebpf/supervisor.go:295-297 | Two targets share a key exactly when name, runtime, pid and ports agree, for runtimes without a bar; names may hold one |
| `Targets.KeyAmbiguousWithBar` | internal/ebpf/supervisor.go:295-297 | Why the condition is there: with a bar in a runtime two targets would share a key; none of the six runtimes in internal/ebpf/discover.go has one |
| `Targets.CompareTargets` | internal/ebpf/supervisor.go:273-292 | The comparison: equally many, and every key of the second set among those of the first |
| `Targets.SameTargetsIsExact` | internal/ebpf/supervisor.go:270-292 | The comparison says exactly whether the sets agree up to order, against every stored set, if and only if the offer has no duplicates |
| `Targets.ExactWithoutDuplicates` | internal/ebpf/supervisor.go:270-292 | For an offer without duplicates it does so against any one stored set, whatever that is like |
| `Targets.SameTargetsMissesDuplicates` | internal/ebpf/supervisor.go:273-292 | Where an offer repeats a key the comparison accepts a stored set with any other target in that place |
| `Targets.RenderConfig` | internal/ebpf/config.go:92-106 | The rules are those of the targets, in the order of names; for distinct names they are the one canonical list |
| `Targets.ConfigIsUnique` | internal/ebpf/config.go:92-98 | For distinct names any sorted list of the rules is that list, however the sort treats ties |
| `Targets.SameTargetsSameRules` | internal/ebpf/supervisor.go:270-292 | A duplicate-free set that the supervisor takes for unchanged has the same rules, each as often, whatever the names |
| `Targets.SameTargetsSameConfig` | internal/ebpf/config.go:92-106 | If its names are distinct it renders the same configuration |
| `Targets.RuleShowsPorts` | internal/ebpf/config.go:53-60 | Two rules agree exactly when names and port lists do |
| `Targets.RuleListsPorts` | internal/ebpf/config.go:85-122 | A rule names its target and lists its ports in decimal, in their order, with commas in between |
| `Targets.RulesAscend` | internal/ebpf/config.go:92-98 | Rules come in ascending order of names |
| `PipelineRuns.NothingLostOrReordered` | internal/pipeline/pipeline.go:119-302 | In every run the flushed batches, the current batch and the queue are together exactly the accepted spans in order; offered spans are queued, rate drops, queue drops or abandoned; written and batches count the flushes that went through, write errors those that failed and the failed metric writes; the queue keeps its bound and each batch but the last holds 1 to BatchSize spans |
| `PipelineRuns.ShutdownFlushesAll` | internal/pipeline/pipeline.go:194-202 | After the final flush everything ever accepted has been handed to the store, in order |
| `PipelineRuns.RoomDecides` | internal/pipeline/pipeline.go:126-134 | In every reachable state a span can be dropped if and only if the queue is full, and queued if and only if it is not |
| `PipelineRuns.BurstFillsQueue` | internal/pipeline/pipeline.go:119-138 | Of a burst exactly the first spans are queued, as many as there is room for |
| `PipelineRuns.FlushesAreFull` | internal/pipeline/pipeline.go:204-208 | Without the timer and the shutdown every batch handed over holds exactly BatchSize spans |
| `PipelineRuns.TickHandsOver` | internal/pipeline/pipeline.go:220-221 | After a tick of the timer all that was taken from the queue has been handed over |
| `PipelineRuns.WrittenPlusLost` | internal/pipeline/pipeline.go:274-293 | Every span queued is written, lost with a failed write, or still in batch or queue, and every write of spans is counted once |
| `SpanPipeline.Pipeline.Normalize` | internal/pipeline/pipeline.go:305-307 | Service first, then the operation under the stored service: the names stored are those the guard's two answers give, and the rest of the span is untouched |
| `SpanPipeline.StoredAs` | internal/pipeline/pipeline.go:305-307 | What is stored: a service and operation that are known or for which there is room as they are, anything else and empty names as the overflow label |
| `SpanPipeline.Pipeline.Offer` | internal/pipeline/pipeline.go:119-138 | One span is dropped for the rate exactly when the limiter refuses it, else normalised and queued, queue-dropped, or the rest abandoned, and every counter moves accordingly |
| `SpanPipeline.Pipeline.Enter` | internal/pipeline/pipeline.go:126-134 | The non-blocking send: queued if there is room, else dropped, or cancelled |
| `SpanPipeline.Pipeline.Consume` | internal/pipeline/pipeline.go:119-138 | A call is a run of such steps, one a span in order: exactly those the limiter refuses are rate-dropped, what is queued for a span carries its payload, every span is accounted for, and it fails only when cancelled |
| `SpanPipeline.Pipeline.TakeSpan` | internal/pipeline/pipeline.go:204-208 | Takes one span and flushes when the batch is full |
| `SpanPipeline.Pipeline.FlushNow` | internal/pipeline/pipeline.go:274-293 | Hands a non-empty batch to the store; a failed write loses it and is counted |
| `SpanPipeline.Pipeline.MetricsWritten` | internal/pipeline/pipeline.go:252-266 | A failed metric write is counted with the failed flushes and touches nothing else that spans depend on |
| `SpanPipeline.Pipeline.Drain` | internal/pipeline/pipeline.go:228-237 | Moves everything queued into the batch, in order |
| `SpanPipeline.Pipeline.Shutdown` | internal/pipeline/pipeline.go:194-202 | Drains and flushes: a run that ends with queue and batch empty and nothing forgotten |
| `RateLimit.BurstIsBounded` | internal/pipeline/limits.go:34-58 | From time s to time t at most limit*(t-s)+limit calls are admitted, whatever came before, under a non-decreasing clock |
| `RateLimit.CallsKeepValid` | internal/pipeline/limits.go:43-56 | Tokens stay between zero and the limit |
| `RateLimit.SteadyCallsAdmitted` | internal/pipeline/limits.go:43-57 | A call at least 1/limit seconds after the previous one is always admitted |
| `RateLimit.FullBucketAdmits` | internal/pipeline/limits.go:34-58 | A full bucket admits as many calls as the limit, whenever they come |
| `RateLimit.NoLimitAdmitsAll` | internal/pipeline/limits.go:34-37 | Without a limit every call is admitted |
| `RateLimit.RateLimiter.Allow` | internal/pipeline/limits.go:34-58 | One call, in place, decides and updates the bucket as specified; without a limit nothing changes |
| `Cardinality.LimitHoldsAndAnswersAgree` | internal/pipeline/limits.go:113-139 | In every interleaving of the two lock phases the set keeps its limit, and all answers ever given for one name agree |
| `Cardinality.RefusedOnlyWhenFull` | internal/pipeline/limits.go:113-139 | In every interleaving a name is refused only where there is a limit and that many others are in |
| `Cardinality.FewNamesAllAdmitted` | internal/pipeline/limits.go:113-139 | So while no more different names turn up than the limit allows, none is ever refused |
| `Cardinality.StoredPairsOfRuns` | internal/pipeline/pipeline.go:305-307 | However calls interleave, the distinct (service, operation) pairs ever stored number at most maxOperations + maxServices + 1 |
| `Cardinality.StoredPairsBounded` | internal/pipeline/limits.go:100-109 | Pairs made of admitted names and the overflow label are at most as many as both sets together and one more |
| `Cardinality.NormalizedIsStorable` | internal/pipeline/limits.go:91-109 | The two calls for a span produce such a pair |
| `Cardinality.AdmittedStoredAsIs` | internal/pipeline/limits.go:91-109 | An admitted service without NUL, and an admitted operation of it, are stored as themselves; a refused operation as the overflow label |
| `Cardinality.NulServiceIsCut` | internal/pipeline/limits.go:141-149 | A service name with a NUL is stored as what follows the first one |
| `Cardinality.ServiceStoredAsIsIff` | internal/pipeline/limits.go:91-96 | An admitted service is stored as itself if and only if its name has no NUL |
| `Cardinality.CutServicePrefix` | internal/pipeline/limits.go:142-149 | The byte loop cuts up to and including the first NUL |
| `Cardinality.Admit` | internal/pipeline/limits.go:113-139 | Both phases without interruption are the steps look and settle, with the answer they give |
| `Cardinality.CardinalityGuard.Service` | internal/pipeline/limits.go:91-96 | The service set and the stored name after one call |
| `Cardinality.CardinalityGuard.Operation` | internal/pipeline/limits.go:100-109 | The operation set and the stored name after one call, counted per service |
| `TokenRuns.IssuedTokensSurvive` | internal/ingesttoken/token.go:67-188 | Through failed saves, crashes at any point of a save and restarts, the registry accepts every token it returned and was never asked to revoke, and so does any registry started on the file it left |
| `TokenRuns.RevokedTokensStayOut` | internal/ingesttoken/token.go:130-140 | A token revoked without error is never accepted again, in memory or after a restart |
| `TokenRuns.RevokeComesBackIff` | internal/ingesttoken/token.go:126-140 | In every run from a revocation to the next restart: the token is accepted afterwards if and only if the file held it and no save on the way, that of the revocation included, reached the rename |
| `TokenRuns.IssueSurvivesIff` | internal/ingesttoken/token.go:87-103 | In every run from an issue to the next restart in which the token is not revoked: it is accepted afterwards if and only if its save, or a later one, reached the rename |
| `TokenRuns.AlwaysRestarts` | internal/ingesttoken/token.go:67-84 | Started on an absent, empty or readable file the registry never leaves one it could not be restarted on, wherever it fails or crashes |
| `TokenRuns.CorruptFileIsKept` | internal/ingesttoken/token.go:67-84 | A file that cannot be read is never written over, and nothing is accepted or issued |
| `TokenRegistry.Registry.Open` | internal/ingesttoken/token.go:67-84 | Absent and empty files start empty, a readable one is loaded, a corrupt one is refused |
| `TokenRegistry.Registry.SaveLocked` | internal/ingesttoken/token.go:148-188 | The file is replaced as a whole or not at all, and the temporary file does not stay |
| `TokenRegistry.Registry.Issue` | internal/ingesttoken/token.go:87-103 | The call takes the step of the runs on memory and file, and hands the token out only if the save went through |
| `TokenRegistry.Registry.Revoke` | internal/ingesttoken/token.go:130-140 | The call takes the step of the runs; the empty token changes nothing |
| `TokenRegistry.Registry.AcceptsToken` | internal/ingesttoken/token.go:110-124 | Scanning all candidates accepts exactly the valid tokens |
| `ThreadDump.InferDeadlocks` | internal/jvmdiag/threaddump.go:319-377 | The marked walks report exactly the cycles of the wait-for graph, and walk over each thread once in all |
| `ThreadDump.ReportedIsExact` | internal/jvmdiag/threaddump.go:313-377 | In terms of the dump: every report is a deadlock in the order of waiting under its thread names, every deadlock is among them, and no two share a thread |
| `ThreadDump.OwnersOf` | internal/jvmdiag/threaddump.go:320-325 | The lock table names the last holder of each lock, and only held locks |
| `ThreadDump.WaitsFor` | internal/jvmdiag/threaddump.go:327-338 | The edge array is the wait-for graph of the dump |
| `ThreadDump.WaitGraphIs` | internal/jvmdiag/threaddump.go:320-338 | Its edges, in terms of the dump: from i to j if and only if they differ and i waits for a lock that j, and nobody listed after j, holds |
| `ThreadDump.CycleIsDeadlock` | internal/jvmdiag/threaddump.go:313-377 | Its cycles are the deadlocks: different threads, each waiting for a lock of the next and the last for one of the first |
| `ThreadDump.WalkFrom` | internal/jvmdiag/threaddump.go:352-360 | One chain is followed as far as it is new, and marked |
| `DeadlockMerge.MergeDeadlocks` | internal/jvmdiag/threaddump.go:428-450 | Keeps the first report of every key, in order, and drops those without one |
| `DeadlockMerge.KeyNamesTheThreads` | internal/jvmdiag/threaddump.go:452-461 | Two reports share a key exactly when they name the same threads, each as often, for names without NUL |
| `DeadlockMerge.KeyAmbiguousWithNul` | internal/jvmdiag/threaddump.go:454-461 | With NUL in a name, one thread and two can share a key |
| `DeadlockMerge.OneReportPerThreadSet` | internal/jvmdiag/threaddump.go:425-450 | Of all reports naming one set of threads exactly one is kept, the earliest, for names without NUL; only a report that names nobody, or one nameless thread, is dropped |
| `DeadlockMerge.EveryCycleIsReported` | internal/jvmdiag/threaddump.go:425-450 | Every deadlock of the dump is in the merged list under its names, and where the JVM reported the same threads its wording is kept, for names without NUL |
| `ServiceMap.EndsIffNoReachableLoop` | web/src/pages/ServiceMap.tsx:56-67 | The relaxation ends if and only if no call loop is reachable from its start nodes |
| `ServiceMap.EndedMeansLongest` | web/src/pages/ServiceMap.tsx:56-67 | Whenever it ends, exactly the reachable nodes have tiers, each the length of the longest path to it, and every call between them goes to a higher tier |
| `ServiceMap.Tiers` | web/src/pages/ServiceMap.tsx:31-67 | The queue loop terminates without such a loop and leaves those tiers |
| `ServiceMap.Seeds` | web/src/pages/ServiceMap.tsx:38-54 | The queue starts with whatever nobody calls, or else the first name seen |
| `ServiceMap.UncalledStarts` | web/src/pages/ServiceMap.tsx:38-49 | A caller nobody calls is a start node at tier zero, and then only such are |
| `ServiceMap.CyclicStartsAtFirst` | web/src/pages/ServiceMap.tsx:50-54 | Where everybody is called the first caller is the only start node |
| `ServiceMap.EveryCallGoesRight` | web/src/pages/ServiceMap.tsx:23-30 | In a map without call loops every arrow points strictly rightwards |
| `ServiceMap.LoopBehindEntryNeverEnds` | web/src/pages/ServiceMap.tsx:56-67 | A call loop behind an entry point keeps the relaxation running through any number of turns |
| `Waterfall.BuildTree` | web/src/components/Waterfall.tsx:21-55 | The linking, sorting and walking loops terminate on any spans and leave the preorder of the sorted forest |
| `SpanForest.FlatHasExactlyTheRooted` | web/src/components/Waterfall.tsx:45-54 | A span is listed at a depth exactly when its parent chain reaches a root after that many steps |
| `SpanForest.FlatListsOnce` | web/src/components/Waterfall.tsx:45-54 | No span is listed twice |
| `SpanForest.SubtreesAreContiguous` | web/src/components/Waterfall.tsx:45-54 | Every row is followed immediately by all of its own subtree and nothing else |
| `SpanForest.SiblingsInOrder` | web/src/components/Waterfall.tsx:45-54 | The children of a listed span are all listed after it, in the order of their list, one deeper |
| `SpanForest.RootsInOrder` | web/src/components/Waterfall.tsx:45-54 | So are the roots, at depth 0 |
| `SpanForest.NothingLostIffAcyclic` | web/src/components/Waterfall.tsx:15-36 | All spans are listed if and only if none is its own ancestor |
| `Waterfall.KeysAreTheSpanIds` | web/src/components/Waterfall.tsx:22-25 | The forest's nodes are exactly the distinct span ids |
| `Waterfall.LastSpanIsKept` | web/src/components/Waterfall.tsx:22-25 | Of spans that share an id the last is kept |
| `Waterfall.FirstPlaceIsKept` | web/src/components/Waterfall.tsx:22-25 | It takes the place of the first: spans later in the trace never move an id |
| `Waterfall.DepthFollowsParent` | web/src/components/Waterfall.tsx:27-54 | A span that names no parent, an unknown one or itself is at depth 0, any other exactly one deeper than its parent, if that is listed |
| `Waterfall.SiblingsInStartOrderIff` | web/src/components/Waterfall.tsx:37-43 | The children of a span, and the roots, are in the order they started if and only if no two of them started within one second at fractions of which one continues the other |
| `Waterfall.TextSortedInTimeIff` | web/src/components/Waterfall.tsx:39-40 | The same of any list sorted by its timestamps' text |
| `Waterfall.TiesAsInMap` | web/src/components/Waterfall.tsx:37-43 | Siblings and roots with the same timestamp text stay in the order of the Map |
| `Waterfall.FullSecondShownLast` | web/src/components/Waterfall.tsx:37-43 | A span that started on the full second is shown after its siblings that started later in that second |
| `Timestamps.TextOrderIffNoClash` | web/src/components/Waterfall.tsx:39-40 | Two timestamps compare as text as they do in time if and only if they do not clash in that way; if they do, the later one comes first |
| `Timestamps.FullSecondSortsLast` | web/src/components/Waterfall.tsx:39-40 | The text of a full second comes after all others of that second |
| `Timestamps.TextOrder` | internal/model/span.go:127 | Texts of different seconds compare as the seconds do, those of one second as what follows the seconds |
| `Timestamps.TextReads` | internal/model/span.go:127 | The text is year, month, day, hour, minute and second in fixed fields, each reading as its number, then the fraction and a Z |
| `Timestamps.FractionReads` | internal/model/span.go:127 | The fraction has nine digits at most, none for a full second, does not end in zero and stands for the nanoseconds |
| `Waterfall.MutualParentsAreLost` | web/src/components/Waterfall.tsx:15-36 | Two spans naming each other as parents are both missing, whatever else the trace holds |
| `Waterfall.Link` | web/src/components/Waterfall.tsx:27-35 | Each node hangs under its parent if that is another known node, else it is a root, in the order of the Map |
| `Buckets.BucketContains` | internal/store/histogram.go:44-59 | A duration between the extremes lies between the edges of its bucket |
| `Buckets.IndexMonotone` | internal/store/histogram.go:44-59 | Longer durations never land in lower buckets |
| `Buckets.UpperBoundError` | internal/store/histogram.go:64-72 | A bucket's upper bound is at least the duration exactly up to the largest one, and at most one growth step above it or the smallest |
| `LatencyHistogram.MergedQuantileError` | internal/store/histogram.go:109-135 | A quantile of any number of merged histograms lies between the true order statistic of its rank among the pooled samples and one growth step above it, not understating exactly up to the largest duration |
| `LatencyHistogram.QuantileError` | internal/store/histogram.go:109-135 | The same for one histogram and any rank |
| `LatencyHistogram.AnswerHoldsTheRank` | internal/store/histogram.go:118-134 | With consistent counts the bucket a quantile is read from is the one its rank falls into |
| `LatencyHistogram.RankBucketHoldsOrderStat` | internal/store/histogram.go:126-133 | The bucket where the cumulative count reaches a rank holds the sample of that rank |
| `LatencyHistogram.RankIsQuantile` | internal/store/histogram.go:118-126 | The sample of the rank asked for is the quantile: less than a share q of the samples is below it and at least that share not above it; at the ends it is the least and the greatest sample |
| `LatencyHistogram.OrderStatOfSorted` | internal/store/histogram.go:125-126 | In a sorted list the t-th order statistic is the t-th element |
| `LatencyHistogram.MergeIsPooling` | internal/store/histogram.go:99-106 | Adding counts is the same as recording all samples in one histogram |
| `LatencyHistogram.MergeAllIsPooling` | internal/store/histogram.go:99-106 | So is adding up any number of them |
| `LatencyHistogram.AddRecordsSample` | internal/store/histogram.go:91-97 | One more in a duration's bucket is one more sample recorded |
| `LatencyHistogram.RepresentsIsConsistent` | internal/store/histogram.go:83-89 | The counts of samples are natural and add up to their number |
| `LatencyHistogram.Histogram.Add` | internal/store/histogram.go:91-97 | Changes one bucket and the total, or nothing when the bucket is out of range |
| `LatencyHistogram.Histogram.Merge` | internal/store/histogram.go:101-106 | Adds the other histogram bucket by bucket, in place, even to itself |
| `LatencyHistogram.Histogram.Quantile` | internal/store/histogram.go:114-153 | Zero for no samples, else the upper bound of the answering bucket, for any counts and any q |
| `HistogramDiffing.Diff` | internal/jvmdiag/classhistogram.go:129-187 | The loops list every change once, sorted and cut at the limit; for lists without repeated classes growth and shrinkage are the canonical ones, whatever order the map and the sorts produce |
| `HistogramDiffing.GrowthKeepsHeaviest` | internal/jvmdiag/classhistogram.go:160-186 | Growth lists classes that gained, heaviest first, then by name; a class that gained is left out only by the limit, when that many are listed that gained as much or more |
| `HistogramDiffing.ShrinkKeepsHeaviest` | internal/jvmdiag/classhistogram.go:160-186 | Shrinkage likewise the classes that lost |
| `HistogramDiffing.MatchLater` | internal/jvmdiag/classhistogram.go:139-150 | Each later class is compared with its match, which is used up, and what is left is what the later dump lacks |
| `HistogramDiffing.SortedIsCanonical` | internal/jvmdiag/classhistogram.go:160-186 | For lists without repeated classes no freedom of sorting or of map order is left |
| `ClassHistogram.GrowthMirrorsShrink` | internal/jvmdiag/classhistogram.go:129-187 | At every limit the growth from a to b is the shrinkage from b to a: the same classes in the same order, every change negated |
| `ClassHistogram.BytesAreConserved` | internal/jvmdiag/classhistogram.go:129-187 | Unlimited, all changes add up to the listed later bytes minus the earlier ones; only the earlier list must not repeat a class |
| `ClassHistogram.ChangesListed` | internal/jvmdiag/classhistogram.go:139-158 | The changes are one for each class of either side, with absent sides counted as zero |
| `ClassHistogram.ChangesSay` | internal/jvmdiag/classhistogram.go:139-158 | What a change says: the later counts, and how much more they are than the earlier ones, a class one side lacks counting as nothing there |
| `ClassHistogram.LastCountWins` | internal/jvmdiag/classhistogram.go:133-137 | Where the earlier list repeats a class its last count is the one compared with |
| `ClassHistogram.SymmetricIffDistinct` | internal/jvmdiag/classhistogram.go:129-187 | For a list whose classes take room: the comparison is symmetric at every limit against every list without repetitions if and only if the list itself repeats no class |
| `ClassHistogram.RepeatShowsAgainstNothing` | internal/jvmdiag/classhistogram.go:134-158 | Such a list repeats no class if and only if as many of its classes grow from the empty list as shrink towards it |
| `ClassHistogram.DuplicateBreaksMirror` | internal/jvmdiag/classhistogram.go:139-150 | An instance: a class of 5 bytes against one listed with 10 and again with 20 |
| `PropertyFile.FileRoundTrip` | internal/injector/injector.go:322-347 | A rendered file parses back to the same map if and only if every key needs no escaping and has no white space at its ends, and no value ends in white space that escaping leaves alone |
| `PropertyFile.RenderProperties` | internal/injector/injector.go:328-346 | The text is the comment line and one escaped line for each key, in sorted order |
| `PropertyFile.RenderIsCanonical` | internal/injector/injector.go:328-332 | That text does not depend on the order the map was walked in |
| `PropertyFile.ParseProperties` | internal/attach/properties.go:8-22 | The line loop parses exactly as specified: comments, blank lines and lines without an equals sign skipped, later lines winning |
| `PropertyFile.LaterLineWins` | internal/attach/properties.go:19 | Of lines that give one key the later counts, and no line touches other keys |
| `PropertyFile.LinesComeBack` | internal/attach/properties.go:10 | Splitting the rendered text gives back its lines, the comment first and an empty one last |
| `PropertyFile.EscapeProperty` | internal/injector/injector.go:465-484 | The rune loop escapes as specified |
| `PropertyFile.UnescapeProperty` | internal/attach/properties.go:25-52 | The index loop with its skip, and its shortcut for text without backslashes, unescape as specified |
| `PropertyText.UnescapeInvertsEscape` | internal/attach/properties.go:24-52 | Unescaping undoes escaping, for every text |
| `PropertyText.LineRoundTrip` | internal/attach/properties.go:11-20 | One rendered line parses back to its key and value if and only if both are of that kind |
| `PropertyText.KeySurvives` | internal/attach/properties.go:19 | A key, which is never unescaped, comes back exactly when escaping and trimming leave it alone |
| `PropertyText.KeyNotComment` | internal/attach/properties.go:12 | No rendered line is taken for a comment |
| `PropertyText.NoRawSpecial` | internal/injector/injector.go:465-484 | In escaped text every separator and comment sign has a backslash before it |
| `PropertyText.KeyOkIff` | internal/injector/injector.go:465-484 | A key needs no escaping exactly if none of nine characters is in it |
| `PropertyText.UnescapesTo` | internal/attach/properties.go:33-47 | Behind a backslash n, r, t and f stand for control characters and all else for itself; a final backslash stays |
| `PropertyText.SpacesAre` | internal/attach/properties.go:11 | What trimming takes for white space: the 25 characters Unicode lists |
| `PropertyText.SkippedIff` | internal/attach/properties.go:11-18 | A line says nothing exactly if it is blank, a comment or without an equals sign |
| `PropertyText.LineSays` | internal/attach/properties.go:15-20 | Otherwise the trimmed text before the first equals sign is the key and the unescaped rest its value |
| `PropertyText.EscapedIsOneLine` | internal/injector/injector.go:463-484 | Escaped text holds no line break, carriage return or tab, and an equals sign exactly if the text did |
| `PropertyText.TrimmedValue` | internal/attach/properties.go:11 | What trimming a line takes from a value is exactly its trailing white space that was not escaped |
| `Route.NormalizeRoute` | internal/receiver/route.go:18-51 | The segment loop computes the specified route |
| `Route.RouteIsTemplate` | internal/receiver/route.go:40-50 | A route starts with a slash, has at most nine segments, the ninth only a star, and no segment that looks like an identifier |
| `Route.ReplacedIff` | internal/receiver/route.go:59-145 | A segment is replaced exactly if it is one to three digits, holds four digits in a row, is sixteen or more hex digits, or is five hyphenated groups of 8, 4, 4, 4 and 12 hex digits |
| `Route.RouteOfPlainPath` | internal/receiver/route.go:40-50 | A plain path keeps its first eight segments, identifiers replaced, and a star for any more |
| `Route.NormalizingTwice` | internal/receiver/route.go:23-31 | Normalising a route again changes nothing if and only if the route holds no "://" |
| `Route.SecondPassCanDiffer` | internal/receiver/route.go:23-31 | An address inside an address, for any plain last segment, is reduced again by a second pass |
| `Route.QueryDecides` | internal/receiver/route.go:23-35 | What becomes of a path with a query or fragment, in all cases: dropped, or the address in it taken instead |
| `Route.LinkInQueryReplacesPath` | internal/receiver/route.go:23-35 | For any plain names and any host: a link in a query takes the place of the path before it |
| `Route.OneRouteIffAlike` | internal/receiver/route.go:12-50 | Two plain paths get one route if and only if they differ only in which identifiers they hold, or past the eighth segment |
| `Route.FindLongDigitRun` | internal/receiver/route.go:132-145 | The running count finds four consecutive digits exactly when there are four |
| `Route.IsIdentifierSegment` | internal/receiver/route.go:59-76 | A segment is an identifier if it is all digits, a UUID, long hex, or holds a long digit run; the empty one is not |

## Left out

- Rollup: metric and diagnostics retention, the database engine, checkpoints, and the counts of removed rows.
- Manager.SetManualOnly: entries are values in a map, where the program assigns fields through pointers; each entry has one pointer, so nothing is shared.
- Manager.OverrideForManual: requires the key to be tracked; the program looks the key up and locks again afterwards, and would dereference nil if the entry were reaped in between, which takes ten minutes.
- Inventory: discovery, gateways, event publishing, logging, and the texts of reasons, which are constructors here.
- Supervisor.Run: channels and the OBI process are a sequence of happenings given to the loop, where the program blocks until one comes; capability detection, staging of the binary, the YAML bytes and the choice between a cancelled context and a ready channel are not part of this model.
- Pipeline: the `Run` loop is one method a branch of its select; `runtime` resolution and attribute truncation in `normalize`, the metric queue and the flush timings are not part of this model.
- NothingLostOrReordered: liveness is not claimed; with producers that never stop, draining need not end.
- Pipeline.Shutdown: runs undisturbed; spans that arrive while the writer drains are covered by the runs of `PipelineRuns`.
- RateLimiter.Allow: floating point is modelled by reals, and the clock is a parameter. Results about stretches of calls take it as non-decreasing, as Go's monotonic readings under the lock are.
- Registry: JSON and base64 text, durability of a rename across power loss, and a file holding `null`, which leaves the program with a nil map.
- IssuedTokensSurvive: generated tokens are assumed never to repeat, since they are long and random.
- InferDeadlocks: line recognition by regular expressions, pile-ups and the reading of the JVM's own report; the model starts from parsed threads.
- Tiers: requires that no call loop be reachable, since the program does not end otherwise; placement of nodes and drawing are left out.
- BuildTree: Node objects are ids in maps.
- Timestamps.TextOrder: timestamps are in UTC, of years 0 to 9999; `localeCompare` is modelled by code points, which order digits, point and capital letters as its root collation does.
- Buckets: floats are reals, so rounding in logarithms and powers is not modelled; `BucketMidpoint` would only add an easy member.
- Histogram: 64-bit overflow of counts.
- HistogramDiffing.Diff: 64-bit overflow; `Top`, which copies a prefix, would only add an easy member.
- RenderConfig: the order `sort.Slice` gives targets of one name is left open, as the program leaves it.
- PropertyFile: which properties are set, the inline budget and the file fallback; the time stamp is a parameter without line breaks. Text is characters, not bytes: all the reader looks for is ASCII except white space.
- Route: lengths are counted in characters where the program counts bytes; the two differ only for characters no UUID or hex segment may hold.
- Configuration, name heuristics, HTTP and gRPC servers, sockets, signals and everything else that is input and output.
