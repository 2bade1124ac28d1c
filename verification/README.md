# Verified model of the at-least-once machinery of lowpower_llm_cluster

The repository keeps a catalogue of listings up to date with concurrent, time-driven parts: a coordinator that
leases tasks to workers, a bounded parallel map, a refresh history and its compacting subclass, a replay window for
signed requests, a page cache, adaptive limits, a circuit breaker, a line reader over a chunked stream, and a Pareto
filter.  Each of them may retry, re-send, expire or finish late, and each promises to look exactly-once, ordered and
lossless from outside.  This project models them in Dafny and proves those promises over whole runs.

`dafny verify dfyconfig.toml` checks everything.

## How the model is built

* Objects whose methods update fields are classes (`DistributedTaskStore`, `CatalogHistory`,
  `CompactingCatalogHistory`, `ReplayWindow`, `DiscoveryCache`, `AdaptiveConcurrency`, `CircuitBreaker`,
  `AdaptiveBatchSizer`).  Every method states the whole new state as a function of the old one, and the theorems about
  runs are about those functions.  Loops of the source are loops here (`ReadLines`, `ParetoFrontier`, the eviction and
  scan loops).
* Database tables are maps and sequences.  One executor thread runs every store method, so a method is one atomic step
  that reads the clock once; the clock reading is a parameter.  A theorem that needs a clock that does not run backwards
  says so in its `requires`.
* Concurrency is a transition system: `WorkerSystem` has workers that crash, sessions that outlive their lease and
  messages that are delivered late, repeatedly or never; `BoundedMap` has one producer, any number of workers and one
  consumer over two bounded queues under any schedule.
* `uuid5` (section 5.5 of RFC 9562) is a function parameter, assumed injective only where a lemma says so.  The keyed
  digest, the reading of a float and the canonical form of a url are function parameters too.
* Times, latencies and prices are reals; rounding plays no part.

The files follow the source.  Coordinator and workers: `BatchNames`, `TaskStore`, `TaskIdentity`, `LeaseProtocol`,
`GrantOrder`, `RowHistory`, `CycleReports`, `WorkerSystem`, `DeliveryOrder`, `SubmittedWork`, `RetryBound`,
`RetryExtremes`, `SessionExclusion` and `CycleProgress`.  Bounded map: `BoundedMap`.  Refresh history: `History`,
`HistoryRuns`, `OneShotRefresh`, `ChangeReplay`, `Compaction`, `CompactContent`, `CompactRuns`, `CompactSpacing`,
`CompactBatching` and `LatestRows`.  Signed requests: `ReplayWindow` and `WorkerAuth`.  Cache: `HttpCache`,
`CacheRuns`, `CacheAnswers` and `StalePages`.  Controllers: `ConcurrencyLimit`, `BatchSizer`, `CircuitBreaker`,
`BreakerAdmission` and their `StepArithmetic`.  Then `Ndjson` and `Pareto`; `Base` and `Folds` are shared.

## Where the code does less than one might expect

Each of these is proved, with the exact condition under which the code does meet the expectation.

* A task key joins cycle id and source name with a colon, so two cycles can collide when one id continues the other
  after a colon; the later source is then silently left out (`KeepsItsTaskExactly`, `SourceIsLost`).
  Generated ids have no colon.
* Text order of batch ids is index order only up to 10^8 batches (`NamesSortAsNumbersExactly`).
* The retry rule compares a session's own attempt number, and an expired lease is an attempt nobody reported: the bound
  is max_attempts plus the expired leases plus the repeated failure reports, and it is reached for every number of
  either (`LeasesAreBounded`, `BoundIsReached`).
* The store knows a lease holder by worker name, so an older session under that name can still be heard
  (`SessionsExcludeExactly`).
* Compaction keeps heartbeat and reappearance rows, so the stored payloads are the plain ones only up to consecutive
  repeats (`CompactionLosesNoContent`, `StoredIsDeduplicatedExactly`, `HeartbeatIsStoredTwice`).
* Compaction's DELETE is keyed by run and identity.  So it takes the run's older row of a listing seen again in the run,
  and the row of a first copy when a batch holds two; one call loses content, against the plain method on the same
  tables, exactly when that row differs from its neighbours (`ContentKeptExactly`, `SecondSightingInRunErasesFirst`,
  `DuplicateInBatchErasesFirst`).  Over a run whose calls all keep content nothing the plain history holds is missing,
  but the stored log can hold more (`SparingRunsKeepContent`, `StoredLogCanHoldMore`); the logs agree after every call
  exactly when every call is in step (`AgreeThroughoutExactly`), and likewise for witnesses and distances
  (`WitnessedThroughoutExactly`, `ApartThroughoutExactly`).
* A second, different sighting of a listing in one run changes its state row and adds no observation, so the row that
  `active_records` joins is stale (`PlainRowIsFreshExactly`, `StoredRowIsFreshExactly`,
  `SecondSightingLeavesStaleRow`).
* A batch that holds a listing twice compares both copies with the old row (`DuplicateInBatchReportsTwice`), and a
  finish with a raised threshold can clear the disappeared flag without reporting it (`RaisedThresholdUnflags`);
  exactly these two keep the reported changes of a run from rebuilding its rows (`ChangesRebuildListingExactly`).
* A cached page with a stored_at of zero never expires (`StaleIsReturnedExactly`, `StaleIsReturnedInRunsExactly`).
* A signed request is granted once only if the replay window is at least twice the accepted clock skew
  (`AtMostOnceExactly`); the defaults are 120 and 90 seconds.
* A cancel in the half-open state gives a permit back whoever makes it.  So more than half_open_max_calls probes can
  run at once after the cancel of a caller admitted earlier (`ProbesExactly`, `TooManyProbesExactly`,
  `StrayCancelLetsTwoProbe`), and a half-open period can admit any number of calls one after another
  (`PeriodOverstepsExactly`, `CancelsMakeRoom`).

## Model

| member | source | states |
|---|---|---|
| `BatchNames.Pad8RoundTrip` | src/lowpower_llm_cluster/distributed_runtime.py:397 | The `08d` batch number reads back as the index, whatever its size: padding loses nothing. |
| `BatchNames.BatchIdInjective` | src/lowpower_llm_cluster/distributed_runtime.py:397 | Two batches of one task never share a batch id, so `INSERT OR IGNORE` can only drop a re-sent batch, not another one. |
| `BatchNames.LowDigitsOrder` | src/lowpower_llm_cluster/distributed_runtime.py:397 | Padded names of one width compare as text exactly as their numbers do. |
| `BatchNames.NamesSortAsNumbersExactly` | src/lowpower_llm_cluster/distributed_runtime.py:397 | The batch ids of a task sort in index order if and only if there are at most 10^8 of them. |
| `BatchNames.NineDigitsSortFirst` | src/lowpower_llm_cluster/distributed_runtime.py:397 | The counterexample beyond: batch 100000000 sorts before batch 99999999. |
| `BatchNames.TwelfthBatch` | src/lowpower_llm_cluster/distributed_runtime.py:397 | By example: batch 12 of task "c:s" is named "c:s:00000012". |
| `TaskStore.DistributedTaskStore.constructor` | src/lowpower_llm_cluster/distributed_runtime.py:37-44 | A new store has empty tables. |
| `TaskStore.DistributedTaskStore.SubmitCycle` | src/lowpower_llm_cluster/distributed_runtime.py:87-103 | The tables afterwards are those of `Submit`: the cycle row and one queued row per new task id, existing rows untouched; the ids returned are the digests of the keys, in order. |
| `TaskStore.DistributedTaskStore.LeaseTask` | src/lowpower_llm_cluster/distributed_runtime.py:105-137 | A non-positive lease is refused; otherwise expired leases return to the queue and the first queued task in (created_at, task_id) order, if any, is granted with one more attempt. |
| `TaskStore.DistributedTaskStore.RecordHeartbeat` | src/lowpower_llm_cluster/distributed_runtime.py:142-151 | Renews the lease if and only if the caller owns it and it has not run out; otherwise nothing changes. |
| `TaskStore.DistributedTaskStore.StoreBatch` | src/lowpower_llm_cluster/distributed_runtime.py:156-166 | Without a current lease the call is denied; with one the first batch under a name is stored and later ones are ignored. |
| `TaskStore.DistributedTaskStore.CompleteTask` | src/lowpower_llm_cluster/distributed_runtime.py:171-180 | Completes the task if and only if the caller holds an unexpired lease. |
| `TaskStore.DistributedTaskStore.RecordFailure` | src/lowpower_llm_cluster/distributed_runtime.py:185-195 | Requeues or fails the task if and only if the caller holds an unexpired lease; the error text is cut at 2000 characters. |
| `TaskStore.DistributedTaskStore.CycleStatusOf` | src/lowpower_llm_cluster/distributed_runtime.py:200-205 | Counts per state, total, terminal count and the `done` flag of a cycle. |
| `TaskStore.DistributedTaskStore.CycleResults` | src/lowpower_llm_cluster/distributed_runtime.py:210-221 | Returns every row of the left join once, sorted by (source, created_at, batch_id). |
| `TaskStore.NoneInState` | src/lowpower_llm_cluster/distributed_runtime.py:200-205 | A state count is zero exactly when no task of the cycle is in that state. |
| `TaskStore.DoneMeansSettled` | src/lowpower_llm_cluster/distributed_runtime.py:205 | `done` holds if and only if the cycle has tasks and all of them are completed or failed. |
| `TaskStore.NextExists` | src/lowpower_llm_cluster/distributed_runtime.py:120 | As long as a task is queued, a lease call has one to grant. |
| `TaskStore.NextIsUnique` | src/lowpower_llm_cluster/distributed_runtime.py:120 | The ORDER BY leaves no choice: the task to grant is unique. |
| `GrantOrder.GrantedExactly` | src/lowpower_llm_cluster/distributed_runtime.py:107-123 | A lease call grants something if and only if the lease time is positive and some task is queued or leased with an expiry in the past. |
| `GrantOrder.OldestIsGranted` | src/lowpower_llm_cluster/distributed_runtime.py:114-120 | The task granted is queued or leased with an expiry in the past, and of all such tasks it was created first, at equal times under the id that sorts first. |
| `GrantOrder.GrantIsTheRow` | src/lowpower_llm_cluster/distributed_runtime.py:124-134 | The grant quotes the row: key, cycle, source, payload, one more attempt, and the new expiry; the row shows owner, expiry, heartbeat, attempts and update time, and keeps its other columns. |
| `GrantOrder.OthersAfterLease` | src/lowpower_llm_cluster/distributed_runtime.py:114-118 | Every other row stays as it is, except that a lease that ran out goes back to the queue. |
| `GrantOrder.CreationTimeStays` | src/lowpower_llm_cluster/distributed_runtime.py:96-100 | In every run a task keeps the time of the call that created it. |
| `GrantOrder.FirstComeFirstGranted` | src/lowpower_llm_cluster/distributed_runtime.py:120 | Over whole runs: of two tasks for the taking, the one submitted earlier by the clock is never passed over for the other. |
| `RowHistory.RowShowsHistory` | src/lowpower_llm_cluster/distributed_runtime.py:124-195 | In every run heartbeat_at is the time of the last grant or renewal, updated_at the time of the last change, and error the first 2000 characters of the last accepted failure report. |
| `RowHistory.StoredExactly` | src/lowpower_llm_cluster/distributed_runtime.py:156-166 | In every run a batch name of a task is taken if and only if some accepted call stored a batch under it. |
| `RowHistory.FirstBatchIsKept` | src/lowpower_llm_cluster/distributed_runtime.py:164 | It keeps the payload and the time of the first such call. |
| `RowHistory.CycleKnownExactly` | src/lowpower_llm_cluster/distributed_runtime.py:90 | In every run a cycle is known if and only if it was submitted, and keeps the time of its first submission. |
| `CycleReports.StatusCounts` | src/lowpower_llm_cluster/distributed_runtime.py:200-205 | The total is the number of the cycle's tasks, the terminal count that of the completed and failed ones, and a state is listed with its exact count if and only if some task is in it. |
| `CycleReports.ResultRowsExactly` | src/lowpower_llm_cluster/distributed_runtime.py:210-221 | The results hold a row if and only if it quotes a task of the cycle (source, state, error text) and one of its stored batches, or nothing when the task has none. |
| `CycleReports.ResultRowsOrdered` | src/lowpower_llm_cluster/distributed_runtime.py:214 | The rows come by source, then by storing time, then by batch id; a task without batches comes first within its source. |
| `TaskIdentity.KeysCanMeetExactly` | src/lowpower_llm_cluster/distributed_runtime.py:94 | Two different cycles can produce the same task key if and only if one cycle id is the other followed by a colon and more. |
| `TaskIdentity.KeysAreInjective` | src/lowpower_llm_cluster/distributed_runtime.py:94 | Between colon-free cycle ids the joined key determines cycle and source name. |
| `TaskIdentity.SubmittedExactly` | src/lowpower_llm_cluster/distributed_runtime.py:92-101 | With an injective digest, a submitted source gets a task of its own cycle and name if and only if its id does not already stand for another cycle's source. |
| `TaskIdentity.SourceIsLost` | src/lowpower_llm_cluster/distributed_runtime.py:94-101 | The counterexample, for all names and digests: when a cycle id continues an earlier one after a colon and the earlier cycle has the matching source, the later source never gets a task. |
| `TaskIdentity.LostSourceExample` | src/lowpower_llm_cluster/distributed_runtime.py:94-101 | Concretely: after cycle "a" with source "b:c", cycle "a:b" with source "c" gets no task. |
| `TaskIdentity.AlwaysWellNamed` | src/lowpower_llm_cluster/distributed_runtime.py:87-103 | In every run with colon-free cycle ids each task id is the digest of that task's own cycle and name. |
| `TaskIdentity.EverySubmittedSourceHasItsTask` | src/lowpower_llm_cluster/distributed_runtime.py:87-103 | No source is lost: with colon-free cycle ids every source ever submitted has its own task, in its own cycle, from then on. |
| `TaskIdentity.KeepsItsTaskExactly` | src/lowpower_llm_cluster/distributed_runtime.py:87-103 | In every run, whatever the cycle ids: a source has its own task if and only if it was submitted and no source of another cycle with the same joined key was submitted before it. |
| `SubmittedWork.AddedRowExactly` | src/lowpower_llm_cluster/distributed_runtime.py:92-101 | A row a call adds carries the key, cycle, name and payload of the first source of its name in the call, queued and untouched, created now. |
| `SubmittedWork.TaskCarriesFirstSubmission` | src/lowpower_llm_cluster/distributed_runtime.py:92-101 | In every run a source's task carries the payload and the time of the first submission of the source, whatever is submitted later. |
| `SubmittedWork.NobodyElseHasTheKey` | src/lowpower_llm_cluster/distributed_runtime.py:94 | With colon-free cycle ids no other cycle ever submits the key of a source, so the row above applies to every submitted source. |
| `LeaseProtocol.EveryRunIsLegal` | src/lowpower_llm_cluster/distributed_runtime.py:110-195 | For every sequence of calls by anybody at any clock readings: the event log of each task obeys the lease protocol, and the row's state, owner, expiry and attempt count are functions of that log. |
| `LeaseProtocol.LeasedExactlyWhenOwned` | src/lowpower_llm_cluster/distributed_runtime.py:115-127 | In every reachable store: leased if and only if owner set, if and only if expiry set; attempts equals the number of grants. |
| `LeaseProtocol.AcceptedOnlyFromHolder` | src/lowpower_llm_cluster/distributed_runtime.py:145-195 | Every accepted heartbeat, batch, completion or failure comes from the worker of the latest grant, which was neither reclaimed nor handed back since, before its expiry. |
| `LeaseProtocol.GrantsAreSeparated` | src/lowpower_llm_cluster/distributed_runtime.py:115-127 | Between two grants of a task the earlier lease ended: it had run out by the coordinator's clock when reclaimed, or its own holder handed it back. |
| `LeaseProtocol.ClosedForGood` | src/lowpower_llm_cluster/distributed_runtime.py:171-195 | A completion or final failure is the last event of a task. |
| `LeaseProtocol.GrantsBalance` | src/lowpower_llm_cluster/distributed_runtime.py:115-127 | Every grant in a task's log is accounted for: it ran out and was reclaimed, was handed back, or is the one still held or the one that closed the task. |
| `LeaseProtocol.TerminalStep` | src/lowpower_llm_cluster/distributed_runtime.py:96-100 | One call of any kind, resubmission included, leaves a completed or failed task and its batches unchanged. |
| `LeaseProtocol.TerminalForGood` | src/lowpower_llm_cluster/distributed_runtime.py:156-195 | The same for every sequence of calls. |
| `LeaseProtocol.TasksPersist` | src/lowpower_llm_cluster/distributed_runtime.py:96-133 | Tasks are never removed, and their key, cycle, source, payload and creation time never change; only submitting creates one. |
| `LeaseProtocol.CycleGrowsBySubmit` | src/lowpower_llm_cluster/distributed_runtime.py:96-100 | The set of tasks of a cycle changes only by submitting a new source to it. |
| `LeaseProtocol.SettledForGood` | src/lowpower_llm_cluster/distributed_runtime.py:200-216 | A settled cycle stays done and keeps exactly its result rows under every sequence of calls, until a new source is submitted to it. |
| `WorkerSystem.StoreSeesCalls` | src/lowpower_llm_cluster/distributed_runtime.py:370-412 | The store inside a system of workers, crashes and re-sent messages goes through a run of the lease protocol, so all the results above apply. |
| `WorkerSystem.AcceptedBatchIsStored` | src/lowpower_llm_cluster/distributed_runtime.py:156-166 | Accepting batch i of a task whose first i batches are stored leaves its first i + 1 stored, also when it was there already. |
| `WorkerSystem.InvStep` | src/lowpower_llm_cluster/distributed_runtime.py:370-412 | Every action (grant, batch call, delivery of a possibly stale or repeated message, crash) keeps the system invariant. |
| `WorkerSystem.InvAlways` | src/lowpower_llm_cluster/distributed_runtime.py:370-412 | The invariant holds in every run of the system. |
| `WorkerSystem.ExactlyOnce` | src/lowpower_llm_cluster/distributed_runtime.py:391-403 | In every run with crashes, expiries, zombie workers and re-sent messages, the stored batches of a task are a prefix of what the executor yields, each once; of a completed task, all of it. |
| `DeliveryOrder.OrderAlways` | src/lowpower_llm_cluster/distributed_runtime.py:164 | With a clock that does not run backwards, the batches of a task carry creation times in index order, whichever attempts stored them. |
| `DeliveryOrder.RowsSortByIndex` | src/lowpower_llm_cluster/distributed_runtime.py:210-216 | Hence the ORDER BY puts the stored batches of a task in index order, up to 10^8 of them. |
| `DeliveryOrder.ExactlyOnceInOrder` | src/lowpower_llm_cluster/distributed_runtime.py:210-221 | End to end: a collector reads for each task exactly the executor's first n batches in order, and all of them once it is completed. |
| `SubmittedWork.SubmittedWorkIsDelivered` | src/lowpower_llm_cluster/distributed_runtime.py:87-221 | From the submitted text to the collected batches: in every run with a forward clock a collector reads for a submitted source the first n batches that its own payload yields, in order and each once, and all of them once the task is completed. |
| `SessionExclusion.AcceptedByName` | src/lowpower_llm_cluster/distributed_runtime.py:142-195 | Under way in any run, a request is accepted if and only if its session's worker name holds the lease of its task and the lease has not run out. |
| `SessionExclusion.SessionsExcludeExactly` | src/lowpower_llm_cluster/distributed_runtime.py:142-195 | In every run while a task is leased at most one session stems from the latest grant, and it alone can be heard if and only if no older session under the holder's name has a request for the task under way. |
| `RetryBound.EventCounts` | src/lowpower_llm_cluster/distributed_runtime.py:110-195 | What one call adds to a task's grants, reclaims and hand-backs. |
| `RetryBound.LedgerStep` | src/lowpower_llm_cluster/distributed_runtime.py:404-409 | Every action keeps the ledger: hand-backs are paid for by ended sessions of distinct attempt numbers below max_attempts, or by repeated deliveries. |
| `RetryBound.LedgerAlways` | src/lowpower_llm_cluster/distributed_runtime.py:404-409 | The ledger holds in every run. |
| `RetryBound.LeasesAreBounded` | src/lowpower_llm_cluster/distributed_runtime.py:404-409 | In every run, expired leases and zombie sessions included, a task is leased at most max(1, max_attempts) times, plus once per lease of it that ran out and once per repeated delivery of a report that asks for another try. |
| `RetryBound.LeasedAtMostMaxAttempts` | src/lowpower_llm_cluster/distributed_runtime.py:404-409 | Hence at most max(1, max_attempts) times if no lease of the task runs out and no failure report arrives twice. |
| `RetryExtremes.BoundIsReached` | src/lowpower_llm_cluster/distributed_runtime.py:404-409 | The bound is exact: for every max_attempts, every number r of expired leases and every number q of repeated reports (a maximum of at least two if q > 0) a run leases the task max(1, max_attempts) + r + q times. |
| `RetryExtremes.NoRetryNoRepeat` | src/lowpower_llm_cluster/distributed_runtime.py:406 | With a maximum below two no report asks for another try, so there q is zero in every run. |
| `RetryExtremes.StricterRuleIsBroken` | src/lowpower_llm_cluster/distributed_runtime.py:406 | The rule compares the session's own attempt: after an expired lease a hand-back can be accepted when max_attempts grants were made in all. |
| `RetryBound.CalmStep` | src/lowpower_llm_cluster/distributed_runtime.py:404-409 | While no lease of a task runs out, each action keeps at most one live session for it, and hand-backs come only while fewer than max_attempts grants were made in all. |
| `RetryBound.CalmAlways` | src/lowpower_llm_cluster/distributed_runtime.py:404-409 | The same over whole runs. |
| `CycleProgress.LookedAfterUnlessLetDown` | src/lowpower_llm_cluster/distributed_runtime.py:370-412 | In every run a leased task has the session of its latest grant at work, or that session's failure report under way, if and only if it was not let down since: no lost reply to the grant, no crash and no report turned down while it was leased. |
| `CycleProgress.InVainMeansTooLate` | src/lowpower_llm_cluster/distributed_runtime.py:185-195 | In every run the report of the session holding a lease is turned down only at or after the end of the lease. |
| `CycleProgress.CycleDoneExactly` | src/lowpower_llm_cluster/distributed_runtime.py:200-205 | In every run a cycle with tasks is done if and only if none of them is queued, looked after, or let down. |
| `CycleProgress.QuietCycleIsDone` | src/lowpower_llm_cluster/distributed_runtime.py:200-205 | Progress: a cycle with tasks is done as soon as it is quiet, that is none of its tasks is queued, none is leased and let down, and none has an open session or a failure report under way. |
| `CycleProgress.CompletedCycleIsQuiet` | src/lowpower_llm_cluster/distributed_runtime.py:391-403 | Quiet happens with completed tasks: for every executor there is a run in which a worker takes the task, sends all its batches, completes it and returns, and the cycle is then quiet. |
| `CycleProgress.EveryRunCanFinish` | src/lowpower_llm_cluster/distributed_runtime.py:110-137 | No run is stuck: whatever was lost, crashed or came too late, it can go on under any one worker, with the clock running forward, until every cycle with tasks is done. |
| `BoundedMap.ConservedStep` | src/lowpower_llm_cluster/runtime.py:115-153 | Every step of producer, workers or consumer keeps each index in exactly one place: unproduced, input queue, a worker, output queue or collected. |
| `BoundedMap.SentinelsStep` | src/lowpower_llm_cluster/runtime.py:121-131 | Every step keeps the balance of sentinels, stopping workers and finished count. |
| `BoundedMap.ItemsFirstStep` | src/lowpower_llm_cluster/runtime.py:115-123 | No item ever stands behind a sentinel in the input queue. |
| `BoundedMap.TruthfulStep` | src/lowpower_llm_cluster/runtime.py:127-137 | Values and exceptions in flight are those of the function on the right item, or of the iterator. |
| `BoundedMap.ExceptionsStep` | src/lowpower_llm_cluster/runtime.py:119-137 | An exception that was raised is still to be put, in the output queue, or has ended the call. |
| `BoundedMap.StepInv` | src/lowpower_llm_cluster/runtime.py:115-153 | All of these together are kept by every enabled step, for any number of workers and any capacity. |
| `BoundedMap.InvAlways` | src/lowpower_llm_cluster/runtime.py:106-160 | They hold under every schedule. |
| `BoundedMap.ReturnedMeansDrained` | src/lowpower_llm_cluster/runtime.py:145-153 | When the consumer counts the last sentinel, the iterator is exhausted, both queues are empty and all workers have stopped. |
| `BoundedMap.CollectedIsComplete` | src/lowpower_llm_cluster/runtime.py:145-153 | At a normal finish every index below the number of items was collected once, with the value of the function. |
| `BoundedMap.SortedCollectionIsMap` | src/lowpower_llm_cluster/runtime.py:163-168 | Sorting what was collected, in whatever order workers finished, gives the mapped list in input order. |
| `BoundedMap.NoNormalEndAfterRaise` | src/lowpower_llm_cluster/runtime.py:119-137 | If the iterator raises, or the function raises on some item, no schedule ends normally. |
| `BoundedMap.NormalEndMeansNoRaise` | src/lowpower_llm_cluster/runtime.py:148-153 | A normal end happens only if nothing raised. |
| `BoundedMap.NeverStuck` | src/lowpower_llm_cluster/runtime.py:115-153 | Deadlock freedom: in every non-final reachable state some step is enabled, for any capacity of at least 1. |
| `BoundedMap.MeasureFalls` | src/lowpower_llm_cluster/runtime.py:115-153 | Termination: every enabled step lowers a well-founded measure over unproduced items, queues, workers and sentinels. |
| `BoundedMap.InsertKeepsOrder` | src/lowpower_llm_cluster/runtime.py:167 | Insertion by index keeps the pairs sorted and is a permutation. |
| `BoundedMap.MapSyncBounded` | src/lowpower_llm_cluster/runtime.py:163-168 | The whole call under an arbitrary schedule: it ends; it refuses bad settings; a normal result is the map of the items in input order; a failure carries the cause of an actual raise. |
| `History.CatalogHistory.constructor` | src/lowpower_llm_cluster/history.py:95-108 | An empty history. |
| `History.CatalogHistory.BeginRefresh` | src/lowpower_llm_cluster/history.py:132-140 | A run under a new id is in progress. |
| `History.CatalogHistory.AbortRefresh` | src/lowpower_llm_cluster/history.py:145-151 | A run is aborted only if it is in progress; nothing else changes. |
| `History.CatalogHistory.RecordBatch` | src/lowpower_llm_cluster/history.py:158-226 | Tables and reported changes after the loops and upserts are those of `Record` and `BatchChanges`; every item is compared with the row from before the batch. |
| `History.CatalogHistory.SelectListings` | src/lowpower_llm_cluster/history.py:256-262 | The scan lists each row of the named sources once, in an order the database chooses. |
| `History.CatalogHistory.FinishRefresh` | src/lowpower_llm_cluster/history.py:236-287 | A threshold below 1 is refused; otherwise each missed listing of a named source is counted once and flagged at the threshold, and each new flag is reported once. |
| `History.CatalogHistory.RecordRefresh` | src/lowpower_llm_cluster/history.py:289-310 | The wrapper equals begin, one batch, finish with the identities seen, and reports both parts in order. |
| `History.FinishOne` | src/lowpower_llm_cluster/history.py:264-271 | One row of the scan advances the partly finished table. |
| `HistoryRuns.UpsertEffect` | src/lowpower_llm_cluster/history.py:213-221 | A batch leaves each listing it names as its last copy shows it, with the missing count at zero, and no other listing changed. |
| `HistoryRuns.RunStatusIsExact` | src/lowpower_llm_cluster/history.py:145-151 | From its begin on a run is finished if and only if some finish named it, else aborted if and only if some abort did: an abort never undoes a finish, a finish overrides an abort. |
| `HistoryRuns.DisappearanceIsExact` | src/lowpower_llm_cluster/history.py:264-271 | In every run of calls missing_runs is the number of finishes that named the listing's source and did not list it since it was last recorded, and the flag compares it with the latest such threshold. |
| `HistoryRuns.MissedSinceCounts` | src/lowpower_llm_cluster/history.py:264-271 | That number counts calls: the finishes after the last recording of the listing that named its source and did not list it. |
| `HistoryRuns.DisappearedExactlyAtThreshold` | src/lowpower_llm_cluster/history.py:264-271 | With a fixed threshold N: disappeared if and only if missed at least N times since last recorded; aborted runs and runs without the source never count. |
| `OneShotRefresh.RecordedExactly` | src/lowpower_llm_cluster/history.py:208-221 | Recording leaves each listing in the batch as its last copy shows it, column by column, seen and not missed, and every other listing alone. |
| `OneShotRefresh.FinishedExactly` | src/lowpower_llm_cluster/history.py:264-271 | A finish adds one missed run exactly to the listings of a named source whose id was not seen there, sets their flag by the threshold, and changes nothing else. |
| `OneShotRefresh.ReportedExactly` | src/lowpower_llm_cluster/history.py:264-271 | It reports a disappearance exactly for those that reach the threshold and had no flag. |
| `OneShotRefresh.RefreshExactly` | src/lowpower_llm_cluster/history.py:289-310 | After record_refresh every listing among the items is present as its last copy shows it; every other listing of a covered source (a named one, or by default one of an item) has one more missed run; all others are unchanged. |
| `OneShotRefresh.RefreshReportsExactly` | src/lowpower_llm_cluster/history.py:289-310 | It reports the disappearance exactly of those not among the items whose missed runs reach the threshold just now. |
| `OneShotRefresh.JustRecordedIsPresent` | src/lowpower_llm_cluster/history.py:289-310 | A listing recorded by a refresh into an empty history is present afterwards. |
| `ChangeReplay.ReplayItem` | src/lowpower_llm_cluster/history.py:189-204 | The changes reported for one observation, replayed on the old row, give the new row's price, currency, title, stock and flag, each change being true when it is applied. |
| `ChangeReplay.ReplayItemFrom` | src/lowpower_llm_cluster/history.py:189-204 | From any other view they either contradict it or patch exactly the fields that changed. |
| `ChangeReplay.ReplayBatchExactly` | src/lowpower_llm_cluster/history.py:169-204 | The changes of a batch lead from a listing's old row to its new one if and only if, of its copies in the batch, none but the last reports anything; so they always do when identities are distinct. |
| `ChangeReplay.ReplayFinish` | src/lowpower_llm_cluster/history.py:264-271 | The changes of a finish lead from old to new row if and only if it does not silently clear the flag, which happens when a listing counted as disappeared is missed again under a higher threshold. |
| `ChangeReplay.RightStep` | src/lowpower_llm_cluster/history.py:177-271 | From a right view a faithful call leads to the right view, an unfaithful one to a contradiction or a wrong view. |
| `ChangeReplay.WrongStep` | src/lowpower_llm_cluster/history.py:177-271 | A wrong view never becomes right again: it stays wrong or meets a change that contradicts it. |
| `ChangeReplay.ChangesRebuildListingExactly` | src/lowpower_llm_cluster/history.py:177-271 | Over every run, from any moment a listing is known, replaying the reported changes ends at its row if and only if every call was faithful to it; disappearances and reappearances then alternate. |
| `ChangeReplay.RegularRunsAreFaithful` | src/lowpower_llm_cluster/history.py:177-271 | With one threshold throughout and distinct identities per batch every call is faithful. |
| `ChangeReplay.ChangesRebuildFromFirstSighting` | src/lowpower_llm_cluster/history.py:177-271 | Hence in such runs the changes rebuild every row from its first sighting on. |
| `ChangeReplay.DuplicateInBatchReportsTwice` | src/lowpower_llm_cluster/history.py:169-204 | The counterexample: two copies of a returned listing in one batch report the reappearance twice. |
| `ChangeReplay.RaisedThresholdUnflags` | src/lowpower_llm_cluster/history.py:264-271 | The other counterexample: recorded once, missed under threshold 1 and missed again under threshold 5, a listing loses its flag, nothing is reported, and the replay ends at another view. |
| `HistoryRuns.BatchSizeDoesNotMatter` | src/lowpower_llm_cluster/history.py:158-226 | Any split of observations into batches gives the tables of one batch, and the same concatenated changes if no identity occurs in two batches, in particular if identities are distinct. |
| `HistoryRuns.RecordAgainChangesNothing` | src/lowpower_llm_cluster/history.py:208-221 | Recording a batch again in the same run changes no table, for every batch. |
| `HistoryRuns.RecordAgainReportsNothing` | src/lowpower_llm_cluster/history.py:189-204 | It reports nothing if and only if copies of a listing inside the batch agree on the four compared fields. |
| `Compaction.CompactingCatalogHistory.constructor` | src/lowpower_llm_cluster/history_compaction.py:42-45 | The heartbeat interval is at least 60 seconds and the counter starts at zero. |
| `Compaction.CompactingCatalogHistory.LatestRows` | src/lowpower_llm_cluster/history_compaction.py:51-58 | The first loop collects the newest stored row of every item from before the batch. |
| `Compaction.CompactingCatalogHistory.ListRemovable` | src/lowpower_llm_cluster/history_compaction.py:62-78 | The second loop lists exactly the unchanged repeats inside the heartbeat interval. |
| `Compaction.CompactingCatalogHistory.RecordBatch` | src/lowpower_llm_cluster/history_compaction.py:47-86 | Tables, changes and counter after the subclass method are those of `CompactRecord`. |
| `Compaction.CompactionKeepsState` | src/lowpower_llm_cluster/history_compaction.py:47-86 | For every sequence of calls the listings, the runs and the reported changes are those of the plain history. |
| `Compaction.CompactLogIsKept` | src/lowpower_llm_cluster/history_compaction.py:63-82 | With each identity once per run, the compact log is the plain one with every quiet repeat inside the interval left out, listing by listing. |
| `Compaction.KeptSaysTheSame` | src/lowpower_llm_cluster/history_compaction.py:72-78 | The rule alone: what is kept and what was seen have the same payloads up to consecutive repeats. |
| `Compaction.RepeatsExactly` | src/lowpower_llm_cluster/history_compaction.py:67-78 | Column by column: an observation repeats the latest row exactly when the two are equal but for the time, both times are known, and it comes sooner than the interval. |
| `Compaction.SameButForTime` | src/lowpower_llm_cluster/history_compaction.py:23-26 | Payloads are equal exactly when every field but the time agrees, the ones that are stored and not compared included. |
| `Compaction.CompactionLosesNoContent` | src/lowpower_llm_cluster/history_compaction.py:47-86 | Stored and plain payload sequences of a listing are equal once consecutive repeats are removed from both. |
| `Compaction.StoredSpeaksForAll` | src/lowpower_llm_cluster/history_compaction.py:47-86 | With each identity once per run, every sighting has a stored row that equals it in every field but the time, and every stored row is a sighting as it was made. |
| `CompactContent.StoredIsDeduplicatedExactly` | src/lowpower_llm_cluster/history_compaction.py:63-82 | With each identity once per run, the stored payloads are the plain ones without consecutive repeats if and only if every sighting that repeats the payload before it was reported without a change and came within the heartbeat interval of the first sighting of its block. |
| `CompactContent.HeartbeatIsStoredTwice` | src/lowpower_llm_cluster/history_compaction.py:77-78 | The counterexample: one sighting repeated exactly one interval later is stored twice. |
| `Compaction.EverySightingHasAWitness` | src/lowpower_llm_cluster/history_compaction.py:67-78 | With known, nondecreasing times every sighting has a stored row that equals it in every field but the time, not younger and less than the interval older. |
| `Compaction.StoredRowsAreSpreadOut` | src/lowpower_llm_cluster/history_compaction.py:63-78 | Neighbouring stored rows with one payload are at least the interval apart unless the later one reported a reappearance. |
| `Compaction.LatestRowMatchesListing` | src/lowpower_llm_cluster/active_records.py:18-26 | With each identity once per run, the newest stored row of every listing carries the url, title, price, currency and stock of its state row, as the join needs. |
| `CompactBatching.CompactRecordConcat` | src/lowpower_llm_cluster/history_compaction.py:47-86 | Two batches without a common identity leave what one batch would, stored rows included. |
| `CompactBatching.CompactBatchSizeDoesNotMatter` | src/lowpower_llm_cluster/history_compaction.py:47-86 | Any batching without an identity in two batches gives the same tables and the same number of compacted rows as one batch. |
| `CompactContent.RemovableMeans` | src/lowpower_llm_cluster/history_compaction.py:63-78 | A batch makes a listing removable if and only if no copy of it in the batch reports a change and some copy repeats the latest stored row inside the interval. |
| `CompactContent.RowsAfterBatch` | src/lowpower_llm_cluster/history_compaction.py:60-86 | The exact rows of a listing after any batch: plain, its first copy is appended if the run does not hold it; compacting, a removable listing keeps only its rows of other runs. |
| `CompactContent.OlderRowsSurviveExactly` | src/lowpower_llm_cluster/history_compaction.py:79-83 | Any batch keeps a listing's older rows if and only if the listing is not removable or the run does not hold it yet. |
| `CompactContent.ContentKeptExactly` | src/lowpower_llm_cluster/history_compaction.py:47-86 | One batch, in any run, on any tables under the UNIQUE constraint: compaction stores the same content of a listing as the plain method would on these tables if and only if the listing is not removable, or the row that goes (the run's older one, else the batch's first copy) equals a neighbour. |
| `CompactContent.UniqueAlways` | src/lowpower_llm_cluster/history.py:208-212 | Every run of the compacting history keeps the UNIQUE constraint. |
| `CompactContent.SecondSightingInRunErasesFirst` | src/lowpower_llm_cluster/history_compaction.py:79-83 | The counterexample across batches: the same sighting twice in one run leaves no stored row. |
| `CompactContent.DuplicateInBatchErasesFirst` | src/lowpower_llm_cluster/history_compaction.py:60-83 | The counterexample inside one batch of a fresh run: of two copies the first, different in a field that is stored but not compared, loses its row because the second repeats the latest one. |
| `CompactRuns.StoredRunsAreRecorded` | src/lowpower_llm_cluster/history_compaction.py:47-86 | In every run, each row of the compact log has a row of the same run and listing in the plain log. |
| `CompactRuns.SparingRunsKeepContent` | src/lowpower_llm_cluster/history_compaction.py:47-86 | Over whole runs, however often a run records a listing: if every call leaves the listing unremovable or its removable rows dispensable, the plain payloads without repeats are a subsequence of the stored ones without repeats. |
| `CompactRuns.StepAgreesExactly` | src/lowpower_llm_cluster/history_compaction.py:47-86 | One more call, from stored and plain logs of a listing that agree up to repeats: they agree again if and only if the call is in step, a condition on the tables before it. |
| `CompactRuns.AgreeThroughoutExactly` | src/lowpower_llm_cluster/history_compaction.py:47-86 | Over whole runs, however often a run records a listing: the two logs agree after every call if and only if every call is in step. |
| `CompactRuns.StoredLogCanHoldMore` | src/lowpower_llm_cluster/history_compaction.py:79-83 | No more than a subsequence in general: a dropped repeat frees its run's slot, so a later, different sighting of the run is stored by the compacting history and ignored by the plain one. |
| `CompactRuns.LogsCanMeetAgain` | src/lowpower_llm_cluster/history_compaction.py:79-83 | Logs that disagree can agree again later, so agreement is a matter of every call and not of the last one. |
| `CompactSpacing.WitnessedThroughoutExactly` | src/lowpower_llm_cluster/history_compaction.py:67-78 | Over whole runs, however often a run records a listing: every plain row has a stored witness (same payload, not younger, less than the interval older) after every call if and only if each call stores the row it appends with a known time, or finds a witness when it drops it, and deletes no row that is the only witness of another. |
| `CompactSpacing.ApartThroughoutExactly` | src/lowpower_llm_cluster/history_compaction.py:63-83 | Over whole runs, however often a run records a listing: neighbouring stored rows with one payload are the interval apart after every call if and only if each call stores nothing closer to the latest row and deletes only rows whose neighbours are apart. |
| `CompactSpacing.CloseCopyReportsChange` | src/lowpower_llm_cluster/history_compaction.py:63-78 | A single copy stored closer than that to a row with its payload has reported a change. |
| `LatestRows.PlainRowIsFreshExactly` | src/lowpower_llm_cluster/active_records.py:18-26 | In every run of the plain history the newest row of a listing shows its state row if and only if, at the call that recorded it last, the run's older row, or else the batch's first copy, agreed with the batch's last copy. |
| `LatestRows.StoredRowIsFreshExactly` | src/lowpower_llm_cluster/active_records.py:18-26 | The same for the compacting history, where a removable listing loses the run's rows and the row then newest has to agree. |
| `LatestRows.EveryListingWasRecorded` | src/lowpower_llm_cluster/history.py:213-221 | A listing is known if and only if some call of the run was the last to record it, so the two rows above speak about every listing. |
| `LatestRows.SecondSightingLeavesStaleRow` | src/lowpower_llm_cluster/history.py:208-221 | The counterexample: a second sighting in one run at another price updates the state row and leaves the newest stored row stale, with and without compaction. |
| `ReplayWindow.ReplayWindow.constructor` | src/lowpower_llm_cluster/distributed_security.py:92-96 | Age limit at least one second, size limit at least 100, nothing remembered. |
| `ReplayWindow.ReplayWindow.AcceptNonce` | src/lowpower_llm_cluster/distributed_security.py:98-114 | The two eviction loops and the insertion do what `Accept` says to dict and deque, and return its answer. |
| `ReplayWindow.AgreeMeans` | src/lowpower_llm_cluster/distributed_security.py:95-96 | When dict and deque agree they have the same size and the same keys. |
| `ReplayWindow.AcceptRefinesList` | src/lowpower_llm_cluster/distributed_security.py:98-114 | At any clock readings a call keeps dict and deque in agreement, and answers and evicts exactly as one list would that drops old entries and keeps the newest max_entries. |
| `ReplayWindow.WindowAlways` | src/lowpower_llm_cluster/distributed_security.py:98-114 | With a forward clock the deque is exactly the suffix of the acceptance log that is young and recent enough. |
| `ReplayWindow.WindowIsBounded` | src/lowpower_llm_cluster/distributed_security.py:98-114 | In every run, at any clock readings: dict and deque agree, have equal size, and hold at most max_entries. |
| `ReplayWindow.AcceptedExactlyWhenForgotten` | src/lowpower_llm_cluster/distributed_security.py:98-114 | A request is accepted if and only if every earlier acceptance of its (worker, nonce) is more than max_age_s old or followed by at least max_entries others. |
| `WorkerAuth.VerifyWorkerRequest` | src/lowpower_llm_cluster/distributed_security.py:117-147 | The checks in order, each with its own error; the window is touched only when all of them pass. |
| `WorkerAuth.VisitsAreCalls` | src/lowpower_llm_cluster/distributed_security.py:133-147 | Over a run of requests the window sees exactly those that pass the checks, and grants are its acceptances. |
| `WorkerAuth.AnswerExactly` | src/lowpower_llm_cluster/distributed_security.py:133-147 | Every answer names the first thing wrong with the request; a grant hands out the worker's own secret, for a request signed with it, in time, whose nonce the window did not hold. |
| `WorkerAuth.GrantsOfOneNonce` | src/lowpower_llm_cluster/distributed_security.py:145-147 | Two grants of one (worker, nonce) are more than max_age_s apart or have at least max_entries grants between them. |
| `WorkerAuth.AtMostOnceExactly` | src/lowpower_llm_cluster/distributed_security.py:139-146 | A signed request with a numeric timestamp is granted at most once short of overflow if and only if max_age_s is at least twice max_clock_skew_s; an infinite one never, one that reads as not-a-number without such a bound. |
| `HttpCache.DiscoveryCache.constructor` | src/lowpower_llm_cluster/http_runtime.py:79-89 | A cache over the loaded entries with zero counters; at least one observation per entry is allowed. |
| `HttpCache.DiscoveryCache.LookUp` | src/lowpower_llm_cluster/http_runtime.py:114-127 | Drops and counts an expired page, touches and returns an unexpired one, as `Fresh` says. |
| `HttpCache.DiscoveryCache.Validators` | src/lowpower_llm_cluster/http_runtime.py:129-138 | Exactly the two conditional headers whose values an unexpired page with observations has; none otherwise. |
| `HttpCache.DiscoveryCache.Observations` | src/lowpower_llm_cluster/http_runtime.py:140-142 | The observations of an unexpired page. |
| `HttpCache.DiscoveryCache.CountHit` | src/lowpower_llm_cluster/http_runtime.py:144-147 | Counts the hit and the bytes of the page if it is still there. |
| `HttpCache.DiscoveryCache.PruneEntries` | src/lowpower_llm_cluster/http_runtime.py:149-166 | The deletions and counters of `Prune`, and the number removed. |
| `HttpCache.DiscoveryCache.StorePage` | src/lowpower_llm_cluster/http_runtime.py:177-188 | The page is put under its key, without observations if there are too many, and an overfull cache is pruned. |
| `HttpCache.SortOrders` | src/lowpower_llm_cluster/http_runtime.py:158 | The eviction sort orders by recency and is a permutation. |
| `HttpCache.StableRank` | src/lowpower_llm_cluster/http_runtime.py:158 | Stability: behind a slot in eviction order go exactly the more recent slots and the equally recent ones later in the dict. |
| `CacheRuns.LookUpExactly` | src/lowpower_llm_cluster/http_runtime.py:114-127 | A lookup answers if and only if the key is there unexpired, changes only its last access, and touches no other key. |
| `CacheAnswers.FreshExactly` | src/lowpower_llm_cluster/http_runtime.py:114-127 | A lookup returns the page if and only if it is there and has no stamp or is no older than the time to live; a page it does not return is gone and counted as expired. |
| `CacheAnswers.FoundExactly` | src/lowpower_llm_cluster/http_runtime.py:114-127 | In every run from open on, a lookup no earlier than the readings before it finds the page if and only if the key was stored or loaded, last without a stamp or at most the time to live ago, and was not pushed out since. |
| `CacheAnswers.FoundSaysWhatWasStored` | src/lowpower_llm_cluster/http_runtime.py:177-186 | In every run a found page has the etag, modification date, size, time and observations (none if too many) given to the last store under its key. |
| `CacheAnswers.OpenPruneExactly` | src/lowpower_llm_cluster/http_runtime.py:149-155 | In an open cache a prune keeps exactly the pages without a stamp and those no older than the time to live. |
| `CacheAnswers.PruneCountsApart` | src/lowpower_llm_cluster/http_runtime.py:149-165 | A prune counts the pages that are too old as expired and those left beyond the limit as evicted. |
| `CacheAnswers.HitsAreCounted` | src/lowpower_llm_cluster/http_runtime.py:144-147 | In every run the counters count the hits noted and the bytes of the pages they found. |
| `CacheRuns.StaleIsReturnedExactly` | src/lowpower_llm_cluster/http_runtime.py:119 | A page older than the time to live is returned if and only if its stored_at is zero and the clock is beyond the time to live. |
| `CacheRuns.NothingStaleIsReturned` | src/lowpower_llm_cluster/http_runtime.py:114-127 | With no zero stamp in the file and a clock that never reads zero, no lookup in any run returns a page older than the time to live. |
| `StalePages.HeldExactly` | src/lowpower_llm_cluster/http_runtime.py:149-191 | In every run from open on, a page with a stamp of zero is there if and only if no full cache of unexpired, later-used pages pushed it out at open or at a store since it was stored or loaded. |
| `StalePages.HeldWhileKept` | src/lowpower_llm_cluster/http_runtime.py:149-191 | The same for every page that was not expired at any call so far. |
| `StalePages.StaleIsReturnedInRunsExactly` | src/lowpower_llm_cluster/http_runtime.py:114-166 | In every run from open on, a lookup returns a page older than the time to live if and only if the clock is past the time to live, the key was last stored or loaded with a stamp of zero, and it was not pushed out since. |
| `StalePages.ZeroClockPageIsReturned` | src/lowpower_llm_cluster/http_runtime.py:177-191 | Such runs exist: a page stored at clock zero in an empty cache is returned at any time past the time to live. |
| `CacheRuns.PruneCounts` | src/lowpower_llm_cluster/http_runtime.py:149-166 | After a prune the cache holds all unexpired entries if they fit and is exactly full otherwise; every entry removed is counted once as expired or evicted. |
| `CacheRuns.PruneKeepsTheMostRecent` | src/lowpower_llm_cluster/http_runtime.py:152-161 | What stays is unexpired, and nothing unexpired that went was more recent than anything that stayed. |
| `CacheRuns.PruneKeepsExactly` | src/lowpower_llm_cluster/http_runtime.py:152-161 | A prune keeps exactly the unexpired slots with fewer than max_entries unexpired slots behind them in eviction order. |
| `CacheRuns.StoredIsKeptExactly` | src/lowpower_llm_cluster/http_runtime.py:177-188 | Whatever the cache held, a store keeps its own page if and only if fewer than max_entries unexpired slots go behind it in eviction order. |
| `CacheRuns.StoredWithinTheLimit` | src/lowpower_llm_cluster/http_runtime.py:177-188 | In a cache within its limit, as from `open` on, that fails in exactly one case: it was full of unexpired pages under other keys, all used later than now. |
| `CacheRuns.StoreIsReadable` | src/lowpower_llm_cluster/http_runtime.py:177-188 | In every run with a forward clock a store never evicts what it just stored. |
| `CacheRuns.BoundedAndConserved` | src/lowpower_llm_cluster/http_runtime.py:92-112 | From `open` on, in every run: at most max_entries entries, and loaded entries plus stores under new keys equal live plus expired plus evicted. |
| `CacheRuns.FoundIsLastSaved` | src/lowpower_llm_cluster/http_runtime.py:114-188 | Whatever a lookup finds is what was last stored under that key, or what the file held. |
| `CacheRuns.RecencyIsLastUse` | src/lowpower_llm_cluster/http_runtime.py:124-158 | In every run a page's recency is the time of its last store or lookup; a lookup at clock zero leaves no last access and counts as the time the page was stored. |
| `CacheRuns.StoreEvictsLeastRecentlyUsed` | src/lowpower_llm_cluster/http_runtime.py:177-188 | In every run from open on, an unexpired page that a store evicts was last used, in that sense, no later than any page that stays. |
| `CacheRuns.OpenEvictsLeastRecentlyUsed` | src/lowpower_llm_cluster/http_runtime.py:104-111 | The same for the prune inside open: an unexpired page it evicts was used no later than any page that stays. |
| `CacheRuns.PruneOnlyExpires` | src/lowpower_llm_cluster/http_runtime.py:149-161 | From open on a prune by itself evicts nothing: it drops exactly the expired pages, because the cache is within its limit. |
| `CacheRuns.SecondPageEvictsFirst` | src/lowpower_llm_cluster/http_runtime.py:187-188 | Such evictions happen: with room for one page, the second store evicts the first page while it is unexpired. |
| `ConcurrencyLimit.AdaptiveConcurrency.constructor` | src/lowpower_llm_cluster/http_runtime.py:200-212 | Starts at the initial value clamped to the bounds; no initial value, or zero, means the maximum. |
| `ConcurrencyLimit.AdaptiveConcurrency.EnterSlot` | src/lowpower_llm_cluster/http_runtime.py:216-218 | Enters only below the limit and counts one more in flight. |
| `ConcurrencyLimit.AdaptiveConcurrency.LeaveSlot` | src/lowpower_llm_cluster/http_runtime.py:221-224 | The exit that pairs with an entry: with at least one slot held, counts one less in flight. |
| `ConcurrencyLimit.AdaptiveConcurrency.Observe` | src/lowpower_llm_cluster/http_runtime.py:226-247 | Limit, streak, average and counters after a sample are those of `Measure`. |
| `ConcurrencyLimit.SlotsStayWithinTheLimit` | src/lowpower_llm_cluster/http_runtime.py:214-247 | In every run the limit stays in its bounds, in-flight is entries minus exits, and it never exceeds the largest limit in force so far, hence never the maximum. |
| `ConcurrencyLimit.ExcessOnlyDrains` | src/lowpower_llm_cluster/http_runtime.py:217 | While in-flight is at or above the limit no slot is granted, so it can only fall. |
| `ConcurrencyLimit.MovesAreCounted` | src/lowpower_llm_cluster/http_runtime.py:236-246 | In every run the two counters count the rises and the falls of the limit. |
| `ConcurrencyLimit.InitiallyMeans` | src/lowpower_llm_cluster/http_runtime.py:207 | No initial value, or zero, starts at the maximum; any other as near to it as the bounds allow. |
| `ConcurrencyLimit.LimitMovesExactly` | src/lowpower_llm_cluster/http_runtime.py:232-247 | The limit falls exactly on a failed or rate-limited sample above the minimum, and rises by one exactly when a good sample completes a window, there is room and the smoothed latency is on target. |
| `ConcurrencyLimit.StreakExactly` | src/lowpower_llm_cluster/http_runtime.py:233-247 | The streak counts the good samples since the last bad one or the last rise. |
| `ConcurrencyLimit.BadSamplesAreCounted` | src/lowpower_llm_cluster/http_runtime.py:234-235 | In every run the counters count the rate-limited samples and the other failed ones. |
| `ConcurrencyLimit.SmoothingExactly` | src/lowpower_llm_cluster/http_runtime.py:230-231 | Under n samples of one latency the smoothed latency's distance to it shrinks to 0.8^n of what it was; the first sample sets it. |
| `ConcurrencyLimit.FailuresHalve` | src/lowpower_llm_cluster/http_runtime.py:232-240 | k bad samples in a row make the limit exactly max(minimum, current div 2^k). |
| `ConcurrencyLimit.SuccessesRaise` | src/lowpower_llm_cluster/http_runtime.py:242-247 | With the average on target, good samples in a row raise the limit by exactly one per whole window, up to the maximum. |
| `CircuitBreaker.CircuitBreaker.constructor` | src/lowpower_llm_cluster/resilience_runtime.py:25-44 | A closed breaker with zero counters. |
| `CircuitBreaker.CircuitBreaker.AcquireCall` | src/lowpower_llm_cluster/resilience_runtime.py:46-63 | Admission, rejection and the step to half-open are those of `Acquire`. |
| `CircuitBreaker.CircuitBreaker.RecordSuccess` | src/lowpower_llm_cluster/resilience_runtime.py:65-75 | The state after a success is that of `Success`. |
| `CircuitBreaker.CircuitBreaker.RecordFailure` | src/lowpower_llm_cluster/resilience_runtime.py:77-91 | The state after a failure is that of `Failure`. |
| `CircuitBreaker.CircuitBreaker.CancelCall` | src/lowpower_llm_cluster/resilience_runtime.py:93-99 | A cancel gives back a half-open permit and nothing else. |
| `CircuitBreaker.InvAlways` | src/lowpower_llm_cluster/resilience_runtime.py:46-99 | In every run, late outcomes included: closed if and only if failures are below the threshold, if and only if opened_at is unset; permits stay within the maximum; recoveries plus one if not closed never exceed opens. |
| `CircuitBreaker.ClosedExactly` | src/lowpower_llm_cluster/resilience_runtime.py:65-91 | The breaker is closed if and only if fewer failures than the threshold were reported since the last success. |
| `CircuitBreaker.OpeningsBalance` | src/lowpower_llm_cluster/resilience_runtime.py:65-91 | Every opening is accounted for: recovered by a probe, closed by a late success, reopened, or still in force. |
| `CircuitBreaker.CountersAreExact` | src/lowpower_llm_cluster/resilience_runtime.py:53-69 | In every run rejects counts the calls not admitted and successes the successes reported. |
| `BreakerAdmission.PhaseExactly` | src/lowpower_llm_cluster/resilience_runtime.py:46-91 | In every run, outside closed: half-open if and only if a call was let through since the last failure, whose time opened_at is. |
| `BreakerAdmission.AdmittedExactly` | src/lowpower_llm_cluster/resilience_runtime.py:46-63 | In every run a call is let through if and only if fewer failures than the threshold came since the last success; or else no call was let through since the last failure, at least a recovery timeout ago; or else a half-open permit is left. |
| `BreakerAdmission.DisabledIsTransparent` | src/lowpower_llm_cluster/resilience_runtime.py:47-48 | A disabled breaker lets every call through and never changes. |
| `BreakerAdmission.SuccessCloses` | src/lowpower_llm_cluster/resilience_runtime.py:65-75 | A success closes the breaker from any state with a clean slate, and counts itself and a recovery. |
| `BreakerAdmission.CancelGivesBack` | src/lowpower_llm_cluster/resilience_runtime.py:93-99 | A cancel gives back one permit of a half-open breaker that has one out, and changes nothing else. |
| `BreakerAdmission.FailureCountExactly` | src/lowpower_llm_cluster/resilience_runtime.py:77-91 | In every run the failure counter is the number of failures since the last success, those of half-open probes left out. |
| `CircuitBreaker.NoAdmissionBeforeTimeout` | src/lowpower_llm_cluster/resilience_runtime.py:50-56 | After a failure that opens the breaker no call is admitted before the recovery timeout, unless a success is reported first. |
| `CircuitBreaker.ProbesExactly` | src/lowpower_llm_cluster/resilience_runtime.py:59-63 | In every run a half-open breaker has exactly as many probes running as permits out, plus one for each permit given back by the cancel of a caller admitted before the half-open period; callers are new to the period. |
| `CircuitBreaker.TooManyProbesExactly` | src/lowpower_llm_cluster/resilience_runtime.py:59-63 | A call makes more than half_open_max_calls probes run if and only if a permit is free although permits out and such stray cancels together reach the maximum. |
| `CircuitBreaker.StrayCancelLetsTwoProbe` | src/lowpower_llm_cluster/resilience_runtime.py:93-99 | The counterexample: with half_open_max_calls 1, a cancel by a caller admitted while the breaker was closed lets two probes run at once. |
| `CircuitBreaker.ProbesAreFew` | src/lowpower_llm_cluster/resilience_runtime.py:59-63 | Whoever the callers are, at most half_open_max_calls probes run, plus one for each such stray cancel. |
| `CircuitBreaker.PermitsAreConserved` | src/lowpower_llm_cluster/resilience_runtime.py:57-63 | Over a half-open period admissions equal the permits in flight plus the permits handed back by cancels. |
| `CircuitBreaker.PeriodAdmitsFew` | src/lowpower_llm_cluster/resilience_runtime.py:57-63 | So a period admits at most half_open_max_calls plus one per permit handed back. |
| `CircuitBreaker.PeriodOverstepsExactly` | src/lowpower_llm_cluster/resilience_runtime.py:57-63 | A half-open period admits more than half_open_max_calls calls if and only if some call in it finds a free permit although permits out and permits handed back so far reach the maximum. |
| `CircuitBreaker.CancelsMakeRoom` | src/lowpower_llm_cluster/resilience_runtime.py:93-99 | And no fixed bound holds with cancels: for every n some period admits n calls before any outcome. |
| `BatchSizer.AdaptiveBatchSizer.constructor` | src/lowpower_llm_cluster/resilience_runtime.py:140-147 | Starts at the initial size. |
| `BatchSizer.AdaptiveBatchSizer.Observe` | src/lowpower_llm_cluster/resilience_runtime.py:149-171 | Size, streak, average and counters after a sample are those of `Measure`; the size is returned. |
| `BatchSizer.InvAlways` | src/lowpower_llm_cluster/resilience_runtime.py:149-171 | The size stays in its bounds in every run, and a full streak waits only at the maximum. |
| `BatchSizer.MovesAreCounted` | src/lowpower_llm_cluster/resilience_runtime.py:156-170 | In every run the two counters count the rises and the falls of the size. |
| `BatchSizer.CutExactly` | src/lowpower_llm_cluster/resilience_runtime.py:156-163 | The size falls exactly when memory reaches the soft limit or the latency exceeds one and a half targets, above the minimum. |
| `BatchSizer.RiseExactly` | src/lowpower_llm_cluster/resilience_runtime.py:164-171 | It rises exactly when a sample on target with a fifth of the memory to spare completes a window and there is room. |
| `BatchSizer.RiseAmount` | src/lowpower_llm_cluster/resilience_runtime.py:167-168 | A rise goes to the least larger size that is a quarter more, cut at the maximum. |
| `BatchSizer.HealthyStreakExactly` | src/lowpower_llm_cluster/resilience_runtime.py:164-169 | The streak counts the healthy samples since the last other one or the last rise. |
| `BatchSizer.SmoothingExactly` | src/lowpower_llm_cluster/resilience_runtime.py:154-155 | Under n samples of one latency the smoothed latency's distance to it shrinks to 0.75^n of what it was. |
| `BatchSizer.PressureHalves` | src/lowpower_llm_cluster/resilience_runtime.py:156-163 | k pressured samples in a row make the size exactly max(minimum, current div 2^k). |
| `BatchSizer.HealthGrows` | src/lowpower_llm_cluster/resilience_runtime.py:164-171 | Healthy samples in a row make exactly one growth step per whole window. |
| `BatchSizer.WindowsOfHealth` | src/lowpower_llm_cluster/resilience_runtime.py:164-171 | j windows of healthy samples in a row multiply the size by at least (5/4)^j, up to the maximum. |
| `BatchSizer.HealthyIsNotPressured` | src/lowpower_llm_cluster/resilience_runtime.py:156-164 | No sample is both healthy and pressured. |
| `Ndjson.SegmentsExactly` | src/lowpower_llm_cluster/secure_client.py:111-113 | The segments are the only newline-free pieces that, joined by newlines, give the stream. |
| `Ndjson.ReadLines` | src/lowpower_llm_cluster/secure_client.py:108-119 | For every chunking the lines decoded are the non-empty segments of the whole stream, in order, the unterminated last one included. |
| `Ndjson.CutStream` | src/lowpower_llm_cluster/secure_client.py:117-119 | A stream cut inside a record yields the complete records and then the fragment. |
| `Ndjson.RoundTripExactly` | src/lowpower_llm_cluster/secure_client.py:108-119 | Newline-terminated records come back as sent if and only if none is empty and none contains a newline. |
| `Pareto.ParetoFrontier` | src/lowpower_llm_cluster/operational_metrics.py:203-213 | The candidate loop and the selection compute `Frontier`. |
| `Pareto.AnyDominates` | src/lowpower_llm_cluster/operational_metrics.py:213 | The inner scan finds a dominating candidate if and only if there is one. |
| `Pareto.DominanceIsAnOrder` | src/lowpower_llm_cluster/operational_metrics.py:213 | Dominance is irreflexive (so excluding the row itself changes nothing) and transitive. |
| `Pareto.FrontierIsOneFilter` | src/lowpower_llm_cluster/operational_metrics.py:203-213 | Sound, in input order and with repetitions: the result is the input filtered by being eligible, having both measures, and not being dominated by any other such row. |
| `Pareto.ReturnedExactly` | src/lowpower_llm_cluster/operational_metrics.py:203-213 | In numbers: a row is returned if and only if it is eligible, has both measures, and no such row is at most as slow and as hungry and better in one of the two. |
| `Pareto.FastestIsReturned` | src/lowpower_llm_cluster/operational_metrics.py:203-213 | In particular the fastest row is returned, the more frugal one among equally fast ones. |
| `Pareto.ClimbToFrontier` | src/lowpower_llm_cluster/operational_metrics.py:213 | From every dominated row a chain of dominating rows ends at an undominated one. |
| `Pareto.FrontierCovers` | src/lowpower_llm_cluster/operational_metrics.py:203-213 | Complete: every eligible row with both measures that is left out is dominated by a returned row. |
| `Pareto.FrontierIsIdempotent` | src/lowpower_llm_cluster/operational_metrics.py:203-213 | Applied to its own output it changes nothing. |

## Left out

- The secure v2 store with epochs, leaders, cancel and drain: its store and server modules are not part of this model.
- HTTP servers and clients, TLS, SQLite itself, file writing (`flush`, atomic replacement) and command-line modules: plumbing.
- JSON encoding and decoding: a stored payload is the value itself, and equality of payloads is equality of values; parsing of each NDJSON line is not modelled.
- `DistributedWorker.run_one` is not one method but the session transitions of `WorkerSystem`, because other workers act at each of its awaits; its heartbeat task is an action of a session, and a failed heartbeat is a session that stops.
- `map_sync_bounded_iter`: the producer, worker and consumer coroutines are steps of one transition system, not separate methods; cancelling tasks after the consumer has ended, and a caller that abandons the iterator early, are left out.
- Time limits and cancellation of asyncio calls, and the executor shutting down while calls are pending.
- The order in which SQLite returns rows without ORDER BY is arbitrary: `SelectListings` allows every order.
- `BeginRefresh` takes the run id as a parameter and requires it to be new; the source draws a random one.
- Started, completed and updated timestamps of runs carry no property.
- `sorted` and `list.sort` are modelled by insertion sorts with the same result (stable, ascending).
- The stream of chunks may end anywhere; an error raised by the transport in the middle of a stream is left out.
- `metrics` methods, `peak_rss_mb` and the `Retry-After` parser only report or read inputs.
- `market.update_listing_presence` and the queue workers of `discovery.py` repeat the history state machine and the bounded map in a weaker form.
- Scraping, identity matching, pricing, scoring formulas, reports, dashboards and notifications: no invariant across operations.
- Float rounding of averages and of `ceil(current * 1.25)`: exact for every batch size below 2^50.
