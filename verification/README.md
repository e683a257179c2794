# Orleans placement, stateless workers and activation scheduling in Dafny

This project models four sequential cores of the Orleans actor runtime and
proves properties about them:

- **Resource-optimised placement.** The director picks a silo for a new
  activation. Models: `common.dfy`, `kalman.dfy`, `silo_statistics.dfy`,
  `scoring.dfy`, `placement_director.dfy`.
  - It tries a placement hint first, then handles an empty or single-silo
    compatible list and a cold start.
  - Otherwise it draws a square-root sample of the eligible silos with a
    prefix Fisher–Yates shuffle and keeps the lowest jittered utilisation
    score.
  - Finally it applies the local-silo preference margin.
  - The statistics feeding it are smoothed per silo by a dual-mode
    (slow/fast) scalar Kalman filter.
- **Placement options validator.** Range and sum checks over the weights
  and the margin, plus the option defaults. Model: `placement_options.dfy`.
- **Stateless-worker pool.** One grain's pool of worker activations on a
  silo. Model: `worker_pool.dfy`. It covers:
  - message routing (first inactive worker, else grow, else least waiting);
  - worker creation and destruction;
  - one tick of the PID shrink controller;
  - pool deactivation;
  - the pool's evolution over any sequence of these events.
- **Activation task scheduler.** The single-concurrency, in-order
  scheduler of one activation. Model: `task_scheduler.dfy`. It covers:
  - the inline-execution guard;
  - queuing onto the work-item group;
  - running a handed-over task;
  - the FIFO drain of the group's queue, with the scheduler tests'
    scenarios.

## Modelling choices

- C# `float` and `double` become `real`: no rounding and no NaN.
- `Random.Shared` becomes oracle arguments:
  - `Draws` in the director carries the cold-start pick, the shuffle
    indices and the per-candidate jitter in [0, 1e-5);
  - `draw` in the controller tick picks the inactive worker.
- The clock is a millisecond `int` passed to `Tick`.
- C# semantics are written out explicitly where they matter:
  - `long / long` is truncating integer division (`Common.TruncatingDiv`);
  - `(long)f` truncates toward zero (`Common.TruncateTowardZero`);
  - `??` is `Option.GetOr`.
- The director's statistics store is an immutable `map`. Each mutable C#
  class becomes a state record plus a transition function that returns the
  new state:
  - the Kalman filter struct and the dual-mode filter (`Kalman`);
  - the worker pool (`StatelessWorkerPool.Pool`).
- A worker's `IsInactive` and `WaitingCount` are owned by the worker
  activation, not by the pool. The runtime's changes to them are an
  `Observe` event.
- Deactivating a worker only issues a `DeactivateWorker` command. The
  worker leaves the list when its destruction is reported, as in the
  source.
- `TryExecuteTask` of the task library runs a task that has not started
  yet and reports whether it did. The work-item group is a FIFO queue
  drained one task at a time. Tasks act on one shared counter, as in the
  scheduler's tests.

Three defects of the code are listed under "## Findings". For each one the
as-written behaviour has its own members, and the operations use the corrected
behaviour:

- **The director's score.** `PlacementDirector.PickBest`, `MakePick`,
  `IsLocalSiloPreferable` and `OnAddActivation` score with `Scoring.Score`.
  It divides memory usage by total memory as reals. The code's integer
  quotient is `Scoring.ScoreAsWritten`.
- **The statistics store.** `SiloStatistics.UpdateEntry` and
  `SiloStatistics.Notify` filter a missing memory usage as 0, where the code
  throws. The code's versions are `SiloStatistics.UpdateEntryAsWritten` and
  `SiloStatistics.NotifyAsWritten`.
- **The shrink controller.** `StatelessWorkerPool.Tick` checks the backoff on
  one clock. The code's two-clock check is
  `StatelessWorkerPool.BackoffElapsedAsWritten`.

Everywhere else the model follows the code, including where the code differs
from the system's documented or intended behaviour:

- **The 1 GiB score.** The score doc comment promises [0, 1]. The code
  multiplies the physical memory in megabytes by its weight, so with a
  positive physical-memory weight an idle 1 GiB silo scores above 1
  (`Scoring.ScoreExceedsOneWithPhysicalMemoryWeight`). The promise holds only
  for a zero physical-memory weight
  (`Scoring.ScoreInUnitRangeWithoutPhysicalMemoryWeight`).
- **The physical-memory weight.** The director reads it and normalises four
  weights, but the options class has no such property and the validator
  sums three. The model passes the weight to `NormalizeWeights` as a
  separate argument. Validated options are therefore rescaled after all
  whenever that weight is positive
  (`Scoring.ValidationIgnoresPhysicalMemoryWeight`).
- **The dual-mode comparison.** The filter compares the measurement with the
  slow estimate *after* that estimate took the measurement. This is proved
  to agree with a comparison against the prior slow estimate (`Kalman.Filter`).
- **The three-silo scenario is not deterministic.** With three eligible silos
  only ceil(sqrt(3)) = 2 are scored. Whether the least loaded one is chosen
  depends on the shuffle
  (`PlacementDirector.LeastLoadedSiloCanBeSampledOut`,
  `PlacementDirector.SampledLeastLoadedSiloIsChosen`).
- **The default pick can be overloaded.** When no sampled silo scores below
  1, the default pick at index 0 returns the first compatible silo even if
  it is overloaded (`PlacementDirector.DefaultPickCanBeOverloaded`).
- **A failed delivery keeps the new worker.** If creating a worker fails,
  the list is unchanged. If delivery fails after a worker was created, the
  new worker stays in the list (`StatelessWorkerPool.Receive`).
- **Saturated waiting counts.** If every worker of a full pool reports
  `int.MaxValue` waiting messages, the least-waiting scan finds nothing and
  the pool grows past its maximum
  (`StatelessWorkerPool.SaturatedWaitingCountsOverflowMax`).
- **The margin default.** The options' margin property starts at 0, not at
  the declared default 0.05. The default weights sum to 0.9, so default
  options fail validation (`PlacementOptions.DefaultsFailSumCheck`).

## Model

| member | source | states |
|---|---|---|
| Common.TruncatingDiv | src/Orleans.Runtime/Placement/ResourceOptimizedPlacementDirector.cs:206 | C# integer division of non-negative by positive values: the Euclidean quotient, with q*b <= a < (q+1)*b |
| Common.TruncateTowardZero | src/Orleans.Runtime/Placement/ResourceOptimizedPlacementDirector.cs:254 | the `(long)` cast of the filtered memory usage lies within 1 of its input, rounding toward zero on either side of 0 |
| Kalman.Gain | src/Orleans.Runtime/Placement/ResourceOptimizedPlacementDirector.cs:321-326 | for non-negative prior covariance and process noise the Kalman gain lies in [0, 1) |
| Kalman.Step | src/Orleans.Runtime/Placement/ResourceOptimizedPlacementDirector.cs:321-334 | a Kalman step keeps the covariance non-negative and below 1 and lands between the prior estimate and the measurement. It never overshoots and reaches the measurement only when it started there. With positive prior covariance plus process noise it keeps a positive covariance and strictly closes the distance to the measurement |
| Kalman.Filter | src/Orleans.Runtime/Placement/ResourceOptimizedPlacementDirector.cs:279-308 | fast regime iff the measurement (missing = 0) exceeds the prior slow estimate. Slow-to-fast reports the measurement exactly, with the fast estimator re-seeded at it. Staying in a regime reports a value between that regime's old estimate and the measurement. Fast-to-slow re-seeds the slow estimator from the fast estimator's updated state, and the report lies between that fast estimate and the measurement. Each estimator not re-seeded is kept for the next call after taking the measurement. The output is the active estimator's estimate, and the fast estimator always keeps a positive covariance |
| Kalman.MissingMeasurementIsZero | src/Orleans.Runtime/Placement/ResourceOptimizedPlacementDirector.cs:281 | filtering a missing measurement is the same transition as filtering 0 |
| Kalman.ConstantSignalIsFixedPoint | src/Orleans.Runtime/Placement/ResourceOptimizedPlacementDirector.cs:279-308 | a settled slow-regime filter fed its own value reports it and stays settled |
| Kalman.SpikeBeatsSlowOnly | src/Orleans.Runtime/Placement/ResourceOptimizedPlacementDirector.cs:283-295 | from the slow regime a rise is reported in full, while the slow estimator alone lags strictly below it |
| Kalman.FilterApproachesConstantSignal | src/Orleans.Runtime/Placement/ResourceOptimizedPlacementDirector.cs:279-308 | one call with the signal at m reports a value no farther from m than the previous report, and strictly closer unless that report was already m |
| Kalman.ConstantSignalNeverRecedes | src/Orleans.Runtime/Placement/ResourceOptimizedPlacementDirector.cs:279-308 | fed a constant signal for any number of calls, the report never moves away from it, and after at least one call it is strictly closer unless it started on it |
| Kalman.SlowStepDivides | src/Orleans.Runtime/Placement/ResourceOptimizedPlacementDirector.cs:321-334 | one step without process noise divides both the estimate's gap to the measurement and the error covariance by one plus the prior covariance |
| Kalman.SlowRegimePersists | src/Orleans.Runtime/Placement/ResourceOptimizedPlacementDirector.cs:279-308 | from the slow regime, a signal at or below the slow estimate keeps the filter in the slow regime for any number of calls, and only the slow estimator's steps act on the report |
| Kalman.SlowRegimeConvergenceRate | src/Orleans.Runtime/Placement/ResourceOptimizedPlacementDirector.cs:279-334 | in that case the report's distance to the signal after k calls is the starting distance divided by 1 + k * c0, and so is the slow covariance, where c0 is the starting slow covariance: the report converges to the signal like 1/k |
| SiloStatistics.NewEntry | src/Orleans.Runtime/Placement/ResourceOptimizedPlacementDirector.cs:236-248 | the first notification is stored unfiltered, with three fresh filters |
| SiloStatistics.UpdateEntry | src/Orleans.Runtime/Placement/ResourceOptimizedPlacementDirector.cs:250-257 | the corrected update (see Left out): cpu, available memory and memory usage go through their own filters, with memory usage truncated to an integer. Total memory and the overload flag are copied raw. No smoothed field is missing afterwards |
| SiloStatistics.Notify | src/Orleans.Runtime/Placement/ResourceOptimizedPlacementDirector.cs:222-231 | the corrected upsert (see Left out): the key set gains the silo and other silos' entries are untouched. A new silo gets the new entry: the raw values with three fresh filters; a known silo is updated through its filters |
| SiloStatistics.RemoveSilo | src/Orleans.Runtime/Placement/ResourceOptimizedPlacementDirector.cs:219-220 | exactly that silo's key disappears; every other entry is unchanged |
| SiloStatistics.RemoveUndoesFirstNotify | src/Orleans.Runtime/Placement/ResourceOptimizedPlacementDirector.cs:219-231 | removing a silo after its first notification restores the store |
| SiloStatistics.UpdateEntryAsWritten | src/Orleans.Runtime/Placement/ResourceOptimizedPlacementDirector.cs:250-257 | the update as written throws exactly when memory usage is missing, and otherwise agrees with the corrected update |
| SiloStatistics.NotifyAsWritten | src/Orleans.Runtime/Placement/ResourceOptimizedPlacementDirector.cs:222-257 | the upsert as written throws iff a known silo's notification lacks memory usage. The store then keeps the partly updated entry: cpu and available memory smoothed; memory usage, total memory and the overload flag stale. Otherwise it equals the corrected upsert |
| SiloStatistics.AsWrittenNeverRefreshesOverloadWithoutMemoryUsage | src/Orleans.Runtime/Placement/ResourceOptimizedPlacementDirector.cs:250-257 | as written, no run of updates that lack memory usage ever refreshes an entry's overload flag, total memory or memory usage |
| SiloStatistics.MissingMemoryUsageThrowsOnUpdate | src/Orleans.Runtime/Placement/ResourceOptimizedPlacementDirector.cs:254 | a later notification without memory usage throws after smoothing cpu, leaving a stale overload flag the corrected update would have refreshed |
| SiloStatistics.CorrectedUpdateTreatsMissingMemoryAsZero | src/Orleans.Runtime/Placement/ResourceOptimizedPlacementDirector.cs:281 | the corrected update treats a missing memory usage like a reading of 0, as the filter does for the other signals |
| PlacementOptions.ValidateConfiguration | src/Orleans.Runtime/Configuration/Options/ResourceOptimizedPlacementOptions.cs:61-91 | valid iff all four properties are in [0, 1] and the three weights sum to 1. A range error names an out-of-range property with every earlier check passed. The sum error comes iff all ranges pass and the sum is not 1 |
| PlacementOptions.OutOfRangeNamesProperty | src/Orleans.Runtime/Configuration/Options/ResourceOptimizedPlacementOptions.cs:63-81 | each property out of range, with the earlier ones in range, is the one reported |
| PlacementOptions.DefaultsFailSumCheck | src/Orleans.Runtime/Configuration/Options/ResourceOptimizedPlacementOptions.cs:15-53 | the default weights sum to 0.9, so default options fail the sum check, and the margin property does not start at its declared default |
| Scoring.NormalizeWeights | src/Orleans.Runtime/Placement/ResourceOptimizedPlacementDirector.cs:38-47 | the four normalised weights sum to 1, and each times the four-weight total gives back its raw weight |
| Scoring.ValidatedWeightsAreNonNegative | src/Orleans.Runtime/Placement/ResourceOptimizedPlacementDirector.cs:38-47 | options that pass validation, with a non-negative physical-memory weight, normalise to non-negative weights |
| Scoring.ValidationIgnoresPhysicalMemoryWeight | src/Orleans.Runtime/Configuration/Options/ResourceOptimizedPlacementOptions.cs:83-87 | validated options keep their weights under normalisation only when the physical-memory weight is 0. Any positive one shrinks a positive cpu weight |
| Scoring.Score | src/Orleans.Runtime/Placement/ResourceOptimizedPlacementDirector.cs:190-217 | the corrected score (see Left out): the documented weighted sum of the cpu fraction, the fraction of memory in use and the fraction not available, plus the physical memory in megabytes. Memory usage is divided as a real, and a missing reading counts as 0. Without a known positive physical memory only the cpu term remains |
| Scoring.ScoreWithoutPhysicalMemoryIsCpuTerm | src/Orleans.Runtime/Placement/ResourceOptimizedPlacementDirector.cs:204-216 | without a known positive physical memory the score is the cpu term alone, whatever the memory readings |
| Scoring.MissingFieldsScoreAsZero | src/Orleans.Runtime/Placement/ResourceOptimizedPlacementDirector.cs:202-207 | a missing cpu, memory-usage or available-memory reading scores like a reading of 0 |
| Scoring.ScoreMonotoneInCpu | src/Orleans.Runtime/Placement/ResourceOptimizedPlacementDirector.cs:200-217 | with non-negative weights, more cpu usage never lowers the score |
| Scoring.ScoreMonotoneInMemoryUsage | src/Orleans.Runtime/Placement/ResourceOptimizedPlacementDirector.cs:200-217 | with non-negative weights, more memory in use never lowers the score |
| Scoring.ScoreChargesAnyMemoryUsage | src/Orleans.Runtime/Placement/ResourceOptimizedPlacementDirector.cs:206-211 | with a positive memory-usage weight, any memory in use scores strictly above none (the as-written score fails this for every silo not using all of its memory) |
| Scoring.ScoreAntitoneInAvailableMemory | src/Orleans.Runtime/Placement/ResourceOptimizedPlacementDirector.cs:200-217 | with non-negative weights, more available memory never raises the score |
| Scoring.MemoryBranchInUnitRange | src/Orleans.Runtime/Placement/ResourceOptimizedPlacementDirector.cs:204-213 | with plausible readings and no physical-memory weight, the memory branch of the score lies in [0, 1] |
| Scoring.ScoreInUnitRangeWithoutPhysicalMemoryWeight | src/Orleans.Runtime/Placement/ResourceOptimizedPlacementDirector.cs:190-217 | the documented [0, 1] range holds for plausible readings when the physical-memory weight is 0 |
| Scoring.ScoreExceedsOneWithPhysicalMemoryWeight | src/Orleans.Runtime/Placement/ResourceOptimizedPlacementDirector.cs:208-213 | with a physical-memory weight of at least 0.01, an idle silo with 1 GiB scores above 1 |
| Scoring.ScoreAsWritten | src/Orleans.Runtime/Placement/ResourceOptimizedPlacementDirector.cs:200-217 | the score as written differs from the intended one only in the memory-usage fraction, which is an integer quotient. It agrees without physical memory or memory-usage weight |
| Scoring.MemoryUsageTermTruncatesToZero | src/Orleans.Runtime/Placement/ResourceOptimizedPlacementDirector.cs:206 | a silo using half its memory gets memory fraction 0 as written and 0.5 as intended, so it scores strictly lower as written |
| Scoring.AsWrittenIgnoresPartialMemoryUsage | src/Orleans.Runtime/Placement/ResourceOptimizedPlacementDirector.cs:206 | as written, any silo using less than all of its memory has memory-usage term 0 |
| PlacementDirector.NewDirector | src/Orleans.Runtime/Placement/ResourceOptimizedPlacementDirector.cs:29-36 | a new director starts with an empty store, the configured margin and normalised weights summing to 1 |
| PlacementDirector.PlacementHint | src/Orleans.Runtime/Placement/ResourceOptimizedPlacementDirector.cs:53-56 | a hint is used iff it names a compatible silo, and then unchanged |
| PlacementDirector.EligibleFrom | src/Orleans.Runtime/Placement/ResourceOptimizedPlacementDirector.cs:106-121 | every candidate is a compatible silo with statistics that is not overloaded, carrying its stored statistics. There are no more candidates than silos |
| PlacementDirector.EligibleFromIsOrdered | src/Orleans.Runtime/Placement/ResourceOptimizedPlacementDirector.cs:107-118 | candidates keep the order of the compatible list, each index at most once |
| PlacementDirector.EligibleFromIsComplete | src/Orleans.Runtime/Placement/ResourceOptimizedPlacementDirector.cs:107-118 | every eligible silo is a candidate |
| PlacementDirector.CeilSqrt | src/Orleans.Runtime/Placement/ResourceOptimizedPlacementDirector.cs:126 | the sample size is the least k with k*k >= n, which is ceil(sqrt(n)) |
| PlacementDirector.SampleSizeBounded | src/Orleans.Runtime/Placement/ResourceOptimizedPlacementDirector.cs:124-128 | the sample size never exceeds the number of eligible silos, and is positive when any is eligible |
| PlacementDirector.Swap | src/Orleans.Runtime/Placement/ResourceOptimizedPlacementDirector.cs:162 | the tuple swap exchanges two entries and leaves all others |
| PlacementDirector.SwapPermutes | src/Orleans.Runtime/Placement/ResourceOptimizedPlacementDirector.cs:162 | a swap is a permutation |
| PlacementDirector.ShuffleFrom | src/Orleans.Runtime/Placement/ResourceOptimizedPlacementDirector.cs:152-165 | the shuffle keeps the length and never touches positions already fixed |
| PlacementDirector.ShuffleFromPermutes | src/Orleans.Runtime/Placement/ResourceOptimizedPlacementDirector.cs:152-165 | the prefix shuffle is a permutation of its input |
| PlacementDirector.ShufflePrefix | src/Orleans.Runtime/Placement/ResourceOptimizedPlacementDirector.cs:152-165 | the prefix shuffle keeps the length; ShufflePrefixDrawsWithoutReplacement proves it a permutation |
| PlacementDirector.ShufflePrefixDrawsWithoutReplacement | src/Orleans.Runtime/Placement/ResourceOptimizedPlacementDirector.cs:124-128 | the shuffled sequence is a permutation, and its prefix is a sub-multiset of the input: drawing without replacement |
| PlacementDirector.PickBest | src/Orleans.Runtime/Placement/ResourceOptimizedPlacementDirector.cs:130-144 | the pick only improves. It changes only to a candidate whose score plus jitter beat the starting pick, and then stores that candidate's score without jitter. No candidate's jittered score is below the final score |
| PlacementDirector.TiesKeepPick | src/Orleans.Runtime/Placement/ResourceOptimizedPlacementDirector.cs:140-143 | the comparison is strict: candidates whose jittered score is not below the pick leave it unchanged |
| PlacementDirector.Sample | src/Orleans.Runtime/Placement/ResourceOptimizedPlacementDirector.cs:120-128 | the sample has ceil(sqrt(n)) entries for n eligible silos. Each is an eligible silo with its stored statistics |
| PlacementDirector.SampleDrawsWithoutReplacement | src/Orleans.Runtime/Placement/ResourceOptimizedPlacementDirector.cs:124-128 | no eligible silo is sampled more often than it is eligible |
| PlacementDirector.PickFromEligibleSample | src/Orleans.Runtime/Placement/ResourceOptimizedPlacementDirector.cs:130-146 | a pick over eligible candidates is the default (0, 1) or an eligible silo paired with its score |
| PlacementDirector.MakePick | src/Orleans.Runtime/Placement/ResourceOptimizedPlacementDirector.cs:101-147 | the returned index points into the compatible list and its score is at most 1. It is the default pick or an eligible silo with its unjittered score, and no sampled jittered score is below it |
| PlacementDirector.IsLocalSiloPreferable | src/Orleans.Runtime/Placement/ResourceOptimizedPlacementDirector.cs:168-188 | only an active, compatible, known, not overloaded local silo is preferred, and only when its score is at most the best candidate's plus the margin |
| PlacementDirector.LocalPreferenceWidensWithMargin | src/Orleans.Runtime/Placement/ResourceOptimizedPlacementDirector.cs:186-187 | a local silo preferred at some margin and best score stays preferred at any larger margin or worse best score |
| PlacementDirector.OnAddActivation | src/Orleans.Runtime/Placement/ResourceOptimizedPlacementDirector.cs:49-80 | a compatible hint wins; failure iff no silo is compatible; the result is always compatible. One silo is returned as is. A cold start draws a random compatible silo. Otherwise the local silo if preferable, else the best sampled pick |
| PlacementDirector.LargeMarginAlwaysPrefersLocal | src/Orleans.Runtime/Placement/ResourceOptimizedPlacementDirector.cs:168-188 | with margin >= 1 and scores in [0, 1], an active, compatible, known, not overloaded local silo is always chosen |
| PlacementDirector.ZeroMarginPrefersLocalOnlyIfNoWorse | src/Orleans.Runtime/Placement/ResourceOptimizedPlacementDirector.cs:186-187 | with margin 0 a local silo scoring worse than the best pick does not displace it |
| PlacementDirector.LeastLoadedSiloCanBeSampledOut | src/Orleans.Runtime/Placement/ResourceOptimizedPlacementDirector.cs:124-128 | silos at 80%, 20% and 50% cpu, equal weights, margin 0: a shuffle that leaves out the 20% silo places on the 50% silo |
| PlacementDirector.SampledLeastLoadedSiloIsChosen | src/Orleans.Runtime/Placement/ResourceOptimizedPlacementDirector.cs:130-144 | same cluster: when the 20% silo is sampled it is chosen, despite jitter on the other candidate |
| PlacementDirector.DefaultPickCanBeOverloaded | src/Orleans.Runtime/Placement/ResourceOptimizedPlacementDirector.cs:130 | with every silo overloaded the default pick returns the first compatible silo, which is overloaded |
| StatelessWorkerPool.NewPool | src/Orleans.Runtime/Catalog/StatelessWorkerGrainContext.cs:43-61 | a new pool has no workers, the configured max and a fresh controller. It is registered, and its timer runs iff proactive collection is configured. With max >= 0 it satisfies the pool invariant |
| StatelessWorkerPool.FirstInactive | src/Orleans.Runtime/Catalog/StatelessWorkerGrainContext.cs:212-218 | the position of the first inactive worker in creation order, or none iff every worker is busy |
| StatelessWorkerPool.LeastWaiting | src/Orleans.Runtime/Catalog/StatelessWorkerGrainContext.cs:199-228 | the worker with the minimum waiting count, the first on ties. None iff every count is at least int.MaxValue |
| StatelessWorkerPool.ScanWorkers | src/Orleans.Runtime/Catalog/StatelessWorkerGrainContext.cs:198-229 | the single scan finds the first inactive worker and, when there is none, the least waiting one |
| StatelessWorkerPool.RouteMessage | src/Orleans.Runtime/Catalog/StatelessWorkerGrainContext.cs:202-241 | the first inactive worker wins. A new worker iff the pool is empty, or all are busy and the pool is below max (or all counts are saturated). A busy worker only in a full pool, and then the least waiting one |
| StatelessWorkerPool.AddWorker | src/Orleans.Runtime/Catalog/StatelessWorkerGrainContext.cs:365-380 | a new worker with a fresh id is appended at the end and nothing else changes |
| StatelessWorkerPool.Receive | src/Orleans.Runtime/Catalog/StatelessWorkerGrainContext.cs:194-254 | the list is unchanged or grows by one appended worker, the latter iff routing chose a new worker and creation did not fail. Delivery happens iff nothing failed on the way, to a worker in the pool. Otherwise a message is rejected as transient and other work is left to the loop's log |
| StatelessWorkerPool.ReceiveKeepsPoolWithinMax | src/Orleans.Runtime/Catalog/StatelessWorkerGrainContext.cs:231-241 | with max >= 1 and waiting counts below int.MaxValue, routing never takes the pool past max |
| StatelessWorkerPool.SaturatedWaitingCountsOverflowMax | src/Orleans.Runtime/Catalog/StatelessWorkerGrainContext.cs:200-240 | a full pool whose busy workers all report int.MaxValue waiting grows past max |
| StatelessWorkerPool.RemoveWorker | src/Orleans.Runtime/Catalog/StatelessWorkerGrainContext.cs:172 | `List.Remove`: an absent id changes nothing, a present one shortens the list by one, and no entry is invented |
| StatelessWorkerPool.RemoveWorkerDeletesExactlyThatWorker | src/Orleans.Runtime/Catalog/StatelessWorkerGrainContext.cs:172 | with unique ids, removing a worker's id cuts out exactly its position and keeps the others in order |
| StatelessWorkerPool.OnWorkerDestroyed | src/Orleans.Runtime/Catalog/StatelessWorkerGrainContext.cs:169-179 | the destroyed worker leaves the list, and the pool unregisters exactly when the list becomes empty |
| StatelessWorkerPool.DestroyedWorkerIsGone | src/Orleans.Runtime/Catalog/StatelessWorkerGrainContext.cs:169-179 | destroying a worker removes it and no other |
| StatelessWorkerPool.Deactivate | src/Orleans.Runtime/Catalog/StatelessWorkerGrainContext.cs:382-391 | every worker, in order, gets one deactivation with the given reason. The monitor timer stops and the list is unchanged |
| StatelessWorkerPool.AverageWaiting | src/Orleans.Runtime/Catalog/StatelessWorkerGrainContext.cs:326 | the mean waiting count times the pool size is the total waiting count. It is 0 for an empty pool |
| StatelessWorkerPool.InactiveWorkers | src/Orleans.Runtime/Catalog/StatelessWorkerGrainContext.cs:340 | each inactive worker appears as often as in the pool and no other worker appears, so the length is the number n of inactive workers |
| StatelessWorkerPool.ControllerStep | src/Orleans.Runtime/Catalog/StatelessWorkerGrainContext.cs:326-335 | the error is minus the mean waiting count and the integral accumulates it. The streak grows while the PID signal is negative and otherwise resets. The last removal time is kept |
| StatelessWorkerPool.Tick | src/Orleans.Runtime/Catalog/StatelessWorkerGrainContext.cs:324-356 | a removal is issued iff the timer runs, the streak exceeds 10, the backoff elapsed and some worker is inactive. It targets an inactive worker for inactivity. The controller then keeps the error, scales the integral by the anti-windup factor for the n inactive workers, resets the streak and records the time. Without a removal the controller just steps |
| StatelessWorkerPool.AntiWindUpFactor | src/Orleans.Runtime/Catalog/StatelessWorkerGrainContext.cs:349 | the factor f for n inactive workers satisfies f * n = n - 1, so it is (n - 1) / n |
| StatelessWorkerPool.AfterRemoval | src/Orleans.Runtime/Catalog/StatelessWorkerGrainContext.cs:349-353 | after a removal the error is kept, the integral is multiplied by the anti-windup factor, the streak restarts at 0 and the removal time is recorded |
| StatelessWorkerPool.AntiWindUpFactorBounded | src/Orleans.Runtime/Catalog/StatelessWorkerGrainContext.cs:349 | the anti-windup factor lies in [0, 1) |
| StatelessWorkerPool.TickKeepsIntegralNonPositive | src/Orleans.Runtime/Catalog/StatelessWorkerGrainContext.cs:326-350 | the integral term never becomes positive |
| StatelessWorkerPool.IdlePoolHasZeroError | src/Orleans.Runtime/Catalog/StatelessWorkerGrainContext.cs:326-329 | with no waiting messages the error is 0 and the integral does not move |
| StatelessWorkerPool.BackoffElapsed | src/Orleans.Runtime/Catalog/StatelessWorkerGrainContext.cs:337-338 | the single-clock backoff check is the code's two-clock check at a local offset of 0 |
| StatelessWorkerPool.RemovalsRespectBackoff | src/Orleans.Runtime/Catalog/StatelessWorkerGrainContext.cs:337-338 | a removal comes more than 1000 ms after the previous one |
| StatelessWorkerPool.NoRemovalRightAfterRemoval | src/Orleans.Runtime/Catalog/StatelessWorkerGrainContext.cs:335-337 | a tick from a streak of at most 9 cannot remove, and the streak grows by at most one per tick |
| StatelessWorkerPool.ShortStreakBlocksRemovals | src/Orleans.Runtime/Catalog/StatelessWorkerGrainContext.cs:322-356 | while the streak plus the number of ticks stays at most 10, a run of ticks issues no removal, and the streak grows by at most the number of ticks |
| StatelessWorkerPool.NoRemovalForTenTicksAfterRemoval | src/Orleans.Runtime/Catalog/StatelessWorkerGrainContext.cs:335-352 | after a removal resets the streak, the next ten ticks remove nothing, whatever the clock says |
| StatelessWorkerPool.ShrinkThenDestroyRemovesAnInactiveWorker | src/Orleans.Runtime/Catalog/StatelessWorkerGrainContext.cs:340-347 | once the worker a shrink deactivated is destroyed, the pool is one shorter |
| StatelessWorkerPool.BackoffElapsedAsWritten | src/Orleans.Runtime/Catalog/StatelessWorkerGrainContext.cs:337-353 | as written, the local offset from UTC shortens the backoff by exactly that offset: a removal passes once more than 1000 ms minus the offset elapsed on the UTC clock |
| StatelessWorkerPool.AsWrittenBackoffIgnoredEastOfUtc | src/Orleans.Runtime/Catalog/StatelessWorkerGrainContext.cs:337-353 | as written, a local clock more than 1000 ms ahead of UTC never holds a removal back |
| StatelessWorkerPool.AsWrittenBackoffTooShortAtUtcPlusOne | src/Orleans.Runtime/Catalog/StatelessWorkerGrainContext.cs:337-353 | at UTC+1 a removal 0.5 s ago passes the as-written check but not the single-clock one |
| StatelessWorkerPool.AsWrittenBackoffTooLongAtUtcMinusOne | src/Orleans.Runtime/Catalog/StatelessWorkerGrainContext.cs:337-353 | at UTC-1 a removal 2 s ago still blocks the as-written check but not the single-clock one |
| StatelessWorkerPool.ReceiveKeepsWellFormed | src/Orleans.Runtime/Catalog/StatelessWorkerGrainContext.cs:194-254 | routing keeps the pool within max, with unique, issued ids and bounded waiting counts |
| StatelessWorkerPool.ObserveKeepsWellFormed | src/Orleans.Runtime/Catalog/StatelessWorkerGrainContext.cs:212-229 | a worker's activity or waiting count changing keeps the pool invariant |
| StatelessWorkerPool.DestroyKeepsWellFormed | src/Orleans.Runtime/Catalog/StatelessWorkerGrainContext.cs:169-179 | a destroyed worker's removal keeps the pool invariant |
| StatelessWorkerPool.StepKeepsWellFormed | src/Orleans.Runtime/Catalog/StatelessWorkerGrainContext.cs:138-192 | every work item of the loop, and a timer tick, keeps the pool invariant and max |
| StatelessWorkerPool.PoolNeverExceedsMax | src/Orleans.Runtime/Catalog/StatelessWorkerGrainContext.cs:138-192 | from a well-formed pool with max >= 1, no sequence of plausible events takes the pool past max |
| StatelessWorkerPool.NewPoolIsWellFormed | src/Orleans.Runtime/Catalog/StatelessWorkerGrainContext.cs:43-61 | a new pool satisfies the invariant for any positive max |
| ActivationScheduler.TryExecuteTask | src/Orleans.Runtime/Scheduler/ActivationTaskScheduler.cs:45 | a task runs iff it has not started yet, and afterwards it counts as started |
| ActivationScheduler.RunTaskFromWorkItemGroup | src/Orleans.Runtime/Scheduler/ActivationTaskScheduler.cs:43-52 | a fresh task runs after everything before it. An already started one is not run again, only logged in a debug build; the call never fails |
| ActivationScheduler.QueueTask | src/Orleans.Runtime/Scheduler/ActivationTaskScheduler.cs:66-72 | queuing appends the task to its group's queue and nothing runs |
| ActivationScheduler.TryExecuteTaskInline | src/Orleans.Runtime/Scheduler/ActivationTaskScheduler.cs:82-136 | when inline execution is refused nothing happens and the answer is false. Done iff allowed and the task is fresh. When allowed it has the same effect as the group running the task |
| ActivationScheduler.InlinedTaskRunsOnce | src/Orleans.Runtime/Scheduler/ActivationTaskScheduler.cs:119 | a task run inline is not run again when the group hands it over later |
| ActivationScheduler.RefusedInlineTaskRunsOnceFromQueue | src/Orleans.Runtime/Scheduler/ActivationTaskScheduler.cs:66-136 | a task refused inline is not lost. Queued behind the group's pending tasks, it runs exactly once when the group drains, after them and on the counter they leave |
| ActivationScheduler.RunQueueIsSequential | src/Orleans.Runtime/Scheduler/ActivationTaskScheduler.cs:12-16 | draining distinct fresh tasks runs each exactly once, in queue order, with the effect of their work applied sequentially, and logs nothing |
| ActivationScheduler.RunQueueCounter | src/Orleans.Runtime/Scheduler/ActivationTaskScheduler.cs:12-16 | the counter after a drain equals sequential application of the queued work |
| ActivationScheduler.RunQueueOrder | src/Orleans.Runtime/Scheduler/ActivationTaskScheduler.cs:12-16 | a drain runs the queued tasks in queue order and logs nothing |
| ActivationScheduler.QueueThenDrainIsFifo | src/Orleans.Runtime/Scheduler/ActivationTaskScheduler.cs:66-72 | two tasks queued one after the other run in that order |
| ActivationScheduler.SimpleFifoYieldsFifteen | test/NonSilo.Tests/SchedulerTests/OrleansTaskSchedulerBasicTests.cs:114-157 | `n + 5` queued before `n * 3` from 0 leaves 15; the reverse order would leave 5 |
| ActivationScheduler.SerialReadSleepWriteAddsCount | test/NonSilo.Tests/SchedulerTests/OrleansTaskSchedulerBasicTests.cs:265-282 | k read-sleep-write tasks run one after another add exactly k |
| ActivationScheduler.TenSubTasksYieldTen | test/NonSilo.Tests/SchedulerTests/OrleansTaskSchedulerBasicTests.cs:256-308 | ten read-sleep-write sub-tasks queued on the group leave 10 |

## Left out

- Floating point: every `float`/`double` is a `real`. IEEE rounding, NaN and infinities are not modelled; in particular the exact `!= 1f` comparison of the weight sum is a comparison of reals.
- Scoring.NormalizeWeights: requires a non-zero total weight; with all weights 0 the source divides by zero and gets NaN weights, which reals cannot express.
- PlacementDirector.NewDirector: carries the same non-zero total-weight requirement as NormalizeWeights, for the same reason.
- Common.TruncateTowardZero: the `(long)` cast's behaviour outside the `long` range is not modelled.
- The stack-allocation and `ArrayPool` branches of `GetBestSiloCandidate` differ only in memory management; one `seq` stands for both.
- `IPlacementDirector.GetPlacementHint` is not part of this model beyond its result: a hint counts only when it names a compatible silo.
- `_cachedLocalSilo` caches the task returned for the local silo; only the silo it holds is modelled.
- `SiloRuntimeStatistics` is used only for its field shape; its overload flag comes from overload-detection logic that is not part of this model.
- Random draws are oracle arguments already reduced into the range the source asks for (`draw % n` for `Random.Shared.Next(n)`); their distribution is not modelled.
- `RunMessageLoop` signalling, the concurrent work-item queue, `PeriodicTimer`, async tasks and cancellation tokens are concurrency primitives; only the per-item transitions are modelled.
- `CreateWorker` beyond the append: activation, the lifecycle observer and the request context belong to the activator, which is not part of this model; its failure is the `CreateFails` fault.
- `TriggerWorkerRemoval` (StatelessWorkerGrainContext.cs:271-315) is never called; it duplicates the tick without anti-windup and writes to the console.
- `DeactivatedTaskInternal` and `DisposeAsyncInternal` aggregate the workers' asynchronous completions and dispose the timer; they are async plumbing.
- `Rehydrate`, `Migrate` and `SetComponent` of the worker context do not touch the pool.
- Scoring.Score: divides memory usage by total memory as reals. The code's truncating long/long quotient at ResourceOptimizedPlacementDirector.cs:206 is `Scoring.ScoreAsWritten`.
- PlacementDirector.OnAddActivation: places with the corrected score, not the integer memory quotient of ResourceOptimizedPlacementDirector.cs:206. Where that quotient matters the placement differs from the code's. Example: memory-usage weight only, silos using 512 and 256 of 1024 bytes. The model places on the second silo; the code scores both 0 and keeps the first.
- PlacementDirector.PickBest: compares candidates by the corrected score, for the same reason.
- PlacementDirector.MakePick: returns the best candidate by the corrected score, for the same reason.
- PlacementDirector.IsLocalSiloPreferable: compares the local silo by the corrected score, for the same reason.
- SiloStatistics.UpdateEntry: is the corrected update. For a notification without memory usage the code throws at ResourceOptimizedPlacementDirector.cs:254 after updating cpu and available memory; that behaviour is `UpdateEntryAsWritten`.
- SiloStatistics.Notify: is the corrected upsert. For a known silo whose notification lacks memory usage, the code's call throws and leaves a partly updated entry; that behaviour is `NotifyAsWritten`.
- StatelessWorkerPool.Tick: checks the backoff on one clock; the code's two-clock check is `BackoffElapsedAsWritten`.
- StatelessWorkerPool.Tick: is an atomic step between two work items of the message loop. In the code the collection loop (StatelessWorkerGrainContext.cs:317-362) runs concurrently with the message loop. It enumerates `_workers` (:326, :340) while the message loop may add a worker (:378) or remove one (:172). A concurrent modification would raise an `InvalidOperationException`. The `catch (OperationCanceledException)` at :358 does not catch it, so shrink control would stop for good. That race is not modelled.
- StatelessWorkerPool.Tick: the C# `int` streak counter and worker ids are unbounded naturals; their wrap-around after 2^31 ticks or workers is not modelled.
- StatelessWorkerPool.Observe: the runtime's reports of a worker's activity and waiting count are an event of the model, not code in the pool.
- `WorkItemGroup` and the task library's `TryExecuteTask` are not part of this model; the group is a FIFO queue drained one task at a time, and `TryExecuteTask` runs a task once.
- The debug-build trace logging of `QueueTask` and `TryExecuteTaskInline` and the `EXTRA_STATS` counters have no effect on scheduling; only the not-done warning is kept, as a log entry.
- ActivationScheduler.TryExecuteTask: a task that starts but does not complete (faulted or cancelled) is not distinguished from one that completes.

## Findings

| source | as written | input that shows it | evidently intended | confidence | as-written member | corrected member |
|---|---|---|---|---|---|---|
| src/Orleans.Runtime/Placement/ResourceOptimizedPlacementDirector.cs:206 | `stats.MemoryUsage.Value / physicalMemory` divides a `long` by a `long`, so the memory-usage fraction is truncated to an integer | memory usage 512, total physical memory 1024, any positive memory-usage weight: the term is 0 instead of half the weight | a fractional quotient, as the doc comment's mem_usage / physical_mem says | not executed | Scoring.MemoryUsageTermTruncatesToZero | Scoring.ScoreChargesAnyMemoryUsage |
| src/Orleans.Runtime/Placement/ResourceOptimizedPlacementDirector.cs:254 | `(float)statistics.MemoryUsage` converts a `long?` to a non-nullable `float`, which throws on a missing value after cpu and available memory were already filtered | a second notification for a silo whose memory usage is missing and whose overload flag changed: the update throws and the stored flag stays stale | a missing memory usage is filtered as 0, as the filter does for `null` | not executed | SiloStatistics.MissingMemoryUsageThrowsOnUpdate | SiloStatistics.CorrectedUpdateTreatsMissingMemoryAsZero |
| src/Orleans.Runtime/Catalog/StatelessWorkerGrainContext.cs:338 | the backoff subtracts a removal time taken from `DateTime.UtcNow` (line 353) from `DateTime.Now`, so the elapsed time is off by the local offset from UTC | local time UTC+1, last removal 500 ms ago: the check sees 3600.5 s elapsed and removes again | both readings from one clock | not executed | StatelessWorkerPool.AsWrittenBackoffTooShortAtUtcPlusOne | StatelessWorkerPool.RemovalsRespectBackoff |
