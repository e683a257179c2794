/**
 * The stateless-worker pool of one grain on one silo: a list of worker
 * activations in creation order, the routing rule for incoming messages, the
 * bookkeeping when a worker is destroyed, one tick of the proportional-
 * integral-derivative shrink controller, and deactivation of the whole pool.
 *
 * A worker's `inactive` flag and `waitingCount` belong to the worker
 * activation, not to the pool; the runtime changes them, modelled by the
 * `Observe` transition. Time is a millisecond clock and the random choice of
 * the worker to shrink is an oracle draw, both passed in.
 */
module StatelessWorkerPool {
  import opened Common

  /** C# `int.MaxValue`, the starting point of the least-waiting-count scan. */
  const IntMax: int := 2147483647

  const Kp: real := 0.433
  const Ki: real := 0.468
  const Kd: real := 0.480

  const WorkerRemovalBackoffMs: int := 1000
  const ControlSignalNegativeMaxCount: nat := 10

  type WorkerId = nat

  datatype Worker = Worker(id: WorkerId, inactive: bool, waitingCount: nat)

  /** State of the shrink controller; `lastRemoval` is `None` for `DateTime.MinValue` (never). */
  datatype Controller = Controller(previousError: real, integral: real, negativeCount: nat, lastRemoval: Option<int>)

  const InitialController: Controller := Controller(0.0, 0.0, 0, None)

  /**
   * `timerActive` is whether the periodic collection timer still runs;
   * `registered` whether the pool is still a message target in the catalog.
   */
  datatype Pool = Pool(workers: seq<Worker>, maxWorkers: int, nextId: WorkerId, controller: Controller,
                       timerActive: bool, registered: bool)

  /** A new pool: no workers; the timer runs when proactive worker collection is configured. */
  function NewPool(maxWorkers: int, proactiveWorkerCollection: bool): (r: Pool)
    ensures r.workers == [] && r.maxWorkers == maxWorkers && r.controller == InitialController
    ensures r.timerActive <==> proactiveWorkerCollection
    ensures r.registered
    // any non-negative maximum gives a pool that satisfies the pool invariant
    ensures maxWorkers >= 0 ==> WellFormed(r)
  {
    Pool([], maxWorkers, 0, InitialController, proactiveWorkerCollection, true)
  }

  predicate UniqueIds(ws: seq<Worker>) {
    forall a, b :: 0 <= a < b < |ws| ==> ws[a].id != ws[b].id
  }

  /** Every worker id was handed out before `nextId`. */
  predicate IdsBelow(ws: seq<Worker>, nextId: WorkerId) {
    forall k :: 0 <= k < |ws| ==> ws[k].id < nextId
  }

  predicate WaitingBelowIntMax(ws: seq<Worker>) {
    forall k :: 0 <= k < |ws| ==> ws[k].waitingCount < IntMax
  }

  // ---------------------------------------------------------------- routing

  /** Position of the first inactive worker in creation order. */
  function FirstInactive(ws: seq<Worker>): (r: Option<nat>)
    ensures r.None? <==> (forall k :: 0 <= k < |ws| ==> !ws[k].inactive)
    ensures r.Some? ==> r.value < |ws| && ws[r.value].inactive &&
                        forall k :: 0 <= k < r.value ==> !ws[k].inactive
  {
    if |ws| == 0 then None
    else if ws[0].inactive then Some(0)
    else
      var rest := FirstInactive(ws[1..]);
      assert forall k :: 1 <= k < |ws| ==> ws[k] == ws[1..][k - 1];
      if rest.None? then None else Some(rest.value + 1)
  }

  /**
   * Position of the worker with the lowest waiting count, the first one on
   * ties; only counts strictly below `int.MaxValue` are taken.
   */
  function LeastWaiting(ws: seq<Worker>): (r: Option<nat>)
    ensures r.None? <==> (forall k :: 0 <= k < |ws| ==> ws[k].waitingCount >= IntMax)
    ensures r.Some? ==> r.value < |ws| && ws[r.value].waitingCount < IntMax
    ensures r.Some? ==> forall k :: 0 <= k < |ws| ==> ws[r.value].waitingCount <= ws[k].waitingCount
    ensures r.Some? ==> forall k :: 0 <= k < r.value ==> ws[r.value].waitingCount < ws[k].waitingCount
  {
    if |ws| == 0 then None
    else
      var before := ws[..|ws| - 1];
      var prior := LeastWaiting(before);
      assert forall k :: 0 <= k < |ws| - 1 ==> ws[k] == before[k];
      var bound := if prior.Some? then ws[prior.value].waitingCount else IntMax;
      if ws[|ws| - 1].waitingCount < bound then Some(|ws| - 1) else prior
  }

  /**
   * The one pass over the workers the source makes: it stops at the first
   * inactive worker and, until then, tracks the lowest waiting count.
   */
  method ScanWorkers(ws: seq<Worker>) returns (inactiveAt: Option<nat>, minimumAt: Option<nat>)
    ensures inactiveAt == FirstInactive(ws)
    ensures inactiveAt.None? ==> minimumAt == LeastWaiting(ws)
  {
    inactiveAt, minimumAt := None, None;
    var minimumCount := IntMax;
    var i := 0;
    while i < |ws|
      invariant 0 <= i <= |ws|
      invariant forall k :: 0 <= k < i ==> !ws[k].inactive
      invariant minimumAt == LeastWaiting(ws[..i])
      invariant minimumCount == if minimumAt.Some? then ws[minimumAt.value].waitingCount else IntMax
    {
      if ws[i].inactive {
        inactiveAt := Some(i);
        return;
      }
      assert ws[..i + 1][..i] == ws[..i];
      if ws[i].waitingCount < minimumCount {
        minimumCount := ws[i].waitingCount;
        minimumAt := Some(i);
      }
      i := i + 1;
    }
    assert ws[..i] == ws;
  }

  datatype Route = ToWorker(position: nat) | CreateNew

  /** Where a message goes: the first inactive worker, a new worker, or the least waiting busy worker. */
  function RouteMessage(ws: seq<Worker>, maxWorkers: int): (r: Route)
    // an inactive worker always wins, the first one in creation order
    ensures (exists k :: 0 <= k < |ws| && ws[k].inactive) ==> r == ToWorker(FirstInactive(ws).value)
    // a new worker only for an empty pool, or when all are busy and the pool is below max
    // (or every waiting count is int.MaxValue)
    ensures r == CreateNew <==>
              |ws| == 0 ||
              ((forall k :: 0 <= k < |ws| ==> !ws[k].inactive) &&
               (|ws| < maxWorkers || forall k :: 0 <= k < |ws| ==> ws[k].waitingCount >= IntMax))
    ensures r.ToWorker? ==> r.position < |ws|
    // a busy worker only when all are busy and the pool is full: the least waiting one
    ensures r.ToWorker? && !ws[r.position].inactive ==>
              |ws| >= maxWorkers &&
              (forall k :: 0 <= k < |ws| ==> ws[r.position].waitingCount <= ws[k].waitingCount) &&
              (forall k :: 0 <= k < r.position ==> ws[r.position].waitingCount < ws[k].waitingCount)
  {
    if |ws| == 0 then CreateNew
    else
      var inactive := FirstInactive(ws);
      if inactive.Some? then ToWorker(inactive.value)
      else
        var least := if |ws| >= maxWorkers then LeastWaiting(ws) else None;
        if least.Some? then ToWorker(least.value) else CreateNew
  }

  /** Where a failure of `CreateWorker` or of the delivery to the worker happens, if anywhere. */
  datatype Fault = NoFault | CreateFails | DeliveryFails

  datatype RejectionType = Transient

  /**
   * The outcome for the message: delivered to a worker, rejected (when the
   * work item is a message), or left to the message loop's error log.
   */
  datatype Delivery = Delivered(worker: WorkerId) | Rejected(rejection: RejectionType) | LoggedByLoop

  datatype Received = Received(pool: Pool, delivery: Delivery)

  /** Appends a fresh, busy-free worker with the next id. */
  function AddWorker(p: Pool): (r: Pool)
    ensures r.workers == p.workers + [Worker(p.nextId, false, 0)]
    ensures r.nextId == p.nextId + 1
    ensures r.maxWorkers == p.maxWorkers && r.controller == p.controller
    ensures r.timerActive == p.timerActive && r.registered == p.registered
  {
    p.(workers := p.workers + [Worker(p.nextId, false, 0)], nextId := p.nextId + 1)
  }

  function Failure(isMessage: bool): Delivery {
    if isMessage then Rejected(Transient) else LoggedByLoop
  }

  /**
   * Routes one message work item. A failure to create the worker happens
   * before it is appended, so the list is unchanged; a failure to deliver to a
   * worker just created leaves that worker in the list.
   */
  function Receive(p: Pool, isMessage: bool, fault: Fault): (r: Received)
    ensures r.pool.maxWorkers == p.maxWorkers && r.pool.controller == p.controller
    ensures r.pool.timerActive == p.timerActive && r.pool.registered == p.registered
    // the pool grows by one worker, appended at the end, exactly when a new worker was created
    ensures r.pool.workers == p.workers ||
            (r.pool.workers == p.workers + [Worker(p.nextId, false, 0)] && r.pool.nextId == p.nextId + 1)
    ensures |r.pool.workers| > |p.workers| <==>
              RouteMessage(p.workers, p.maxWorkers) == CreateNew && fault != CreateFails
    // delivery goes to the routed worker; any failure is a transient rejection for a message
    ensures r.delivery.Delivered? <==>
              fault != DeliveryFails && (fault != CreateFails || RouteMessage(p.workers, p.maxWorkers).ToWorker?)
    ensures r.delivery.Delivered? ==> exists k :: 0 <= k < |r.pool.workers| && r.pool.workers[k].id == r.delivery.worker
    ensures !r.delivery.Delivered? ==> r.delivery == (if isMessage then Rejected(Transient) else LoggedByLoop)
  {
    var route := RouteMessage(p.workers, p.maxWorkers);
    if route.ToWorker? then
      if fault == DeliveryFails then Received(p, Failure(isMessage))
      else
        assert p.workers[route.position].id == p.workers[route.position].id;
        Received(p, Delivered(p.workers[route.position].id))
    else if fault == CreateFails then Received(p, Failure(isMessage))
    else
      var grown := AddWorker(p);
      assert grown.workers[|p.workers|].id == p.nextId;
      if fault == DeliveryFails then Received(grown, Failure(isMessage))
      else Received(grown, Delivered(p.nextId))
  }

  /**
   * With at least one allowed worker and every waiting count below
   * `int.MaxValue`, routing never takes the pool past `maxWorkers`.
   */
  lemma ReceiveKeepsPoolWithinMax(p: Pool, isMessage: bool, fault: Fault)
    requires p.maxWorkers >= 1 && |p.workers| <= p.maxWorkers && WaitingBelowIntMax(p.workers)
    ensures |Receive(p, isMessage, fault).pool.workers| <= p.maxWorkers
  {
    if |p.workers| >= p.maxWorkers {
      assert p.workers[0].waitingCount < IntMax;
      assert RouteMessage(p.workers, p.maxWorkers) != CreateNew;
    }
  }

  /** When every worker is busy with `int.MaxValue` waiting messages, a full pool still grows. */
  lemma SaturatedWaitingCountsOverflowMax(p: Pool)
    requires |p.workers| >= p.maxWorkers && |p.workers| > 0
    requires forall k :: 0 <= k < |p.workers| ==> !p.workers[k].inactive && p.workers[k].waitingCount == IntMax
    ensures |Receive(p, true, NoFault).pool.workers| == |p.workers| + 1 > p.maxWorkers
  {
  }

  // ---------------------------------------------------------------- worker state and removal

  /** The runtime reports a worker's current activity flag and waiting count. */
  function Observe(p: Pool, id: WorkerId, inactive: bool, waitingCount: nat): (r: Pool)
    ensures |r.workers| == |p.workers|
    ensures forall k :: 0 <= k < |p.workers| ==>
              r.workers[k] == if p.workers[k].id == id then Worker(id, inactive, waitingCount) else p.workers[k]
    ensures r.maxWorkers == p.maxWorkers && r.nextId == p.nextId && r.controller == p.controller
    ensures r.timerActive == p.timerActive && r.registered == p.registered
  {
    var ws := seq(|p.workers|, k requires 0 <= k < |p.workers| =>
                  if p.workers[k].id == id then Worker(id, inactive, waitingCount) else p.workers[k]);
    p.(workers := ws)
  }

  /** Removes the first worker with the given id (`List.Remove`). */
  function RemoveWorker(ws: seq<Worker>, id: WorkerId): (r: seq<Worker>)
    ensures (forall k :: 0 <= k < |ws| ==> ws[k].id != id) ==> r == ws
    ensures (exists k :: 0 <= k < |ws| && ws[k].id == id) ==> |r| == |ws| - 1
    ensures multiset(r) <= multiset(ws)
  {
    if |ws| == 0 then []
    else if ws[0].id == id then
      assert ws == [ws[0]] + ws[1..];
      ws[1..]
    else
      assert ws == [ws[0]] + ws[1..];
      assert forall k :: 1 <= k < |ws| ==> ws[k] == ws[1..][k - 1];
      [ws[0]] + RemoveWorker(ws[1..], id)
  }

  /** With unique ids, removing a worker's id deletes exactly that position and keeps the order of the rest. */
  lemma {:induction false} RemoveWorkerDeletesExactlyThatWorker(ws: seq<Worker>, i: nat)
    requires UniqueIds(ws) && i < |ws|
    ensures RemoveWorker(ws, ws[i].id) == ws[..i] + ws[i + 1..]
  {
    if i > 0 {
      assert UniqueIds(ws[1..]) by {
        forall a, b | 0 <= a < b < |ws[1..]| ensures ws[1..][a].id != ws[1..][b].id {
          assert ws[1..][a] == ws[a + 1] && ws[1..][b] == ws[b + 1];
        }
      }
      assert ws[0].id != ws[i].id;
      assert ws[1..][i - 1] == ws[i];
      RemoveWorkerDeletesExactlyThatWorker(ws[1..], i - 1);
      assert ws[1..][..i - 1] == ws[1..i];
      assert ws[1..][i..] == ws[i + 1..];
      assert [ws[0]] + ws[1..i] == ws[..i];
    }
  }

  datatype Destroyed = Destroyed(pool: Pool, unregistered: bool)

  /**
   * A worker was destroyed: it leaves the list, and once the list is empty the
   * pool unregisters itself as a message target.
   */
  function OnWorkerDestroyed(p: Pool, id: WorkerId): (r: Destroyed)
    ensures r.pool.workers == RemoveWorker(p.workers, id)
    ensures r.unregistered <==> |r.pool.workers| == 0
    ensures r.pool.registered == (p.registered && |r.pool.workers| > 0)
    ensures r.pool.maxWorkers == p.maxWorkers && r.pool.nextId == p.nextId
    ensures r.pool.controller == p.controller && r.pool.timerActive == p.timerActive
  {
    var ws := RemoveWorker(p.workers, id);
    if |ws| == 0 then Destroyed(p.(workers := ws, registered := false), true)
    else Destroyed(p.(workers := ws), false)
  }

  /** Destroying a worker of a pool with unique ids removes that worker and no other. */
  lemma DestroyedWorkerIsGone(p: Pool, i: nat)
    requires UniqueIds(p.workers) && i < |p.workers|
    ensures |OnWorkerDestroyed(p, p.workers[i].id).pool.workers| == |p.workers| - 1
    ensures forall k :: 0 <= k < |OnWorkerDestroyed(p, p.workers[i].id).pool.workers| ==>
              OnWorkerDestroyed(p, p.workers[i].id).pool.workers[k].id != p.workers[i].id
    ensures forall k :: 0 <= k < |p.workers| && k != i ==>
              p.workers[k] in OnWorkerDestroyed(p, p.workers[i].id).pool.workers
  {
    RemoveWorkerDeletesExactlyThatWorker(p.workers, i);
    var r := p.workers[..i] + p.workers[i + 1..];
    forall k | 0 <= k < |p.workers| && k != i ensures p.workers[k] in r {
      if k < i { assert r[k] == p.workers[k]; } else { assert r[k - 1] == p.workers[k]; }
    }
  }

  // ---------------------------------------------------------------- deactivation

  datatype ReasonCode = RuntimeRequested | OtherReason(code: nat)

  datatype DeactivationReason = DeactivationReason(code: ReasonCode, description: string)

  /** The reason the shrink controller gives a worker it deactivates. */
  const InactivityReason: DeactivationReason :=
    DeactivationReason(RuntimeRequested, "Worker deactivated due to inactivity.")

  /** A request to the runtime to deactivate one worker. */
  datatype Command = DeactivateWorker(worker: WorkerId, reason: DeactivationReason)

  datatype Deactivated = Deactivated(pool: Pool, commands: seq<Command>)

  /**
   * Deactivates the pool: every worker, in order, is asked to deactivate with
   * the same reason, and the monitor timer stops. Workers leave the list only
   * when they are destroyed.
   */
  function Deactivate(p: Pool, reason: DeactivationReason): (r: Deactivated)
    ensures |r.commands| == |p.workers|
    ensures forall k :: 0 <= k < |p.workers| ==> r.commands[k] == DeactivateWorker(p.workers[k].id, reason)
    ensures !r.pool.timerActive
    ensures r.pool.workers == p.workers && r.pool.controller == p.controller && r.pool.registered == p.registered
    ensures r.pool.maxWorkers == p.maxWorkers && r.pool.nextId == p.nextId
  {
    var commands := seq(|p.workers|, k requires 0 <= k < |p.workers| => DeactivateWorker(p.workers[k].id, reason));
    Deactivated(p.(timerActive := false), commands)
  }

  // ---------------------------------------------------------------- shrink controller

  function SumWaiting(ws: seq<Worker>): (r: nat)
    ensures |ws| == 0 ==> r == 0
  {
    if |ws| == 0 then 0 else ws[0].waitingCount + SumWaiting(ws[1..])
  }

  /** The mean waiting count, 0 for an empty pool. */
  function AverageWaiting(ws: seq<Worker>): (r: real)
    ensures r >= 0.0
    ensures |ws| > 0 ==> r * |ws| as real == SumWaiting(ws) as real
    ensures |ws| == 0 ==> r == 0.0
  {
    if |ws| == 0 then 0.0 else SumWaiting(ws) as real / |ws| as real
  }

  /** The workers that are inactive, in creation order. */
  function InactiveWorkers(ws: seq<Worker>): (r: seq<Worker>)
    ensures |r| <= |ws|
    ensures forall k :: 0 <= k < |r| ==> r[k].inactive && r[k] in ws
    ensures forall k :: 0 <= k < |ws| && ws[k].inactive ==> ws[k] in r
    // each inactive worker appears as often as in the pool, and no other worker appears
    ensures forall w :: multiset(r)[w] == if w.inactive then multiset(ws)[w] else 0
  {
    if |ws| == 0 then []
    else
      var rest := InactiveWorkers(ws[1..]);
      assert forall k :: 1 <= k < |ws| ==> ws[k] == ws[1..][k - 1];
      assert ws == [ws[0]] + ws[1..];
      (if ws[0].inactive then [ws[0]] else []) + rest
  }

  /** Whether the backoff since the last removal has passed, on a single clock. */
  predicate BackoffElapsed(now: int, lastRemoval: Option<int>)
    // the single-clock check is the two-clock check of the source at a local offset of 0
    ensures BackoffElapsed(now, lastRemoval) <==> BackoffElapsedAsWritten(now, 0, lastRemoval)
  {
    lastRemoval.None? || now - lastRemoval.value > WorkerRemovalBackoffMs
  }

  /**
   * The controller update of one tick, before any removal: the error is minus
   * the mean waiting count, the integral accumulates it, and the negative streak
   * grows while the control signal is negative.
   */
  function ControllerStep(c: Controller, ws: seq<Worker>): (r: Controller)
    ensures r.previousError == -AverageWaiting(ws)
    ensures r.integral == c.integral + r.previousError
    ensures r.lastRemoval == c.lastRemoval
    ensures r.negativeCount == (if Kp * r.previousError + Ki * r.integral + Kd * (r.previousError - c.previousError) < 0.0
                                then c.negativeCount + 1 else 0)
  {
    var error := -AverageWaiting(ws);
    var integral := c.integral + error;
    var derivative := error - c.previousError;
    var signal := Kp * error + Ki * integral + Kd * derivative;
    Controller(error, integral, if signal < 0.0 then c.negativeCount + 1 else 0, c.lastRemoval)
  }

  datatype Ticked = Ticked(pool: Pool, command: Option<Command>)

  /**
   * One tick of the periodic collection timer at time `now`. After more than
   * ten consecutive negative control signals, and with the backoff since the
   * last removal elapsed, one inactive worker chosen by `draw` is asked to
   * deactivate, the integral is scaled by (n - 1) / n for n inactive workers,
   * the streak restarts and the removal time is recorded.
   */
  function Tick(p: Pool, now: int, draw: nat): (r: Ticked)
    ensures r.pool.workers == p.workers && r.pool.maxWorkers == p.maxWorkers && r.pool.nextId == p.nextId
    ensures r.pool.timerActive == p.timerActive && r.pool.registered == p.registered
    ensures !p.timerActive ==> r == Ticked(p, None)
    // a removal happens exactly when the streak is long enough, the backoff passed and some worker is inactive
    ensures r.command.Some? <==>
              p.timerActive &&
              ControllerStep(p.controller, p.workers).negativeCount > ControlSignalNegativeMaxCount &&
              BackoffElapsed(now, p.controller.lastRemoval) &&
              (exists k :: 0 <= k < |p.workers| && p.workers[k].inactive)
    // ... and targets one inactive worker of the pool, for inactivity
    ensures r.command.Some? ==>
              r.command.value.reason == InactivityReason &&
              exists k :: 0 <= k < |p.workers| && p.workers[k].inactive && p.workers[k].id == r.command.value.worker
    // ... after which the controller winds its integral back for the n inactive workers and restarts the streak
    ensures r.command.Some? ==>
              |InactiveWorkers(p.workers)| > 0 &&
              r.pool.controller == AfterRemoval(ControllerStep(p.controller, p.workers), |InactiveWorkers(p.workers)|, now)
    ensures p.timerActive && r.command.None? ==> r.pool.controller == ControllerStep(p.controller, p.workers)
  {
    if !p.timerActive then Ticked(p, None)
    else
      var c := ControllerStep(p.controller, p.workers);
      var inactive := InactiveWorkers(p.workers);
      if c.negativeCount > ControlSignalNegativeMaxCount && BackoffElapsed(now, c.lastRemoval) && |inactive| > 0 then
        var n := |inactive|;
        var chosen := inactive[draw % n];
        Ticked(p.(controller := AfterRemoval(c, n, now)),
               Some(DeactivateWorker(chosen.id, InactivityReason)))
      else
        Ticked(p.(controller := c), None)
  }

  /**
   * The anti-windup factor for `n` inactive workers: the share of the integral
   * kept after one of them is removed.
   */
  function AntiWindUpFactor(n: nat): (f: real)
    requires n > 0
    ensures f * n as real == (n - 1) as real
  {
    (n - 1) as real / n as real
  }

  /**
   * The controller right after a removal at time `now` among `n` inactive
   * workers: the error is kept, the integral is wound back by the anti-windup
   * factor, the streak restarts and the removal time is recorded.
   */
  function AfterRemoval(c: Controller, n: nat, now: int): (r: Controller)
    requires n > 0
    ensures r.previousError == c.previousError
    ensures r.integral == c.integral * AntiWindUpFactor(n)
    ensures r.negativeCount == 0 && r.lastRemoval == Some(now)
  {
    Controller(c.previousError, c.integral * AntiWindUpFactor(n), 0, Some(now))
  }

  /** The anti-windup factor (n - 1) / n lies in [0, 1). */
  lemma AntiWindUpFactorBounded(n: nat)
    requires n > 0
    ensures 0.0 <= AntiWindUpFactor(n) < 1.0
  {
  }

  lemma NonPositiveScaled(x: real, f: real) returns (p: real)
    requires x <= 0.0 && 0.0 <= f
    ensures p == x * f && p <= 0.0
  {
    p := x * f;
    assert -p == (-x) * f;
  }

  /** The integral only accumulates non-positive errors, so it never turns positive. */
  lemma TickKeepsIntegralNonPositive(p: Pool, now: int, draw: nat)
    requires p.controller.integral <= 0.0
    ensures Tick(p, now, draw).pool.controller.integral <= 0.0
  {
    if p.timerActive {
      var c := ControllerStep(p.controller, p.workers);
      assert c.integral <= 0.0;
      var t := Tick(p, now, draw);
      if t.command.Some? {
        var n := |InactiveWorkers(p.workers)|;
        assert n > 0 && t.pool.controller == AfterRemoval(c, n, now);
        AfterRemovalKeepsIntegralNonPositive(c, n, now);
      }
    }
  }

  lemma AfterRemovalKeepsIntegralNonPositive(c: Controller, n: nat, now: int)
    requires n > 0 && c.integral <= 0.0
    ensures AfterRemoval(c, n, now).integral <= 0.0
  {
    AntiWindUpFactorBounded(n);
    var scaled := NonPositiveScaled(c.integral, AntiWindUpFactor(n));
  }

  /** An idle pool (no waiting messages) has zero error, so the integral stays where it is. */
  lemma IdlePoolHasZeroError(c: Controller, ws: seq<Worker>)
    requires forall k :: 0 <= k < |ws| ==> ws[k].waitingCount == 0
    ensures ControllerStep(c, ws).previousError == 0.0
    ensures ControllerStep(c, ws).integral == c.integral
  {
    ZeroSum(ws);
  }

  lemma {:induction false} ZeroSum(ws: seq<Worker>)
    requires forall k :: 0 <= k < |ws| ==> ws[k].waitingCount == 0
    ensures SumWaiting(ws) == 0
  {
    if |ws| > 0 {
      assert ws[0].waitingCount == 0;
      ZeroSum(ws[1..]);
    }
  }

  /** Two removals are always separated by more than the backoff. */
  lemma RemovalsRespectBackoff(p: Pool, now: int, draw: nat)
    requires Tick(p, now, draw).command.Some?
    ensures p.controller.lastRemoval.None? || now - p.controller.lastRemoval.value > WorkerRemovalBackoffMs
  {
  }

  /** A tick with a streak below ten cannot remove: the streak grows by at most one per tick. */
  lemma NoRemovalRightAfterRemoval(p: Pool, now: int, draw: nat)
    requires p.controller.negativeCount <= ControlSignalNegativeMaxCount - 1
    ensures Tick(p, now, draw).command.None?
    ensures Tick(p, now, draw).pool.controller.negativeCount <= p.controller.negativeCount + 1
  {
  }

  /** Consecutive ticks at the times in `clock`, with one draw each: the final pool and the commands issued. */
  function TickAll(p: Pool, clock: seq<int>, draws: seq<nat>): (r: (Pool, seq<Command>))
    requires |draws| == |clock|
    ensures |r.1| <= |clock|
    decreases |clock|
  {
    if |clock| == 0 then (p, [])
    else
      var t := Tick(p, clock[0], draws[0]);
      var rest := TickAll(t.pool, clock[1..], draws[1..]);
      (rest.0, (if t.command.Some? then [t.command.value] else []) + rest.1)
  }

  /** While the streak plus the number of ticks stays at ten, no tick removes a worker. */
  lemma {:induction false} ShortStreakBlocksRemovals(p: Pool, clock: seq<int>, draws: seq<nat>)
    requires |draws| == |clock|
    requires p.controller.negativeCount + |clock| <= ControlSignalNegativeMaxCount
    ensures TickAll(p, clock, draws).1 == []
    ensures TickAll(p, clock, draws).0.controller.negativeCount <= p.controller.negativeCount + |clock|
    decreases |clock|
  {
    if |clock| > 0 {
      NoRemovalRightAfterRemoval(p, clock[0], draws[0]);
      ShortStreakBlocksRemovals(Tick(p, clock[0], draws[0]).pool, clock[1..], draws[1..]);
    }
  }

  /**
   * A removal needs eleven consecutive negative signals: the ten ticks after
   * a removal cannot remove again, whatever the clock says.
   */
  lemma NoRemovalForTenTicksAfterRemoval(p: Pool, now: int, draw: nat, clock: seq<int>, draws: seq<nat>)
    requires Tick(p, now, draw).command.Some?
    requires |draws| == |clock| <= ControlSignalNegativeMaxCount
    ensures TickAll(Tick(p, now, draw).pool, clock, draws).1 == []
  {
    ShortStreakBlocksRemovals(Tick(p, now, draw).pool, clock, draws);
  }

  /** The worker named by a shrink command is removed once its destruction is reported. */
  lemma ShrinkThenDestroyRemovesAnInactiveWorker(p: Pool, now: int, draw: nat)
    requires UniqueIds(p.workers) && Tick(p, now, draw).command.Some?
    ensures |OnWorkerDestroyed(Tick(p, now, draw).pool, Tick(p, now, draw).command.value.worker).pool.workers|
            == |p.workers| - 1
  {
    var id := Tick(p, now, draw).command.value.worker;
    var k :| 0 <= k < |p.workers| && p.workers[k].inactive && p.workers[k].id == id;
    DestroyedWorkerIsGone(Tick(p, now, draw).pool, k);
  }

  // ---------------------------------------------------------------- finding: two clocks in the backoff

  /**
   * The backoff check as written: the current time is read from the local
   * clock while the removal time was recorded from the UTC clock, so the
   * elapsed time is off by the local offset from UTC.
   */
  predicate BackoffElapsedAsWritten(utcNow: int, localOffset: int, lastRemovalUtc: Option<int>)
    // the local offset shortens the effective backoff by exactly that offset (lengthens it west of UTC)
    ensures BackoffElapsedAsWritten(utcNow, localOffset, lastRemovalUtc) <==>
              lastRemovalUtc.None? || utcNow - lastRemovalUtc.value > WorkerRemovalBackoffMs - localOffset
  {
    lastRemovalUtc.None? || (utcNow + localOffset) - lastRemovalUtc.value > WorkerRemovalBackoffMs
  }

  /** East of UTC by more than the backoff, the as-written check never holds a removal back. */
  lemma AsWrittenBackoffIgnoredEastOfUtc(utcNow: int, localOffset: int, lastRemovalUtc: int)
    requires localOffset > WorkerRemovalBackoffMs && lastRemovalUtc <= utcNow
    ensures BackoffElapsedAsWritten(utcNow, localOffset, Some(lastRemovalUtc))
  {
  }

  /** One hour east of UTC, a removal 0.5 s ago counts as past the backoff; on one clock it does not. */
  lemma AsWrittenBackoffTooShortAtUtcPlusOne()
    ensures BackoffElapsedAsWritten(10000, 3600000, Some(9500))
    ensures !BackoffElapsed(10000, Some(9500))
  {
  }

  /** One hour west of UTC, a removal 2 s ago still blocks the next one; on one clock it does not. */
  lemma AsWrittenBackoffTooLongAtUtcMinusOne()
    ensures !BackoffElapsedAsWritten(10000000, -3600000, Some(9998000))
    ensures BackoffElapsed(10000000, Some(9998000))
  {
  }

  // ---------------------------------------------------------------- the pool over time

  datatype Event =
    | MessageArrives(isMessage: bool, fault: Fault)
    | WorkerObserved(id: WorkerId, inactive: bool, waitingCount: nat)
    | WorkerDestroyed(id: WorkerId)
    | TimerTick(now: int, draw: nat)
    | DeactivateAll(reason: DeactivationReason)

  function Step(p: Pool, e: Event): Pool {
    match e
    case MessageArrives(isMessage, fault) => Receive(p, isMessage, fault).pool
    case WorkerObserved(id, inactive, waitingCount) => Observe(p, id, inactive, waitingCount)
    case WorkerDestroyed(id) => OnWorkerDestroyed(p, id).pool
    case TimerTick(now, draw) => Tick(p, now, draw).pool
    case DeactivateAll(reason) => Deactivate(p, reason).pool
  }

  function Run(p: Pool, events: seq<Event>): Pool
    decreases |events|
  {
    if |events| == 0 then p else Run(Step(p, events[0]), events[1..])
  }

  /** The runtime never reports a waiting count of `int.MaxValue` or more. */
  predicate PlausibleEvents(events: seq<Event>) {
    forall k :: 0 <= k < |events| && events[k].WorkerObserved? ==> events[k].waitingCount < IntMax
  }

  /** The pool invariant: within `maxWorkers`, waiting counts below `int.MaxValue`, ids unique and issued. */
  predicate WellFormed(p: Pool) {
    && |p.workers| <= p.maxWorkers
    && WaitingBelowIntMax(p.workers)
    && UniqueIds(p.workers)
    && IdsBelow(p.workers, p.nextId)
  }

  lemma ReceiveKeepsWellFormed(p: Pool, isMessage: bool, fault: Fault)
    requires p.maxWorkers >= 1 && WellFormed(p)
    ensures WellFormed(Receive(p, isMessage, fault).pool)
  {
    ReceiveKeepsPoolWithinMax(p, isMessage, fault);
  }

  lemma ObserveKeepsWellFormed(p: Pool, id: WorkerId, inactive: bool, waitingCount: nat)
    requires WellFormed(p) && waitingCount < IntMax
    ensures WellFormed(Observe(p, id, inactive, waitingCount))
  {
    var r := Observe(p, id, inactive, waitingCount).workers;
    assert forall k :: 0 <= k < |r| ==> r[k].id == p.workers[k].id;
  }

  /** Cutting one worker out of the list keeps ids unique and issued and waiting counts bounded. */
  lemma CutKeepsWorkerInvariants(ws: seq<Worker>, i: nat, nextId: WorkerId)
    requires i < |ws| && UniqueIds(ws) && IdsBelow(ws, nextId) && WaitingBelowIntMax(ws)
    ensures UniqueIds(ws[..i] + ws[i + 1..])
    ensures IdsBelow(ws[..i] + ws[i + 1..], nextId)
    ensures WaitingBelowIntMax(ws[..i] + ws[i + 1..])
  {
    var r := ws[..i] + ws[i + 1..];
    assert forall a :: 0 <= a < |r| ==> r[a] == ws[if a < i then a else a + 1];
  }

  lemma DestroyKeepsWellFormed(p: Pool, id: WorkerId)
    requires WellFormed(p)
    ensures WellFormed(OnWorkerDestroyed(p, id).pool)
  {
    if i :| 0 <= i < |p.workers| && p.workers[i].id == id {
      RemoveWorkerDeletesExactlyThatWorker(p.workers, i);
      CutKeepsWorkerInvariants(p.workers, i, p.nextId);
    }
  }

  lemma StepKeepsWellFormed(p: Pool, e: Event)
    requires p.maxWorkers >= 1 && WellFormed(p)
    requires e.WorkerObserved? ==> e.waitingCount < IntMax
    ensures WellFormed(Step(p, e)) && Step(p, e).maxWorkers == p.maxWorkers
  {
    match e
    case MessageArrives(isMessage, fault) => ReceiveKeepsWellFormed(p, isMessage, fault);
    case WorkerObserved(id, inactive, waitingCount) => ObserveKeepsWellFormed(p, id, inactive, waitingCount);
    case WorkerDestroyed(id) => DestroyKeepsWellFormed(p, id);
    case TimerTick(now, draw) =>
    case DeactivateAll(reason) =>
  }

  /** Whatever happens, a well-formed pool with at least one allowed worker never exceeds `maxWorkers`. */
  lemma {:induction false} PoolNeverExceedsMax(p: Pool, events: seq<Event>)
    requires p.maxWorkers >= 1 && WellFormed(p) && PlausibleEvents(events)
    ensures WellFormed(Run(p, events))
    ensures |Run(p, events).workers| <= p.maxWorkers
    decreases |events|
  {
    if |events| > 0 {
      StepKeepsWellFormed(p, events[0]);
      assert PlausibleEvents(events[1..]) by {
        forall k | 0 <= k < |events[1..]| && events[1..][k].WorkerObserved?
          ensures events[1..][k].waitingCount < IntMax
        {
          assert events[1..][k] == events[k + 1];
        }
      }
      PoolNeverExceedsMax(Step(p, events[0]), events[1..]);
    }
  }

  /** A new pool is well-formed for any positive maximum. */
  lemma NewPoolIsWellFormed(maxWorkers: int, proactiveWorkerCollection: bool)
    requires maxWorkers >= 1
    ensures WellFormed(NewPool(maxWorkers, proactiveWorkerCollection))
  {
  }
}
