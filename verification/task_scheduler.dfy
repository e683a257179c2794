/**
 * The per-activation task scheduler: a single-concurrency, in-order scheduler
 * that hands tasks to the activation's work-item group. Tasks act on one
 * shared integer, as in the scheduler's own tests; the work-item group is a
 * FIFO queue that runs its tasks one at a time.
 *
 * The runtime's `TryExecuteTask` is the task library's primitive: it runs a
 * task that has not started yet and reports whether it did.
 */
module ActivationScheduler {
  import opened Common

  type TaskId = nat
  type GrainContextId = nat

  /** What a task does to the shared counter `n`. */
  datatype Work =
    | AddConst(addend: int)
    | MulConst(factor: int)
      /** reads `n`, sleeps, writes back the value read plus one */
    | ReadSleepWrite

  datatype SchedTask = SchedTask(id: TaskId, work: Work)

  function ApplyWork(w: Work, n: int): int {
    match w
    case AddConst(k) => n + k
    case MulConst(k) => n * k
    case ReadSleepWrite => n + 1
  }

  /**
   * What the model can observe: the counter, the tasks started so far, the
   * order in which tasks ran, and the tasks reported as not done in the log.
   */
  datatype Machine = Machine(n: int, started: set<TaskId>, trace: seq<TaskId>, notDoneLog: seq<TaskId>)

  const InitialMachine: Machine := Machine(0, {}, [], [])

  /** The activation's work-item group: its grain context and its queue of tasks. */
  datatype WorkItemGroup = WorkItemGroup(context: GrainContextId, queue: seq<SchedTask>)

  datatype Executed = Executed(machine: Machine, done: bool)

  /** The task library's `TryExecuteTask`: runs the task unless it has already started. */
  function TryExecuteTask(m: Machine, t: SchedTask): (r: Executed)
    ensures r.done <==> t.id !in m.started
    ensures t.id in r.machine.started && r.machine.notDoneLog == m.notDoneLog
  {
    if t.id in m.started then Executed(m, false)
    else Executed(Machine(ApplyWork(t.work, m.n), m.started + {t.id}, m.trace + [t.id], m.notDoneLog), true)
  }

  /** Records a task that was not done; the source logs this only in a debug build. */
  function LogNotDone(m: Machine, t: SchedTask, debugBuild: bool): Machine {
    if debugBuild then m.(notDoneLog := m.notDoneLog + [t.id]) else m
  }

  /**
   * Runs a task handed over by the work-item group. A task that was not done
   * is only logged: the call always returns normally.
   */
  function RunTaskFromWorkItemGroup(m: Machine, t: SchedTask, debugBuild: bool): (r: Machine)
    // a task that has not started runs now, after everything that ran before
    ensures t.id !in m.started ==>
              r.n == ApplyWork(t.work, m.n) && r.trace == m.trace + [t.id] &&
              r.started == m.started + {t.id} && r.notDoneLog == m.notDoneLog
    // a task that already started is not run again; a debug build logs it
    ensures t.id in m.started ==>
              r.n == m.n && r.trace == m.trace && r.started == m.started &&
              r.notDoneLog == m.notDoneLog + (if debugBuild then [t.id] else [])
  {
    var e := TryExecuteTask(m, t);
    if !e.done then LogNotDone(e.machine, t, debugBuild) else e.machine
  }

  /** Queuing appends the task to the work-item group; nothing runs. */
  function QueueTask(g: WorkItemGroup, t: SchedTask): (r: WorkItemGroup)
    ensures r.context == g.context
    ensures r.queue == g.queue + [t]
    ensures |r.queue| == |g.queue| + 1 && r.queue[|g.queue|] == t
  {
    g.(queue := g.queue + [t])
  }

  /** Inline execution needs a task that was never queued, on the thread of the group's own grain context. */
  predicate CanExecuteInline(previouslyQueued: bool, current: Option<GrainContextId>, g: WorkItemGroup) {
    !previouslyQueued && current == Some(g.context)
  }

  /**
   * Tries to run a task synchronously in the current call. When inline
   * execution is refused nothing happens and the answer is no; otherwise the
   * answer is whatever `TryExecuteTask` reports.
   */
  function TryExecuteTaskInline(m: Machine, g: WorkItemGroup, t: SchedTask, previouslyQueued: bool,
                                current: Option<GrainContextId>, debugBuild: bool): (r: Executed)
    ensures !CanExecuteInline(previouslyQueued, current, g) ==> r == Executed(m, false)
    ensures r.done <==> CanExecuteInline(previouslyQueued, current, g) && t.id !in m.started
    // run inline, a task has the same effect as when the work-item group runs it
    ensures CanExecuteInline(previouslyQueued, current, g) ==> r.machine == RunTaskFromWorkItemGroup(m, t, debugBuild)
  {
    if !CanExecuteInline(previouslyQueued, current, g) then Executed(m, false)
    else
      var e := TryExecuteTask(m, t);
      Executed(if !e.done then LogNotDone(e.machine, t, debugBuild) else e.machine, e.done)
  }

  /** A task run inline is not run a second time when the group later hands it over. */
  lemma InlinedTaskRunsOnce(m: Machine, g: WorkItemGroup, t: SchedTask, current: Option<GrainContextId>, debugBuild: bool)
    requires TryExecuteTaskInline(m, g, t, false, current, debugBuild).done
    ensures RunTaskFromWorkItemGroup(TryExecuteTaskInline(m, g, t, false, current, debugBuild).machine, t, debugBuild).n
            == ApplyWork(t.work, m.n)
  {
  }

  // ---------------------------------------------------------------- FIFO hand-off

  /** The work-item group runs its queue front to back, one task at a time. */
  function RunQueue(m: Machine, queue: seq<SchedTask>, debugBuild: bool): Machine
    decreases |queue|
  {
    if |queue| == 0 then m else RunQueue(RunTaskFromWorkItemGroup(m, queue[0], debugBuild), queue[1..], debugBuild)
  }

  /** The sequential reference semantics: the works applied left to right. */
  function ApplyAll(works: seq<Work>, n: int): int
    decreases |works|
  {
    if |works| == 0 then n else ApplyAll(works[1..], ApplyWork(works[0], n))
  }

  function Works(queue: seq<SchedTask>): (r: seq<Work>)
    ensures |r| == |queue| && forall k :: 0 <= k < |queue| ==> r[k] == queue[k].work
  {
    if |queue| == 0 then [] else [queue[0].work] + Works(queue[1..])
  }

  function Ids(queue: seq<SchedTask>): (r: seq<TaskId>)
    ensures |r| == |queue| && forall k :: 0 <= k < |queue| ==> r[k] == queue[k].id
  {
    if |queue| == 0 then [] else [queue[0].id] + Ids(queue[1..])
  }

  /** The queued tasks are distinct and none has started. */
  predicate Unstarted(queue: seq<SchedTask>, started: set<TaskId>) {
    && (forall a, b :: 0 <= a < b < |queue| ==> queue[a].id != queue[b].id)
    && (forall k :: 0 <= k < |queue| ==> queue[k].id !in started)
  }

  /**
   * Draining a queue of distinct, unstarted tasks runs each exactly once, in
   * queue order, with the effect of running their work sequentially.
   */
  lemma RunQueueIsSequential(m: Machine, queue: seq<SchedTask>, debugBuild: bool)
    requires Unstarted(queue, m.started)
    ensures RunQueue(m, queue, debugBuild).n == ApplyAll(Works(queue), m.n)
    ensures RunQueue(m, queue, debugBuild).trace == m.trace + Ids(queue)
    ensures RunQueue(m, queue, debugBuild).notDoneLog == m.notDoneLog
  {
    RunQueueCounter(m, queue, debugBuild);
    RunQueueOrder(m, queue, debugBuild);
  }

  lemma {:induction false} RunQueueCounter(m: Machine, queue: seq<SchedTask>, debugBuild: bool)
    requires Unstarted(queue, m.started)
    ensures RunQueue(m, queue, debugBuild).n == ApplyAll(Works(queue), m.n)
    decreases |queue|
  {
    if |queue| > 0 {
      RestUnstarted(m, queue, debugBuild);
      RunQueueCounter(RunTaskFromWorkItemGroup(m, queue[0], debugBuild), queue[1..], debugBuild);
    }
  }

  lemma {:induction false} RunQueueOrder(m: Machine, queue: seq<SchedTask>, debugBuild: bool)
    requires Unstarted(queue, m.started)
    ensures RunQueue(m, queue, debugBuild).trace == m.trace + Ids(queue)
    ensures RunQueue(m, queue, debugBuild).notDoneLog == m.notDoneLog
    decreases |queue|
  {
    if |queue| > 0 {
      var m' := RunTaskFromWorkItemGroup(m, queue[0], debugBuild);
      assert m'.trace == m.trace + [queue[0].id] && m'.notDoneLog == m.notDoneLog by {
        assert queue[0].id !in m.started;
      }
      RestUnstarted(m, queue, debugBuild);
      RunQueueOrder(m', queue[1..], debugBuild);
      assert m'.trace + Ids(queue[1..]) == m.trace + Ids(queue) by {
        assert Ids(queue) == [queue[0].id] + Ids(queue[1..]);
      }
    }
  }

  lemma RestUnstarted(m: Machine, queue: seq<SchedTask>, debugBuild: bool)
    requires |queue| > 0 && Unstarted(queue, m.started)
    ensures Unstarted(queue[1..], RunTaskFromWorkItemGroup(m, queue[0], debugBuild).started)
  {
    var rest := queue[1..];
    var started := RunTaskFromWorkItemGroup(m, queue[0], debugBuild).started;
    assert started == m.started + {queue[0].id};
    forall k | 0 <= k < |rest| ensures rest[k].id !in started {
      assert rest[k] == queue[k + 1];
    }
    forall a, b | 0 <= a < b < |rest| ensures rest[a].id != rest[b].id {
      assert rest[a] == queue[a + 1] && rest[b] == queue[b + 1];
    }
  }

  /** Running one more work after a sequence applies it to the sequence's result. */
  lemma {:induction false} ApplyAllAppend(works: seq<Work>, w: Work, n: int)
    ensures ApplyAll(works + [w], n) == ApplyWork(w, ApplyAll(works, n))
    decreases |works|
  {
    if |works| > 0 {
      assert (works + [w])[1..] == works[1..] + [w];
      ApplyAllAppend(works[1..], w, ApplyWork(works[0], n));
    }
  }

  /**
   * A task refused for inline execution is not lost: queued behind the
   * group's pending tasks, it runs exactly once when the group drains, after
   * them and on the counter they leave.
   */
  lemma RefusedInlineTaskRunsOnceFromQueue(m: Machine, g: WorkItemGroup, t: SchedTask, previouslyQueued: bool,
                                           current: Option<GrainContextId>, debugBuild: bool)
    requires !CanExecuteInline(previouslyQueued, current, g)
    requires Unstarted(g.queue + [t], m.started) && t.id !in m.trace
    ensures !TryExecuteTaskInline(m, g, t, previouslyQueued, current, debugBuild).done
    ensures var drained := RunQueue(TryExecuteTaskInline(m, g, t, previouslyQueued, current, debugBuild).machine,
                                    QueueTask(g, t).queue, debugBuild);
            && drained.trace == m.trace + Ids(g.queue) + [t.id]
            && multiset(drained.trace)[t.id] == 1
            && drained.n == ApplyWork(t.work, ApplyAll(Works(g.queue), m.n))
  {
    var queue := g.queue + [t];
    assert TryExecuteTaskInline(m, g, t, previouslyQueued, current, debugBuild).machine == m;
    assert QueueTask(g, t).queue == queue;
    RunQueueIsSequential(m, queue, debugBuild);
    AppendedIdsAndWorks(g.queue, t);
    ApplyAllAppend(Works(g.queue), t.work, m.n);
    LastIdOccursOnce(m.trace, g.queue, t);
  }

  lemma AppendedIdsAndWorks(queue: seq<SchedTask>, t: SchedTask)
    ensures Ids(queue + [t]) == Ids(queue) + [t.id]
    ensures Works(queue + [t]) == Works(queue) + [t.work]
  {
  }

  /** A task whose id is new to the trace and to the tasks ahead of it appears once after them. */
  lemma LastIdOccursOnce(trace: seq<TaskId>, queue: seq<SchedTask>, t: SchedTask)
    requires Unstarted(queue + [t], {}) && t.id !in trace
    ensures multiset(trace + Ids(queue) + [t.id])[t.id] == 1
  {
    var all := queue + [t];
    assert t.id !in Ids(queue) by {
      forall k | 0 <= k < |queue| ensures Ids(queue)[k] != t.id {
        assert all[k] == queue[k] && all[|queue|] == t;
      }
    }
    assert multiset(trace + Ids(queue) + [t.id]) == multiset(trace) + multiset(Ids(queue)) + multiset{t.id};
  }

  /** Queuing tasks one by one and draining the group runs them in the order they were queued. */
  lemma QueueThenDrainIsFifo(g: WorkItemGroup, t1: SchedTask, t2: SchedTask, m: Machine, debugBuild: bool)
    requires g.queue == [] && t1.id != t2.id && t1.id !in m.started && t2.id !in m.started
    ensures RunQueue(m, QueueTask(QueueTask(g, t1), t2).queue, debugBuild).trace == m.trace + [t1.id, t2.id]
    ensures RunQueue(m, QueueTask(QueueTask(g, t1), t2).queue, debugBuild).n == ApplyWork(t2.work, ApplyWork(t1.work, m.n))
  {
    var q := QueueTask(QueueTask(g, t1), t2).queue;
    assert q == [t1, t2];
    RunQueueIsSequential(m, q, debugBuild);
    assert Works(q) == [t1.work, t2.work];
    assert Ids(q) == [t1.id, t2.id];
    assert ApplyAll([t2.work], ApplyWork(t1.work, m.n)) == ApplyWork(t2.work, ApplyWork(t1.work, m.n));
  }

  /** `n + 5` queued before `n * 3`, starting from 0, leaves 15; the other order would leave 5. */
  lemma SimpleFifoYieldsFifteen(debugBuild: bool)
    ensures RunQueue(InitialMachine, QueueTask(QueueTask(WorkItemGroup(0, []), SchedTask(1, AddConst(5))),
                                              SchedTask(2, MulConst(3))).queue, debugBuild).n == 15
    ensures ApplyWork(AddConst(5), ApplyWork(MulConst(3), 0)) == 5
  {
    QueueThenDrainIsFifo(WorkItemGroup(0, []), SchedTask(1, AddConst(5)), SchedTask(2, MulConst(3)), InitialMachine, debugBuild);
  }

  /** k read-sleep-write tasks run one after another add exactly k: no update is lost. */
  lemma {:induction false} SerialReadSleepWriteAddsCount(works: seq<Work>, n: int)
    requires forall k :: 0 <= k < |works| ==> works[k] == ReadSleepWrite
    ensures ApplyAll(works, n) == n + |works|
    decreases |works|
  {
    if |works| > 0 {
      SerialReadSleepWriteAddsCount(works[1..], n + 1);
    }
  }

  /** Ten read-sleep-write sub-tasks queued on the group, from 0, leave 10. */
  lemma TenSubTasksYieldTen(debugBuild: bool)
    ensures RunQueue(InitialMachine, seq(10, k requires 0 <= k => SchedTask(k, ReadSleepWrite)), debugBuild).n == 10
  {
    var queue := seq(10, k requires 0 <= k => SchedTask(k, ReadSleepWrite));
    RunQueueIsSequential(InitialMachine, queue, debugBuild);
    SerialReadSleepWriteAddsCount(Works(queue), 0);
  }
}
