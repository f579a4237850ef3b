/** One dispatch step of the Foreman's main loop: take an idle-worker token,
    take a pending task, and hand it to the first worker that accepts work.

    The idle-worker semaphore is a counter and the pending-task queue a
    sequence. A blocking acquire that times out is the step with no token; a
    get that times out is the step with an empty queue. Worker.can_accept_work
    is not part of this model and is a parameter. */
module Dispatch {
  import opened Naming
  import opened Entities
  import opened Pools

  /** What the dispatcher owns: the pool, the semaphore count and the queue. */
  datatype Feed = Feed(pool: Pool, idle: nat, pending: seq<Task>)

  datatype Outcome =
    | NoIdleWorker                        // acquire timed out
    | Aborted                             // abort flag seen after acquiring
    | NoTask                              // queue empty: token released
    | QueueShutDown                       // queue shut down: leave the loop
    | Assigned(key: WorkerKey, task: Task)
    | Dropped(task: Task)                 // no worker accepted: the task is lost

  /** The dispatch block of run. */
  function Step(f: Feed, abort: bool, shutDown: bool, accepts: Handle -> bool): (Feed, Outcome)
  {
    if f.idle == 0 then (f, NoIdleWorker)
    else if abort then (f.(idle := f.idle - 1), Aborted)
    else if f.pending == [] then
      if shutDown then (f.(idle := f.idle - 1), QueueShutDown) else (f, NoTask)
    else
      var t := f.pending[0];
      match FirstAccepting(f.pool.order, f.pool.threads, accepts)
      case None => (Feed(f.pool, f.idle - 1, f.pending[1..]), Dropped(t))
      case Some(i) =>
        var k := f.pool.order[i];
        (Feed(Pool(f.pool.order, f.pool.threads[k := AddWork(f.pool.threads[k], t)]), f.idle - 1, f.pending[1..]),
         Assigned(k, t))
  }

  /** Whether the main loop ends after this step. */
  predicate Leaves(o: Outcome)
  {
    o.Aborted? || o.QueueShutDown?
  }

  /** The tasks that left the queue in this step. */
  function Taken(o: Outcome): seq<Task>
  {
    match o
    case Assigned(_, t) => [t]
    case Dropped(t) => [t]
    case _ => []
  }

  /* ---------------------------------------------------------------------- */

  /** Tokens: every step that takes no task and goes on looping leaves the
      semaphore count as it was (an empty queue gives the token back); every
      other step that got a token has used it up. */
  lemma StepTokens(f: Feed, abort: bool, shutDown: bool, accepts: Handle -> bool)
    ensures var (g, o) := Step(f, abort, shutDown, accepts);
      && (o.NoIdleWorker? || o.NoTask? ==> g == f)
      && (o.NoTask? ==> f.pending == [] && !shutDown && !abort && f.idle > 0)
      && (!o.NoIdleWorker? && !o.NoTask? ==> f.idle > 0 && g.idle == f.idle - 1)
      && (o.NoIdleWorker? <==> f.idle == 0)
  {
  }

  /** The loop is left only on the abort flag or on a shut-down, empty queue. */
  lemma StepLeaves(f: Feed, abort: bool, shutDown: bool, accepts: Handle -> bool)
    ensures var (g, o) := Step(f, abort, shutDown, accepts);
      && (o.Aborted? <==> f.idle > 0 && abort)
      && (o.QueueShutDown? <==> f.idle > 0 && !abort && f.pending == [] && shutDown)
  {
  }

  /** No task is created or duplicated: the queue before the step is the tasks
      taken followed by the queue after it, and a task is taken only when there
      was a token and the loop was not aborted. */
  lemma StepConservesTasks(f: Feed, abort: bool, shutDown: bool, accepts: Handle -> bool)
    ensures var (g, o) := Step(f, abort, shutDown, accepts);
      && f.pending == Taken(o) + g.pending
      && (Taken(o) != [] ==> f.idle > 0 && !abort && Taken(o) == [f.pending[0]])
  {
  }

  /** A task goes to the first handle, in insertion order, that accepts work;
      that handle gets the task appended to its work, and nothing else in the
      pool changes. */
  lemma StepAssignsFirst(f: Feed, abort: bool, shutDown: bool, accepts: Handle -> bool)
    requires PoolOk(f.pool)
    ensures var (g, o) := Step(f, abort, shutDown, accepts);
      o.Assigned? ==>
        && o.key in f.pool.threads && accepts(f.pool.threads[o.key])
        && (exists i :: 0 <= i < |f.pool.order| && f.pool.order[i] == o.key
              && forall j :: 0 <= j < i ==> !accepts(f.pool.threads[f.pool.order[j]]))
        && g.pool.order == f.pool.order
        && g.pool.threads == f.pool.threads[o.key := AddWork(f.pool.threads[o.key], o.task)]
        && PoolOk(g.pool)
  {
    var (g, o) := Step(f, abort, shutDown, accepts);
    if o.Assigned? {
      var i := FirstAccepting(f.pool.order, f.pool.threads, accepts).value;
      assert forall j :: 0 <= j < i ==> f.pool.order[j] in f.pool.threads;
    }
  }

  /** A task is dropped only when no handle at all accepts work, and then the
      pool is untouched. */
  lemma StepDrops(f: Feed, abort: bool, shutDown: bool, accepts: Handle -> bool)
    requires PoolOk(f.pool)
    ensures var (g, o) := Step(f, abort, shutDown, accepts);
      && (o.Dropped? ==> g.pool == f.pool && forall k :: k in f.pool.threads ==> !accepts(f.pool.threads[k]))
      && (f.idle > 0 && !abort && f.pending != [] && (exists k :: k in f.pool.threads && accepts(f.pool.threads[k]))
          ==> o.Assigned?)
  {
    var (g, o) := Step(f, abort, shutDown, accepts);
    forall k | k in f.pool.threads && o.Dropped?
      ensures !accepts(f.pool.threads[k])
    {
      var i :| 0 <= i < |f.pool.order| && f.pool.order[i] == k;
    }
    if f.idle > 0 && !abort && f.pending != [] && (exists k :: k in f.pool.threads && accepts(f.pool.threads[k])) {
      var k :| k in f.pool.threads && accepts(f.pool.threads[k]);
      var i :| 0 <= i < |f.pool.order| && f.pool.order[i] == k;
    }
  }

  /** The first accepting position is determined by the positions before it:
      a loop that stops at the first accepting handle finds exactly it. */
  lemma {:induction false} FirstAcceptingAt(order: seq<WorkerKey>, threads: map<WorkerKey, Handle>, accepts: Handle -> bool, i: nat)
    requires i < |order| && order[i] in threads && accepts(threads[order[i]])
    requires forall j :: 0 <= j < i && order[j] in threads ==> !accepts(threads[order[j]])
    ensures FirstAccepting(order, threads, accepts) == Some(i)
  {
    if i > 0 {
      FirstAcceptingAt(order[1..], threads, accepts, i - 1);
    }
  }
}
