/** The records the Foreman works on: worker groups read from the group store,
    their event schedules, tasks, and the Foreman's view of one worker (a handle).

    The Worker thread class itself is not part of this model; a handle keeps
    only the flags the Foreman reads and sets, and the Worker operations the
    Foreman calls (pause, unpause, set_redundant, add_work) become updates of
    those flags. */
module Entities {
  import opened Naming

  datatype Option<T> = None | Some(value: T)

  /** An opaque work item from the pending-task queue. */
  datatype Task = Task(id: nat)

  /** One time-of-day rule of a worker group.  Every field is kept as the
      string (or count) the store returns, so empty and unknown values are
      representable. */
  datatype EventSchedule = EventSchedule(
    scheduleTime: string,       // "HH:MM"
    repetition: string,         // "daily", "weekday", "weekend" or a day name
    scheduleTask: string,       // "pause", "resume" or "count"
    scheduleWorkerCount: nat)   // used by "count"

  datatype WorkerGroup = WorkerGroup(
    id: int,
    name: string,
    numberOfWorkers: nat,
    schedules: seq<EventSchedule>)

  /** The Foreman's view of one Worker thread. */
  datatype Handle = Handle(
    threadId: WorkerKey,
    name: WorkerName,
    groupId: int,
    idle: bool,
    paused: bool,
    alive: bool,
    redundant: bool,
    immediate: bool,
    work: seq<Task>)

  /** A worker just constructed and started: alive, idle, unpaused, not doomed. */
  function NewHandle(k: WorkerKey, name: WorkerName, groupId: int): Handle
  {
    Handle(k, name, groupId, true, false, true, false, false, [])
  }

  /** Worker.set_redundant(immediate). */
  function SetRedundant(h: Handle, immediate: bool): Handle
  {
    h.(redundant := true, immediate := immediate)
  }

  /** Worker.pause(). */
  function Pause(h: Handle): Handle
  {
    h.(paused := true)
  }

  /** Worker.unpause(). */
  function Unpause(h: Handle): Handle
  {
    h.(paused := false)
  }

  /** Worker.add_work(task). */
  function AddWork(h: Handle, t: Task): Handle
  {
    h.(work := h.work + [t])
  }

  /** The test fetch_available_worker_ids and check_for_idle_workers apply. */
  predicate Available(h: Handle)
  {
    h.idle && h.alive && !h.paused
  }

  /** Marking a handle with its own idle flag as the immediate flag keeps
      everything but the two redundancy flags, and doing it twice is doing it once. */
  lemma MarkIdempotent(h: Handle)
    ensures SetRedundant(h, h.idle).idle == h.idle
    ensures SetRedundant(SetRedundant(h, h.idle), SetRedundant(h, h.idle).idle) == SetRedundant(h, h.idle)
  {
  }
}
