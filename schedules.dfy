/** Time-of-day event schedules (manage_event_schedules and run_task).

    The wall clock is not read here: the caller passes the current "HH:MM"
    string and the weekday number (Monday is 0), as datetime.weekday() gives it. */
module Schedules {
  import opened Naming
  import opened Entities
  import opened Pools
  import opened Reconciliation

  const Days: seq<string> := ["monday", "tuesday", "wednesday", "thursday", "friday", "saturday", "sunday"]
  const WeekendDays: seq<string> := ["saturday", "sunday"]

  /** The chain of guards manage_event_schedules applies to one schedule. */
  predicate Fires(s: EventSchedule, timeNow: string, dayOfWeek: nat)
    requires dayOfWeek < 7
  {
    && s.scheduleTime != ""
    && timeNow == s.scheduleTime
    && s.repetition != ""
    && (|| s.repetition == "daily"
        || (s.repetition == "weekday" && Days[dayOfWeek] !in WeekendDays)
        || (s.repetition == "weekend" && Days[dayOfWeek] in WeekendDays)
        || s.repetition == Days[dayOfWeek])
  }

  /** The firing rule restated on the weekday number: Monday to Friday are
      0 to 4, Saturday and Sunday are 5 and 6. */
  lemma FiresIff(s: EventSchedule, timeNow: string, dayOfWeek: nat)
    requires dayOfWeek < 7
    ensures Fires(s, timeNow, dayOfWeek) <==>
      && s.scheduleTime != "" && s.scheduleTime == timeNow
      && (|| s.repetition == "daily"
          || (s.repetition == "weekday" && dayOfWeek < 5)
          || (s.repetition == "weekend" && dayOfWeek >= 5)
          || s.repetition == Days[dayOfWeek])
  {
    assert Days[dayOfWeek] in WeekendDays <==> dayOfWeek >= 5;
  }

  /** run_task: what one fired schedule does to the pool and to its group. */
  function RunTask(p: Pool, g: WorkerGroup, s: EventSchedule): (r: (Pool, WorkerGroup))
  {
    if s.scheduleTask == "pause" then (PauseAll(p, Some(g.id)), g)
    else if s.scheduleTask == "resume" then (ResumeAll(p, Some(g.id)), g)
    else if s.scheduleTask == "count" then (p, g.(numberOfWorkers := s.scheduleWorkerCount))
    else (p, g)
  }

  datatype GroupTick = GroupTick(pool: Pool, group: WorkerGroup, fired: bool)

  /** The inner loop over the schedules ss of group g. */
  function TickGroup(p: Pool, g: WorkerGroup, ss: seq<EventSchedule>, timeNow: string, dayOfWeek: nat): GroupTick
    requires dayOfWeek < 7
  {
    if |ss| == 0 then GroupTick(p, g, false)
    else
      var r := TickGroup(p, g, ss[..|ss| - 1], timeNow, dayOfWeek);
      var s := ss[|ss| - 1];
      if Fires(s, timeNow, dayOfWeek) then
        var (q, g') := RunTask(r.pool, r.group, s);
        GroupTick(q, g', true)
      else r
  }

  datatype SchedulePass = SchedulePass(pool: Pool, groups: seq<WorkerGroup>, fired: bool)

  /** The outer loop over all groups; groups are the store's records after the pass. */
  function ApplySchedules(p: Pool, gs: seq<WorkerGroup>, timeNow: string, dayOfWeek: nat): SchedulePass
    requires dayOfWeek < 7
  {
    if |gs| == 0 then SchedulePass(p, [], false)
    else
      var r := ApplySchedules(p, gs[..|gs| - 1], timeNow, dayOfWeek);
      var g := gs[|gs| - 1];
      var x := TickGroup(r.pool, g, g.schedules, timeNow, dayOfWeek);
      SchedulePass(x.pool, r.groups + [x.group], r.fired || x.fired)
  }

  /** manage_event_schedules as a whole: the schedule pass, then one
      reconciliation against the updated groups when anything fired. */
  function ScheduledPass(p: Pool, gs: seq<WorkerGroup>, timeNow: string, dayOfWeek: nat): (Pool, seq<WorkerGroup>)
    requires dayOfWeek < 7
  {
    var r := ApplySchedules(p, gs, timeNow, dayOfWeek);
    (if r.fired then Reconcile(r.pool, r.groups) else r.pool, r.groups)
  }

  /* ---------------------------------------------------------------------- */

  /** Some schedule of ss fires now and asks for task. */
  ghost predicate RequestedIn(ss: seq<EventSchedule>, task: string, timeNow: string, dayOfWeek: nat)
    requires dayOfWeek < 7
  {
    exists j :: 0 <= j < |ss| && Fires(ss[j], timeNow, dayOfWeek) && ss[j].scheduleTask == task
  }

  /** Some group whose scope covers h has a schedule that fires now and asks for task. */
  ghost predicate RequestedFor(gs: seq<WorkerGroup>, h: Handle, task: string, timeNow: string, dayOfWeek: nat)
    requires dayOfWeek < 7
  {
    exists i :: 0 <= i < |gs| && InScope(h, Some(gs[i].id)) && RequestedIn(gs[i].schedules, task, timeNow, dayOfWeek)
  }

  /** Only the paused flag of a handle can change in a schedule pass. */
  ghost predicate OnlyPausedChanged(p: Pool, q: Pool)
  {
    && q.order == p.order
    && q.threads.Keys == p.threads.Keys
    && forall k :: k in p.threads ==> q.threads[k] == p.threads[k].(paused := q.threads[k].paused)
  }

  /** Some schedule of ss fires now, asks for "count" and carries count n. */
  ghost predicate CountFrom(ss: seq<EventSchedule>, n: nat, timeNow: string, dayOfWeek: nat)
    requires dayOfWeek < 7
  {
    exists j :: 0 <= j < |ss| && Fires(ss[j], timeNow, dayOfWeek) && ss[j].scheduleTask == "count"
                && ss[j].scheduleWorkerCount == n
  }

  /** The tasks that set a group's count, and the tasks that pause or resume its workers. */
  const CountTasks: set<string> := {"count"}
  const ToggleTasks: set<string> := {"pause", "resume"}

  /** Schedule j of ss fires now and asks for one of tasks, and no later
      schedule of ss does: run_task is called once per fired schedule, in
      order, so its call for j is the last one of that kind. */
  ghost predicate LastFiredAt(ss: seq<EventSchedule>, j: nat, tasks: set<string>, timeNow: string, dayOfWeek: nat)
    requires dayOfWeek < 7
  {
    && j < |ss| && Fires(ss[j], timeNow, dayOfWeek) && ss[j].scheduleTask in tasks
    && forall j' :: j < j' < |ss| ==> !(Fires(ss[j'], timeNow, dayOfWeek) && ss[j'].scheduleTask in tasks)
  }

  /** Dropping the last schedule keeps an earlier last-fired index. */
  lemma LastFiredAtPrefix(ss: seq<EventSchedule>, j: nat, tasks: set<string>, timeNow: string, dayOfWeek: nat)
    requires dayOfWeek < 7 && LastFiredAt(ss, j, tasks, timeNow, dayOfWeek) && j < |ss| - 1
    ensures LastFiredAt(ss[..|ss| - 1], j, tasks, timeNow, dayOfWeek)
    ensures !(Fires(ss[|ss| - 1], timeNow, dayOfWeek) && ss[|ss| - 1].scheduleTask in tasks)
  {
    var init := ss[..|ss| - 1];
    assert init[j] == ss[j];
    forall j' | j < j' < |init|
      ensures !(Fires(init[j'], timeNow, dayOfWeek) && init[j'].scheduleTask in tasks)
    {
      assert init[j'] == ss[j'];
    }
  }

  /** The last fired "count" schedule of a group decides its new count. */
  lemma {:induction false} TickGroupLastCount(p: Pool, g: WorkerGroup, ss: seq<EventSchedule>, timeNow: string, dayOfWeek: nat, j: nat)
    requires dayOfWeek < 7
    requires LastFiredAt(ss, j, CountTasks, timeNow, dayOfWeek)
    ensures TickGroup(p, g, ss, timeNow, dayOfWeek).group.numberOfWorkers == ss[j].scheduleWorkerCount
  {
    if j < |ss| - 1 {
      LastFiredAtPrefix(ss, j, CountTasks, timeNow, dayOfWeek);
      TickGroupLastCount(p, g, ss[..|ss| - 1], timeNow, dayOfWeek, j);
    }
  }

  /** For a handle in the group's scope, the last fired pause or resume
      schedule of the group decides whether it ends up paused. */
  lemma {:induction false} TickGroupLastToggle(p: Pool, g: WorkerGroup, ss: seq<EventSchedule>, timeNow: string, dayOfWeek: nat, k: WorkerKey, j: nat)
    requires dayOfWeek < 7
    requires k in p.threads && InScope(p.threads[k], Some(g.id))
    requires LastFiredAt(ss, j, ToggleTasks, timeNow, dayOfWeek)
    ensures k in TickGroup(p, g, ss, timeNow, dayOfWeek).pool.threads
    ensures TickGroup(p, g, ss, timeNow, dayOfWeek).pool.threads[k].paused <==> ss[j].scheduleTask == "pause"
  {
    var init := ss[..|ss| - 1];
    TickGroupPool(p, g, init, timeNow, dayOfWeek);
    TickGroupPool(p, g, ss, timeNow, dayOfWeek);
    var r := TickGroup(p, g, init, timeNow, dayOfWeek);
    assert r.pool.threads[k].groupId == p.threads[k].groupId;
    if j < |ss| - 1 {
      LastFiredAtPrefix(ss, j, ToggleTasks, timeNow, dayOfWeek);
      TickGroupLastToggle(p, g, init, timeNow, dayOfWeek, k, j);
    }
  }

  /** One group's schedules, what they do to the group record: the group keeps
      its id, name and schedules; its count changes only to the count of a fired
      "count" schedule, and when "count" schedules fire the new count is the
      count of the last of them; and the pass fired exactly when some schedule fires now. */
  lemma {:induction false} TickGroupRecord(p: Pool, g: WorkerGroup, ss: seq<EventSchedule>, timeNow: string, dayOfWeek: nat)
    requires dayOfWeek < 7
    ensures var r := TickGroup(p, g, ss, timeNow, dayOfWeek);
      && r.group == g.(numberOfWorkers := r.group.numberOfWorkers)
      && (r.group.numberOfWorkers != g.numberOfWorkers ==> CountFrom(ss, r.group.numberOfWorkers, timeNow, dayOfWeek))
      && (RequestedIn(ss, "count", timeNow, dayOfWeek) ==> CountFrom(ss, r.group.numberOfWorkers, timeNow, dayOfWeek))
      && (r.fired <==> exists j :: 0 <= j < |ss| && Fires(ss[j], timeNow, dayOfWeek))
      && (forall j: nat :: LastFiredAt(ss, j, CountTasks, timeNow, dayOfWeek) ==> r.group.numberOfWorkers == ss[j].scheduleWorkerCount)
  {
    forall j: nat | LastFiredAt(ss, j, CountTasks, timeNow, dayOfWeek)
      ensures TickGroup(p, g, ss, timeNow, dayOfWeek).group.numberOfWorkers == ss[j].scheduleWorkerCount
    {
      TickGroupLastCount(p, g, ss, timeNow, dayOfWeek, j);
    }
    if |ss| > 0 {
      var init, s := ss[..|ss| - 1], ss[|ss| - 1];
      TickGroupRecord(p, g, init, timeNow, dayOfWeek);
      RequestedInLast(ss, "count", timeNow, dayOfWeek);
      var r := TickGroup(p, g, init, timeNow, dayOfWeek);
      if CountFrom(init, r.group.numberOfWorkers, timeNow, dayOfWeek) {
        var j :| 0 <= j < |init| && Fires(init[j], timeNow, dayOfWeek) && init[j].scheduleTask == "count"
                 && init[j].scheduleWorkerCount == r.group.numberOfWorkers;
        assert ss[j] == init[j];
      }
      if r.fired {
        var j :| 0 <= j < |init| && Fires(init[j], timeNow, dayOfWeek);
        assert ss[j] == init[j];
      }
      if !Fires(s, timeNow, dayOfWeek) {
        assert forall j :: 0 <= j < |init| ==> ss[j] == init[j];
      }
    }
  }

  /** One group's schedules change nothing in the pool but paused flags. */
  lemma {:induction false} TickGroupPool(p: Pool, g: WorkerGroup, ss: seq<EventSchedule>, timeNow: string, dayOfWeek: nat)
    requires dayOfWeek < 7
    ensures OnlyPausedChanged(p, TickGroup(p, g, ss, timeNow, dayOfWeek).pool)
    ensures TickGroup(p, g, ss, timeNow, dayOfWeek).group.id == g.id
  {
    if |ss| > 0 {
      TickGroupPool(p, g, ss[..|ss| - 1], timeNow, dayOfWeek);
    }
  }

  /** Requests of a prefix are requests of the whole sequence. */
  lemma RequestedInPrefix(ss: seq<EventSchedule>, n: nat, task: string, timeNow: string, dayOfWeek: nat)
    requires dayOfWeek < 7 && n <= |ss|
    ensures RequestedIn(ss[..n], task, timeNow, dayOfWeek) ==> RequestedIn(ss, task, timeNow, dayOfWeek)
  {
    if RequestedIn(ss[..n], task, timeNow, dayOfWeek) {
      var j :| 0 <= j < n && Fires(ss[..n][j], timeNow, dayOfWeek) && ss[..n][j].scheduleTask == task;
      assert ss[j] == ss[..n][j];
    }
  }

  /** A request of the whole sequence comes from the prefix or from the last schedule. */
  lemma RequestedInLast(ss: seq<EventSchedule>, task: string, timeNow: string, dayOfWeek: nat)
    requires dayOfWeek < 7 && |ss| > 0
    ensures RequestedIn(ss, task, timeNow, dayOfWeek) <==>
      || RequestedIn(ss[..|ss| - 1], task, timeNow, dayOfWeek)
      || (Fires(ss[|ss| - 1], timeNow, dayOfWeek) && ss[|ss| - 1].scheduleTask == task)
  {
    RequestedInPrefix(ss, |ss| - 1, task, timeNow, dayOfWeek);
    if RequestedIn(ss, task, timeNow, dayOfWeek) {
      var j :| 0 <= j < |ss| && Fires(ss[j], timeNow, dayOfWeek) && ss[j].scheduleTask == task;
      if j < |ss| - 1 {
        assert ss[..|ss| - 1][j] == ss[j];
      }
    }
  }

  /** What one group's schedules do to one handle: a handle outside the group's
      scope, or one when no pause or resume fires, is left as it was; a fired
      pause with no fired resume leaves it paused, and the other way round; and
      when both fire, the last of them decides. */
  lemma {:induction false} TickGroupHandle(p: Pool, g: WorkerGroup, ss: seq<EventSchedule>, timeNow: string, dayOfWeek: nat, k: WorkerKey)
    requires dayOfWeek < 7
    requires k in p.threads
    ensures k in TickGroup(p, g, ss, timeNow, dayOfWeek).pool.threads
    ensures var h, h' := p.threads[k], TickGroup(p, g, ss, timeNow, dayOfWeek).pool.threads[k];
      && (!InScope(h, Some(g.id)) ==> h' == h)
      && (!RequestedIn(ss, "pause", timeNow, dayOfWeek) && !RequestedIn(ss, "resume", timeNow, dayOfWeek) ==> h' == h)
      && ((InScope(h, Some(g.id)) && !RequestedIn(ss, "resume", timeNow, dayOfWeek)
           && (h.paused || RequestedIn(ss, "pause", timeNow, dayOfWeek)))
          ==> h'.paused)
      && ((InScope(h, Some(g.id)) && !RequestedIn(ss, "pause", timeNow, dayOfWeek)
           && (!h.paused || RequestedIn(ss, "resume", timeNow, dayOfWeek)))
          ==> !h'.paused)
      && (forall j: nat :: InScope(h, Some(g.id)) && LastFiredAt(ss, j, ToggleTasks, timeNow, dayOfWeek) ==>
            (h'.paused <==> ss[j].scheduleTask == "pause"))
  {
    TickGroupPool(p, g, ss, timeNow, dayOfWeek);
    forall j: nat | InScope(p.threads[k], Some(g.id)) && LastFiredAt(ss, j, ToggleTasks, timeNow, dayOfWeek)
      ensures TickGroup(p, g, ss, timeNow, dayOfWeek).pool.threads[k].paused <==> ss[j].scheduleTask == "pause"
    {
      TickGroupLastToggle(p, g, ss, timeNow, dayOfWeek, k, j);
    }
    if |ss| > 0 {
      var init := ss[..|ss| - 1];
      TickGroupHandle(p, g, init, timeNow, dayOfWeek, k);
      TickGroupPool(p, g, init, timeNow, dayOfWeek);
      RequestedInLast(ss, "pause", timeNow, dayOfWeek);
      RequestedInLast(ss, "resume", timeNow, dayOfWeek);
    }
  }

  /* ---------------------------------------------------------------------- */
  /* All groups                                                              */

  /** A request for h over all groups comes from the earlier groups or from the last one. */
  lemma RequestedForLast(gs: seq<WorkerGroup>, h: Handle, task: string, timeNow: string, dayOfWeek: nat)
    requires dayOfWeek < 7 && |gs| > 0
    ensures RequestedFor(gs, h, task, timeNow, dayOfWeek) <==>
      || RequestedFor(gs[..|gs| - 1], h, task, timeNow, dayOfWeek)
      || (InScope(h, Some(gs[|gs| - 1].id)) && RequestedIn(gs[|gs| - 1].schedules, task, timeNow, dayOfWeek))
  {
    var init := gs[..|gs| - 1];
    if RequestedFor(init, h, task, timeNow, dayOfWeek) {
      var i :| 0 <= i < |init| && InScope(h, Some(init[i].id)) && RequestedIn(init[i].schedules, task, timeNow, dayOfWeek);
      assert gs[i] == init[i];
    }
    if RequestedFor(gs, h, task, timeNow, dayOfWeek) {
      var i :| 0 <= i < |gs| && InScope(h, Some(gs[i].id)) && RequestedIn(gs[i].schedules, task, timeNow, dayOfWeek);
      if i < |init| {
        assert init[i] == gs[i];
      }
    }
  }

  /** The groups after a pass: one record per group, in order, differing from
      the stored one at most in its count, which then comes from a fired
      "count" schedule of that group, the last one that fires. */
  lemma ApplySchedulesGroups(p: Pool, gs: seq<WorkerGroup>, timeNow: string, dayOfWeek: nat)
    requires dayOfWeek < 7
    ensures var r := ApplySchedules(p, gs, timeNow, dayOfWeek);
      && |r.groups| == |gs|
      && (forall i :: 0 <= i < |gs| ==> r.groups[i] == gs[i].(numberOfWorkers := r.groups[i].numberOfWorkers))
      && (forall i :: 0 <= i < |gs| && r.groups[i].numberOfWorkers != gs[i].numberOfWorkers ==>
            CountFrom(gs[i].schedules, r.groups[i].numberOfWorkers, timeNow, dayOfWeek))
      && (forall i :: 0 <= i < |gs| && RequestedIn(gs[i].schedules, "count", timeNow, dayOfWeek) ==>
            CountFrom(gs[i].schedules, r.groups[i].numberOfWorkers, timeNow, dayOfWeek))
      && (forall i, j: nat :: 0 <= i < |gs| && LastFiredAt(gs[i].schedules, j, CountTasks, timeNow, dayOfWeek) ==>
            r.groups[i].numberOfWorkers == gs[i].schedules[j].scheduleWorkerCount)
  {
    ApplySchedulesRecords(p, gs, timeNow, dayOfWeek);
    var r := ApplySchedules(p, gs, timeNow, dayOfWeek);
    forall i | 0 <= i < |gs|
      ensures r.groups[i] == gs[i].(numberOfWorkers := r.groups[i].numberOfWorkers)
      ensures r.groups[i].numberOfWorkers != gs[i].numberOfWorkers ==>
                CountFrom(gs[i].schedules, r.groups[i].numberOfWorkers, timeNow, dayOfWeek)
      ensures RequestedIn(gs[i].schedules, "count", timeNow, dayOfWeek) ==>
                CountFrom(gs[i].schedules, r.groups[i].numberOfWorkers, timeNow, dayOfWeek)
      ensures forall j: nat :: LastFiredAt(gs[i].schedules, j, CountTasks, timeNow, dayOfWeek) ==>
                r.groups[i].numberOfWorkers == gs[i].schedules[j].scheduleWorkerCount
    {
      TickGroupRecord(ApplySchedules(p, gs[..i], timeNow, dayOfWeek).pool, gs[i], gs[i].schedules, timeNow, dayOfWeek);
    }
  }

  /** Record i of the pass is what group i's own schedules made of it, run
      on the pool the groups before it left. */
  lemma {:induction false} ApplySchedulesRecords(p: Pool, gs: seq<WorkerGroup>, timeNow: string, dayOfWeek: nat)
    requires dayOfWeek < 7
    ensures var r := ApplySchedules(p, gs, timeNow, dayOfWeek);
      && |r.groups| == |gs|
      && (forall i :: 0 <= i < |gs| ==>
            r.groups[i] == TickGroup(ApplySchedules(p, gs[..i], timeNow, dayOfWeek).pool, gs[i], gs[i].schedules, timeNow, dayOfWeek).group)
  {
    if |gs| > 0 {
      var init, g := gs[..|gs| - 1], gs[|gs| - 1];
      ApplySchedulesRecords(p, init, timeNow, dayOfWeek);
      var r := ApplySchedules(p, init, timeNow, dayOfWeek);
      var out := ApplySchedules(p, gs, timeNow, dayOfWeek);
      forall i | 0 <= i < |gs|
        ensures out.groups[i] == TickGroup(ApplySchedules(p, gs[..i], timeNow, dayOfWeek).pool, gs[i], gs[i].schedules, timeNow, dayOfWeek).group
      {
        if i < |init| {
          assert gs[..i] == init[..i] && gs[i] == init[i];
        } else {
          assert gs[..i] == init;
        }
      }
    }
  }

  /** The pass fired exactly when some schedule of some group fires now. */
  lemma {:induction false} ApplySchedulesFired(p: Pool, gs: seq<WorkerGroup>, timeNow: string, dayOfWeek: nat)
    requires dayOfWeek < 7
    ensures ApplySchedules(p, gs, timeNow, dayOfWeek).fired <==>
      exists i, j :: 0 <= i < |gs| && 0 <= j < |gs[i].schedules| && Fires(gs[i].schedules[j], timeNow, dayOfWeek)
  {
    if |gs| > 0 {
      var init, g := gs[..|gs| - 1], gs[|gs| - 1];
      ApplySchedulesFired(p, init, timeNow, dayOfWeek);
      var r := ApplySchedules(p, init, timeNow, dayOfWeek);
      TickGroupRecord(r.pool, g, g.schedules, timeNow, dayOfWeek);
      if r.fired {
        var i, j :| 0 <= i < |init| && 0 <= j < |init[i].schedules| && Fires(init[i].schedules[j], timeNow, dayOfWeek);
        assert gs[i] == init[i];
      }
      if exists i, j :: 0 <= i < |gs| && 0 <= j < |gs[i].schedules| && Fires(gs[i].schedules[j], timeNow, dayOfWeek) {
        var i, j :| 0 <= i < |gs| && 0 <= j < |gs[i].schedules| && Fires(gs[i].schedules[j], timeNow, dayOfWeek);
        if i < |init| {
          assert init[i] == gs[i];
        }
      }
    }
  }

  /** A pass over all groups changes nothing in the pool but paused flags. */
  lemma {:induction false} ApplySchedulesPool(p: Pool, gs: seq<WorkerGroup>, timeNow: string, dayOfWeek: nat)
    requires dayOfWeek < 7
    ensures OnlyPausedChanged(p, ApplySchedules(p, gs, timeNow, dayOfWeek).pool)
  {
    if |gs| > 0 {
      var init, g := gs[..|gs| - 1], gs[|gs| - 1];
      ApplySchedulesPool(p, init, timeNow, dayOfWeek);
      var r := ApplySchedules(p, init, timeNow, dayOfWeek);
      TickGroupPool(r.pool, g, g.schedules, timeNow, dayOfWeek);
    }
  }

  /** Schedule j of group i is, in (group, schedule) order, the last fired
      pause or resume schedule of a group whose scope covers h. */
  ghost predicate LastToggleFor(gs: seq<WorkerGroup>, h: Handle, i: nat, j: nat, timeNow: string, dayOfWeek: nat)
    requires dayOfWeek < 7
  {
    && i < |gs| && InScope(h, Some(gs[i].id)) && LastFiredAt(gs[i].schedules, j, ToggleTasks, timeNow, dayOfWeek)
    && forall i' :: i < i' < |gs| && InScope(h, Some(gs[i'].id)) ==>
         !RequestedIn(gs[i'].schedules, "pause", timeNow, dayOfWeek) && !RequestedIn(gs[i'].schedules, "resume", timeNow, dayOfWeek)
  }

  /** Over all groups, the last fired pause or resume schedule covering a
      handle decides whether it ends up paused. */
  lemma {:induction false} ApplySchedulesLastToggle(p: Pool, gs: seq<WorkerGroup>, timeNow: string, dayOfWeek: nat, k: WorkerKey, i: nat, j: nat)
    requires dayOfWeek < 7
    requires k in p.threads && LastToggleFor(gs, p.threads[k], i, j, timeNow, dayOfWeek)
    ensures k in ApplySchedules(p, gs, timeNow, dayOfWeek).pool.threads
    ensures ApplySchedules(p, gs, timeNow, dayOfWeek).pool.threads[k].paused <==> gs[i].schedules[j].scheduleTask == "pause"
  {
    var init, g := gs[..|gs| - 1], gs[|gs| - 1];
    ApplySchedulesPool(p, init, timeNow, dayOfWeek);
    var r := ApplySchedules(p, init, timeNow, dayOfWeek);
    var h, hm := p.threads[k], r.pool.threads[k];
    assert hm.groupId == h.groupId;
    if i == |gs| - 1 {
      TickGroupLastToggle(r.pool, g, g.schedules, timeNow, dayOfWeek, k, j);
    } else {
      assert init[i] == gs[i];
      forall i' | i < i' < |init| && InScope(h, Some(init[i'].id))
        ensures !RequestedIn(init[i'].schedules, "pause", timeNow, dayOfWeek) && !RequestedIn(init[i'].schedules, "resume", timeNow, dayOfWeek)
      {
        assert init[i'] == gs[i'];
      }
      ApplySchedulesLastToggle(p, init, timeNow, dayOfWeek, k, i, j);
      TickGroupHandle(r.pool, g, g.schedules, timeNow, dayOfWeek, k);
    }
  }

  /** Changing only paused flags keeps the pool invariant. */
  lemma PausedOnlyKeepsPool(p: Pool, q: Pool)
    requires PoolOk(p) && OnlyPausedChanged(p, q)
    ensures PoolOk(q)
  {
    forall k | k in q.threads
      ensures q.threads[k].threadId == k && q.threads[k].name == NameFor(k)
    {
      assert q.threads[k] == p.threads[k].(paused := q.threads[k].paused);
    }
  }

  /** What a pass over all groups does to one handle: if no fired pause or
      resume schedule of a group covering it exists, it is untouched; a fired
      pause with no fired resume leaves it paused, a fired resume with no fired
      pause leaves it unpaused; and when both fire, the last of them in
      (group, schedule) order decides. */
  lemma {:induction false} ApplySchedulesHandle(p: Pool, gs: seq<WorkerGroup>, timeNow: string, dayOfWeek: nat, k: WorkerKey)
    requires dayOfWeek < 7
    requires k in p.threads
    ensures k in ApplySchedules(p, gs, timeNow, dayOfWeek).pool.threads
    ensures var h, h' := p.threads[k], ApplySchedules(p, gs, timeNow, dayOfWeek).pool.threads[k];
      && (!RequestedFor(gs, h, "pause", timeNow, dayOfWeek) && !RequestedFor(gs, h, "resume", timeNow, dayOfWeek) ==> h' == h)
      && ((!RequestedFor(gs, h, "resume", timeNow, dayOfWeek) && (h.paused || RequestedFor(gs, h, "pause", timeNow, dayOfWeek)))
          ==> h'.paused)
      && ((!RequestedFor(gs, h, "pause", timeNow, dayOfWeek) && (!h.paused || RequestedFor(gs, h, "resume", timeNow, dayOfWeek)))
          ==> !h'.paused)
      && (forall i: nat, j: nat :: LastToggleFor(gs, h, i, j, timeNow, dayOfWeek) ==>
            (h'.paused <==> gs[i].schedules[j].scheduleTask == "pause"))
  {
    ApplySchedulesPool(p, gs, timeNow, dayOfWeek);
    forall i: nat, j: nat | LastToggleFor(gs, p.threads[k], i, j, timeNow, dayOfWeek)
      ensures ApplySchedules(p, gs, timeNow, dayOfWeek).pool.threads[k].paused <==> gs[i].schedules[j].scheduleTask == "pause"
    {
      ApplySchedulesLastToggle(p, gs, timeNow, dayOfWeek, k, i, j);
    }
    if |gs| > 0 {
      var init, g := gs[..|gs| - 1], gs[|gs| - 1];
      ApplySchedulesHandle(p, init, timeNow, dayOfWeek, k);
      ApplySchedulesPool(p, init, timeNow, dayOfWeek);
      var r := ApplySchedules(p, init, timeNow, dayOfWeek);
      TickGroupHandle(r.pool, g, g.schedules, timeNow, dayOfWeek, k);
      var h, hm := p.threads[k], r.pool.threads[k];
      assert hm.groupId == h.groupId;
      RequestedForLast(gs, h, "pause", timeNow, dayOfWeek);
      RequestedForLast(gs, h, "resume", timeNow, dayOfWeek);
    }
  }

  /** A pass in which no schedule fires leaves the pool and the groups as they were. */
  lemma NothingFiredNothingChanged(p: Pool, gs: seq<WorkerGroup>, timeNow: string, dayOfWeek: nat)
    requires dayOfWeek < 7
    requires !ApplySchedules(p, gs, timeNow, dayOfWeek).fired
    ensures ApplySchedules(p, gs, timeNow, dayOfWeek).pool == p
    ensures ApplySchedules(p, gs, timeNow, dayOfWeek).groups == gs
  {
    var r := ApplySchedules(p, gs, timeNow, dayOfWeek);
    ApplySchedulesFired(p, gs, timeNow, dayOfWeek);
    ApplySchedulesGroups(p, gs, timeNow, dayOfWeek);
    ApplySchedulesPool(p, gs, timeNow, dayOfWeek);
    assert forall i, n :: 0 <= i < |gs| ==> !CountFrom(gs[i].schedules, n, timeNow, dayOfWeek);
    assert forall i :: 0 <= i < |gs| ==> r.groups[i] == gs[i];
    forall k | k in p.threads
      ensures r.pool.threads[k] == p.threads[k]
    {
      ApplySchedulesHandle(p, gs, timeNow, dayOfWeek, k);
      var h := p.threads[k];
      assert forall i, task :: 0 <= i < |gs| ==> !RequestedIn(gs[i].schedules, task, timeNow, dayOfWeek);
      assert !RequestedFor(gs, h, "pause", timeNow, dayOfWeek) && !RequestedFor(gs, h, "resume", timeNow, dayOfWeek);
    }
    assert r.pool.threads == p.threads;
  }

  /** manage_event_schedules reconciles exactly when some schedule of some
      group fires now, against the groups as the pass left them; otherwise it
      changes nothing at all. Either way the pool invariant holds afterwards. */
  lemma ScheduledPassReconcilesIffFired(p: Pool, gs: seq<WorkerGroup>, timeNow: string, dayOfWeek: nat)
    requires PoolOk(p) && dayOfWeek < 7
    ensures var r := ApplySchedules(p, gs, timeNow, dayOfWeek);
      && ((exists i, j :: 0 <= i < |gs| && 0 <= j < |gs[i].schedules| && Fires(gs[i].schedules[j], timeNow, dayOfWeek))
          ==> ScheduledPass(p, gs, timeNow, dayOfWeek) == (Reconcile(r.pool, r.groups), r.groups))
      && (!(exists i, j :: 0 <= i < |gs| && 0 <= j < |gs[i].schedules| && Fires(gs[i].schedules[j], timeNow, dayOfWeek))
          ==> ScheduledPass(p, gs, timeNow, dayOfWeek) == (p, gs))
      && PoolOk(ScheduledPass(p, gs, timeNow, dayOfWeek).0)
  {
    var r := ApplySchedules(p, gs, timeNow, dayOfWeek);
    ApplySchedulesFired(p, gs, timeNow, dayOfWeek);
    ApplySchedulesPool(p, gs, timeNow, dayOfWeek);
    PausedOnlyKeepsPool(p, r.pool);
    if r.fired {
      ReconcileKeys(r.pool, r.groups);
    } else {
      NothingFiredNothingChanged(p, gs, timeNow, dayOfWeek);
    }
  }
}
