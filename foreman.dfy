/** The Foreman: the object that owns the worker pool, the idle-worker
    semaphore, the pending-task queue and the recorded configuration, and whose
    methods reshape the pool, run the event schedules and feed the workers.

    What the Foreman reads from its environment (the worker group store, the
    library configuration, the plugin checks, the clock, the post-processor
    queue length, Worker.can_accept_work) is passed in as parameters. */
module ForemanCore {
  import opened Naming
  import opened Entities
  import opened Pools
  import opened Reconciliation
  import opened Schedules
  import opened ConfigGate
  import opened Capacity
  import opened Dispatch

  /** The order of a dict after del d[k]. */
  function Without(s: seq<WorkerKey>, k: WorkerKey): seq<WorkerKey>
  {
    if s == [] then [] else Without(s[..|s| - 1], k) + (if s[|s| - 1] == k then [] else [s[|s| - 1]])
  }

  lemma {:induction false} WithoutAppend(a: seq<WorkerKey>, b: seq<WorkerKey>, k: WorkerKey)
    ensures Without(a + b, k) == Without(a, k) + Without(b, k)
  {
    if b == [] {
      assert a + b == a;
    } else {
      WithoutAppend(a, b[..|b| - 1], k);
      assert (a + b)[..|a + b| - 1] == a + b[..|b| - 1];
    }
  }

  lemma {:induction false} WithoutAbsent(s: seq<WorkerKey>, k: WorkerKey)
    requires k !in s
    ensures Without(s, k) == s
  {
    if s != [] {
      WithoutAbsent(s[..|s| - 1], k);
      assert s == s[..|s| - 1] + [s[|s| - 1]];
    }
  }

  /** Deleting a key that occurs once removes exactly that occurrence. */
  lemma {:induction false} WithoutOnce(a: seq<WorkerKey>, k: WorkerKey, b: seq<WorkerKey>)
    requires k !in a && k !in b
    ensures Without(a + [k] + b, k) == a + b
  {
    WithoutAppend(a + [k], b, k);
    WithoutAppend(a, [k], k);
    WithoutAbsent(a, k);
    WithoutAbsent(b, k);
    assert [k][..0] == [];
    assert Without([k], k) == [];
    calc {
      Without(a + [k] + b, k);
      Without(a + [k], k) + Without(b, k);
      Without(a, k) + Without([k], k) + Without(b, k);
      a + [] + b;
    }
    assert a + [] + b == a + b;
  }

  /** One step of the prune loop over the key list, on the order: a live
      key stays where it is, a dead one is deleted. */
  lemma {:induction false} PruneStepOrder(keys: seq<WorkerKey>, t: map<WorkerKey, Handle>, i: nat)
    requires i < |keys| && keys[i] !in keys[..i] && keys[i] !in keys[i + 1..]
    ensures var k, before := keys[i], AliveKeys(keys[..i], t) + keys[i..];
      AliveKeys(keys[..i + 1], t) + keys[i + 1..] ==
        if k in t && t[k].alive then before else Without(before, k)
  {
    var k, a := keys[i], AliveKeys(keys[..i], t);
    AliveKeysSnoc(keys, t, i);
    assert keys[i..] == [k] + keys[i + 1..];
    assert a + keys[i..] == a + [k] + keys[i + 1..];
    if !(k in t && t[k].alive) {
      AliveKeysMembers(keys[..i], t);
      WithoutOnce(a, k, keys[i + 1..]);
    }
  }

  lemma AliveKeysSnoc(keys: seq<WorkerKey>, t: map<WorkerKey, Handle>, i: nat)
    requires i < |keys|
    ensures AliveKeys(keys[..i + 1], t) == AliveKeys(keys[..i], t) + (if keys[i] in t && t[keys[i]].alive then [keys[i]] else [])
  {
    var s := keys[..i + 1];
    assert s[..|s| - 1] == keys[..i];
  }

  /** The prune loop after i of the listed keys: the order has lost exactly
      the dead keys among them, and the map exactly their entries. */
  ghost predicate PruneInv(keys: seq<WorkerKey>, t0: map<WorkerKey, Handle>, i: nat, order: seq<WorkerKey>, threads: map<WorkerKey, Handle>)
  {
    && i <= |keys|
    && order == AliveKeys(keys[..i], t0) + keys[i..]
    && threads.Keys <= t0.Keys
    && (forall k :: k in threads ==> threads[k] == t0[k])
    && (forall j :: 0 <= j < i ==> (keys[j] in threads <==> keys[j] in t0 && t0[keys[j]].alive))
    && (forall j :: i <= j < |keys| ==> keys[j] in threads)
  }

  lemma PruneInvStep(keys: seq<WorkerKey>, t0: map<WorkerKey, Handle>, i: nat, order: seq<WorkerKey>, threads: map<WorkerKey, Handle>)
    requires Distinct(keys) && i < |keys| && PruneInv(keys, t0, i, order, threads)
    ensures keys[i] in threads && threads[keys[i]] == t0[keys[i]]
    ensures !threads[keys[i]].alive ==> PruneInv(keys, t0, i + 1, Without(order, keys[i]), threads - {keys[i]})
    ensures threads[keys[i]].alive ==> PruneInv(keys, t0, i + 1, order, threads)
  {
    var k := keys[i];
    assert forall j :: 0 <= j < |keys| && j != i ==> keys[j] != k;
    assert k !in keys[..i] && k !in keys[i + 1..];
    PruneStepOrder(keys, t0, i);
  }

  lemma PruneInvDone(keys: seq<WorkerKey>, t0: map<WorkerKey, Handle>, order: seq<WorkerKey>, threads: map<WorkerKey, Handle>)
    requires PoolOk(Pool(keys, t0)) && PruneInv(keys, t0, |keys|, order, threads)
    ensures Pool(order, threads) == Prune(Pool(keys, t0))
  {
    assert keys[..|keys|] == keys;
    forall k | k in t0
      ensures k in threads <==> t0[k].alive
    {
      var j :| 0 <= j < |keys| && keys[j] == k;
    }
    assert threads == Prune(Pool(keys, t0)).threads;
  }

  /** The passes that walk every key of the pool once, without resizing it,
      and rewrite each handle on its own. */
  datatype Pass =
    | StalePass(ids: set<int>, names: set<WorkerName>)
    | PausePass(groupFilter: Option<int>)
    | ResumePass(groupFilter: Option<int>)
    | TerminatePass

  function Apply(pass: Pass, h: Handle): Handle
  {
    match pass
    case StalePass(ids, names) => if Stale(h, ids, names) then SetRedundant(h, h.idle) else h
    case PausePass(f) => if InScope(h, f) then Pause(h) else h
    case ResumePass(f) => if InScope(h, f) then Unpause(h) else h
    case TerminatePass => SetRedundant(h, false)
  }

  function PassAll(p: Pool, pass: Pass): Pool
  {
    Pool(p.order, map k | k in p.threads :: Apply(pass, p.threads[k]))
  }

  /** Each walk is the pool-wide pass it implements. */
  lemma PassAllIs(p: Pool)
    ensures forall ids, names :: PassAll(p, StalePass(ids, names)) == MarkStale(p, ids, names)
    ensures forall f :: PassAll(p, PausePass(f)) == PauseAll(p, f)
    ensures forall f :: PassAll(p, ResumePass(f)) == ResumeAll(p, f)
    ensures PassAll(p, TerminatePass) == TerminateAll(p)
  {
  }

  /** A walk after i of the listed keys: those keys carry the rewritten
      handle, the others the handle they had. */
  ghost predicate PassInv(keys: seq<WorkerKey>, t0: map<WorkerKey, Handle>, pass: Pass, i: nat, threads: map<WorkerKey, Handle>)
  {
    && i <= |keys|
    && (forall j :: 0 <= j < |keys| ==> keys[j] in t0)
    && threads.Keys == t0.Keys
    && (forall j :: 0 <= j < i ==> threads[keys[j]] == Apply(pass, t0[keys[j]]))
    && (forall j :: i <= j < |keys| ==> threads[keys[j]] == t0[keys[j]])
  }

  lemma PassInvStep(keys: seq<WorkerKey>, t0: map<WorkerKey, Handle>, pass: Pass, i: nat, threads: map<WorkerKey, Handle>)
    requires Distinct(keys) && i < |keys| && PassInv(keys, t0, pass, i, threads)
    ensures keys[i] in threads && threads[keys[i]] == t0[keys[i]]
    ensures PassInv(keys, t0, pass, i + 1, threads[keys[i] := Apply(pass, t0[keys[i]])])
  {
    assert forall j :: 0 <= j < |keys| && j != i ==> keys[j] != keys[i];
  }

  lemma PassInvDone(p: Pool, pass: Pass, threads: map<WorkerKey, Handle>)
    requires PoolOk(p) && PassInv(p.order, p.threads, pass, |p.order|, threads)
    ensures Pool(p.order, threads) == PassAll(p, pass)
    ensures PoolOk(PassAll(p, pass))
  {
    forall k | k in p.threads
      ensures threads[k] == Apply(pass, p.threads[k])
    {
      var j :| 0 <= j < |p.order| && p.order[j] == k;
    }
  }

  /** The names the create loop has collected after i indices. */
  lemma NamesBelowStep(name: string, i: nat)
    ensures (set j: nat | 1 <= j <= i + 1 :: WorkerName(name, j)) ==
            (set j: nat | 1 <= j <= i :: WorkerName(name, j)) + {WorkerName(name, i + 1)}
  {
    var a := set j: nat | 1 <= j <= i + 1 :: WorkerName(name, j);
    var b := set j: nat | 1 <= j <= i :: WorkerName(name, j);
    forall w | w in a
      ensures w in b + {WorkerName(name, i + 1)}
    {
      var j: nat :| 1 <= j <= i + 1 && w == WorkerName(name, j);
      if j <= i {
        assert w in b;
      }
    }
  }

  /** Handing a task to a handle keeps the pool invariant. */
  lemma AddWorkKeepsPool(p: Pool, k: WorkerKey, t: Task)
    requires PoolOk(p) && k in p.threads
    ensures PoolOk(Pool(p.order, p.threads[k := AddWork(p.threads[k], t)]))
  {
  }

  /** The jobs run_pending may find due in one pass of the main loop: the
      event-schedule job and then the prune job. */
  function DueJobs(p: Pool, gs: seq<WorkerGroup>, timeNow: string, dayOfWeek: nat, scheduleDue: bool, pruneDue: bool): (Pool, seq<WorkerGroup>)
    requires dayOfWeek < 7
  {
    var (q, groups) := if scheduleDue then ScheduledPass(p, gs, timeNow, dayOfWeek) else (p, gs);
    (if pruneDue then Prune(q) else q, groups)
  }

  class Foreman {
    var order: seq<WorkerKey>            // insertion order of worker_threads
    var threads: map<WorkerKey, Handle>  // worker_threads
    var idleWorkers: nat                 // the idle_workers semaphore
    var pending: seq<Task>               // the pending-task queue
    var queueShutDown: bool              // the queue has been shut down
    var abortFlag: bool
    var currentConfig: Config
    var lastScheduleRun: Option<string>
    const hashOf: Settings -> string     // MD5 of the sorted JSON encoding

    function Snapshot(): Pool
      reads this
    {
      Pool(order, threads)
    }

    ghost predicate Valid()
      reads this
    {
      PoolOk(Snapshot())
    }

    function FeedState(): Feed
      reads this
    {
      Feed(Snapshot(), idleWorkers, pending)
    }

    /** __init__: an empty pool, a zero semaphore, and the configuration
        recorded by a first configuration_changed. */
    constructor(hashOf: Settings -> string, librarySettings: Settings, pendingTasks: seq<Task>)
      ensures Valid()
      ensures order == [] && threads == map[] && idleWorkers == 0 && pending == pendingTasks
      ensures !queueShutDown && !abortFlag && lastScheduleRun == None && this.hashOf == hashOf
      ensures currentConfig == Observe(Initial, librarySettings, hashOf(librarySettings)).next
    {
      this.hashOf := hashOf;
      order := [];
      threads := map[];
      idleWorkers := 0;
      pending := pendingTasks;
      queueShutDown := false;
      abortFlag := false;
      currentConfig := Initial;
      lastScheduleRun := None;
      new;
      var _ := ConfigurationChanged(librarySettings);
    }

    /* -------------------------------------------------------------------- */
    /* Configuration gate                                                    */

    method SaveCurrentConfig(settings: Settings, settingsHash: string)
      modifies this`currentConfig
      ensures currentConfig == Save(old(currentConfig), settings, settingsHash)
    {
      if settings != map[] {
        currentConfig := currentConfig.(settings := settings);
      }
      if settingsHash != "" {
        currentConfig := currentConfig.(settingsHash := settingsHash);
      }
    }

    method ConfigurationChanged(current: Settings) returns (changed: bool)
      modifies this`currentConfig
      ensures Observation(changed, currentConfig) == Observe(old(currentConfig), current, hashOf(current))
    {
      var currentHash := hashOf(current);
      if currentHash == currentConfig.settingsHash {
        return false;
      }
      SaveCurrentConfig(current, currentHash);
      return true;
    }

    /** validate_worker_config: the plugin check, then the change gate (which
        always runs and records the new digest), then the library limits. */
    method ValidateWorkerConfig(current: Settings, incompatiblePlugins: bool, withinLimits: bool) returns (valid: bool)
      modifies this`currentConfig
      ensures valid == Verdict(incompatiblePlugins, hashOf(current) != old(currentConfig).settingsHash, withinLimits)
      ensures currentConfig == Observe(old(currentConfig), current, hashOf(current)).next
    {
      valid := true;
      if incompatiblePlugins {
        valid := false;
      }
      var changed := ConfigurationChanged(current);
      if changed {
        valid := false;
      }
      if !withinLimits {
        valid := false;
      }
    }

    /* -------------------------------------------------------------------- */
    /* The pool                                                              */

    /** prune_dead_threads: the invariant of the pool is only needed to
        conclude; the loop itself is DeleteDeadEntries. */
    method PruneDeadThreads()
      requires Valid()
      modifies this`order, this`threads
      ensures Valid()
      ensures Snapshot() == Prune(old(Snapshot()))
    {
      DeleteDeadEntries();
      PruneInvDone(old(order), old(threads), order, threads);
      PruneExact(old(Snapshot()));
    }

    /** The loop of prune_dead_threads over a copy of the key list. */
    method DeleteDeadEntries()
      requires Distinct(order) && forall j :: 0 <= j < |order| ==> order[j] in threads
      modifies this`order, this`threads
      ensures PruneInv(old(order), old(threads), |old(order)|, order, threads)
    {
      var keys := order;
      var i := 0;
      assert keys[..0] == [] && keys[0..] == keys;
      while i < |keys|
        invariant PruneInv(keys, old(threads), i, order, threads)
      {
        var k := keys[i];
        PruneInvStep(keys, old(threads), i, order, threads);
        if k in threads {
          if !threads[k].alive {
            threads := threads - {k};
            order := Without(order, k);
          }
        }
        i := i + 1;
      }
    }

    /** init_worker_threads: prune, then one create loop and one shrink loop
        per group, then mark every handle no group accounts for. */
    method InitWorkerThreads(gs: seq<WorkerGroup>)
      requires Valid()
      modifies this`order, this`threads
      ensures Valid()
      ensures Snapshot() == Reconcile(old(Snapshot()), gs)
    {
      PruneDeadThreads();
      ghost var pruned := Snapshot();
      var ids: set<int> := {};
      var names: set<WorkerName> := {};
      var gi := 0;
      while gi < |gs|
        invariant gi <= |gs|
        invariant Snapshot() == GroupsPass(pruned, gs[..gi])
        invariant ids == GroupIds(gs[..gi]) && names == ExpectedNames(gs[..gi])
      {
        var g := gs[gi];
        assert gs[..gi + 1][..gi] == gs[..gi];
        ids := ids + {g.id};
        names := StartGroupWorkers(g, names);
        ShrinkGroupWorkers(g);
        gi := gi + 1;
      }
      assert gs[..gi] == gs;
      ReconcileKeys(old(Snapshot()), gs);
      GroupsPassFacts(pruned, gs);
      MarkStaleWorkers(ids, names);
    }

    /** The create loop of one group: start a worker under every missing key
        "{name}-{i}" and collect the names "{name}-Worker-{i+1}". */
    method StartGroupWorkers(g: WorkerGroup, names0: set<WorkerName>) returns (names: set<WorkerName>)
      modifies this`order, this`threads
      ensures Snapshot() == CreateUpTo(old(Snapshot()), g, g.numberOfWorkers)
      ensures names == names0 + NamesOf(g)
    {
      names := names0;
      var i := 0;
      while i < g.numberOfWorkers
        invariant i <= g.numberOfWorkers
        invariant Snapshot() == CreateUpTo(old(Snapshot()), g, i)
        invariant names == names0 + (set j: nat | 1 <= j <= i :: WorkerName(g.name, j))
      {
        var workerId := WorkerKey(g.name, i);
        var workerName := WorkerName(g.name, i + 1);
        NamesBelowStep(g.name, i);
        names := names + {workerName};
        if workerId !in threads {
          StartWorkerThread(workerId, workerName, g.id);
        }
        i := i + 1;
      }
    }

    /** The shrink loop of one group over the indices number_of_workers .. 11:
        a present handle is marked, immediately when it is idle. */
    method ShrinkGroupWorkers(g: WorkerGroup)
      modifies this`threads
      ensures Snapshot() == ShrinkUpTo(old(Snapshot()), g, MaxWorkers)
    {
      var i := g.numberOfWorkers;
      while i < MaxWorkers
        invariant g.numberOfWorkers <= i
        invariant i <= MaxWorkers || i == g.numberOfWorkers
        invariant Snapshot() == ShrinkUpTo(old(Snapshot()), g, i)
      {
        var workerId := WorkerKey(g.name, i);
        if workerId in threads {
          var isIdle := threads[workerId].idle;
          MarkWorkerThreadAsRedundant(workerId, isIdle);
        }
        i := i + 1;
      }
    }

    /** The last loop of init_worker_threads: a handle whose group id or name
        no group accounts for is marked, immediately when it is idle. */
    method MarkStaleWorkers(ids: set<int>, names: set<WorkerName>)
      requires Valid()
      modifies this`threads
      ensures Valid()
      ensures Snapshot() == MarkStale(old(Snapshot()), ids, names)
    {
      var keys := order;
      var i := 0;
      while i < |keys|
        invariant PassInv(keys, old(threads), StalePass(ids, names), i, threads)
      {
        var k := keys[i];
        PassInvStep(keys, old(threads), StalePass(ids, names), i, threads);
        var workerGroupId := threads[k].groupId;
        var workerName := threads[k].name;
        if workerGroupId !in ids || workerName !in names {
          var isIdle := threads[k].idle;
          MarkWorkerThreadAsRedundant(k, isIdle);
        }
        i := i + 1;
      }
      PassInvDone(old(Snapshot()), StalePass(ids, names), threads);
      PassAllIs(old(Snapshot()));
    }

    /** start_worker_thread: the new Worker is stored under k; an existing
        entry under k would be replaced in place. */
    method StartWorkerThread(k: WorkerKey, name: WorkerName, groupId: int)
      modifies this`order, this`threads
      ensures order == if k in old(threads) then old(order) else old(order) + [k]
      ensures threads == old(threads)[k := NewHandle(k, name, groupId)]
    {
      if k !in threads {
        order := order + [k];
      }
      threads := threads[k := NewHandle(k, name, groupId)];
    }

    /** mark_worker_thread_as_redundant: a missing key is a KeyError in the
        source, so the key must be present. */
    method MarkWorkerThreadAsRedundant(k: WorkerKey, immediate: bool)
      requires k in threads
      modifies this`threads
      ensures threads == old(threads)[k := SetRedundant(old(threads)[k], immediate)]
    {
      threads := threads[k := SetRedundant(threads[k], immediate)];
    }

    /** on_worker_config_changed. */
    method OnWorkerConfigChanged(gs: seq<WorkerGroup>)
      requires Valid()
      modifies this`order, this`threads
      ensures Valid()
      ensures Snapshot() == Reconcile(old(Snapshot()), gs)
    {
      InitWorkerThreads(gs);
    }

    /* -------------------------------------------------------------------- */
    /* Admin operations                                                      */

    /** pause_worker_thread: False for an unknown key; a handle already
        paused is left alone. */
    method PauseWorkerThread(k: WorkerKey) returns (found: bool)
      modifies this`threads
      ensures found <==> k in old(threads)
      ensures threads == if found then old(threads)[k := Pause(old(threads)[k])] else old(threads)
    {
      if k !in threads {
        return false;
      }
      if !threads[k].paused {
        threads := threads[k := Pause(threads[k])];
      }
      return true;
    }

    /** resume_worker_thread: False for an unknown key. */
    method ResumeWorkerThread(k: WorkerKey) returns (found: bool)
      modifies this`threads
      ensures found <==> k in old(threads)
      ensures threads == if found then old(threads)[k := Unpause(old(threads)[k])] else old(threads)
    {
      if k !in threads {
        return false;
      }
      threads := threads[k := Unpause(threads[k])];
      return true;
    }

    /** terminate_worker_thread: False for an unknown key; otherwise the
        handle is marked redundant, not immediately. */
    method TerminateWorkerThread(k: WorkerKey) returns (found: bool)
      modifies this`threads
      ensures found <==> k in old(threads)
      ensures threads == if found then old(threads)[k := SetRedundant(old(threads)[k], false)] else old(threads)
    {
      if k !in threads {
        return false;
      }
      MarkWorkerThreadAsRedundant(k, false);
      return true;
    }

    /** pause_all_worker_threads: every handle in scope is paused; the result
        is True because every key visited is present. */
    method PauseAllWorkerThreads(groupFilter: Option<int>) returns (result: bool)
      requires Valid()
      modifies this`threads
      ensures Valid() && result
      ensures Snapshot() == PauseAll(old(Snapshot()), groupFilter)
    {
      result := true;
      var keys := order;
      var i := 0;
      while i < |keys|
        invariant PassInv(keys, old(threads), PausePass(groupFilter), i, threads)
        invariant result
      {
        var k := keys[i];
        PassInvStep(keys, old(threads), PausePass(groupFilter), i, threads);
        if !(Scoped(groupFilter) && threads[k].groupId != groupFilter.value) {
          var found := PauseWorkerThread(k);
          if !found {
            result := false;
          }
        }
        i := i + 1;
      }
      PassInvDone(old(Snapshot()), PausePass(groupFilter), threads);
      PassAllIs(old(Snapshot()));
    }

    /** resume_all_worker_threads. */
    method ResumeAllWorkerThreads(groupFilter: Option<int>) returns (result: bool)
      requires Valid()
      modifies this`threads
      ensures Valid() && result
      ensures Snapshot() == ResumeAll(old(Snapshot()), groupFilter)
    {
      result := true;
      var keys := order;
      var i := 0;
      while i < |keys|
        invariant PassInv(keys, old(threads), ResumePass(groupFilter), i, threads)
        invariant result
      {
        var k := keys[i];
        PassInvStep(keys, old(threads), ResumePass(groupFilter), i, threads);
        if !(Scoped(groupFilter) && threads[k].groupId != groupFilter.value) {
          var found := ResumeWorkerThread(k);
          if !found {
            result := false;
          }
        }
        i := i + 1;
      }
      PassInvDone(old(Snapshot()), ResumePass(groupFilter), threads);
      PassAllIs(old(Snapshot()));
    }

    /** terminate_all_worker_threads. */
    method TerminateAllWorkerThreads() returns (result: bool)
      requires Valid()
      modifies this`threads
      ensures Valid() && result
      ensures Snapshot() == TerminateAll(old(Snapshot()))
    {
      result := true;
      var keys := order;
      var i := 0;
      while i < |keys|
        invariant PassInv(keys, old(threads), TerminatePass, i, threads)
        invariant result
      {
        var k := keys[i];
        PassInvStep(keys, old(threads), TerminatePass, i, threads);
        var found := TerminateWorkerThread(k);
        if !found {
          result := false;
        }
        i := i + 1;
      }
      PassInvDone(old(Snapshot()), TerminatePass, threads);
      PassAllIs(old(Snapshot()));
    }

    /** stop: raise the abort flag, release one token, shut the queue down
        (an immediate shut-down empties it) and mark every handle redundant. */
    method Stop()
      requires Valid()
      modifies this`abortFlag, this`idleWorkers, this`pending, this`queueShutDown, this`threads
      ensures Valid()
      ensures abortFlag && queueShutDown && idleWorkers == old(idleWorkers) + 1 && pending == []
      ensures Snapshot() == TerminateAll(old(Snapshot()))
    {
      abortFlag := true;
      idleWorkers := idleWorkers + 1;
      pending := [];
      queueShutDown := true;
      var keys := order;
      var i := 0;
      while i < |keys|
        invariant PassInv(keys, old(threads), TerminatePass, i, threads)
        invariant abortFlag && queueShutDown && idleWorkers == old(idleWorkers) + 1 && pending == []
      {
        var k := keys[i];
        PassInvStep(keys, old(threads), TerminatePass, i, threads);
        MarkWorkerThreadAsRedundant(k, false);
        i := i + 1;
      }
      PassInvDone(old(Snapshot()), TerminatePass, threads);
      PassAllIs(old(Snapshot()));
    }

    /* -------------------------------------------------------------------- */
    /* Event schedules                                                       */

    /** run_task: record the time, then pause or resume the group's handles,
        or set the group's worker count (the caller's store is updated with
        the returned record). */
    method RunTask(timeNow: string, s: EventSchedule, g: WorkerGroup) returns (group: WorkerGroup)
      requires Valid()
      modifies this`threads, this`lastScheduleRun
      ensures Valid()
      ensures lastScheduleRun == Some(timeNow)
      ensures (Snapshot(), group) == Schedules.RunTask(old(Snapshot()), g, s)
    {
      group := g;
      lastScheduleRun := Some(timeNow);
      if s.scheduleTask == "pause" {
        var _ := PauseAllWorkerThreads(Some(g.id));
      } else if s.scheduleTask == "resume" {
        var _ := ResumeAllWorkerThreads(Some(g.id));
      } else if s.scheduleTask == "count" {
        group := g.(numberOfWorkers := s.scheduleWorkerCount);
      }
    }

    /** The inner loop of manage_event_schedules over one group's schedules. */
    method TickGroupSchedules(g: WorkerGroup, timeNow: string, dayOfWeek: nat) returns (group: WorkerGroup, fired: bool)
      requires Valid() && dayOfWeek < 7
      modifies this`threads, this`lastScheduleRun
      ensures Valid()
      ensures var x := TickGroup(old(Snapshot()), g, g.schedules, timeNow, dayOfWeek);
        Snapshot() == x.pool && group == x.group && fired == x.fired
      ensures lastScheduleRun == if fired then Some(timeNow) else old(lastScheduleRun)
    {
      var eventSchedules := g.schedules;
      group := g;
      fired := false;
      var si := 0;
      while si < |eventSchedules|
        invariant si <= |eventSchedules|
        invariant Valid()
        invariant var x := TickGroup(old(Snapshot()), g, eventSchedules[..si], timeNow, dayOfWeek);
          Snapshot() == x.pool && group == x.group && fired == x.fired
        invariant lastScheduleRun == if fired then Some(timeNow) else old(lastScheduleRun)
      {
        var s := eventSchedules[si];
        assert eventSchedules[..si + 1][..si] == eventSchedules[..si];
        if s.scheduleTime != "" && timeNow == s.scheduleTime && s.repetition != "" {
          if || s.repetition == "daily"
             || (s.repetition == "weekday" && Days[dayOfWeek] !in WeekendDays)
             || (s.repetition == "weekend" && Days[dayOfWeek] in WeekendDays)
             || s.repetition == Days[dayOfWeek]
          {
            group := RunTask(timeNow, s, group);
            fired := true;
          }
        }
        si := si + 1;
      }
      assert eventSchedules[..si] == eventSchedules;
    }

    /** manage_event_schedules: run every schedule that fires now, returning
        the groups' records as the store holds them afterwards, and reconcile
        the pool once if anything ran. */
    method ManageEventSchedules(gs: seq<WorkerGroup>, timeNow: string, dayOfWeek: nat) returns (groups: seq<WorkerGroup>)
      requires Valid() && dayOfWeek < 7
      modifies this`order, this`threads, this`lastScheduleRun
      ensures Valid()
      ensures (Snapshot(), groups) == ScheduledPass(old(Snapshot()), gs, timeNow, dayOfWeek)
      ensures lastScheduleRun ==
        if ApplySchedules(old(Snapshot()), gs, timeNow, dayOfWeek).fired then Some(timeNow) else old(lastScheduleRun)
    {
      groups := [];
      var didSomething := false;
      var gi := 0;
      while gi < |gs|
        invariant gi <= |gs|
        invariant Valid()
        invariant var r := ApplySchedules(old(Snapshot()), gs[..gi], timeNow, dayOfWeek);
          Snapshot() == r.pool && groups == r.groups && didSomething == r.fired
        invariant lastScheduleRun == if didSomething then Some(timeNow) else old(lastScheduleRun)
      {
        assert gs[..gi + 1][..gi] == gs[..gi];
        var group, fired := TickGroupSchedules(gs[gi], timeNow, dayOfWeek);
        groups := groups + [group];
        if fired {
          didSomething := true;
        }
        gi := gi + 1;
      }
      assert gs[..gi] == gs;
      if didSomething {
        InitWorkerThreads(groups);
      }
    }

    /* -------------------------------------------------------------------- */
    /* Queries                                                               */

    /** fetch_available_worker_ids: the thread ids of the available handles,
        in insertion order. */
    method FetchAvailableWorkerIds() returns (ids: seq<WorkerKey>)
      requires Valid()
      ensures ids == AvailableKeys(order, threads)
      ensures forall k :: k in ids <==> k in threads && Available(threads[k])
      ensures Distinct(ids)
    {
      ids := [];
      var keys := order;
      var i := 0;
      while i < |keys|
        invariant i <= |keys|
        invariant ids == AvailableKeys(keys[..i], threads)
      {
        var k := keys[i];
        assert keys[..i + 1][..i] == keys[..i];
        if threads[k].idle && threads[k].alive {
          if !threads[k].paused {
            ids := ids + [threads[k].threadId];
          }
        }
        i := i + 1;
      }
      assert keys[..i] == keys;
      AvailableKeysMembers(keys, threads);
    }

    /** check_for_idle_workers: True as soon as one handle is available. */
    method CheckForIdleWorkers() returns (r: bool)
      requires Valid()
      ensures r <==> exists k :: k in threads && Available(threads[k])
    {
      var keys := order;
      var i := 0;
      while i < |keys|
        invariant i <= |keys|
        invariant forall j :: 0 <= j < i ==> !Available(threads[keys[j]])
      {
        var k := keys[i];
        if threads[k].idle && threads[k].alive {
          if !threads[k].paused {
            return true;
          }
        }
        i := i + 1;
      }
      forall k | k in threads
        ensures !Available(threads[k])
      {
        var j :| 0 <= j < |keys| && keys[j] == k;
      }
      return false;
    }

    /** get_total_worker_count over the groups the store lists. */
    method GetTotalWorkerCount(gs: seq<WorkerGroup>) returns (workerCount: nat)
      ensures workerCount == TotalWorkers(gs)
    {
      workerCount := 0;
      var i := 0;
      while i < |gs|
        invariant i <= |gs|
        invariant workerCount == TotalWorkers(gs[..i])
      {
        assert gs[..i + 1][..i] == gs[..i];
        workerCount := workerCount + gs[i].numberOfWorkers;
        i := i + 1;
      }
      assert gs[..i] == gs;
    }

    /** postprocessor_queue_full, given the number of processed tasks waiting. */
    method PostprocessorQueueFull(gs: seq<WorkerGroup>, processedCount: nat) returns (full: bool)
      ensures full <==> QueueFull(gs, processedCount)
      ensures full <==> processedCount > TotalWorkers(gs) + 1
    {
      var total := GetTotalWorkerCount(gs);
      var limit := total + 1;
      full := processedCount > limit;
    }

    /** The search of the dispatch block: the first handle in insertion order
        that accepts work. */
    method FindAcceptingWorker(accepts: Handle -> bool) returns (pos: Option<nat>)
      requires forall j :: 0 <= j < |order| ==> order[j] in threads
      ensures pos == FirstAccepting(order, threads, accepts)
    {
      var i := 0;
      while i < |order|
        invariant i <= |order|
        invariant forall j :: 0 <= j < i ==> !accepts(threads[order[j]])
      {
        if accepts(threads[order[i]]) {
          FirstAcceptingAt(order, threads, accepts, i);
          return Some(i);
        }
        i := i + 1;
      }
      return None;
    }

    /* -------------------------------------------------------------------- */
    /* The main loop                                                         */

    /** The dispatch block of run: acquire a token, check the abort flag, get
        a task and hand it to the first worker that accepts it. */
    method DispatchStep(accepts: Handle -> bool) returns (outcome: Outcome)
      requires Valid()
      modifies this`threads, this`idleWorkers, this`pending
      ensures Valid()
      ensures (FeedState(), outcome) == Step(old(FeedState()), abortFlag, queueShutDown, accepts)
    {
      if idleWorkers == 0 {
        return NoIdleWorker;
      }
      idleWorkers := idleWorkers - 1;
      if abortFlag {
        return Aborted;
      }
      if pending == [] {
        if queueShutDown {
          return QueueShutDown;
        }
        idleWorkers := idleWorkers + 1;
        return NoTask;
      }
      var task := pending[0];
      pending := pending[1..];
      var pos := FindAcceptingWorker(accepts);
      match pos
      case None =>
        outcome := Dropped(task);
      case Some(i) =>
        var k := order[i];
        AddWorkKeepsPool(Snapshot(), k, task);
        threads := threads[k := AddWork(threads[k], task)];
        outcome := Assigned(k, task);
    }

    /** The prologue of run: reconcile the pool with the groups, then pause
        every handle if the worker configuration is not valid. */
    method RunPrologue(gs: seq<WorkerGroup>, current: Settings, incompatiblePlugins: bool, withinLimits: bool)
      returns (valid: bool)
      requires Valid()
      modifies this`order, this`threads, this`currentConfig
      ensures Valid()
      ensures valid == Verdict(incompatiblePlugins, hashOf(current) != old(currentConfig).settingsHash, withinLimits)
      ensures currentConfig == Observe(old(currentConfig), current, hashOf(current)).next
      ensures Snapshot() ==
        if valid then Reconcile(old(Snapshot()), gs) else PauseAll(Reconcile(old(Snapshot()), gs), None)
    {
      InitWorkerThreads(gs);
      valid := ValidateWorkerConfig(current, incompatiblePlugins, withinLimits);
      if !valid {
        var _ := PauseAllWorkerThreads(None);
      }
    }

    /** One pass of the main loop of run. The loop condition is checked first;
        then the jobs run_pending finds due; then the configuration check,
        which pauses every handle and ends the pass when it fails; then one
        dispatch step. leave says the loop ends after this pass. */
    method RunIteration(gs: seq<WorkerGroup>, timeNow: string, dayOfWeek: nat, scheduleDue: bool, pruneDue: bool,
                        current: Settings, incompatiblePlugins: bool, withinLimits: bool, accepts: Handle -> bool)
      returns (leave: bool, groups: seq<WorkerGroup>, outcome: Option<Outcome>)
      requires Valid() && dayOfWeek < 7
      modifies this`order, this`threads, this`idleWorkers, this`pending, this`currentConfig, this`lastScheduleRun
      ensures Valid()
      ensures old(abortFlag) ==>
        (&& leave && groups == gs && outcome == None && FeedState() == old(FeedState())
         && currentConfig == old(currentConfig) && lastScheduleRun == old(lastScheduleRun))
      ensures !old(abortFlag) ==>
        var (q, gs') := DueJobs(old(Snapshot()), gs, timeNow, dayOfWeek, scheduleDue, pruneDue);
        var valid := Verdict(incompatiblePlugins, hashOf(current) != old(currentConfig).settingsHash, withinLimits);
        && groups == gs'
        && currentConfig == Observe(old(currentConfig), current, hashOf(current)).next
        && lastScheduleRun ==
             (if scheduleDue && ApplySchedules(old(Snapshot()), gs, timeNow, dayOfWeek).fired then Some(timeNow)
              else old(lastScheduleRun))
        && (!valid ==>
              (&& !leave && outcome == None
               && FeedState() == Feed(PauseAll(q, None), old(idleWorkers), old(pending))))
        && (valid ==>
              (&& outcome.Some?
               && (FeedState(), outcome.value) == Step(Feed(q, old(idleWorkers), old(pending)), abortFlag, queueShutDown, accepts)
               && leave == Leaves(outcome.value)))
    {
      groups := gs;
      outcome := None;
      if abortFlag {
        return true, groups, outcome;
      }
      if scheduleDue {
        groups := ManageEventSchedules(gs, timeNow, dayOfWeek);
      }
      if pruneDue {
        PruneDeadThreads();
      }
      var valid := ValidateWorkerConfig(current, incompatiblePlugins, withinLimits);
      if !valid {
        var _ := PauseAllWorkerThreads(None);
        return false, groups, outcome;
      }
      var o := DispatchStep(accepts);
      return Leaves(o), groups, Some(o);
    }
  }
}
