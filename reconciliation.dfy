/** What init_worker_threads guarantees about the pool it leaves behind:
    which keys exist, which handles are new, which are marked redundant and
    with which immediate flag, and that running it twice changes nothing. */
module Reconciliation {
  import opened Naming
  import opened Entities
  import opened Pools

  /* ---------------------------------------------------------------------- */
  /* Set-level characterisations                                             */

  lemma {:induction false} ExpectedKeysIff(gs: seq<WorkerGroup>, k: WorkerKey)
    ensures k in ExpectedKeys(gs) <==> exists g :: g in gs && g.name == k.group && k.index < g.numberOfWorkers
  {
    if |gs| > 0 {
      var init, g := gs[..|gs| - 1], gs[|gs| - 1];
      ExpectedKeysIff(init, k);
      assert gs == init + [g];
      assert k in KeysOf(g) <==> g.name == k.group && k.index < g.numberOfWorkers;
    }
  }

  lemma {:induction false} InShrinkRangeIff(gs: seq<WorkerGroup>, k: WorkerKey)
    ensures InShrinkRange(k, gs) <==> exists g :: g in gs && ShrinkHits(g, k)
  {
    if |gs| > 0 {
      var init, g := gs[..|gs| - 1], gs[|gs| - 1];
      InShrinkRangeIff(init, k);
      assert gs == init + [g];
    }
  }

  lemma {:induction false} GroupIdsIff(gs: seq<WorkerGroup>, id: int)
    ensures id in GroupIds(gs) <==> exists g :: g in gs && g.id == id
  {
    if |gs| > 0 {
      var init, g := gs[..|gs| - 1], gs[|gs| - 1];
      GroupIdsIff(init, id);
      assert gs == init + [g];
    }
  }

  /** The name derived from key k is expected exactly when k itself is. */
  lemma {:induction false} ExpectedNameIffKey(gs: seq<WorkerGroup>, k: WorkerKey)
    ensures NameFor(k) in ExpectedNames(gs) <==> k in ExpectedKeys(gs)
  {
    if |gs| > 0 {
      var g := gs[|gs| - 1];
      ExpectedNameIffKey(gs[..|gs| - 1], k);
      if NameFor(k) in NamesOf(g) {
        assert k in KeysOf(g);
      }
      if k in KeysOf(g) {
        assert NameFor(k) == WorkerName(g.name, k.index + 1);
      }
    }
  }

  /* ---------------------------------------------------------------------- */
  /* One group                                                               */

  lemma KeysBelowStep(name: string, i: nat)
    requires i > 0
    ensures (set j: nat | j < i :: WorkerKey(name, j)) ==
            (set j: nat | j < i - 1 :: WorkerKey(name, j)) + {WorkerKey(name, i - 1)}
  {
  }

  /** Starting a worker under an absent key keeps the pool invariant. */
  lemma StartOk(q: Pool, k: WorkerKey, name: WorkerName, groupId: int)
    requires PoolOk(q) && k !in q.threads && name == NameFor(k)
    ensures PoolOk(Start(q, k, name, groupId)) && q.order <= Start(q, k, name, groupId).order
  {
    var r := Start(q, k, name, groupId);
    assert k !in q.order;
    forall a, b | 0 <= a < b < |r.order| ensures r.order[a] != r.order[b] {
      if b == |r.order| - 1 {
        assert r.order[a] in q.order;
      }
    }
  }

  /** A sequence without repetitions has as many elements as it has members. */
  lemma {:induction false} DistinctCard(s: seq<WorkerKey>)
    requires Distinct(s)
    ensures |set x | x in s| == |s|
  {
    if s != [] {
      var init, x := s[..|s| - 1], s[|s| - 1];
      assert s == init + [x];
      DistinctCard(init);
      assert x !in init;
      assert (set y | y in s) == (set y | y in init) + {x};
    }
  }

  /** Two well-formed pools with the same keys, one order a prefix of the
      other, have the same order. */
  lemma PrefixSameKeys(a: Pool, b: Pool)
    requires PoolOk(a) && PoolOk(b) && a.order <= b.order && a.threads.Keys == b.threads.Keys
    ensures a.order == b.order
  {
    assert (set x | x in a.order) == a.threads.Keys;
    assert (set x | x in b.order) == b.threads.Keys;
    DistinctCard(a.order);
    DistinctCard(b.order);
  }

  lemma {:induction false} CreateUpToShape(p: Pool, g: WorkerGroup, i: nat)
    ensures var q := CreateUpTo(p, g, i);
      && p.order <= q.order
      && q.threads.Keys == p.threads.Keys + (set j: nat | j < i :: WorkerKey(g.name, j))
      && (forall k :: k in p.threads ==> q.threads[k] == p.threads[k])
      && (forall k :: k in q.threads && k !in p.threads ==> q.threads[k] == NewHandle(k, NameFor(k), g.id))
  {
    if i > 0 {
      CreateUpToShape(p, g, i - 1);
      KeysBelowStep(g.name, i);
    }
  }

  lemma {:induction false} CreateUpToOk(p: Pool, g: WorkerGroup, i: nat)
    requires PoolOk(p)
    ensures PoolOk(CreateUpTo(p, g, i))
  {
    if i > 0 {
      CreateUpToOk(p, g, i - 1);
      var q := CreateUpTo(p, g, i - 1);
      var k := WorkerKey(g.name, i - 1);
      if k !in q.threads {
        StartOk(q, k, WorkerName(g.name, i), g.id);
      }
    }
  }

  lemma CreateUpToFacts(p: Pool, g: WorkerGroup, i: nat)
    requires PoolOk(p)
    ensures var q := CreateUpTo(p, g, i);
      && PoolOk(q)
      && p.order <= q.order
      && q.threads.Keys == p.threads.Keys + (set j: nat | j < i :: WorkerKey(g.name, j))
      && (forall k :: k in p.threads ==> q.threads[k] == p.threads[k])
      && (forall k :: k in q.threads && k !in p.threads ==> q.threads[k] == NewHandle(k, NameFor(k), g.id))
  {
    CreateUpToShape(p, g, i);
    CreateUpToOk(p, g, i);
  }

  lemma {:induction false} ShrinkUpToFacts(p: Pool, g: WorkerGroup, i: nat)
    requires PoolOk(p)
    ensures var q := ShrinkUpTo(p, g, i);
      && PoolOk(q)
      && q.order == p.order
      && q.threads.Keys == p.threads.Keys
      && (forall k :: k in p.threads ==>
            q.threads[k] == (if k.group == g.name && g.numberOfWorkers <= k.index < i
             then SetRedundant(p.threads[k], p.threads[k].idle) else p.threads[k]))
  {
    if i > g.numberOfWorkers {
      ShrinkUpToFacts(p, g, i - 1);
    }
  }

  lemma GroupStepFacts(p: Pool, g: WorkerGroup)
    requires PoolOk(p)
    ensures var q := GroupStep(p, g);
      && PoolOk(q)
      && p.order <= q.order
      && q.threads.Keys == p.threads.Keys + KeysOf(g)
      && (forall k :: k in p.threads ==>
            q.threads[k] == (if ShrinkHits(g, k) then SetRedundant(p.threads[k], p.threads[k].idle) else p.threads[k]))
      && (forall k :: k in q.threads && k !in p.threads ==> q.threads[k] == NewHandle(k, NameFor(k), g.id))
  {
    var c := CreateUpTo(p, g, g.numberOfWorkers);
    CreateUpToFacts(p, g, g.numberOfWorkers);
    ShrinkUpToFacts(c, g, MaxWorkers);
    assert (set j: nat | j < g.numberOfWorkers :: WorkerKey(g.name, j)) == KeysOf(g);
  }

  /* ---------------------------------------------------------------------- */
  /* All groups                                                              */

  lemma GroupsPassFacts(p: Pool, gs: seq<WorkerGroup>)
    requires PoolOk(p)
    ensures var q := GroupsPass(p, gs);
      && PoolOk(q)
      && p.order <= q.order
      && q.threads.Keys == p.threads.Keys + ExpectedKeys(gs)
      && (forall k :: k in p.threads ==>
            q.threads[k] == (if InShrinkRange(k, gs) then SetRedundant(p.threads[k], p.threads[k].idle) else p.threads[k]))
      && (forall k :: k in q.threads && k !in p.threads ==>
            Unmarked(q.threads[k]) == NewHandle(k, NameFor(k), q.threads[k].groupId)
            && q.threads[k].groupId in GroupIds(gs))
  {
    GroupsPassShape(p, gs);
    GroupsPassOld(p, gs);
    GroupsPassNew(p, gs);
  }

  /** The pass over all groups keeps the pool invariant, only appends to the
      order, and adds exactly the expected keys. */
  lemma {:induction false} GroupsPassShape(p: Pool, gs: seq<WorkerGroup>)
    requires PoolOk(p)
    ensures var q := GroupsPass(p, gs);
      && PoolOk(q)
      && p.order <= q.order
      && q.threads.Keys == p.threads.Keys + ExpectedKeys(gs)
  {
    if |gs| > 0 {
      var init, g := gs[..|gs| - 1], gs[|gs| - 1];
      GroupsPassShape(p, init);
      GroupStepFacts(GroupsPass(p, init), g);
    }
  }

  /** A handle that was there is marked exactly when some group's shrink
      range covers its key. */
  lemma {:induction false} GroupsPassOld(p: Pool, gs: seq<WorkerGroup>)
    requires PoolOk(p)
    ensures var q := GroupsPass(p, gs);
      && p.threads.Keys <= q.threads.Keys
      && (forall k :: k in p.threads ==>
            q.threads[k] == (if InShrinkRange(k, gs) then SetRedundant(p.threads[k], p.threads[k].idle) else p.threads[k]))
  {
    if |gs| > 0 {
      var init, g := gs[..|gs| - 1], gs[|gs| - 1];
      GroupsPassOld(p, init);
      GroupsPassShape(p, init);
      var m := GroupsPass(p, init);
      GroupStepFacts(m, g);
      var q := GroupStep(m, g);
      forall k | k in p.threads
        ensures q.threads[k] ==
          if InShrinkRange(k, gs) then SetRedundant(p.threads[k], p.threads[k].idle) else p.threads[k]
      {
        MarkIdempotent(p.threads[k]);
      }
    }
  }

  /** A handle that was not there is a new handle of one of the groups, at
      most marked since. */
  lemma {:induction false} GroupsPassNew(p: Pool, gs: seq<WorkerGroup>)
    requires PoolOk(p)
    ensures var q := GroupsPass(p, gs);
      forall k :: k in q.threads && k !in p.threads ==>
        Unmarked(q.threads[k]) == NewHandle(k, NameFor(k), q.threads[k].groupId)
        && q.threads[k].groupId in GroupIds(gs)
  {
    if |gs| > 0 {
      var init, g := gs[..|gs| - 1], gs[|gs| - 1];
      GroupsPassNew(p, init);
      GroupsPassShape(p, init);
      var m := GroupsPass(p, init);
      GroupStepFacts(m, g);
    }
  }

  /** With distinct group names, the handle created for key k of group g is
      still exactly the new handle once every group has been processed. */
  lemma {:induction false} GroupsPassNewHandle(p: Pool, gs: seq<WorkerGroup>, g: WorkerGroup, k: WorkerKey)
    requires PoolOk(p) && DistinctNames(gs)
    requires g in gs && k.group == g.name && k.index < g.numberOfWorkers && k !in p.threads
    ensures k in GroupsPass(p, gs).threads
    ensures GroupsPass(p, gs).threads[k] == NewHandle(k, NameFor(k), g.id)
  {
    var init, last := gs[..|gs| - 1], gs[|gs| - 1];
    assert gs == init + [last];
    GroupsPassFacts(p, init);
    var m := GroupsPass(p, init);
    GroupStepFacts(m, last);
    if last.name == k.group {
      var i :| 0 <= i < |gs| && gs[i] == g;
      assert i == |gs| - 1;
      ExpectedKeysIff(init, k);
      assert k !in ExpectedKeys(init) by {
        forall h | h in init ensures h.name != k.group {
          var j :| 0 <= j < |init| && init[j] == h;
          assert gs[j] == h;
        }
      }
    } else {
      assert g in init;
      GroupsPassNewHandle(p, init, g, k);
    }
  }

  /* ---------------------------------------------------------------------- */
  /* The whole of init_worker_threads                                        */

  lemma MarkStaleFacts(p: Pool, ids: set<int>, names: set<WorkerName>)
    requires PoolOk(p)
    ensures PoolOk(MarkStale(p, ids, names))
    ensures MarkStale(p, ids, names).order == p.order
  {
  }

  /** What init_worker_threads leaves in the pool: the alive handles that were
      there, plus a key for every (group, index below its worker count). */
  lemma ReconcileKeys(p: Pool, gs: seq<WorkerGroup>)
    requires PoolOk(p)
    ensures PoolOk(Reconcile(p, gs))
    ensures Prune(p).order <= Reconcile(p, gs).order
    ensures forall k :: k in Reconcile(p, gs).threads <==>
      (k in p.threads && p.threads[k].alive) || k in ExpectedKeys(gs)
  {
    PruneExact(p);
    GroupsPassFacts(Prune(p), gs);
  }

  /** Every group g and every index i below its worker count has the key
      "{name}-{i}" afterwards. */
  lemma ReconcileCreatesAll(p: Pool, gs: seq<WorkerGroup>, g: WorkerGroup, i: nat)
    requires PoolOk(p)
    requires g in gs && i < g.numberOfWorkers
    ensures WorkerKey(g.name, i) in Reconcile(p, gs).threads
  {
    ReconcileKeys(p, gs);
    ExpectedKeysIff(gs, WorkerKey(g.name, i));
  }

  /** An alive handle that was there keeps everything but its redundancy
      flags, and is marked, with immediate equal to its idle flag, exactly when
      its key is in some group's shrink range or the handle is stale. */
  lemma ReconcileExisting(p: Pool, gs: seq<WorkerGroup>, k: WorkerKey)
    requires PoolOk(p)
    requires k in p.threads && p.threads[k].alive
    ensures k in Reconcile(p, gs).threads
    ensures Reconcile(p, gs).threads[k] ==
      if InShrinkRange(k, gs) || Stale(p.threads[k], GroupIds(gs), ExpectedNames(gs))
      then SetRedundant(p.threads[k], p.threads[k].idle)
      else p.threads[k]
  {
    PruneExact(p);
    GroupsPassFacts(Prune(p), gs);
    MarkIdempotent(p.threads[k]);
  }

  /** A key that was absent gets a new handle named "{name}-Worker-{i+1}" that
      carries the id of one of the groups; the handle is new, alive and idle,
      and one of the groups asked for its key. */
  lemma ReconcileStartsOnlyMissing(p: Pool, gs: seq<WorkerGroup>, k: WorkerKey)
    requires PoolOk(p)
    requires k in Reconcile(p, gs).threads && !(k in p.threads && p.threads[k].alive)
    ensures k in ExpectedKeys(gs)
    ensures var h := Reconcile(p, gs).threads[k];
      Unmarked(h) == NewHandle(k, NameFor(k), h.groupId) && h.groupId in GroupIds(gs)
  {
    PruneExact(p);
    GroupsPassFacts(Prune(p), gs);
    var q := GroupsPass(Prune(p), gs);
    ExpectedNameIffKey(gs, k);
    assert !Stale(q.threads[k], GroupIds(gs), ExpectedNames(gs));
  }

  /** With distinct group names, the handle started for index i of group g is
      exactly a new Worker "{name}-Worker-{i+1}" of that group, not marked. */
  lemma ReconcileStartsGroupWorker(p: Pool, gs: seq<WorkerGroup>, g: WorkerGroup, i: nat)
    requires PoolOk(p) && DistinctNames(gs)
    requires g in gs && i < g.numberOfWorkers
    requires !(WorkerKey(g.name, i) in p.threads && p.threads[WorkerKey(g.name, i)].alive)
    ensures WorkerKey(g.name, i) in Reconcile(p, gs).threads
    ensures Reconcile(p, gs).threads[WorkerKey(g.name, i)] ==
      NewHandle(WorkerKey(g.name, i), WorkerName(g.name, i + 1), g.id)
  {
    var k := WorkerKey(g.name, i);
    PruneExact(p);
    GroupsPassNewHandle(Prune(p), gs, g, k);
    var q := GroupsPass(Prune(p), gs);
    ExpectedKeysIff(gs, k);
    ExpectedNameIffKey(gs, k);
    GroupIdsIff(gs, g.id);
    assert !Stale(q.threads[k], GroupIds(gs), ExpectedNames(gs));
  }

  /** Shrink rule: an alive handle at an index from number_of_workers up to 11
      of its group is marked redundant, immediate only if it is idle. */
  lemma ReconcileShrinks(p: Pool, gs: seq<WorkerGroup>, g: WorkerGroup, i: nat)
    requires PoolOk(p)
    requires g in gs && g.numberOfWorkers <= i < MaxWorkers
    requires WorkerKey(g.name, i) in p.threads && p.threads[WorkerKey(g.name, i)].alive
    ensures WorkerKey(g.name, i) in Reconcile(p, gs).threads
    ensures var h := Reconcile(p, gs).threads[WorkerKey(g.name, i)];
      h.redundant && h.immediate == h.idle && Unmarked(h) == Unmarked(p.threads[WorkerKey(g.name, i)])
  {
    ReconcileExisting(p, gs, WorkerKey(g.name, i));
    InShrinkRangeIff(gs, WorkerKey(g.name, i));
  }

  /** Stale rule: an alive handle whose group id is gone or whose name no group
      expects is marked redundant, immediate only if it is idle. */
  lemma ReconcileMarksStale(p: Pool, gs: seq<WorkerGroup>, k: WorkerKey)
    requires PoolOk(p)
    requires k in p.threads && p.threads[k].alive
    requires (forall g :: g in gs ==> g.id != p.threads[k].groupId) || !(k in ExpectedKeys(gs))
    ensures k in Reconcile(p, gs).threads
    ensures var h := Reconcile(p, gs).threads[k];
      h.redundant && h.immediate == h.idle && Unmarked(h) == Unmarked(p.threads[k])
  {
    ReconcileExisting(p, gs, k);
    GroupIdsIff(gs, p.threads[k].groupId);
    ExpectedNameIffKey(gs, k);
  }

  /** No kill in flight: reconciliation never sets the immediate flag of a
      busy worker; a busy handle is immediate afterwards only if it already was. */
  lemma ReconcileNeverKillsBusy(p: Pool, gs: seq<WorkerGroup>, k: WorkerKey)
    requires PoolOk(p)
    requires k in Reconcile(p, gs).threads
    requires Reconcile(p, gs).threads[k].immediate && !Reconcile(p, gs).threads[k].idle
    ensures k in p.threads && p.threads[k].immediate
  {
    ReconcileKeys(p, gs);
    if k in p.threads && p.threads[k].alive {
      ReconcileExisting(p, gs, k);
    } else {
      ReconcileStartsOnlyMissing(p, gs, k);
    }
  }

  /** Capacity: after reconciliation every handle not marked redundant sits at
      a key some group asks for, that is an index below that group's count. */
  lemma ReconcileCapacity(p: Pool, gs: seq<WorkerGroup>, k: WorkerKey)
    requires PoolOk(p)
    requires k in Reconcile(p, gs).threads && !Reconcile(p, gs).threads[k].redundant
    ensures exists g :: g in gs && g.name == k.group && k.index < g.numberOfWorkers
  {
    ReconcileKeys(p, gs);
    ExpectedKeysIff(gs, k);
    if k in p.threads && p.threads[k].alive {
      ReconcileExisting(p, gs, k);
      ExpectedNameIffKey(gs, k);
    }
  }

  /** After reconciliation every handle is alive. */
  lemma ReconcileAllAlive(p: Pool, gs: seq<WorkerGroup>)
    requires PoolOk(p)
    ensures forall k :: k in Reconcile(p, gs).threads ==> Reconcile(p, gs).threads[k].alive
  {
    ReconcileKeys(p, gs);
    forall k | k in Reconcile(p, gs).threads
      ensures Reconcile(p, gs).threads[k].alive
    {
      if k in p.threads && p.threads[k].alive {
        ReconcileExisting(p, gs, k);
      } else {
        ReconcileStartsOnlyMissing(p, gs, k);
      }
    }
  }

  /** A second run over the same groups, with no handle having died in
      between, starts nothing: the key set and the order stay as they are. */
  lemma ReconcileSecondRunStartsNothing(p: Pool, gs: seq<WorkerGroup>)
    requires PoolOk(p)
    ensures Reconcile(Reconcile(p, gs), gs).threads.Keys == Reconcile(p, gs).threads.Keys
    ensures Reconcile(Reconcile(p, gs), gs).order == Reconcile(p, gs).order
  {
    var r := Reconcile(p, gs);
    ReconcileKeys(p, gs);
    PruneOfReconciled(p, gs);
    assert Prune(r) == r;
    GroupsPassFacts(r, gs);
    var q := GroupsPass(r, gs);
    assert ExpectedKeys(gs) <= r.threads.Keys;
    assert q.threads.Keys == r.threads.Keys;
    PrefixSameKeys(r, q);
    assert Reconcile(r, gs) == MarkStale(q, GroupIds(gs), ExpectedNames(gs));
  }

  /** Pruning right after a reconciliation deletes nothing. */
  lemma PruneOfReconciled(p: Pool, gs: seq<WorkerGroup>)
    requires PoolOk(p)
    ensures Prune(Reconcile(p, gs)) == Reconcile(p, gs)
  {
    var r := Reconcile(p, gs);
    ReconcileKeys(p, gs);
    ReconcileAllAlive(p, gs);
    assert Prune(r).threads == r.threads;
    AliveKeysAll(r.order, r.threads);
  }

  /** Idempotent reconciliation: with distinct group names (the store keeps
      them unique) and no handle having changed in between, a second run
      changes nothing at all: no creation and no new redundancy flag. */
  lemma ReconcileIdempotent(p: Pool, gs: seq<WorkerGroup>)
    requires PoolOk(p) && DistinctNames(gs)
    ensures Reconcile(Reconcile(p, gs), gs) == Reconcile(p, gs)
  {
    var r := Reconcile(p, gs);
    var r2 := Reconcile(r, gs);
    ReconcileSecondRunStartsNothing(p, gs);
    ReconcileKeys(p, gs);
    ReconcileAllAlive(p, gs);
    forall k | k in r.threads
      ensures r2.threads[k] == r.threads[k]
    {
      ReconcileExisting(r, gs, k);
      if k in p.threads && p.threads[k].alive {
        ReconcileExisting(p, gs, k);
        MarkIdempotent(p.threads[k]);
      } else {
        ReconcileStartsOnlyMissing(p, gs, k);
        ExpectedKeysIff(gs, k);
        var g :| g in gs && g.name == k.group && k.index < g.numberOfWorkers;
        ReconcileStartsGroupWorker(p, gs, g, k.index);
        InShrinkRangeIff(gs, k);
        ExpectedNameIffKey(gs, k);
        GroupIdsIff(gs, g.id);
      }
    }
  }
}
