/** The worker pool (the Foreman's worker_threads dictionary) and the
    functional specification of every pass that reshapes it: pruning dead
    handles, reconciling the pool with the worker groups, and the admin passes
    that pause, resume or mark handles.

    A Python dict remembers insertion order, and the dispatch step hands a task
    to the FIRST willing worker in that order, so a pool is a map together with
    the sequence of its keys in insertion order. */
module Pools {
  import opened Naming
  import opened Entities

  datatype Pool = Pool(order: seq<WorkerKey>, threads: map<WorkerKey, Handle>)

  /** The hard ceiling on a group's worker count used by the shrink loop. */
  const MaxWorkers: nat := 12

  ghost predicate Distinct(s: seq<WorkerKey>)
  {
    forall i, j :: 0 <= i < j < |s| ==> s[i] != s[j]
  }

  /** The pool invariant: the order lists every key once, and every handle
      carries the key it was created under and the name derived from it. */
  ghost predicate PoolOk(p: Pool)
  {
    && Distinct(p.order)
    && (forall k :: k in p.order <==> k in p.threads)
    && (forall k :: k in p.threads ==> p.threads[k].threadId == k && p.threads[k].name == NameFor(k))
  }

  /* ---------------------------------------------------------------------- */
  /* prune_dead_threads                                                      */

  /** The keys of s, in order, whose handle is alive. */
  function AliveKeys(s: seq<WorkerKey>, t: map<WorkerKey, Handle>): seq<WorkerKey>
  {
    if s == [] then []
    else
      var k := s[|s| - 1];
      AliveKeys(s[..|s| - 1], t) + (if k in t && t[k].alive then [k] else [])
  }

  /** The pool with exactly its dead handles deleted. */
  function Prune(p: Pool): Pool
  {
    Pool(AliveKeys(p.order, p.threads), map k | k in p.threads && p.threads[k].alive :: p.threads[k])
  }

  lemma {:induction false} AliveKeysMembers(s: seq<WorkerKey>, t: map<WorkerKey, Handle>)
    ensures forall k :: k in AliveKeys(s, t) <==> k in s && k in t && t[k].alive
    ensures Distinct(s) ==> Distinct(AliveKeys(s, t))
  {
    if s != [] {
      var k := s[|s| - 1];
      AliveKeysMembers(s[..|s| - 1], t);
      assert s == s[..|s| - 1] + [k];
      if Distinct(s) {
        assert k !in s[..|s| - 1];
      }
    }
  }

  /** When every listed key is alive, pruning keeps the order as it is. */
  lemma {:induction false} AliveKeysAll(s: seq<WorkerKey>, t: map<WorkerKey, Handle>)
    requires forall i :: 0 <= i < |s| ==> s[i] in t && t[s[i]].alive
    ensures AliveKeys(s, t) == s
  {
    if s != [] {
      AliveKeysAll(s[..|s| - 1], t);
      assert s == s[..|s| - 1] + [s[|s| - 1]];
    }
  }

  /** Pruning deletes exactly the handles that are not alive and leaves every
      other entry as it was. */
  lemma PruneExact(p: Pool)
    requires PoolOk(p)
    ensures PoolOk(Prune(p))
    ensures forall k :: k in Prune(p).threads <==> k in p.threads && p.threads[k].alive
    ensures forall k :: k in Prune(p).threads ==> Prune(p).threads[k] == p.threads[k]
  {
    AliveKeysMembers(p.order, p.threads);
  }

  /* ---------------------------------------------------------------------- */
  /* Reconciliation: init_worker_threads and start_worker_thread             */

  /** start_worker_thread: a new started Worker is stored under key k. */
  function Start(p: Pool, k: WorkerKey, name: WorkerName, groupId: int): Pool
  {
    Pool(p.order + [k], p.threads[k := NewHandle(k, name, groupId)])
  }

  /** mark_worker_thread_as_redundant on a key that is present. */
  function Mark(p: Pool, k: WorkerKey, immediate: bool): Pool
    requires k in p.threads
  {
    Pool(p.order, p.threads[k := SetRedundant(p.threads[k], immediate)])
  }

  /** The creation loop of one group, run over the indices 0 .. i-1. */
  function CreateUpTo(p: Pool, g: WorkerGroup, i: nat): Pool
  {
    if i == 0 then p
    else
      var q := CreateUpTo(p, g, i - 1);
      var k := WorkerKey(g.name, i - 1);
      if k in q.threads then q else Start(q, k, WorkerName(g.name, i), g.id)
  }

  /** The shrink loop of one group, run over the indices number_of_workers .. i-1. */
  function ShrinkUpTo(p: Pool, g: WorkerGroup, i: nat): Pool
  {
    if i <= g.numberOfWorkers then p
    else
      var q := ShrinkUpTo(p, g, i - 1);
      var k := WorkerKey(g.name, i - 1);
      if k in q.threads then Mark(q, k, q.threads[k].idle) else q
  }

  /** Both loops of one group. */
  function GroupStep(p: Pool, g: WorkerGroup): Pool
  {
    ShrinkUpTo(CreateUpTo(p, g, g.numberOfWorkers), g, MaxWorkers)
  }

  /** The loop over all groups, in the order the store lists them. */
  function GroupsPass(p: Pool, gs: seq<WorkerGroup>): Pool
  {
    if |gs| == 0 then p else GroupStep(GroupsPass(p, gs[..|gs| - 1]), gs[|gs| - 1])
  }

  /** worker_group_ids as collected by the loop. */
  function GroupIds(gs: seq<WorkerGroup>): set<int>
  {
    if |gs| == 0 then {} else GroupIds(gs[..|gs| - 1]) + {gs[|gs| - 1].id}
  }

  function KeysOf(g: WorkerGroup): set<WorkerKey>
  {
    set j: nat | j < g.numberOfWorkers :: WorkerKey(g.name, j)
  }

  function NamesOf(g: WorkerGroup): set<WorkerName>
  {
    set j: nat | 1 <= j <= g.numberOfWorkers :: WorkerName(g.name, j)
  }

  /** The keys "{name}-{i}" the groups ask for. */
  function ExpectedKeys(gs: seq<WorkerGroup>): set<WorkerKey>
  {
    if |gs| == 0 then {} else ExpectedKeys(gs[..|gs| - 1]) + KeysOf(gs[|gs| - 1])
  }

  /** worker_group_names: the names "{name}-Worker-{i+1}" the groups ask for. */
  function ExpectedNames(gs: seq<WorkerGroup>): set<WorkerName>
  {
    if |gs| == 0 then {} else ExpectedNames(gs[..|gs| - 1]) + NamesOf(gs[|gs| - 1])
  }

  /** Key k lies in the shrink range number_of_workers .. 11 of group g. */
  predicate ShrinkHits(g: WorkerGroup, k: WorkerKey)
  {
    k.group == g.name && g.numberOfWorkers <= k.index < MaxWorkers
  }

  predicate InShrinkRange(k: WorkerKey, gs: seq<WorkerGroup>)
  {
    |gs| > 0 && (InShrinkRange(k, gs[..|gs| - 1]) || ShrinkHits(gs[|gs| - 1], k))
  }

  /** A handle of a group that no longer exists, or with a name no group expects. */
  predicate Stale(h: Handle, ids: set<int>, names: set<WorkerName>)
  {
    h.groupId !in ids || h.name !in names
  }

  /** The final loop of init_worker_threads over the pool. */
  function MarkStale(p: Pool, ids: set<int>, names: set<WorkerName>): Pool
  {
    Pool(p.order, map k | k in p.threads ::
      if Stale(p.threads[k], ids, names) then SetRedundant(p.threads[k], p.threads[k].idle) else p.threads[k])
  }

  /** init_worker_threads as a whole. */
  function Reconcile(p: Pool, gs: seq<WorkerGroup>): Pool
  {
    MarkStale(GroupsPass(Prune(p), gs), GroupIds(gs), ExpectedNames(gs))
  }

  ghost predicate DistinctNames(gs: seq<WorkerGroup>)
  {
    forall i, j :: 0 <= i < j < |gs| ==> gs[i].name != gs[j].name
  }

  /** A handle with both redundancy flags cleared, to compare a handle with
      the handle it was before it was marked. */
  function Unmarked(h: Handle): Handle
  {
    h.(redundant := false, immediate := false)
  }

  /* ---------------------------------------------------------------------- */
  /* Admin passes over the whole pool                                        */

  /** A group id narrows an "all" operation only when it is truthy: None and
      0 mean every handle. */
  predicate Scoped(groupFilter: Option<int>)
  {
    groupFilter.Some? && groupFilter.value != 0
  }

  predicate InScope(h: Handle, groupFilter: Option<int>)
  {
    !Scoped(groupFilter) || h.groupId == groupFilter.value
  }

  /** pause_all_worker_threads. */
  function PauseAll(p: Pool, groupFilter: Option<int>): Pool
  {
    Pool(p.order, map k | k in p.threads ::
      if InScope(p.threads[k], groupFilter) then Pause(p.threads[k]) else p.threads[k])
  }

  /** resume_all_worker_threads. */
  function ResumeAll(p: Pool, groupFilter: Option<int>): Pool
  {
    Pool(p.order, map k | k in p.threads ::
      if InScope(p.threads[k], groupFilter) then Unpause(p.threads[k]) else p.threads[k])
  }

  /** terminate_all_worker_threads and the marking loop of stop. */
  function TerminateAll(p: Pool): Pool
  {
    Pool(p.order, map k | k in p.threads :: SetRedundant(p.threads[k], false))
  }

  /** The position in insertion order of the first handle that accepts work. */
  function FirstAccepting(order: seq<WorkerKey>, threads: map<WorkerKey, Handle>, accepts: Handle -> bool): (r: Option<nat>)
    ensures r.Some? ==> r.value < |order| && order[r.value] in threads && accepts(threads[order[r.value]])
    ensures r.Some? ==> forall j :: 0 <= j < r.value && order[j] in threads ==> !accepts(threads[order[j]])
    ensures r.None? <==> forall j :: 0 <= j < |order| && order[j] in threads ==> !accepts(threads[order[j]])
  {
    if order == [] then None
    else if order[0] in threads && accepts(threads[order[0]]) then Some(0)
    else match FirstAccepting(order[1..], threads, accepts)
      case None => None
      case Some(i) => Some(i + 1)
  }

  /** What fetch_available_worker_ids collects: the keys of s, in order, whose
      handle is available for work. */
  function AvailableKeys(s: seq<WorkerKey>, t: map<WorkerKey, Handle>): seq<WorkerKey>
  {
    if s == [] then []
    else
      var k := s[|s| - 1];
      AvailableKeys(s[..|s| - 1], t) + (if k in t && Available(t[k]) then [k] else [])
  }

  /** The collected keys are exactly the listed keys with an available handle,
      each once when the list has no repeats. */
  lemma {:induction false} AvailableKeysMembers(s: seq<WorkerKey>, t: map<WorkerKey, Handle>)
    ensures forall k :: k in AvailableKeys(s, t) <==> k in s && k in t && Available(t[k])
    ensures Distinct(s) ==> Distinct(AvailableKeys(s, t))
  {
    if s != [] {
      var k := s[|s| - 1];
      AvailableKeysMembers(s[..|s| - 1], t);
      assert s == s[..|s| - 1] + [k];
      if Distinct(s) {
        assert k !in s[..|s| - 1];
      }
    }
  }

  /** The admin passes change one flag and nothing else; the pool invariant,
      the order and the key set survive them. */
  lemma AdminPassesKeepPool(p: Pool, groupFilter: Option<int>)
    requires PoolOk(p)
    ensures PoolOk(PauseAll(p, groupFilter)) && PoolOk(ResumeAll(p, groupFilter)) && PoolOk(TerminateAll(p))
  {
  }

  /** Scoping: a handle outside the group of a scoped pause or resume is left
      exactly as it was; one inside it ends paused (or unpaused). */
  lemma PauseResumeScope(p: Pool, groupFilter: Option<int>, k: WorkerKey)
    requires k in p.threads
    ensures !InScope(p.threads[k], groupFilter) ==>
      PauseAll(p, groupFilter).threads[k] == p.threads[k] && ResumeAll(p, groupFilter).threads[k] == p.threads[k]
    ensures InScope(p.threads[k], groupFilter) ==>
      PauseAll(p, groupFilter).threads[k].paused && !ResumeAll(p, groupFilter).threads[k].paused
    ensures p.threads[k].paused ==> PauseAll(p, groupFilter).threads[k] == p.threads[k]
  {
  }
}
