/** Capacity and backpressure: get_total_worker_count and the limit
    postprocessor_queue_full derives from it. */
module Capacity {
  import opened Naming
  import opened Entities
  import opened Pools
  import opened Reconciliation

  /** The sum of number_of_workers over the groups, in store order. */
  function TotalWorkers(gs: seq<WorkerGroup>): nat
  {
    if |gs| == 0 then 0 else TotalWorkers(gs[..|gs| - 1]) + gs[|gs| - 1].numberOfWorkers
  }

  /** The post-processor queue limit: the configured worker count plus one. */
  function QueueLimit(gs: seq<WorkerGroup>): nat
  {
    TotalWorkers(gs) + 1
  }

  /** The verdict of postprocessor_queue_full for processedCount finished tasks. */
  predicate QueueFull(gs: seq<WorkerGroup>, processedCount: nat)
  {
    processedCount > QueueLimit(gs)
  }

  /** The total is additive over a split of the group list. */
  lemma {:induction false} TotalWorkersAppend(a: seq<WorkerGroup>, b: seq<WorkerGroup>)
    ensures TotalWorkers(a + b) == TotalWorkers(a) + TotalWorkers(b)
  {
    if |b| > 0 {
      var init := b[..|b| - 1];
      TotalWorkersAppend(a, init);
      assert (a + b)[..|a + b| - 1] == a + init;
    } else {
      assert a + b == a;
    }
  }

  /** Every group's count is part of the total. */
  lemma {:induction false} TotalWorkersBound(gs: seq<WorkerGroup>, i: nat)
    requires i < |gs|
    ensures gs[i].numberOfWorkers <= TotalWorkers(gs)
  {
    if i < |gs| - 1 {
      TotalWorkersBound(gs[..|gs| - 1], i);
    }
  }

  /** A group asks for exactly number_of_workers keys. */
  lemma {:induction false} KeysOfCard(name: string, n: nat)
    ensures |set j: nat | j < n :: WorkerKey(name, j)| == n
  {
    if n > 0 {
      KeysOfCard(name, n - 1);
      KeysBelowStep(name, n);
      assert WorkerKey(name, n - 1) !in (set j: nat | j < n - 1 :: WorkerKey(name, j));
    }
  }

  /** The groups ask for at most the total number of keys, and for exactly that
      many when their names are distinct. */
  lemma {:induction false} ExpectedKeysCard(gs: seq<WorkerGroup>)
    ensures |ExpectedKeys(gs)| <= TotalWorkers(gs)
    ensures DistinctNames(gs) ==> |ExpectedKeys(gs)| == TotalWorkers(gs)
  {
    if |gs| > 0 {
      var init, g := gs[..|gs| - 1], gs[|gs| - 1];
      ExpectedKeysCard(init);
      KeysOfCard(g.name, g.numberOfWorkers);
      var a, b := ExpectedKeys(init), KeysOf(g);
      assert |a + b| <= |a| + |b| by {
        assert a + b == a + (b - a);
        assert |b - a| <= |b|;
      }
      if DistinctNames(gs) {
        assert DistinctNames(init);
        forall k | k in a
          ensures k !in b
        {
          ExpectedKeysIff(init, k);
          var h :| h in init && h.name == k.group && k.index < h.numberOfWorkers;
          var i :| 0 <= i < |init| && init[i] == h;
          assert gs[i] == h;
        }
        assert a * b == {};
      }
    }
  }

  /** After reconciliation, no more handles remain un-doomed than the groups'
      total worker count: every other handle has been marked redundant. */
  lemma ReconcileActiveBound(p: Pool, gs: seq<WorkerGroup>)
    requires PoolOk(p)
    ensures var r := Reconcile(p, gs);
      |set k | k in r.threads && !r.threads[k].redundant| <= TotalWorkers(gs)
  {
    var r := Reconcile(p, gs);
    var active := set k | k in r.threads && !r.threads[k].redundant;
    forall k | k in active
      ensures k in ExpectedKeys(gs)
    {
      ReconcileCapacity(p, gs, k);
      ExpectedKeysIff(gs, k);
    }
    var expected := ExpectedKeys(gs);
    assert expected == active + (expected - active);
    ExpectedKeysCard(gs);
  }
}
