# unmanic Foreman — a verified Dafny model

unmanic's `Foreman` is the thread that owns the pool of worker threads. It
keeps that pool in step with the configured worker groups. It runs the
groups' time-of-day event schedules (pause, resume, set the worker count). It
pauses every worker while the plugin configuration is changing or invalid.
And it feeds pending tasks to idle workers one at a time.

This project models the Foreman's sequential decision logic in Dafny with
these pieces of state:

- The pool (`worker_threads`, a Python dict) is a map from worker key to
  handle, together with the keys in insertion order.
- The idle-worker semaphore is a natural-number counter.
- The pending-task queue is a sequence.
- The recorded plugin configuration is a record.

The Foreman itself is the class `ForemanCore.Foreman`. Each modelled method
of it is a Dafny method, with loops and loop invariants where the source
loops; `run` is modelled as `RunPrologue` and one `RunIteration` per pass of
its loop. Each method is proved against a functional specification, and the
properties the source promises are proved as lemmas about those
specifications.

Modules, in dependency order:

- `Naming`: worker keys `"{name}-{i}"` and worker names
  `"{name}-Worker-{i+1}"` as pairs. It proves that both string renderings are
  injective.
- `Entities`: handles, groups, schedules, tasks and the flag updates of a
  Worker.
- `Pools`: the pool, its invariant and the functional specification of every
  pass over it.
- `Reconciliation`: what `init_worker_threads` does to the pool.
- `Schedules`: the firing rule and the schedule pass.
- `ConfigGate`: the configuration-change gate.
- `Capacity`: the worker total and post-processor backpressure.
- `Dispatch`: one dispatch step of the main loop.
- `ForemanCore`: the `Foreman` class.

## Model

| member | source | states |
|---|---|---|
| Naming.Decimal | unmanic/libs/foreman.py:266-267 | the decimal rendering of the index in a worker key or name is non-empty and made of digits only |
| Naming.DecimalInjective | unmanic/libs/foreman.py:266-267 | two indices with the same decimal rendering are equal |
| Naming.SplitAtLastDash | unmanic/libs/foreman.py:266 | a string "x-d" where d has no dash splits back into x and d in one way only |
| Naming.KeyStringInjective | unmanic/libs/foreman.py:266 | two worker keys "{name}-{i}" with the same string are the same (name, index) pair |
| Naming.NameStringInjective | unmanic/libs/foreman.py:267 | two worker names "{name}-Worker-{i}" with the same string are the same pair |
| Entities.MarkIdempotent | unmanic/libs/foreman.py:281-283 | marking a handle redundant with its own idle flag keeps that flag, and marking it a second time changes nothing |
| Pools.PruneExact | unmanic/libs/foreman.py:247-255 | pruning deletes exactly the handles that are not alive, leaves every other entry as it was, and keeps the pool invariant |
| Pools.AliveKeysMembers | unmanic/libs/foreman.py:250-255 | after pruning, the order lists exactly the listed keys that are alive, without repeats |
| Pools.AliveKeysAll | unmanic/libs/foreman.py:250-255 | when every listed key is alive, pruning keeps the order as it is |
| Pools.FirstAccepting | unmanic/libs/foreman.py:472-476 | the position found accepts work and no earlier position does; no position is found exactly when no handle accepts |
| Pools.AvailableKeysMembers | unmanic/libs/foreman.py:301-307 | the collected ids are exactly the listed keys whose handle is idle, alive and not paused, each listed once |
| Pools.AdminPassesKeepPool | unmanic/libs/foreman.py:370-432 | the pause-all, resume-all and terminate-all passes keep the pool invariant |
| Pools.PauseResumeScope | unmanic/libs/foreman.py:370-407 | a handle outside a scoped pass's group is left as it was; one inside it ends paused (or unpaused); an already paused handle is untouched by pause |
| Reconciliation.ExpectedKeysIff | unmanic/libs/foreman.py:262-267 | a key is asked for exactly when some group has that name and the index is below its worker count |
| Reconciliation.InShrinkRangeIff | unmanic/libs/foreman.py:277-283 | a key is in the shrink range exactly when some group has that name and number_of_workers <= index < 12 |
| Reconciliation.GroupIdsIff | unmanic/libs/foreman.py:260-263 | an id is collected exactly when some group has that id |
| Reconciliation.ExpectedNameIffKey | unmanic/libs/foreman.py:265-270 | the name derived from a key is among the collected names exactly when the key is asked for |
| Reconciliation.StartOk | unmanic/libs/foreman.py:295-299 | starting a worker under an absent key with the name derived from that key keeps the pool invariant and only appends to the order |
| Reconciliation.PrefixSameKeys | unmanic/libs/foreman.py:250-275 | two well-formed pools with the same keys, one order a prefix of the other, have the same order |
| Reconciliation.CreateUpToShape | unmanic/libs/foreman.py:265-275 | after the create loop the keys are the old ones plus the group's keys below the bound; old entries are unchanged; each new entry is a new handle with the derived name and the group's id |
| Reconciliation.CreateUpToOk | unmanic/libs/foreman.py:265-275 | the create loop keeps the pool invariant |
| Reconciliation.CreateUpToFacts | unmanic/libs/foreman.py:265-275 | the create loop's invariant and shape together |
| Reconciliation.ShrinkUpToFacts | unmanic/libs/foreman.py:277-283 | the shrink loop keeps the order and the keys, and marks exactly the present keys of the group in the range, with immediate equal to idle |
| Reconciliation.GroupStepFacts | unmanic/libs/foreman.py:263-283 | one group's two loops: the new keys are the group's keys, old handles are marked exactly when in the shrink range, new handles are fresh |
| Reconciliation.GroupsPassFacts | unmanic/libs/foreman.py:262-283 | the loop over all groups: invariant, order prefix, key set, marking of old handles, and freshness of new ones |
| Reconciliation.GroupsPassShape | unmanic/libs/foreman.py:262-283 | the loop over all groups keeps the invariant, only appends to the order, and adds exactly the expected keys |
| Reconciliation.GroupsPassOld | unmanic/libs/foreman.py:277-283 | an old handle is marked, idle as immediate, exactly when some group's shrink range covers its key |
| Reconciliation.GroupsPassNew | unmanic/libs/foreman.py:269-275 | a key that was absent now holds a new handle, at most marked since, of one of the groups |
| Reconciliation.GroupsPassNewHandle | unmanic/libs/foreman.py:265-275 | with distinct group names, a created handle is exactly the new handle of its group at the end of the pass |
| Reconciliation.MarkStaleFacts | unmanic/libs/foreman.py:285-292 | the stale-marking loop keeps the pool invariant and the order |
| Reconciliation.ReconcileKeys | unmanic/libs/foreman.py:257-292 | after init_worker_threads the keys are exactly the alive old keys plus every key the groups ask for; the pruned order is a prefix of the new order |
| Reconciliation.ReconcileCreatesAll | unmanic/libs/foreman.py:265-275 | for every group and every i < number_of_workers the key "{name}-{i}" is present afterwards |
| Reconciliation.ReconcileExisting | unmanic/libs/foreman.py:257-292 | an alive old handle survives, marked (idle as immediate) exactly when shrunk or stale, otherwise untouched |
| Reconciliation.ReconcileStartsOnlyMissing | unmanic/libs/foreman.py:269-299 | a handle that was not there alive is a new handle for an asked-for key with the derived name and a live group id |
| Reconciliation.ReconcileStartsGroupWorker | unmanic/libs/foreman.py:265-299 | with distinct group names, a missing key of a group gets exactly a new handle named "{name}-Worker-{i+1}" with that group's id |
| Reconciliation.ReconcileShrinks | unmanic/libs/foreman.py:277-283 | an existing alive handle at an index from number_of_workers up to 11 ends redundant with immediate equal to idle, otherwise unchanged |
| Reconciliation.ReconcileMarksStale | unmanic/libs/foreman.py:285-292 | an alive handle whose group id is gone, or whose key no group asks for, ends redundant with immediate equal to idle |
| Reconciliation.ReconcileNeverKillsBusy | unmanic/libs/foreman.py:277-292 | a handle that is busy and immediate afterwards was already immediate before: reconciliation never marks a busy worker immediate |
| Reconciliation.ReconcileCapacity | unmanic/libs/foreman.py:257-292 | every handle left un-redundant belongs to a group and an index below its worker count |
| Reconciliation.ReconcileAllAlive | unmanic/libs/foreman.py:247-299 | after reconciliation every handle is alive |
| Reconciliation.ReconcileSecondRunStartsNothing | unmanic/libs/foreman.py:257-299 | a second run with the same groups starts nothing: the keys and the order stay the same |
| Reconciliation.PruneOfReconciled | unmanic/libs/foreman.py:247-255 | pruning right after reconciliation deletes nothing |
| Reconciliation.ReconcileIdempotent | unmanic/libs/foreman.py:257-299 | with distinct group names, running reconciliation twice is running it once |
| Schedules.FiresIff | unmanic/libs/foreman.py:214-240 | a schedule fires exactly when its time is set and equals now, and it is daily, or weekday on Monday to Friday, or weekend on Saturday or Sunday, or today's day name |
| Schedules.TickGroupRecord | unmanic/libs/foreman.py:191-243 | one group's schedules keep its id, name and schedules; its count changes only to the count of a fired "count" schedule, and when "count" schedules fire it is the count of the last of them; the group fired exactly when one of its schedules fires |
| Schedules.TickGroupLastCount | unmanic/libs/foreman.py:188-243 | the last fired "count" schedule of a group decides its new count |
| Schedules.TickGroupLastToggle | unmanic/libs/foreman.py:180-243 | for a handle in the group's scope, the last fired pause or resume schedule decides whether it ends paused |
| Schedules.TickGroupPool | unmanic/libs/foreman.py:177-193 | one group's schedules change only paused flags and keep the group's id |
| Schedules.RequestedInPrefix | unmanic/libs/foreman.py:214-240 | a task requested by a prefix of the schedules is requested by the list |
| Schedules.RequestedInLast | unmanic/libs/foreman.py:214-240 | a task is requested by a list exactly when its prefix or its last schedule requests it |
| Schedules.TickGroupHandle | unmanic/libs/foreman.py:177-240 | out of the group's scope a handle is unchanged; with no pause or resume fired it is unchanged; in scope it ends paused after a pause with no resume, and unpaused after a resume with no pause; when both fire, it ends paused exactly when the last of them is a pause |
| Schedules.RequestedForLast | unmanic/libs/foreman.py:206-240 | a task is requested for a handle by a list of groups exactly when the prefix or the last group requests it |
| Schedules.ApplySchedulesGroups | unmanic/libs/foreman.py:191-245 | the pass returns one record per group, in order, differing at most in its count, which then comes from a fired "count" schedule of that group; when "count" schedules of a group fire, its new count is that of the last of them |
| Schedules.ApplySchedulesRecords | unmanic/libs/foreman.py:206-245 | record i of the pass is what group i's own schedules made of it |
| Schedules.ApplySchedulesFired | unmanic/libs/foreman.py:240-245 | the pass fired exactly when some schedule of some group fires now |
| Schedules.ApplySchedulesLastToggle | unmanic/libs/foreman.py:180-245 | over all groups, the last fired pause or resume schedule of a group covering a handle decides whether it ends paused |
| Schedules.ApplySchedulesPool | unmanic/libs/foreman.py:177-245 | the pass changes nothing in the pool but paused flags |
| Schedules.PausedOnlyKeepsPool | unmanic/libs/foreman.py:177-245 | a change of paused flags only keeps the pool invariant |
| Schedules.ApplySchedulesHandle | unmanic/libs/foreman.py:177-245 | a handle with no pause or resume fired for its group is unchanged; it ends paused after a pause with no resume, and unpaused after a resume with no pause; when both fire for its groups, it ends paused exactly when the last of them in (group, schedule) order is a pause |
| Schedules.NothingFiredNothingChanged | unmanic/libs/foreman.py:206-245 | a pass in which no schedule fires leaves the pool and the groups as they were |
| Schedules.ScheduledPassReconcilesIffFired | unmanic/libs/foreman.py:206-245 | reconciliation runs once, against the updated groups, exactly when some schedule fires, and otherwise nothing changes; the pool invariant holds afterwards |
| ConfigGate.SaveKeeps | unmanic/libs/foreman.py:97-102 | settings and digest are each stored only when non-empty, otherwise kept |
| ConfigGate.ObserveChangedIff | unmanic/libs/foreman.py:131-141 | a change is reported exactly when the digest differs from the stored one; then a non-empty digest and non-empty settings are recorded; no change leaves the record alone |
| ConfigGate.ObserveTwiceQuiet | unmanic/libs/foreman.py:131-141 | observing the same digest again straight away reports no change |
| ConfigGate.ChangeInvalidates | unmanic/libs/foreman.py:152-170 | a reported change makes the worker configuration invalid whatever the other checks say |
| ConfigGate.ChangesOf | unmanic/libs/foreman.py:131-141 | a series of passes reports one result per pass |
| ConfigGate.ObserveAllHash | unmanic/libs/foreman.py:131-141 | over a series of real digests, the stored digest is always the last one seen |
| ConfigGate.ChangesOfIff | unmanic/libs/foreman.py:131-141 | the first pass reports a change exactly when its digest differs from the initial record, and each later pass exactly when its digest differs from the previous pass's |
| Capacity.TotalWorkersAppend | unmanic/libs/foreman.py:89-95 | the total is additive over a split of the group list |
| Capacity.TotalWorkersBound | unmanic/libs/foreman.py:89-95 | every group's count is part of the total |
| Capacity.KeysOfCard | unmanic/libs/foreman.py:265-267 | a group asks for exactly number_of_workers keys |
| Capacity.ExpectedKeysCard | unmanic/libs/foreman.py:262-267 | the groups ask for at most the total number of keys, and exactly that many when their names are distinct |
| Capacity.ReconcileActiveBound | unmanic/libs/foreman.py:257-292 | after reconciliation no more handles are un-redundant than the groups' total worker count |
| Dispatch.StepTokens | unmanic/libs/foreman.py:457-467 | a timed-out acquire or an empty queue leaves everything as it was (the token is released); every other step that got a token has used it up |
| Dispatch.StepLeaves | unmanic/libs/foreman.py:457-469 | the loop is left exactly on the abort flag after a token, or on a shut-down empty queue |
| Dispatch.StepConservesTasks | unmanic/libs/foreman.py:465-480 | the queue before is the tasks taken followed by the queue after; at most the head task is taken, and only with a token and no abort |
| Dispatch.StepAssignsFirst | unmanic/libs/foreman.py:472-476 | an assigned task goes to the first handle in insertion order that accepts work; only that handle changes, by getting the task appended |
| Dispatch.StepDrops | unmanic/libs/foreman.py:472-480 | a task is dropped only when no handle accepts work, and then the pool is untouched; if some handle accepts, the task is assigned |
| Dispatch.FirstAcceptingAt | unmanic/libs/foreman.py:472-476 | a search that stops at the first accepting handle finds exactly that position |
| ForemanCore.WithoutOnce | unmanic/libs/foreman.py:255 | deleting a key that occurs once removes exactly that occurrence from the order |
| ForemanCore.PruneStepOrder | unmanic/libs/foreman.py:250-255 | one step of the prune loop keeps a live key in place and deletes a dead one |
| ForemanCore.PruneInvStep | unmanic/libs/foreman.py:250-255 | the prune loop's invariant survives one step, in both branches |
| ForemanCore.PruneInvDone | unmanic/libs/foreman.py:250-255 | the prune loop's invariant at the end is the pruned pool |
| ForemanCore.PassAllIs | unmanic/libs/foreman.py:285-432 | each per-key walk is the pool-wide pass it implements |
| ForemanCore.PassInvStep | unmanic/libs/foreman.py:285-432 | a walk's invariant survives rewriting one more key |
| ForemanCore.PassInvDone | unmanic/libs/foreman.py:285-432 | a walk's invariant at the end is the pool-wide pass, which keeps the pool invariant |
| ForemanCore.NamesBelowStep | unmanic/libs/foreman.py:265-268 | the names collected grow by exactly "{name}-Worker-{i+1}" per index |
| ForemanCore.AddWorkKeepsPool | unmanic/libs/foreman.py:472-476 | handing a task to a handle keeps the pool invariant |
| ForemanCore.Foreman.constructor | unmanic/libs/foreman.py:48-71 | the Foreman starts with an empty pool, no tokens, the given queue, no abort, and the configuration a first configuration_changed records |
| ForemanCore.Foreman.SaveCurrentConfig | unmanic/libs/foreman.py:97-102 | the record becomes Save of the old one: each part stored only when non-empty |
| ForemanCore.Foreman.ConfigurationChanged | unmanic/libs/foreman.py:131-141 | the result and the new record are exactly the gate's observation of the current digest |
| ForemanCore.Foreman.ValidateWorkerConfig | unmanic/libs/foreman.py:143-172 | valid exactly when no plugin is incompatible, the digest did not change and the limits hold; the digest is recorded in every case |
| ForemanCore.Foreman.OnWorkerConfigChanged | unmanic/libs/foreman.py:174-175 | the pool becomes the reconciled pool |
| ForemanCore.Foreman.PruneDeadThreads | unmanic/libs/foreman.py:247-255 | the pool becomes Prune of the old pool and keeps its invariant |
| ForemanCore.Foreman.DeleteDeadEntries | unmanic/libs/foreman.py:250-255 | the loop over a copy of the key list ends with the prune invariant for every key |
| ForemanCore.Foreman.InitWorkerThreads | unmanic/libs/foreman.py:257-292 | the pool becomes Reconcile of the old pool and keeps its invariant |
| ForemanCore.Foreman.StartGroupWorkers | unmanic/libs/foreman.py:265-275 | the pool becomes the create loop's result, and the names collected grow by the group's names |
| ForemanCore.Foreman.ShrinkGroupWorkers | unmanic/libs/foreman.py:277-283 | the pool becomes the shrink loop's result, over the indices number_of_workers up to 11 (none when the count is 12 or more) |
| ForemanCore.Foreman.MarkStaleWorkers | unmanic/libs/foreman.py:285-292 | the pool becomes MarkStale of the old pool and keeps its invariant |
| ForemanCore.Foreman.StartWorkerThread | unmanic/libs/foreman.py:295-299 | the key maps to a new handle; the order gains the key only if it was absent |
| ForemanCore.Foreman.MarkWorkerThreadAsRedundant | unmanic/libs/foreman.py:434-435 | exactly the given handle is marked redundant with the given immediate flag |
| ForemanCore.Foreman.PauseWorkerThread | unmanic/libs/foreman.py:352-368 | False and no change for an unknown key; otherwise True and the handle is paused, an already paused one left as it was |
| ForemanCore.Foreman.ResumeWorkerThread | unmanic/libs/foreman.py:381-396 | False and no change for an unknown key; otherwise True and the handle is unpaused |
| ForemanCore.Foreman.TerminateWorkerThread | unmanic/libs/foreman.py:409-424 | False and no change for an unknown key; otherwise True and the handle is marked redundant, not immediate |
| ForemanCore.Foreman.PauseAllWorkerThreads | unmanic/libs/foreman.py:370-379 | True, and the pool becomes PauseAll: only handles in the group's scope (all when the id is falsy) are paused |
| ForemanCore.Foreman.ResumeAllWorkerThreads | unmanic/libs/foreman.py:398-407 | True, and the pool becomes ResumeAll over the group's scope |
| ForemanCore.Foreman.TerminateAllWorkerThreads | unmanic/libs/foreman.py:426-432 | True, and every handle is marked redundant, not immediate |
| ForemanCore.Foreman.Stop | unmanic/libs/foreman.py:77-87 | the abort flag is raised, one token released, the queue shut down and emptied, and every handle marked redundant, not immediate |
| ForemanCore.Foreman.RunTask | unmanic/libs/foreman.py:177-193 | the time is recorded; the group's handles are paused or resumed, or the group's count is set, as the schedule's task says |
| ForemanCore.Foreman.TickGroupSchedules | unmanic/libs/foreman.py:214-243 | the inner loop over one group's schedules computes TickGroup: pool, updated record and whether anything fired |
| ForemanCore.Foreman.ManageEventSchedules | unmanic/libs/foreman.py:195-245 | the pool and the groups become ScheduledPass of the old ones; the time is recorded exactly when something fired |
| ForemanCore.Foreman.FetchAvailableWorkerIds | unmanic/libs/foreman.py:301-307 | the ids, in insertion order, of exactly the idle, alive, unpaused handles, each once |
| ForemanCore.Foreman.CheckForIdleWorkers | unmanic/libs/foreman.py:309-314 | True exactly when some handle is idle, alive and not paused |
| ForemanCore.Foreman.GetTotalWorkerCount | unmanic/libs/foreman.py:89-95 | the sum of number_of_workers over the groups |
| ForemanCore.Foreman.PostprocessorQueueFull | unmanic/libs/foreman.py:322-350 | True exactly when the processed-task count exceeds the total worker count plus one |
| ForemanCore.Foreman.FindAcceptingWorker | unmanic/libs/foreman.py:472-476 | the position of the first handle in insertion order that accepts work, or none |
| ForemanCore.Foreman.DispatchStep | unmanic/libs/foreman.py:457-480 | the semaphore, the queue and the pool change exactly as the dispatch step says, with the outcome it reports |
| ForemanCore.Foreman.RunPrologue | unmanic/libs/foreman.py:437-446 | the pool is reconciled, the configuration checked, and every handle paused when it is invalid |
| ForemanCore.Foreman.RunIteration | unmanic/libs/foreman.py:447-480 | on the abort flag nothing changes and the loop ends; otherwise the due jobs run, then an invalid configuration pauses everything and ends the pass, and a valid one runs one dispatch step |

## Left out

- Threads, the semaphore's blocking, queue timeouts and `event.wait`: the semaphore is a counter, the queue a sequence, and a timed-out wait is the step that finds nothing.
- The `schedule` library and its registration of the two periodic jobs: which jobs are due in a pass is an input (`scheduleDue`, `pruneDue`). When both are due, the schedule job is taken to run first, because the order `run_pending` uses is not part of this model.
- The clock: `datetime.today()` and `strftime` become the parameters `timeNow` (an "HH:MM" string) and `dayOfWeek` (0 is Monday).
- The MD5 digest of the sorted JSON encoding: the class constant `hashOf` stands for it.
- `get_current_library_configuration`, the plugin compatibility check and the library-count limits read the database through `Library` and `PluginsHandler`: the settings and both verdicts are inputs.
- The worker-group store (`WorkerGroup.get_all_worker_groups`) is a parameter. The "count" task's `save()` is modelled by returning the updated records to the caller.
- The branch where a worker group disappears while the schedules are read (the caught exception) is not modelled.
- The Worker class is not part of this model. A started worker is taken to be idle, alive and unpaused, with no work and no redundancy flags. `set_redundant`, `pause`, `unpause` and `add_work` are flag updates, and `can_accept_work` is a parameter.
- Logging, `print` and frontend messages are not modelled.
- ForemanCore.Foreman.MarkWorkerThreadAsRedundant: requires the key to be in the pool. For an unknown id the source raises `KeyError` (foreman.py:435), and that exception is not modelled; every caller (the shrink and stale-marking loops, `TerminateWorkerThread` and `Stop`) passes a key it has just found in the pool.
- A started worker's `thread_id` is taken to be the key it is stored under, and its `name` the name it was started with. The Worker class, which stores them, is not part of this model; `FetchAvailableWorkerIds` returns keys and relies on this.
- Workers release the idle-worker semaphore themselves when they finish a task (the semaphore is handed to each Worker at foreman.py:296). That release is not modelled: only `DispatchStep`'s no-task branch and `Stop` raise `idleWorkers`, so a Foreman whose counter is 0 keeps finding no idle worker until it is stopped.
- `get_all_worker_status`, `get_worker_status` and `get_tags_configured_for_worker` are not modelled. They only read worker status or the tag store, and `get_worker_status` calls `int()` on keys of the form "{name}-{i}".
- ForemanCore.Foreman.GetTotalWorkerCount: every group record carries a count; a record with no `number_of_workers` counts 0 in the source, but such a record would make `init_worker_threads` fail, so it is not modelled.
- `last_schedule_run` is recorded but never read. The code therefore does not stop a schedule from firing again within the same minute, and the model claims no such deduplication.
- A task with no accepting worker is dropped, not re-queued, as the code does.
- The main loop never consults `postprocessor_queue_full`; it is modelled as the separate query it is.
