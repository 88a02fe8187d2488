# Dkron: the replicated job store and what depends on it

Dkron is a distributed cron service. Its jobs, executions and daily statistics are replicated: every server applies the same
Raft log of five commands (SetJob, DeleteJob, SetExecution, DeleteExecutions, ExecutionDone) to its own embedded database, and
the leader also keeps a cron table, runs jobs, restores backups and repairs executions that nobody finishes. This project models
that core and proves what its parts promise to each other. `dafny verify dfyconfig.toml` checks all of it.

## How the model is built

* **The commands as functions, and the store as an object.** `Commands.dfy` says what each command does to a state of three maps
  (jobs by name, executions by key, statistics by day), and dispatches on the command in module `Fsm`. `Store.dfy` is the store
  itself: a class over one flat, ordered map from string keys to records, with the transactions, prefix scans and loops of
  `dkron/store.go`. Each of its methods is proved to compute the function with its name, so that what is proved of the functions
  holds for the flat database.
* **Keys.** `Strings.dfy` holds what is used of Go's strings package. `Keys.dfy` builds the keys (`jobs:`,
  `executions:<job>:<nanoseconds>-<node>`, `stats:`) and says which of them a listing and a deleting scan select.
* **Runs.** `References.dfy`, `Reachability.dfy`, `ParentChains.dfy`, `Replicas.dfy`, `Executions.dfy`, `Conservation.dfy` and
  `Repeats.dfy` hold the properties of single commands, repeated commands and whole logs.
* **Backups.** `JobTree.dfy` builds a tree of job objects out of a list, by splicing the list while subtrees grow,
  `TreeOrder.dfy` says in which order its nodes come, and `Restore.dfy` replays the tree through the SetJob request.
* **The leader.** `Scheduler.dfy` is the cron table and the scheduler, `Rpc.dfy` the request handlers, which apply a command and
  then update the table, `Reports.dfy` what a finished execution leads to, and `Leader.dfy` the monitor and the leader loops as a state machine in which the steps of the threads
  interleave freely.
* **Running jobs.** `Targets.dfy` selects nodes, `Cleanup.dfy` marks stale executions and decides whether a job may run,
  `Backoff.dfy` is the retry loop of the agent call, and `ScheduleHash.dfy` replaces the `~` of a schedule.

Library code is a parameter: `Types.Libs` bundles the cron parser, time zones, the database's iteration order, sorting
by start time and a few validators as functions about which nothing is known, except what `Libs.Lawful` states
(iteration yields every key once, and leaving keys out does not reorder the others; sorting permutes and sorts).
`CronTable.ZoneLaw` is the one promise of the cron parser that is used: a schedule that parses still parses with a
zone that loads in front of it. `CronTable.HashLaw` says that the bundled schedule hash is the one of
`ScheduleHash.dfy`. `Lawful.dfy` exhibits a bundle that keeps all of these laws. Times are nanoseconds since the Unix
epoch. Every command carries two readings of the clock, one for each call of `time.Now` in `GetNext`. Job counters
wrap at 32 bits, statistics and the backoff at 64 bits, and the start time in a key is taken modulo 2^64, as in the
program.

## What the proofs found

* Deleting the executions of a job scans a prefix without a closing colon, so that the executions of every job whose name starts
  with the same characters are deleted too (`Executions.DeleteScanSelects`). Other jobs are spared exactly when none of them has a
  record and such a name (`Executions.DeletionSparesOthersIff`).
* Two different executions can share a key when a node's name contains a colon and a dash in the right places.
  `Keys.ExecKeysEqualIff` says exactly which executions do. Job names without a colon rule out any clash of different jobs.
* The store refuses only a job that is its own parent, so a root can become the child of its own child
  (`Reachability.CircleIsAccepted`). `Reachability.SetJobKeepsGroundedIff` says exactly when chains of parents stay free of circles.
* The tree builder decides by the order of the list when jobs share a name (`JobTree.OrderDecides`). For distinct names it builds a
  tree exactly when there is one (`JobTree.BuildTreeIff`).
* A restore appends every child to the dependents that its parent was uploaded with. A job that was exported with its list of
  dependents lists each of them twice afterwards (`Restore.RestoredListIff`).
* A SetJob request passes on only two errors of the store. A job that the store refuses for another reason is scheduled although it
  is not stored, and the client is told that all is well (`Rpc.RefusedJobIsScheduled`). `Rpc.RefusedStaysInStepIff` says exactly when
  the table and the store still agree.
* A report is compared with the last result of the job only, so that a repeated report can be counted again
  (`Repeats.CountedTwice`). `Repeats.RepeatCountedIff` says exactly when one other report in between has that effect, and
  `Repeats.RepeatAfterLogIff` when a whole log has.
* The monitor does not notice a leader loop that gives leadership away (`Leadership.DeafAgentIsReachable`). From then on no loop runs
  until a loss of leadership is notified (`Leadership.DeafUntilLoss`, `Leadership.LossMakesRoom`). Without a shutdown, giving
  leadership away is the only way for this to happen (`Leadership.BelievedLoopLeavesIff`).
* Every report for a job whose status is success asks its dependent jobs to run, also one that is repeated or late and is not
  counted (`Reports.UncountedReportRunsDependents`).
* A cleanup of stale executions leaves a stale record running exactly when its job is not stored (`Cleanup.CleanupAccountsIff`).
* The backoff is exact for all attempts if and only if the first doubling fits in 64 bits and the cap is below the largest doubling
  that does (`Backoff.BackoffExactIff`); otherwise it becomes negative. With a negative number of retries an agent is never called
  and no error is returned (`Backoff.AgentRun`).

## Model

| member | source | states |
|---|---|---|
| `Keys.SlugHasNoColon` | dkron/job.go:528-533 | a name that passes the slug test contains no colon |
| `Keys.UnixNanoWraps` | dkron/execution.go:89-91 | the start time in a key is the time modulo 2^64, as a signed 64-bit integer |
| `Keys.ExecKeyInjective` | dkron/execution.go:89-91 | for job names without a colon, two execution keys are equal exactly when job, start time (modulo 2^64 ns) and node are |
| `Keys.ExecKeysEqualIff` | dkron/execution.go:89-91 | for all names, two keys are equal exactly when the executions agree in job, start time (modulo 2^64 ns) and node, or one job name is the other with a start time and part of a node name behind it and the other node name ends in what is missing |
| `Keys.ListingSelects` | dkron/store.go:574-595 | the scan that lists a job's executions selects the key of an execution exactly when it belongs to the job |
| `Keys.DeletionSelects` | dkron/store.go:805-824 | the scan that deletes selects a key exactly when the execution's job name starts with the given name |
| `FlatStore.Store.constructor` | dkron/store.go:72-97 | a new store represents the empty state |
| `FlatStore.OneState` | dkron/store.go:28-30 | the flat keyspace loses nothing: a database represents one state |
| `FlatStore.OneDatabase` | dkron/store.go:28-30 | the flat keyspace confuses nothing: a state is represented by one database |
| `FlatStore.Store.GetJob` | dkron/store.go:425-463 | looking up the flat key finds the job of the state, or nothing |
| `FlatStore.Store.SetJob` | dkron/store.go:123-207 | on the flat database: validation, parent check, merge, next run and the nested updates of both parents leave the state and the error of the function; what these are on the fields is said by `References.SetJobStoresFields`, `References.SetJobStoresNextRun` and `References.SetJobReportsFirstFailure` |
| `FlatStore.Store.UpdateParents` | dkron/store.go:194-204 | the job is taken off its old parent, and then put on the list of its new one unless that failed |
| `FlatStore.Store.MergeStored` | dkron/store.go:149-169 | the field by field merge yields the merged job and keeps name and parent |
| `FlatStore.Store.GetParent` | dkron/job.go:304-323 | the parent, or the error for a job that is its own parent, has none, or names one that is not stored |
| `FlatStore.Store.WithoutName` | dkron/store.go:225-231 | the loop over the dependents removes every occurrence of a name and keeps the order of the others |
| `FlatStore.Store.RemoveFromParent` | dkron/store.go:211-240 | takes a job off its parent's list by a nested SetJob |
| `FlatStore.Store.AddToParent` | dkron/store.go:242-262 | puts a job on its parent's list by a nested SetJob |
| `FlatStore.Store.CollectKeys` | dkron/store.go:805-818 | the scan collects exactly the keys with the prefix |
| `FlatStore.Store.DeleteJob` | dkron/store.go:468-506 | the transaction deletes job and executions, or nothing, and the parent is updated; the deleted job is returned |
| `FlatStore.Store.DeleteExecutions` | dkron/store.go:771-803 | deletes the executions and resets counters and last results, or is rolled back when the job is missing |
| `FlatStore.Store.ListTx` | dkron/store.go:574-595 | the ascending scan lists exactly the records of the job, in key order |
| `FlatStore.Store.GetRunningExecutions` | dkron/store.go:621-642 | the listed executions that have started and not finished, in order |
| `FlatStore.Store.SetExecutionTx` | dkron/store.go:676-706 | the record is written unless the stored one finished later |
| `FlatStore.Store.SetExecution` | dkron/store.go:709-765 | writes, lists, sorts and deletes the records over the limit one by one |
| `FlatStore.Store.ComputeStatus` | dkron/store.go:870-913 | the counting loop over a listing yields the status |
| `FlatStore.Store.IncrementStatTx` | dkron/store.go:933-975 | raises one counter of one day and leaves every other record |
| `FlatStore.Store.SetExecutionDone` | dkron/store.go:266-358 | the whole transaction: missing job, late report, repeated report, or a counted one, with the new state of each |
| `FlatStore.Store.Apply` | dkron/fsm.go:55-151 | each command leaves the state of the step function on the flat database and is answered as specified |
| `References.ValidatedHasNext` | dkron/job.go:388-402 | a job that validates always has a next run, whatever the clock says |
| `References.SetJobEffect` | dkron/store.go:123-207 | in a consistent store SetJob either refuses and changes nothing, or stores the job and updates both parents, without an error |
| `References.SetJobReportsFirstFailure` | dkron/job.go:479-525 | SetJob refuses a job exactly when it fails one of nine checks on its fields, and reports the first in their order |
| `References.SetJobStoresFields` | dkron/store.go:149-183 | a new job is stored as it is given but for its next run; a stored list of dependents stays unless it was empty |
| `References.SetJobStoresNextRun` | dkron/store.go:171-183 | with a new schedule the next run is the start time while that lies ahead, else the next activation of the hashed schedule, or no time without a schedule |
| `References.RemoveInParts` | dkron/store.go:225-231 | removing a name takes out every occurrence and leaves the order of the others |
| `References.SetJobKeepsResults` | dkron/store.go:149-183 | setting a stored job keeps the later last results, the larger counters, the status, and without a new schedule the later next run |
| `References.DeleteJobEffect` | dkron/store.go:468-506 | in a consistent store DeleteJob either refuses and changes nothing, or deletes the job and updates its parent, without an error |
| `References.ReplacedIsRelinked` | dkron/store.go:196-262 | who lists whom after a job with another parent is stored, and that nothing else changes |
| `Reachability.StepStaysConsistent` | dkron/fsm.go:55-151 | every command keeps all jobs valid and every child listed by a different, stored parent |
| `Reachability.ReachableIsConsistent` | dkron/fsm.go:55-151 | the same over every log |
| `Reachability.NoHalfAppliedCommand` | dkron/fsm.go:84-151 | after any log from an empty store, a command fails exactly when its own guard refuses it, and then has changed nothing |
| `Reachability.AnswerOf` | dkron/fsm.go:84-151 | the response to each command: the deleted job, the key of the execution, the job that was reset, nothing, or which error |
| `Reachability.DeleteExecutionsResets` | dkron/store.go:784-799 | exactly the counters and last results of the one job are reset |
| `Reachability.ReachableIsExact` | dkron/store.go:165-167 | when SetJob commands bring no dependents, every stored list is free of duplicates and equals the jobs that name this one as parent |
| `Reachability.SetJobKeepsGroundedIff` | dkron/job.go:488-490 | chains of parents stay free of circles exactly when the job becomes a root or is not on the chain of its new parent |
| `Reachability.CircleIsAccepted` | dkron/job.go:488-490 | a root that is made the child of its child is accepted and closes a circle |
| `Reachability.ReachableIsGrounded` | dkron/store.go:134-139 | chains stay free of circles over every run that moves only jobs without dependents |
| `Reachability.DeletionsEmptyTheStore` | dkron/store.go:482-484 | with exact lists and no circles, as many deletions as there are jobs empty the store |
| `ParentChains.ReparentKeepsGroundedIff` | dkron/job.go:488-490 | giving a job a parent keeps all chains grounded exactly when the job is not on the chain of the parent |
| `Replicas.SetJobAgrees` | dkron/store.go:171-183 | the clock decides neither whether a job is stored nor what is stored, but for its next run |
| `Replicas.StepAgrees` | dkron/fsm.go:55-151 | replicas that agree and apply one command with different clocks answer alike and still agree |
| `Replicas.ReplicasAgree` | dkron/fsm.go:55-151 | replicas that start equal and apply the same log agree on everything but the next run of jobs |
| `Replicas.SetJobTwice` | dkron/store.go:123-207 | a SetJob repeated at once changes at most the next run |
| `Replicas.DeleteJobTwice` | dkron/store.go:468-506 | a DeleteJob repeated at once changes nothing |
| `Replicas.DeleteExecutionsTwice` | dkron/store.go:771-803 | a DeleteExecutions repeated at once changes nothing |
| `Replicas.ExecutionDoneTwice` | dkron/store.go:288-320 | a report repeated at once is not counted and changes nothing |
| `Replicas.SetExecutionTwice` | dkron/store.go:709-765 | an execution set twice leaves what setting it once does, if its record stays; also when it is evicted, provided that start times tell which record is the oldest |
| `Replicas.CommandTwice` | dkron/fsm.go:55-151 | any command applied twice in a row leaves what one application does, but for next runs; an execution that is evicted at once needs start times that tell the oldest |
| `Executions.ListingHolds` | dkron/store.go:509-521 | a listing holds each selected record once and nothing else |
| `Executions.ListedAreRecords` | dkron/store.go:509-521 | for names without a colon, what is listed under a job name are the records of the job |
| `Executions.OwnKeyIsListed` | dkron/store.go:574-595 | for all names, a stored execution is listed under the name of its job |
| `Executions.RunningAppend` | dkron/store.go:621-642 | a record counts as running exactly when it has a start time and no finish time; running records keep the order of the listing |
| `Executions.StatusClassifiesGroup` | dkron/store.go:870-913 | for all names, the status depends on which results the stored records of the group have, not on their order |
| `Executions.EvictedAreOldest` | dkron/store.go:732-762 | exactly the records over the limit are evicted, and none that started later than one that stays |
| `Executions.SetExecutionKeepsNewest` | dkron/store.go:709-765 | for all names, min(100, n) records stay listed under the job name, evicted ones started no later than survivors, and survivors, other records, jobs and statistics are unchanged |
| `Executions.FinishTimeNeverFalls` | dkron/store.go:682-697 | no command takes a record that stays back to an earlier finish time |
| `Executions.WrittenRecord` | dkron/store.go:676-706 | what is under the key afterwards is the execution, unless the record that was there finished later |
| `Executions.FinishedStaysFinished` | dkron/store.go:621-642 | over every run a finished record that stays stored never appears running again |
| `Executions.WritesConverge` | dkron/store.go:676-706 | the same writes with distinct finish times leave the same records in any order and with any repetition |
| `Executions.DeliveryOrderIsIrrelevant` | dkron/store.go:299-303 | two logs that deliver the same start and end records in any order leave the same executions, when nothing is deleted or evicted |
| `Executions.DeleteScanSelects` | dkron/store.go:805-824 | the deleting scan removes exactly the records of jobs whose name starts with the given name |
| `Executions.DeletionSparesOthersIff` | dkron/store.go:805-824 | the records of all other jobs survive exactly when no other job with a record has a name that starts with the given one |
| `Executions.DeleteJobKeepsOthers` | dkron/store.go:468-506 | deleting a job touches no statistic, and no record outside the deleting scan |
| `Conservation.ReachableNamesArePlain` | dkron/job.go:484-486 | stored executions never belong to a job with a colon in its name, if no command brings one |
| `Conservation.CountedReport` | dkron/store.go:288-350 | for all names, a counted report raises one job counter and one daily total by one, sets the classified status, stores the record, and changes nothing else |
| `Conservation.UncountedReport` | dkron/store.go:299-320 | a report that is not counted changes no job and no statistic |
| `Repeats.DoneEffect` | dkron/store.go:288-333 | a report writes its record and sets the last result of its job and kind when it is counted; every other last result stays |
| `Repeats.CountsIff` | dkron/store.go:299-320 | a report is counted exactly when its job is stored, no later record is, and a record with its result does not meet its time as the last result |
| `Repeats.RepeatCountedIff` | dkron/store.go:304-310 | after a report of another execution, a counted report is counted again exactly when the other was counted for the same job and kind and finished at another time |
| `Repeats.RunAssigns` | dkron/store.go:149-163 | over every log, the last result of a job is what the last command that assigned it brought |
| `Repeats.RepeatAfterLogIff` | dkron/store.go:299-320 | after any log a counted report is counted again exactly when its record is gone or replaced by another result, or its time is no longer the last one assigned to the job |
| `Repeats.RepeatOfKeptRecordIff` | dkron/store.go:304-310 | while the record stays and nothing contradicts it, the repeat is counted exactly when the last assigned result of the kind has another time |
| `Repeats.CountedTwice` | dkron/store.go:304-310 | a concrete store and two executions: the first is reported again after the second, and counted twice |
| `Conservation.TotalsCountReports` | dkron/store.go:933-975 | over every run each daily total grows by the number of counted reports of its kind and day, modulo 2^64 |
| `Conservation.CountersTallyReports` | dkron/store.go:323-335 | over every run whose SetJob commands bring no counts, a job counter is the number of its counted reports since creation or reset, modulo 2^32 |
| `Conservation.CountersNeverExceedTotals` | dkron/store.go:323-350 | over such runs without overflow, all job counters together never exceed all daily totals |
| `JobTree.FindParentJobInChildJobs` | dkron/job.go:582-598 | the recursive search hangs the job under the first job in preorder that it names as parent, on objects, or changes nothing |
| `JobTree.FindParentJobAndValidateJob` | dkron/job.go:553-580 | one round: the validation error, a root that stays, a job that moves out of the list, or no parent |
| `JobTree.GenerateJobTree` | dkron/job.go:536-551 | the objects end up as the tree that the builder on values yields, or with its error; the index stays inside the list and what is ahead of it shrinks by one each round |
| `JobTree.BuiltTreeIsSound` | dkron/job.go:536-551 | the tree holds every job once, every child sits under the job it names, and no root has a parent |
| `JobTree.BuildTreeIff` | dkron/job.go:536-598 | for distinct names a tree is built exactly when every job is valid and every chain of parents stays in the list and ends at a root |
| `JobTree.ListError` | dkron/job.go:553-580 | a list that is refused is refused with the validation error of one of its jobs, or for a missing parent |
| `JobTree.OrderDecides` | dkron/job.go:553-598 | three valid jobs of which two share a name: one order of the list fails, another one is built |
| `TreeOrder.BuiltInOrder` | dkron/job.go:536-598 | the roots of the tree, and the children of every job in it, come in the order of the uploaded list |
| `Restore.SetNewJob` | dkron/store.go:134-139 | a new job whose parent is stored is accepted, and its parent lists it last |
| `Restore.ReplaySucceeds` | dkron/agent.go:985-1001 | replaying a forest of new jobs under a stored parent: every call succeeds, the report follows the preorder, and the store holds the forest |
| `Restore.ReplayCountsCalls` | dkron/agent.go:985-1001 | whatever succeeds or fails, the report has one line for each request |
| `Restore.FailedJobIsReported` | dkron/agent.go:990-994 | a job whose request fails is reported as not created, and nothing is set below it |
| `Restore.RestoreSucceeds` | dkron/api.go:392-398 | into a store with none of the uploaded jobs, a built tree restores completely: one line for each job, the parents of the tree, every job listing its children, and a cron table in step |
| `Restore.ReplayAccepted` | dkron/agent.go:985-1001 | replaying a forest over any store, also one that has some of the jobs: every call succeeds and leaves each job under its parent in the forest |
| `Restore.RestoreOverwrites` | dkron/api.go:392-398 | over any store a built tree restores with one line for each job and the parents of the tree, and no other job gets another parent |
| `Restore.EmptyLeaderIsInStep` | dkron/agent.go:985-1001 | a restore can begin with an empty store and an empty table |
| `Restore.RestoredListIff` | dkron/agent.go:985-1001 | after a restore a job lists just its children exactly when it came without dependents; a list that came with it is doubled |
| `RestoreAgent.Agent.RecursiveSetJob` | dkron/agent.go:985-1001 | the recursion over job objects makes the calls and the report of the replay |
| `CronTable.ValidIsParsed` | dkron/scheduler.go:156-169 | the effective schedule of a valid job that is to be scheduled parses |
| `CronTable.HashedJobIsTheSame` | dkron/job.go:344-384 | a job whose schedule is replaced by the hashed one has the same effective schedule, and hashing it again changes nothing |
| `CronTable.DropFirst` | dkron/scheduler.go:182-192 | removing by the id that is found takes one entry of the job away and no other |
| `CronTable.AddHolds` | dkron/scheduler.go:145-179 | adding a job leaves it with the one entry it should have, or none, and fails exactly when its schedule does not parse |
| `CronTable.HeldSchedule` | dkron/scheduler.go:156-164 | the job's zone is put in front of its hashed schedule, unless it has none, or the schedule is a descriptor or names a zone |
| `CronTable.AddedEntry` | dkron/scheduler.go:145-179 | after a job is added the table holds it, and the job just given, under that schedule alone, or not at all when it is disabled, a child, or its schedule does not parse |
| `CronTable.AddAllHolds` | dkron/scheduler.go:61-66 | filling a table succeeds exactly when all schedules parse, and then every job has its entry |
| `Scheduling.Scheduler.GetEntryJob` | dkron/scheduler.go:127-142 | the loop finds the first entry of the job |
| `Scheduling.Scheduler.RemoveJob` | dkron/scheduler.go:182-192 | the entry that is found leaves the table |
| `Scheduling.Scheduler.AddJob` | dkron/scheduler.go:145-179 | replaces the entry, or leaves none for a disabled job, a child, or a schedule that does not parse; `CronTable.AddedEntry` says on the fields which schedule is held |
| `Scheduling.Scheduler.ClearCron` | dkron/scheduler.go:106-115 | empties any table, also one that holds a name twice |
| `Scheduling.Scheduler.Start` | dkron/scheduler.go:51-72 | refuses when started; otherwise the table holds the given jobs alone, and the scheduler is started unless a job failed |
| `Scheduling.Scheduler.Stop` | dkron/scheduler.go:76-92 | the scheduler is stopped and the table kept |
| `Rpc.ValidSetJobStaysInStep` | dkron/grpc.go:85-103 | a SetJob request for a valid job keeps table and store in step, and is refused only for a missing parent |
| `Rpc.RefusedStaysInStepIff` | dkron/agent.go:857-878 | when the store refuses a job, table and store agree afterwards exactly when the refusal is passed on or the job would have the same entry |
| `Rpc.RefusedJobIsScheduled` | dkron/agent.go:857-878 | an invalid job that is not stored is scheduled, and the request reports success |
| `Rpc.DeleteJobStaysInStep` | dkron/grpc.go:107-133 | a DeleteJob request keeps table and store in step; it deletes a stored job without dependents, and otherwise changes nothing and names the reason |
| `Rpc.RunJobStaysInStep` | dkron/run.go:14-32 | storing the next run before running keeps table and store in step |
| `Rpc.RunJobStoresNext` | dkron/run.go:18-32 | a run moves the next run of a scheduled job to that of its entry, never back, and changes nothing else; a job without an entry is refused, and one without target nodes after that |
| `Rpc.RetriesAreBounded` | dkron/grpc.go:232-259 | a chain of reports, each of the execution that the one before made the leader run again, is at most one longer than the job has retries |
| `Rpc.RetriedWithin` | dkron/grpc.go:232-259 | only a failed execution whose attempt is within the retries of its job is run again, with the next attempt and an empty output |
| `Rpc.ExecutionDoneStaysInStep` | dkron/grpc.go:181-302 | a report with its retry, its dependent runs or the deletion of an ephemeral job keeps table and store in step |
| `Reports.AskedJobRunsIff` | dkron/job.go:273-296 | a dependent job is sent to nodes exactly when it may run and there is a node for it |
| `Reports.DependentsTakeTurns` | dkron/grpc.go:276-286 | dependents are asked in the order of the list, each in the state the ones before have left, up to the first that is not stored |
| `Reports.ReportRetries` | dkron/grpc.go:232-259 | a failed execution within the retries is run again with its next attempt, when its job is scheduled or a child and a node is found; nothing else runs |
| `Reports.ReportRunsNothing` | dkron/grpc.go:270-302 | with another status than success, or without notifications, a report that asks for no retry is stored and nothing runs |
| `Reports.ReportRunsDependents` | dkron/grpc.go:276-302 | with the status success the dependents take their turns; an ephemeral job is deleted behind them if it has none |
| `Reports.UncountedReportRunsDependents` | dkron/grpc.go:276-286 | a late or repeated report that is not counted asks the dependents again, as long as the status is success |
| `Reports.ReportSendsDependents` | dkron/grpc.go:276-286 | for a list without repetitions, exactly the dependents that may run by the state after the report are sent, in the order of the list |
| `Reports.ReportDeletesIff` | dkron/grpc.go:288-296 | the job is deleted exactly when no retry is due, notifications are sent, its status is success, and it is ephemeral and has no dependents |
| `Rpc.TableAgreesWithStore` | dkron/grpc.go:85-133 | over any sequence of requests with valid jobs the table holds exactly one entry for each stored, enabled job without a parent, under its effective schedule |
| `Rpc.TableHoldsSchedules` | dkron/scheduler.go:145-179 | over any such sequence, the schedule held for each name, written out on the stored job's fields |
| `Rpc.StartIsInStep` | dkron/leader.go:224-244 | starting over all stored jobs succeeds and puts the table in step |
| `Handlers.GrpcServer.ApplySetJob` | dkron/agent.go:857-878 | applies the command and passes on the two errors that it knows |
| `Handlers.GrpcServer.SetJob` | dkron/grpc.go:85-103 | the handler over store and scheduler does what the request function says |
| `Handlers.GrpcServer.DeleteJob` | dkron/grpc.go:107-133 | the same for the deletion |
| `Handlers.GrpcServer.Run` | dkron/run.go:14-32 | the same for the part of a run that touches the store |
| `Handlers.GrpcServer.RunDependentJobs` | dkron/grpc.go:276-286 | the loop over the dependents cleans up and decides for each whether it may run, runs it, and ends at the first that is not stored |
| `Handlers.GrpcServer.ExecutionDone` | dkron/grpc.go:181-302 | the handler over store and scheduler does what the request function says; what that is on the fields is said by `Reports.ReportRetries`, `Reports.ReportRunsNothing`, `Reports.ReportRunsDependents` and `Reports.ReportDeletesIff` |
| `Leadership.StepKeepsInv` | dkron/leader.go:26-181 | every step of the monitor, a loop or the agent keeps the invariant of loops and scheduler |
| `Leadership.LeadershipIsSafe` | dkron/leader.go:26-181 | in every interleaving at most one loop is live, the scheduler is started only while a live loop has leadership, and Start never meets a started scheduler; `Leadership.SchedulerServesIff` is the other direction |
| `Leadership.SchedulerServesIff` | dkron/leader.go:208-244 | in every run that does not stop the agent, the scheduler is started exactly when a live loop has leadership established |
| `Leadership.NewLoopServes` | dkron/leader.go:96-137 | a notified loop whose barrier, preparation and start succeed ends up with leadership and a started scheduler |
| `Leadership.WaitingLoopRetries` | dkron/leader.go:127-130 | a loop that waits without leadership tries again after the interval, and can succeed |
| `Leadership.LeadershipCanReturn` | dkron/leader.go:26-65 | from every reachable state whose monitor listens or waits there is a way on after which a loop has leadership and the scheduler is started |
| `Leadership.ClosedLoopEnds` | dkron/leader.go:139-175 | a loop whose channel is closed, or any loop after a shutdown, can end within five steps from wherever it is |
| `Leadership.ShutdownCanFinish` | dkron/leader.go:26-65 | after a shutdown there is a way on to a finished monitor, no live loop and a stopped scheduler |
| `Leadership.StopHasPriority` | dkron/leader.go:149-157 | a loop that has reconciled looks at its stop channel first; one that failed to reconcile waits |
| `Leadership.EstablishedInOrder` | dkron/leader.go:100-137 | leadership is established only after the barrier, then the preparation, and then the start succeeded |
| `Leadership.TransferIsTriedThrice` | dkron/leader.go:67-92 | a transfer succeeds when one of three attempts does, and is given up after the third |
| `Leadership.LoopEndsStopped` | dkron/leader.go:128-137 | every step that ends a loop leaves the scheduler stopped |
| `Leadership.NewLoopFindsStopped` | dkron/leader.go:31-47 | a loop that is started is the only live one and finds the scheduler stopped |
| `Leadership.DeafUntilLoss` | dkron/leader.go:26-50 | when the loop that the monitor believes in has ended, no loop runs after any actions among which no loss is notified |
| `Leadership.LossMakesRoom` | dkron/leader.go:26-50 | after a notified loss the next notification of leadership starts a loop |
| `Leadership.BelievedLoopLeavesIff` | dkron/leader.go:109-137 | in every run without shutdown, the loop that the listening monitor believes in leaves exactly when it gave leadership away |
| `Leadership.DeafAgentIsReachable` | dkron/leader.go:109-125 | a run without shutdown ends with a monitor that believes in an ended loop |
| `Strings.SplitJoins` | dkron/tags.go:19-19 | splitting loses nothing and no part contains the separator |
| `Strings.AtoiIff` | dkron/tags.go:26-26 | a string is read as an integer exactly when it is a numeral of it, with a sign and leading zeros allowed, and the integer fits in 64 bits |
| `Targets.CleanTags` | dkron/tags.go:13-40 | in any order of the tags: the bare values, and the least cardinality that one asks for |
| `Targets.TagAsks` | dkron/tags.go:18-32 | a value with one colon asks for the integer behind it, or for zero if there is none; other values ask for nothing; what is in front of the first colon is to be matched |
| `Targets.CardinalityUnique` | dkron/tags.go:13-40 | that cardinality does not depend on the order |
| `Targets.NodeMatchesTags` | dkron/tags.go:43-55 | true exactly when the node has every tag with its value |
| `Targets.FilterArray` | dkron/agent.go:831-839 | the backward overwrite keeps exactly the accepted elements, in place |
| `Targets.SelectNodes` | dkron/agent.go:811-828 | the partial shuffle permutes the first n elements and leaves the others; the last min(max(cardinality, 0), n) of them are what the selector chose, call after call, each among the elements that were left |
| `Targets.GetTargetNodes` | dkron/agent.go:787-803 | the members that are alive, in the region and have all tags; when there are more than the cardinality, those among them that the selector chooses, each at most as often as it is a member |
| `Cleanup.StaleIsCounted` | dkron/agent.go:942-947 | the report of a stale record is always counted: stored as failed, with the job's error count and the day's failures raised by one |
| `Cleanup.CleanupStaleRunningExecutions` | dkron/agent.go:915-957 | the loop reports the stale records in order and returns the others, and a record whose report was not applied |
| `Cleanup.CleanupPartitions` | dkron/agent.go:915-957 | for all names: active and returned records stay as they are and returned ones are within four hours; every other one whose job is stored is finished and failed, error counts and failures rise by their number, and nothing else changes |
| `Cleanup.CleanupMarks` | dkron/agent.go:915-957 | whichever reports are applied: exactly the stale records with an applied report and a stored job are finished and failed, error counts and failures rise by their number, and nothing else changes |
| `Cleanup.SweepReturns` | dkron/agent.go:915-957 | exactly the recent records are returned, and those whose report was not applied, in the form in which they were reported |
| `Cleanup.CleanupAccountsIff` | dkron/agent.go:915-957 | afterwards every running record listed for the job is active or returned, exactly when no stale one belongs to a job that is not stored |
| `Cleanup.PlainCleanupAccounts` | dkron/agent.go:915-957 | for names without a colon it always is, and the running records listed are those of the job |
| `Cleanup.IsRunnable` | dkron/job.go:404-476 | the checks in order, the cleanup that one of them makes, and the decision, which `Cleanup.RunnableIff` states on the fields |
| `Cleanup.RunnableIff` | dkron/job.go:404-476 | on the fields: a job that is disabled, not started, expired or locked out does not run; another one runs unless it forbids concurrency; then it runs exactly when active executions are known, none is its own, and each running record is active or stale with its report applied |
| `Cleanup.ForbiddingRunsIff` | dkron/job.go:429-473 | when all reports are applied, such a job runs exactly when each of its listed running records is active or older than four hours |
| `Cleanup.RunnableHasNothingRunning` | dkron/job.go:429-473 | for all names: a job that forbids concurrency and may run has no running record listed, but for the key of an active execution of another job, or of a job that is not stored |
| `Backoff.ComputeBackoff` | dkron/grpc_client.go:441-457 | the doubling loop in 64 bits with its early cap |
| `Backoff.BackoffExactIff` | dkron/grpc_client.go:441-457 | the pause is min(initial * 2^(k-1), max) for every attempt k exactly when no doubling up to the cap leaves 64 bits |
| `Backoff.HalfRangeIsExact` | dkron/grpc_client.go:441-457 | it is so when both intervals are at most half of the largest integer |
| `Backoff.AgentRun` | dkron/grpc_client.go:432-503 | at most maxRetries + 1 calls, ending with the first that succeeds or fails for good, with the right pauses and the last error |
| `ScheduleHash.PartHash` | dkron/job.go:366-377 | the value for a field lies in the range of the field |
| `ScheduleHash.ComputeHashed` | dkron/job.go:344-384 | the loop replaces part after part, skips zones and gives up at a descriptor |
| `ScheduleHash.HashOfParts` | dkron/job.go:334-340 | the hash of a name adds up the codes of its characters |
| `ScheduleHash.HashedByParts` | dkron/job.go:344-384 | part by part: zones stay, a descriptor leaves all as it is, and in the n-th field each symbol becomes the hash modulo the size of that field, from its least value on |
| `Strings.ReplacedInParts` | dkron/job.go:379-379 | each occurrence of the symbol is replaced, and nothing else |
| `ScheduleHash.HashedPartsSettled` | dkron/job.go:352-382 | hashing keeps the number of parts and the zones, and leaves no symbol in a field |
| `ScheduleHash.SymbolIsGone` | dkron/job.go:344-384 | without a descriptor the symbol is left only inside a part that names a zone |
| `ScheduleHash.HashedTwice` | dkron/job.go:344-384 | hashing a hashed schedule changes nothing |
| `LawfulLibs.LawfulLibsExist` | dkron/store.go:574-595 | the laws assumed of iteration, sorting, zones and schedule hashes can be kept together |

## Left out

- BuntDB, Raft, Serf, gRPC and the cron engine: an ordered map with all-or-nothing transactions, a totally ordered log, and a list of entries with ids that are not used twice are assumed.
- JSON and protobuf encoding, snapshots, and the attempt to read a record in both encodings: records are typed values.
- Fields of a job that are only carried along (display name, owner, metadata, processors, notification settings).
- Cron parsing, time zones, ISO 8601 durations, memory limits and the Unicode category of letters: functions of `Types.Libs`. The store and the cron table see the hashed schedule through that bundle too; `CronTable.HashLaw` ties it to `ScheduleHash.dfy`.
- The floating-point pause before a retry in `dkron/execution.go`.
- Concurrent interleaving of a run's reading and writing of a job with other requests (`dkron/run.go:18-29`): each request is one step.
- Requests that reach a server which is not the leader: they are forwarded, and only the leader's handling is modelled. A run ends here with what it stores and with the record that the job was sent to nodes; calling them cannot change the store or the table.
- Transport failures between the restore endpoint and the leader: every request of a replay reaches it.
- Notifications, processors, metrics, logging, tracing, the peer lists and the addition and removal of Raft peers.
- Setting, unsetting and marshalling of nullable times: only their order matters to the store.
- Cleanup.CleanupPartitions: stated for a clock that is past year 1, as a finish time before it reads as not finished.
- Cleanup.CleanupAccountsIff: for such a clock too, and for reports that are all applied; `Cleanup.CleanupMarks` and `Cleanup.SweepReturns` say what happens for any others.
- JobTree.BuildTreeIff: stated for distinct names. With a repeated name the order of the list decides (`JobTree.OrderDecides`), so that no condition on the jobs alone is exact. `JobTree.BuiltTreeIsSound` and `JobTree.GenerateJobTree` do not need it.
- Replicas.SetExecutionTwice: an execution whose own record is evicted at once needs different start times, because records that start at the same instant are sorted in an order that the library leaves open.
- Backoff.AgentRun: the number of the attempt does not wrap, which would take 2^63 calls.
- Exactly-once counting of reports that are repeated later, mutual exclusion of jobs that forbid concurrency, and a global absence of circles: the program does not provide them. What holds instead is stated by the lemmas named above.
