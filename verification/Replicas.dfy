/** Replicas that apply the same log agree, and a command that is applied twice in a row has the effect of one. */
module Replicas {
  import opened Wrappers
  import opened Types
  import opened Keys
  import opened Commands
  import opened Fsm
  import opened References
  import opened Executions

  // ---- Agreement ----

  /** Equal in all but the time of the next run, which each replica computes from its own clock. */
  predicate SameJob(j: Job, k: Job) {
    j == k.(next := j.next)
  }

  ghost predicate SameJobs(jobs: JobMap, others: JobMap) {
    && jobs.Keys == others.Keys
    && forall n {:trigger SameJob(jobs[n], others[n])} | n in jobs :: SameJob(jobs[n], others[n])
  }

  ghost predicate Agree(s: State, t: State) {
    s.executions == t.executions && s.stats == t.stats && SameJobs(s.jobs, t.jobs)
  }

  lemma StoredAgrees(s: State, t: State, name: string)
    requires Agree(s, t)
    ensures SameJob(Stored(s, name), Stored(t, name)) && (name in s.jobs <==> name in t.jobs)
  {
    assert name in s.jobs ==> SameJob(s.jobs[name], t.jobs[name]);
  }

  lemma MergeAgrees(job: Job, other: Job, stored: Job, otherStored: Job, copyDependentJobs: bool)
    requires SameJob(job, other) && SameJob(stored, otherStored)
    ensures SameJob(Merge(job, stored, copyDependentJobs), Merge(other, otherStored, copyDependentJobs))
  {
  }

  lemma PutAgrees(s: State, t: State, job: Job, other: Job)
    requires Agree(s, t) && SameJob(job, other)
    ensures Agree(PutJob(s, job), PutJob(t, other))
  {
    var jobs, others := PutJob(s, job).jobs, PutJob(t, other).jobs;
    forall n | n in jobs ensures SameJob(jobs[n], others[n]) {
      assert n in s.jobs ==> SameJob(s.jobs[n], t.jobs[n]);
    }
  }

  lemma VerdictAgrees(libs: Libs, job: Job, other: Job)
    requires SameJob(job, other)
    ensures Validate(libs, job) == Validate(libs, other)
  {
  }

  /** The clock decides neither whether a job is stored nor what is stored, but for the next run. */
  lemma {:induction false} SetJobAgrees(
    libs: Libs, s: State, t: State, job: Job, other: Job, copyDependentJobs: bool, clock: Clock, otherClock: Clock)
    requires Agree(s, t) && SameJob(job, other)
    ensures var r, q := SetJob(libs, s, job, copyDependentJobs, clock),
            SetJob(libs, t, other, copyDependentJobs, otherClock);
            r.error == q.error && Agree(r.state, q.state)
    decreases if job.parentJob != Stored(s, job.name).parentJob then 2 else 0
  {
    hide RemoveFromParent, AddToParent, PutJob, Agree, ExecKey;
    StoredAgrees(s, t, job.name);
    VerdictAgrees(libs, job, other);
    if job.parentJob != "" { StoredAgrees(s, t, job.parentJob); }
    hide Stored;
    if Validate(libs, job).None? && (job.parentJob == "" || job.parentJob in s.jobs) {
      hide Agree, SameJobs;
      var stored, otherStored := Stored(s, job.name), Stored(t, job.name);
      var merged, otherMerged := Merge(job, stored, copyDependentJobs), Merge(other, otherStored, copyDependentJobs);
      MergeAgrees(job, other, stored, otherStored, copyDependentJobs);
      MergedHasNext(libs, job, stored, copyDependentJobs, clock);
      MergedHasNext(libs, other, otherStored, copyDependentJobs, otherClock);
      hide Validate, Merge, NextRun;
      var version := merged.(next := NextRun(libs, merged, stored, clock).value);
      var otherVersion := otherMerged.(next := NextRun(libs, otherMerged, otherStored, otherClock).value);
      PutAgrees(s, t, version, otherVersion);
      var s1, t1 := PutJob(s, version), PutJob(t, otherVersion);
      if job.parentJob != stored.parentJob {
        RemoveAgrees(libs, s1, t1, stored, otherStored, clock, otherClock);
        AddAgrees(libs, RemoveFromParent(libs, s1, stored, clock).state,
                  RemoveFromParent(libs, t1, otherStored, otherClock).state, job, other, clock, otherClock);
      }
    }
  }

  lemma MergedHasNext(libs: Libs, job: Job, stored: Job, copyDependentJobs: bool, clock: Clock)
    requires Validate(libs, job).None?
    ensures NextRun(libs, Merge(job, stored, copyDependentJobs), stored, clock).Ok?
  {
    SameDefinitionSameVerdict(libs, job, Merge(job, stored, copyDependentJobs));
    ValidatedHasNext(libs, Merge(job, stored, copyDependentJobs), stored, clock);
  }

  lemma {:induction false} RemoveAgrees(
      libs: Libs, s: State, t: State, child: Job, other: Job, clock: Clock, otherClock: Clock)
    requires Agree(s, t) && SameJob(child, other)
    ensures var r, q := RemoveFromParent(libs, s, child, clock), RemoveFromParent(libs, t, other, otherClock);
            r.error == q.error && Agree(r.state, q.state)
    decreases 1
  {
    hide SetJob, Remove, ExecKey;
    if child.parentJob != "" {
      StoredAgrees(s, t, child.parentJob);
      var parent, otherParent := GetParent(s, child), GetParent(t, other);
      if parent.Ok? {
        SetJobAgrees(libs, s, t,
                     parent.value.(dependentJobs := Remove(parent.value.dependentJobs, child.name)),
                     otherParent.value.(dependentJobs := Remove(otherParent.value.dependentJobs, other.name)),
                     false, clock, otherClock);
      }
    }
  }

  lemma {:induction false} AddAgrees(
      libs: Libs, s: State, t: State, child: Job, other: Job, clock: Clock, otherClock: Clock)
    requires Agree(s, t) && SameJob(child, other)
    ensures var r, q := AddToParent(libs, s, child, clock), AddToParent(libs, t, other, otherClock);
            r.error == q.error && Agree(r.state, q.state)
    decreases 1
  {
    hide SetJob, ExecKey;
    if child.parentJob != "" {
      StoredAgrees(s, t, child.parentJob);
      var parent, otherParent := GetParent(s, child), GetParent(t, other);
      if parent.Ok? {
        SetJobAgrees(libs, s, t,
                     parent.value.(dependentJobs := parent.value.dependentJobs + [child.name]),
                     otherParent.value.(dependentJobs := otherParent.value.dependentJobs + [other.name]),
                     false, clock, otherClock);
      }
    }
  }

  lemma DeleteJobAgrees(libs: Libs, s: State, t: State, name: string, clock: Clock, otherClock: Clock)
    requires Agree(s, t)
    ensures var r, q := DeleteJob(libs, s, name, clock), DeleteJob(libs, t, name, otherClock);
            r.error == q.error && Agree(r.state, q.state)
  {
    hide RemoveFromParent, DeleteScan, ExecKey;
    StoredAgrees(s, t, name);
    if name in s.jobs {
      var executions := DeleteScan(s.executions, DeletePrefix(name));
      var s1, t1 := State(s.jobs - {name}, executions, s.stats), State(t.jobs - {name}, executions, t.stats);
      forall n | n in s1.jobs ensures SameJob(s1.jobs[n], t1.jobs[n]) {
        assert SameJob(s.jobs[n], t.jobs[n]);
      }
      RemoveAgrees(libs, s1, t1, s.jobs[name], t.jobs[name], clock, otherClock);
    }
  }

  lemma DeleteExecutionsAgrees(s: State, t: State, name: string)
    requires Agree(s, t)
    ensures var r, q := DeleteExecutions(s, name), DeleteExecutions(t, name);
            r.error == q.error && Agree(r.state, q.state)
  {
    hide DeleteScan, ExecKey;
    StoredAgrees(s, t, name);
    if name in s.jobs {
      var jobs, others := DeleteExecutions(s, name).state.jobs, DeleteExecutions(t, name).state.jobs;
      forall n | n in jobs ensures SameJob(jobs[n], others[n]) {
        assert SameJob(s.jobs[n], t.jobs[n]);
      }
    }
  }

  lemma SetExecutionDoneAgrees(libs: Libs, s: State, t: State, e: Execution)
    requires Agree(s, t)
    ensures var r, q := SetExecutionDone(libs, s, e), SetExecutionDone(libs, t, e);
            r.error == q.error && r.counted == q.counted && Agree(r.state, q.state)
  {
    hide PutExecution, ComputeStatus, IncrementStat, ExecKey;
    StoredAgrees(s, t, e.jobName);
    if Counts(s, e) {
      var status := ComputeStatus(libs, PutExecution(s.executions, e), e.jobName, e.group);
      PutAgrees(s, t, CountedJob(s.jobs[e.jobName], e, status), CountedJob(t.jobs[e.jobName], e, status));
    }
  }

  predicate SameResponse(r: Response, q: Response) {
    if r.JobResponse? && q.JobResponse? then SameJob(r.job, q.job) else r == q
  }

  /** One command, applied by two replicas that agree and whose clocks differ, is answered alike and keeps them in
      agreement. */
  lemma StepAgrees(libs: Libs, s: State, t: State, c: Command, clock: Clock, otherClock: Clock)
    requires Agree(s, t)
    ensures Agree(Step(libs, s, c, clock), Step(libs, t, c, otherClock))
    ensures SameResponse(Apply(libs, s, c, clock), Apply(libs, t, c, otherClock))
  {
    hide SetJob, DeleteJob, SetExecutionDone, DeleteExecutions, PutExecution, Overflow, ExecKey, SameJobs;
    match c {
      case SetJobMsg(job) => SetJobAgrees(libs, s, t, job, job, true, clock, otherClock);
      case DeleteJobMsg(name) =>
        DeleteJobAgrees(libs, s, t, name, clock, otherClock);
        StoredAgrees(s, t, name);
      case SetExecutionMsg(e) =>
      case DeleteExecutionsMsg(name) =>
        DeleteExecutionsAgrees(s, t, name);
        StoredAgrees(DeleteExecutions(s, name).state, DeleteExecutions(t, name).state, name);
      case ExecutionDoneMsg(e) => SetExecutionDoneAgrees(libs, s, t, e);
    }
  }

  /** Replicas that start equal and apply the same commands agree on all executions, all statistics and every field of
      every job but the next run, whatever their clocks say. */
  lemma {:induction false} ReplicasAgree(libs: Libs, s: State, t: State, log: seq<Entry>, other: seq<Entry>)
    requires Agree(s, t) && |log| == |other|
    requires forall i | 0 <= i < |log| :: log[i].command == other[i].command
    ensures Agree(Run(libs, s, log), Run(libs, t, other))
    decreases |log|
  {
    hide Step, Agree;
    if log != [] {
      StepAgrees(libs, s, t, log[0].command, log[0].clock, other[0].clock);
      ReplicasAgree(libs, Step(libs, s, log[0].command, log[0].clock), Step(libs, t, other[0].command, other[0].clock),
                    log[1..], other[1..]);
    }
  }

  // ---- Re-application ----

  lemma AgreeWithItself(s: State)
    ensures Agree(s, s)
  {
  }

  lemma SetJobTwice(libs: Libs, s: State, job: Job, clock: Clock, again: Clock)
    requires Consistent(libs, s)
    ensures var t := SetJob(libs, s, job, true, clock).state;
            Agree(SetJob(libs, t, job, true, again).state, t)
  {
    hide ExecKey, SetJob, AllValid, AllLinked, Replaced, NewVersion;
    var t := SetJob(libs, s, job, true, clock).state;
    SetJobEffect(libs, s, job, true, clock);
    if Accepted(libs, s, job) {
      RepeatedVersion(libs, s, job, clock, again);
    } else {
      SetJobEffect(libs, s, job, true, again);
      AgreeWithItself(s);
    }
  }

  lemma RepeatedVersion(libs: Libs, s: State, job: Job, clock: Clock, again: Clock)
    requires Consistent(libs, s) && Accepted(libs, s, job)
    ensures var t := SetJob(libs, s, job, true, clock).state;
            Agree(SetJob(libs, t, job, true, again).state, t)
  {
    hide ExecKey, SetJob, RemoveFromParent, AddToParent, AllValid, AllLinked, Validate, NextRun, Unlink, Link,
         Relinked, SameJobs;
    var t := SetJob(libs, s, job, true, clock).state;
    var stored := Stored(s, job.name);
    var version := NewVersion(libs, s, job, true, clock);
    AcceptedVersionIsStored(libs, s, job, clock);
    SetJobStores(libs, t, job, true, again);
    var repeated := NewVersion(libs, t, job, true, again);
    AgreeWithItself(t);
    PutAgrees(t, t, repeated, version);
    assert PutJob(t, version) == t;
  }

  /** After an accepted job is set, the store holds its new version, and its parent is still there. */
  lemma AcceptedVersionIsStored(libs: Libs, s: State, job: Job, clock: Clock)
    requires Consistent(libs, s) && Accepted(libs, s, job)
    ensures var t := SetJob(libs, s, job, true, clock).state;
            job.name in t.jobs && t.jobs[job.name] == NewVersion(libs, s, job, true, clock) && Accepted(libs, t, job)
            && NewVersion(libs, s, job, true, clock) ==
               Merge(job, Stored(s, job.name), true).(next := NewVersion(libs, s, job, true, clock).next)
            && job.name != ""
  {
    hide ExecKey, SetJob, AllValid, Merge, NextRun;
    var oldParent := Stored(s, job.name).parentJob;
    var version := NewVersion(libs, s, job, true, clock);
    assert job.name in s.jobs ==> Linked(s.jobs, job.name);
    SetJobEffect(libs, s, job, true, clock);
    VersionKeeps(libs, s, job, true, clock);
    hide Validate, NewVersion;
    ReplacedIsRelinked(s.jobs, version, oldParent);
    ReplacedKeepsItself(s.jobs, version, oldParent);
  }

  lemma ReplacedKeepsItself(jobs: JobMap, job: Job, oldParent: string)
    requires job.parentJob != job.name && (oldParent == job.name ==> oldParent == "")
    ensures var after := Replaced(jobs, job, oldParent);
            job.name in after && after[job.name] == job && (forall n | n in jobs :: n in after)
  {
    hide ExecKey, Remove;
  }

  lemma DeleteJobTwice(libs: Libs, s: State, name: string, clock: Clock, again: Clock)
    requires Consistent(libs, s)
    ensures var t := DeleteJob(libs, s, name, clock).state;
            DeleteJob(libs, t, name, again).state == t
  {
    hide ExecKey, RemoveFromParent, AllValid, AllLinked, DeleteScan, Unlink;
    DeleteJobEffect(libs, s, name, clock);
    if Deletable(s, name) {
      UnlinkEffect(s.jobs - {name}, s.jobs[name].parentJob, name);
    } else {
      DeleteJobEffect(libs, s, name, again);
    }
  }

  lemma DeleteExecutionsTwice(s: State, name: string)
    ensures var t := DeleteExecutions(s, name).state;
            DeleteExecutions(t, name).state == t
  {
    hide ExecKey;
    if name in s.jobs {
      var t := DeleteExecutions(s, name).state;
      assert DeleteScan(t.executions, DeletePrefix(name)) == t.executions;
    }
  }

  /** A report that is repeated at once is not counted again and changes nothing. */
  lemma ExecutionDoneTwice(libs: Libs, s: State, e: Execution)
    ensures var t := SetExecutionDone(libs, s, e).state;
            !SetExecutionDone(libs, t, e).counted && SetExecutionDone(libs, t, e).state == t
  {
    hide ExecKey, ComputeStatus, IncrementStat;
    var t := SetExecutionDone(libs, s, e).state;
    if e.jobName in s.jobs && !Supersedes(s.executions, e) {
      assert t.executions == s.executions[ExecKey(e) := e];
      assert PutExecution(t.executions, e) == t.executions;
      assert !ShouldCount(t, e);
    }
  }

  /** The records listed under the name of the job of `e` start at different times, and the one under the key of `e`
      when `e` does. */
  ghost predicate DistinctStarts(executions: ExecMap, e: Execution) {
    && (ExecKey(e) in executions ==> executions[ExecKey(e)].startedAt == e.startedAt)
    && (forall k, m | k in Listed(executions, e.jobName) && m in Listed(executions, e.jobName) && k != m ::
          executions[k].startedAt != executions[m].startedAt)
  }

  lemma NothingOverTheLimit(libs: Libs, executions: ExecMap, jobName: string)
    requires |Listed(executions, jobName)| <= MAX_EXECUTIONS && libs.Lawful()
    ensures Evicted(libs, executions, jobName) == {}
  {
    ListingHolds(libs, executions, jobName);
    hide ExecKey, Lists, GetExecutions, Libs.Lawful;
    assert Overflow(libs, executions, jobName) == [];
  }

  lemma SetExecutionAgain(libs: Libs, s: State, t: State, e: Execution, evicted: set<string>, again: set<string>)
    requires evicted == Evicted(libs, PutExecution(s.executions, e), e.jobName) && t == SetExecution(libs, s, e)
    requires again == Evicted(libs, PutExecution(t.executions, e), e.jobName)
    requires PutExecution(t.executions, e) - again == t.executions
    ensures SetExecution(libs, t, e) == t
  {
    hide ExecKey, Overflow, PutExecution;
  }

  /** Setting the same execution twice leaves the executions as setting it once, even when the record itself is
      evicted, as long as start times then tell which one is the oldest. */
  lemma SetExecutionTwice(libs: Libs, s: State, e: Execution)
    requires libs.Lawful()
    requires ExecKey(e) in SetExecution(libs, s, e).executions || DistinctStarts(PutExecution(s.executions, e), e)
    ensures var t := SetExecution(libs, s, e);
            SetExecution(libs, t, e) == t
  {
    hide ExecKey, Lists, Overflow, PutExecution, DistinctStarts, Libs.Lawful, Evicted, Listed, SetExecution;
    var before := PutExecution(s.executions, e);
    var evicted := Evicted(libs, before, e.jobName);
    var t := SetExecution(libs, s, e);
    EvictedAreOldest(libs, before, e.jobName);
    SetExecutionEvicts(libs, s, e);
    RemainingAreListed(before, evicted, e.jobName);
    if ExecKey(e) !in evicted {
      KeptIsPutAgain(s.executions, evicted, e);
      NothingOverTheLimit(libs, t.executions, e.jobName);
      SetExecutionAgain(libs, s, t, e, evicted, {});
    } else {
      EvictedAgain(libs, before, e);
      PutEvicted(before, evicted, e);
      SetExecutionAgain(libs, s, t, e, evicted, {ExecKey(e)});
    }
  }

  lemma SetExecutionEvicts(libs: Libs, s: State, e: Execution)
    ensures var before := PutExecution(s.executions, e);
            SetExecution(libs, s, e).executions == before - Evicted(libs, before, e.jobName)
  {
    hide ExecKey, Overflow, PutExecution;
  }

  lemma RemainingAreListed(executions: ExecMap, evicted: set<string>, jobName: string)
    ensures Listed(executions - evicted, jobName) == Listed(executions, jobName) - evicted
  {
    hide ExecKey, Lists;
  }

  lemma KeptIsPutAgain(executions: ExecMap, evicted: set<string>, e: Execution)
    requires ExecKey(e) !in evicted
    ensures var before := PutExecution(executions, e);
            PutExecution(before - evicted, e) == before - evicted
  {
    hide ExecKey;
  }

  lemma PutEvicted(executions: ExecMap, evicted: set<string>, e: Execution)
    requires ExecKey(e) in evicted
    ensures PutExecution(executions - evicted, e) - {ExecKey(e)} == executions - evicted
  {
    hide ExecKey;
  }

  lemma OneGone(left: set<string>, key: string, gone: set<string>)
    requires key !in left && gone <= left + {key} && |left + {key} - gone| == |left|
    ensures exists k :: gone == {k}
  {
    assert |left + {key}| == |left| + 1;
    assert |gone| == 1;
    var k :| k in gone;
    assert |gone - {k}| == 0;
    assert gone == {k};
  }

  // Of one record more than the limit, the oldest is evicted.
  lemma OldestIsEvicted(libs: Libs, executions: ExecMap, jobName: string, left: set<string>, key: string)
    requires libs.Lawful() && Listed(executions, jobName) == left + {key} && key !in left && |left| == MAX_EXECUTIONS
    requires key in executions && left <= executions.Keys
    requires forall m | m in left :: executions[key].startedAt < executions[m].startedAt
    ensures Evicted(libs, executions, jobName) == {key}
  {
    hide ExecKey, Evicted, Listed, Libs.Lawful;
    EvictedAreOldest(libs, executions, jobName);
    OneGone(left, key, Evicted(libs, executions, jobName));
    var k :| Evicted(libs, executions, jobName) == {k};
  }

  // What a job keeps when the given record is evicted.
  lemma EvictedIsOlder(libs: Libs, before: ExecMap, e: Execution)
    requires libs.Lawful() && DistinctStarts(before, e)
    requires ExecKey(e) in Evicted(libs, before, e.jobName)
    ensures var left := Listed(before, e.jobName) - Evicted(libs, before, e.jobName);
            && ExecKey(e) in Listed(before, e.jobName) && |left| == MAX_EXECUTIONS
            && forall m | m in left :: e.startedAt < before[m].startedAt
  {
    hide ExecKey, Lists, Overflow, Evicted, Libs.Lawful;
    var listed, evicted := Listed(before, e.jobName), Evicted(libs, before, e.jobName);
    EvictedAreOldest(libs, before, e.jobName);
    CardinalityGrows(listed - evicted, listed);
  }

  /** A record that was evicted is evicted again, alone, when it is set again. */
  lemma EvictedAgain(libs: Libs, before: ExecMap, e: Execution)
    requires libs.Lawful() && DistinctStarts(before, e)
    requires ExecKey(e) in Evicted(libs, before, e.jobName)
    ensures Evicted(libs, PutExecution(before - Evicted(libs, before, e.jobName), e), e.jobName) == {ExecKey(e)}
  {
    hide ExecKey, Evicted, DistinctStarts, Libs.Lawful;
    var evicted := Evicted(libs, before, e.jobName);
    var rest: ExecMap := before - evicted;
    EvictedIsOlder(libs, before, e);
    RemainingAreListed(before, evicted, e.jobName);
    assert PutExecution(rest, e) == rest[ExecKey(e) := e];
    ListedWithKey(rest, e);
    hide Lists;
    OldestIsEvicted(libs, rest[ExecKey(e) := e], e.jobName, Listed(before, e.jobName) - evicted, ExecKey(e));
  }

  lemma CardinalityGrows(a: set<string>, b: set<string>)
    requires a < b
    ensures |a| < |b|
  {
    assert b == a + (b - a);
    assert |b - a| > 0;
  }

  lemma ListedWithKey(executions: ExecMap, e: Execution)
    requires Lists(ListPrefix(e.jobName), ExecKey(e))
    ensures Listed(executions[ExecKey(e) := e], e.jobName) == Listed(executions, e.jobName) + {ExecKey(e)}
  {
    hide ExecKey, Lists;
  }

  /** Any command that is applied twice in a row leaves the store as one application does, but for the next run of a
      job. */
  lemma CommandTwice(libs: Libs, s: State, c: Command, clock: Clock, again: Clock)
    requires libs.Lawful() && Consistent(libs, s)
    requires c.SetExecutionMsg? ==>
               ExecKey(c.execution) in Step(libs, s, c, clock).executions
               || DistinctStarts(PutExecution(s.executions, c.execution), c.execution)
    ensures var t := Step(libs, s, c, clock);
            Agree(Step(libs, t, c, again), t)
  {
    hide ExecKey, SetJob, DeleteJob, SetExecution, SetExecutionDone, DeleteExecutions, Consistent, DistinctStarts,
         Libs.Lawful;
    AgreeWithItself(Step(libs, s, c, clock));
    match c {
      case SetJobMsg(job) => SetJobTwice(libs, s, job, clock, again);
      case DeleteJobMsg(name) => DeleteJobTwice(libs, s, name, clock, again);
      case SetExecutionMsg(e) => SetExecutionTwice(libs, s, e);
      case DeleteExecutionsMsg(name) => DeleteExecutionsTwice(s, name);
      case ExecutionDoneMsg(e) => ExecutionDoneTwice(libs, s, e);
    }
  }
}
