/** What runs of the log keep: references, exact lists of children, and parent chains without circles. */
module Reachability {
  import opened Wrappers
  import opened Types
  import opened Keys
  import opened Commands
  import opened Fsm
  import opened References
  import opened ParentChains

  lemma RelinkedStaysLinked(jobs: JobMap, job: Job, oldParent: string, after: JobMap)
    requires AllLinked(jobs) && Relinked(jobs, job, oldParent, after)
    requires job.name != "" && job.parentJob != job.name && (job.parentJob != "" ==> job.parentJob in jobs)
    requires oldParent == if job.name in jobs then jobs[job.name].parentJob else ""
    requires job.name in jobs && jobs[job.name].dependentJobs != []
             ==> job.dependentJobs == jobs[job.name].dependentJobs
    ensures AllLinked(after)
  {
    forall n | n in after ensures n != "" && Linked(after, n) {
      if n in jobs { assert Linked(jobs, n); }
      var p := (if n == job.name then job else jobs[n]).parentJob;
      assert p in after ==> (ListsChild(after, p, n) <==> ListedAfter(jobs, job, oldParent, p, n));
    }
  }

  lemma DeletedStaysLinked(jobs: JobMap, name: string)
    requires AllLinked(jobs) && name in jobs && jobs[name].dependentJobs == []
    ensures AllLinked(Deleted(jobs, name))
  {
    var after := Deleted(jobs, name);
    forall n | n in after ensures n != "" && Linked(after, n) {
      assert Linked(jobs, n);
      var p := jobs[n].parentJob;
      if p in jobs {
        RemoveKeepsOthers(jobs[p].dependentJobs, name, n);
      }
    }
  }

  lemma DeletedStaysValid(libs: Libs, jobs: JobMap, name: string)
    requires AllValid(libs, jobs) && name in jobs
    ensures AllValid(libs, Deleted(jobs, name))
  {
    UnlinkEffect(jobs - {name}, jobs[name].parentJob, name);
    SameDefinitionsStayValid(libs, jobs, Deleted(jobs, name));
  }

  /** A change of a job's counters and status alone. */
  predicate SameReferences(j: Job, k: Job) {
    j.name == k.name && j.parentJob == k.parentJob && j.dependentJobs == k.dependentJobs
    && j.schedule == k.schedule && j.spec == k.spec
  }

  ghost predicate AllSameReferences(jobs: JobMap, after: JobMap) {
    after.Keys == jobs.Keys && forall n | n in jobs :: SameReferences(jobs[n], after[n])
  }

  /** What a report that an execution is done changes in the jobs. */
  lemma DoneJobs(libs: Libs, s: State, e: Execution)
    ensures var t := SetExecutionDone(libs, s, e).state;
            t.jobs == if Counts(s, e) then
                        s.jobs[e.jobName :=
                          CountedJob(s.jobs[e.jobName], e,
                              ComputeStatus(libs, PutExecution(s.executions, e), e.jobName, e.group))]
                      else s.jobs
  {
    hide PutExecution, ComputeStatus, IncrementStat, Supersedes, CountedJob;
  }

  /** The execution commands leave every job's name, parent, dependents, schedule and settings as they are. */
  lemma ExecutionCommandsKeepReferences(libs: Libs, s: State, c: Command, clock: Clock)
    requires c.SetExecutionMsg? || c.DeleteExecutionsMsg? || c.ExecutionDoneMsg?
    ensures AllSameReferences(s.jobs, Step(libs, s, c, clock).jobs)
  {
    hide SetExecutionDone, PutExecution, ComputeStatus, ShouldCount, Supersedes, Overflow, DeleteScan;
    match c {
      case ExecutionDoneMsg(e) => DoneJobs(libs, s, e);
      case SetExecutionMsg(e) => assert SetExecution(libs, s, e).jobs == s.jobs;
      case DeleteExecutionsMsg(name) =>
    }
  }

  lemma SameReferencesStayConsistent(libs: Libs, jobs: JobMap, after: JobMap)
    requires AllValid(libs, jobs) && AllLinked(jobs) && AllSameReferences(jobs, after)
    ensures AllValid(libs, after) && AllLinked(after)
  {
    assert forall n | n in after :: SameReferences(jobs[n], after[n]);
    SameDefinitionsStayValid(libs, jobs, after);
    forall n | n in after ensures n != "" && Linked(after, n) {
      assert SameReferences(jobs[n], after[n]) && Linked(jobs, n);
    }
  }

  /** Setting an accepted job, in terms of the parents and lists of the result. */
  lemma AcceptedIsRelinked(libs: Libs, s: State, job: Job, clock: Clock)
    returns (version: Job, oldParent: string, after: JobMap)
    requires Consistent(libs, s) && Accepted(libs, s, job)
    ensures SetJob(libs, s, job, true, clock).state == s.(jobs := after)
    ensures oldParent == (if job.name in s.jobs then s.jobs[job.name].parentJob else "")
    ensures Relinked(s.jobs, version, oldParent, after) && after == Replaced(s.jobs, version, oldParent)
    ensures version.name == job.name && version.parentJob == job.parentJob && job.name != ""
            && job.parentJob != job.name
    ensures version.schedule == job.schedule && version.spec == job.spec && Validate(libs, version).None?
    ensures version.dependentJobs ==
            if Stored(s, job.name).dependentJobs != [] then Stored(s, job.name).dependentJobs else job.dependentJobs
  {
    version := NewVersion(libs, s, job, true, clock);
    oldParent := Stored(s, job.name).parentJob;
    after := Replaced(s.jobs, version, oldParent);
    SetJobEffect(libs, s, job, true, clock);
    VersionKeeps(libs, s, job, true, clock);
    assert job.name in s.jobs ==> Linked(s.jobs, job.name);
    ReplacedIsRelinked(s.jobs, version, oldParent);
  }

  lemma SetJobStaysConsistent(libs: Libs, s: State, job: Job, clock: Clock)
    requires Consistent(libs, s) && Accepted(libs, s, job)
    ensures Consistent(libs, SetJob(libs, s, job, true, clock).state)
  {
    var version, oldParent, after := AcceptedIsRelinked(libs, s, job, clock);
    RelinkedStaysLinked(s.jobs, version, oldParent, after);
    ReplacedStaysValid(libs, s.jobs, version, oldParent);
  }

  /** Every command keeps the references consistent. */
  lemma StepStaysConsistent(libs: Libs, s: State, c: Command, clock: Clock)
    requires Consistent(libs, s)
    ensures Consistent(libs, Step(libs, s, c, clock))
  {
    match c {
      case SetJobMsg(job) =>
        SetJobEffect(libs, s, job, true, clock);
        if Accepted(libs, s, job) { SetJobStaysConsistent(libs, s, job, clock); }
      case DeleteJobMsg(name) =>
        DeleteJobEffect(libs, s, name, clock);
        if Deletable(s, name) {
          DeletedStaysLinked(s.jobs, name);
          DeletedStaysValid(libs, s.jobs, name);
        }
      case _ =>
        ExecutionCommandsKeepReferences(libs, s, c, clock);
        SameReferencesStayConsistent(libs, s.jobs, Step(libs, s, c, clock).jobs);
    }
  }

  /** In every reachable store each job with a parent names another stored job, which lists it. */
  lemma {:induction false} ReachableIsConsistent(libs: Libs, s: State, log: seq<Entry>)
    requires Consistent(libs, s)
    ensures Consistent(libs, Run(libs, s, log))
    decreases |log|
  {
    if log != [] {
      StepStaysConsistent(libs, s, log[0].command, log[0].clock);
      ReachableIsConsistent(libs, Step(libs, s, log[0].command, log[0].clock), log[1..]);
    }
  }

  /** When is a command carried out? */
  predicate Succeeds(libs: Libs, s: State, c: Command) {
    match c
    case SetJobMsg(job) => Accepted(libs, s, job)
    case DeleteJobMsg(name) => Deletable(s, name)
    case SetExecutionMsg(_) => true
    case DeleteExecutionsMsg(name) => name in s.jobs
    case ExecutionDoneMsg(e) => e.jobName in s.jobs
  }

  /** After any log, a command fails exactly when its own guard refuses it, and then it has changed nothing: no command
      is ever half applied. */
  lemma NoHalfAppliedCommand(libs: Libs, log: seq<Entry>, c: Command, clock: Clock)
    ensures var s := Run(libs, EMPTY_STATE, log);
            && (Apply(libs, s, c, clock).Failed? <==> !Succeeds(libs, s, c))
            && (Apply(libs, s, c, clock).Failed? ==> Step(libs, s, c, clock) == s)
  {
    ReachableIsConsistent(libs, EMPTY_STATE, log);
    var s := Run(libs, EMPTY_STATE, log);
    match c {
      case SetJobMsg(job) => SetJobEffect(libs, s, job, true, clock);
      case DeleteJobMsg(name) => DeleteJobEffect(libs, s, name, clock);
      case _ =>
    }
  }

  /** What the caller of a command is told. */
  lemma AnswerOf(libs: Libs, s: State, c: Command, clock: Clock)
    requires Consistent(libs, s)
    ensures var r := Apply(libs, s, c, clock);
            match c
            case SetJobMsg(job) => Accepted(libs, s, job) ==> r == Nil
            case DeleteJobMsg(name) =>
              r == if name !in s.jobs then Failed(NotFound)
                   else if s.jobs[name].dependentJobs != [] then Failed(DependentJobs)
                   else JobResponse(s.jobs[name])
            case SetExecutionMsg(e) => r == KeyResponse(ExecKey(e))
            case DeleteExecutionsMsg(name) =>
              r == if name !in s.jobs then Failed(NotFound)
                   else JobResponse(Stored(Step(libs, s, c, clock), name))
            case ExecutionDoneMsg(e) =>
              r == if e.jobName !in s.jobs then Failed(ExecutionDoneForDeletedJob) else Nil
  {
    hide Accepted, AllValid, AllLinked, ComputeStatus, IncrementStat, ExecKey;
    match c {
      case SetJobMsg(job) => SetJobEffect(libs, s, job, true, clock);
      case DeleteJobMsg(name) =>
        DeleteJobEffect(libs, s, name, clock);
        hide DeleteScan, Deleted;
      case _ =>
    }
  }

  /** Deleting the executions of a job resets the counters and the last results of this job, and nothing else of any
      job. */
  lemma DeleteExecutionsResets(s: State, name: string)
    requires name in s.jobs
    ensures var r := DeleteExecutions(s, name);
            var was, is_ := s.jobs[name], r.state.jobs[name];
            && r.error.None? && r.state.stats == s.stats && r.state.jobs.Keys == s.jobs.Keys
            && (forall n | n in s.jobs && n != name :: r.state.jobs[n] == s.jobs[n])
            && is_.successCount == 0 && is_.errorCount == 0 && is_.lastSuccess == None && is_.lastError == None
            && SameReferences(was, is_) && is_.status == was.status && is_.next == was.next
  {
    hide DeleteScan, ExecKey;
  }

  // ---- Exact lists of children ----

  ghost predicate Distinct(l: seq<string>) {
    forall i, j | 0 <= i < j < |l| :: l[i] != l[j]
  }

  predicate ChildOf(jobs: JobMap, c: string, p: string) {
    c in jobs && jobs[c].parentJob == p
  }

  ghost predicate ExactChildren(jobs: JobMap) {
    && (forall p | p in jobs :: p != "" && Distinct(jobs[p].dependentJobs))
    && (forall p, c | p in jobs :: ListsChild(jobs, p, c) <==> ChildOf(jobs, c, p))
  }

  /** A job that is set brings no list of dependents of its own, or replaces one whose list is not empty. */
  predicate BringsNoDependents(s: State, c: Command) {
    c.SetJobMsg? ==> c.job.dependentJobs == [] || Stored(s, c.job.name).dependentJobs != []
  }

  lemma {:induction false} RemoveStaysDistinct(l: seq<string>, name: string)
    requires Distinct(l)
    ensures Distinct(Remove(l, name))
  {
    if l != [] {
      RemoveStaysDistinct(l[1..], name);
      RemoveKeepsOthers(l[1..], name, l[0]);
      assert l[0] !in l[1..];
    }
  }

  lemma UnlinkStaysDistinct(jobs: JobMap, parent: string, child: string)
    requires forall q | q in jobs :: Distinct(jobs[q].dependentJobs)
    ensures forall q | q in Unlink(jobs, parent, child) :: Distinct(Unlink(jobs, parent, child)[q].dependentJobs)
  {
    if parent in jobs {
      RemoveStaysDistinct(jobs[parent].dependentJobs, child);
    }
  }

  lemma LinkStaysDistinct(jobs: JobMap, parent: string, child: string)
    requires forall q | q in jobs :: Distinct(jobs[q].dependentJobs)
    requires parent in jobs ==> child !in jobs[parent].dependentJobs
    ensures forall q | q in Link(jobs, parent, child) :: Distinct(Link(jobs, parent, child)[q].dependentJobs)
  {
  }

  lemma ReplacedStaysDistinct(jobs: JobMap, job: Job, oldParent: string)
    requires forall q | q in jobs :: Distinct(jobs[q].dependentJobs)
    requires Distinct(job.dependentJobs)
    requires job.parentJob != job.name && (oldParent == job.name ==> oldParent == "")
    requires job.parentJob in jobs && job.parentJob != oldParent ==> job.name !in jobs[job.parentJob].dependentJobs
    ensures forall q | q in Replaced(jobs, job, oldParent) :: Distinct(Replaced(jobs, job, oldParent)[q].dependentJobs)
  {
    var stored: JobMap := jobs[job.name := job];
    UnlinkStaysDistinct(stored, oldParent, job.name);
    UnlinkEffect(stored, oldParent, job.name);
    var unlinked := Unlinked(jobs, job, oldParent);
    if job.parentJob != oldParent {
      assert job.parentJob in stored ==> !ListsChild(stored, job.parentJob, job.name);
      LinkStaysDistinct(unlinked, job.parentJob, job.name);
    }
  }

  lemma RelinkedStaysExact(jobs: JobMap, job: Job, oldParent: string, after: JobMap)
    requires AllLinked(jobs) && ExactChildren(jobs) && Relinked(jobs, job, oldParent, after)
    requires forall q | q in after :: Distinct(after[q].dependentJobs)
    requires job.name != "" && job.parentJob != job.name && (job.parentJob != "" ==> job.parentJob in jobs)
    requires oldParent == if job.name in jobs then jobs[job.name].parentJob else ""
    requires job.dependentJobs == if job.name in jobs then jobs[job.name].dependentJobs else []
    ensures ExactChildren(after)
  {
    hide Distinct, ExecKey;
    forall p, c | p in after ensures ListsChild(after, p, c) <==> ChildOf(after, c, p) {
      assert ListsChild(after, p, c) <==> ListedAfter(jobs, job, oldParent, p, c);
      assert p in jobs ==> (ListsChild(jobs, p, c) <==> ChildOf(jobs, c, p));
      assert p in jobs ==> (ListsChild(jobs, p, job.name) <==> ChildOf(jobs, job.name, p));
      if c in jobs { assert Linked(jobs, c); }
    }
  }

  lemma DeletedStaysExact(jobs: JobMap, name: string)
    requires AllLinked(jobs) && ExactChildren(jobs) && name in jobs && jobs[name].dependentJobs == []
    ensures ExactChildren(Deleted(jobs, name))
  {
    var after := Deleted(jobs, name);
    UnlinkStaysDistinct(jobs - {name}, jobs[name].parentJob, name);
    forall p, c | p in after ensures ListsChild(after, p, c) <==> ChildOf(after, c, p) {
      RemoveKeepsOthers(jobs[p].dependentJobs, name, c);
      assert ListsChild(jobs, p, c) <==> ChildOf(jobs, c, p);
      assert ListsChild(jobs, p, name) <==> ChildOf(jobs, name, p);
    }
  }

  lemma SetJobStaysExact(libs: Libs, s: State, job: Job, clock: Clock)
    requires Consistent(libs, s) && ExactChildren(s.jobs) && Accepted(libs, s, job)
    requires BringsNoDependents(s, SetJobMsg(job))
    ensures ExactChildren(SetJob(libs, s, job, true, clock).state.jobs)
  {
    var version, oldParent, after := AcceptedIsRelinked(libs, s, job, clock);
    if job.name in s.jobs { assert Linked(s.jobs, job.name); }
    assert job.parentJob in s.jobs ==>
           (ListsChild(s.jobs, job.parentJob, job.name) <==> ChildOf(s.jobs, job.name, job.parentJob));
    ReplacedStaysDistinct(s.jobs, version, oldParent);
    RelinkedStaysExact(s.jobs, version, oldParent, after);
  }

  lemma StepStaysExact(libs: Libs, s: State, c: Command, clock: Clock)
    requires Consistent(libs, s) && ExactChildren(s.jobs) && BringsNoDependents(s, c)
    ensures ExactChildren(Step(libs, s, c, clock).jobs)
  {
    match c {
      case SetJobMsg(job) =>
        SetJobEffect(libs, s, job, true, clock);
        if Accepted(libs, s, job) { SetJobStaysExact(libs, s, job, clock); }
      case DeleteJobMsg(name) =>
        DeleteJobEffect(libs, s, name, clock);
        if Deletable(s, name) { DeletedStaysExact(s.jobs, name); }
      case _ =>
        ExecutionCommandsKeepReferences(libs, s, c, clock);
        SameReferencesStayExact(s.jobs, Step(libs, s, c, clock).jobs);
    }
  }

  lemma SameReferencesStayExact(jobs: JobMap, after: JobMap)
    requires ExactChildren(jobs) && AllSameReferences(jobs, after)
    ensures ExactChildren(after)
  {
    forall p | p in after ensures p != "" && Distinct(after[p].dependentJobs) {
      assert SameReferences(jobs[p], after[p]);
    }
    forall p, c | p in after ensures ListsChild(after, p, c) <==> ChildOf(after, c, p) {
      assert SameReferences(jobs[p], after[p]) && (c in jobs ==> SameReferences(jobs[c], after[c]));
      assert ListsChild(jobs, p, c) <==> ChildOf(jobs, c, p);
    }
  }

  ghost predicate RunBringsNoDependents(libs: Libs, s: State, log: seq<Entry>)
    decreases |log|
  {
    log != [] ==>
      BringsNoDependents(s, log[0].command)
      && RunBringsNoDependents(libs, Step(libs, s, log[0].command, log[0].clock), log[1..])
  }

  /** When no command brings dependents of its own, every stored list is free of duplicates and equals the stored jobs
      that name this job as their parent. */
  lemma {:induction false} ReachableIsExact(libs: Libs, s: State, log: seq<Entry>)
    requires Consistent(libs, s) && ExactChildren(s.jobs) && RunBringsNoDependents(libs, s, log)
    ensures ExactChildren(Run(libs, s, log).jobs)
    decreases |log|
  {
    if log != [] {
      StepStaysConsistent(libs, s, log[0].command, log[0].clock);
      StepStaysExact(libs, s, log[0].command, log[0].clock);
      ReachableIsExact(libs, Step(libs, s, log[0].command, log[0].clock), log[1..]);
    }
  }

  // ---- Circles ----

  function ParentsOf(jobs: JobMap): Parents {
    map n | n in jobs :: jobs[n].parentJob
  }

  lemma RelinkedParents(jobs: JobMap, job: Job, oldParent: string, after: JobMap)
    requires Relinked(jobs, job, oldParent, after)
    ensures ParentsOf(after) == ParentsOf(jobs)[job.name := job.parentJob]
  {
    var stored: JobMap := jobs[job.name := job];
    forall n | n in stored ensures after[n].parentJob == ParentsOf(jobs)[job.name := job.parentJob][n] {
      assert after[n] == stored[n].(dependentJobs := after[n].dependentJobs);
    }
  }

  lemma ParentsAfterSetJob(libs: Libs, s: State, job: Job, clock: Clock)
    requires Consistent(libs, s) && Accepted(libs, s, job)
    ensures ParentsOf(SetJob(libs, s, job, true, clock).state.jobs) == ParentsOf(s.jobs)[job.name := job.parentJob]
  {
    var version, oldParent, after := AcceptedIsRelinked(libs, s, job, clock);
    RelinkedParents(s.jobs, version, oldParent, after);
  }

  /** Only a job that is its own parent is refused, so an accepted job can close a circle. The parent chains stay free
      of circles exactly when the job is not on the chain of its new parent. */
  lemma SetJobKeepsGroundedIff(libs: Libs, s: State, job: Job, clock: Clock)
    requires Consistent(libs, s) && Accepted(libs, s, job) && Grounded(ParentsOf(s.jobs))
    ensures Grounded(ParentsOf(SetJob(libs, s, job, true, clock).state.jobs)) <==>
            job.parentJob == "" || !OnChain(ParentsOf(s.jobs), job.name, job.parentJob)
  {
    ParentsAfterSetJob(libs, s, job, clock);
    if job.parentJob == "" {
      RootKeepsGrounded(ParentsOf(s.jobs), job.name);
    } else {
      assert forall n | n in s.jobs :: Linked(s.jobs, n);
      ReparentKeepsGroundedIff(ParentsOf(s.jobs), job.name, job.parentJob);
    }
  }

  lemma AcceptsParent(libs: Libs, s: State, n: string, parent: string)
    requires n in s.jobs && Validate(libs, s.jobs[n]).None? && s.jobs[n].parentJob == "" && parent in s.jobs
             && parent != n
    ensures Accepted(libs, s, s.jobs[n].(parentJob := parent))
  {
  }

  /** The guard fails: a root that becomes the child of its own child closes a circle, and the store accepts it. */
  lemma CircleIsAccepted(libs: Libs, s: State, root: string, child: string, clock: Clock)
    requires Consistent(libs, s) && Grounded(ParentsOf(s.jobs))
    requires root in s.jobs && ChildOf(s.jobs, child, root) && s.jobs[root].parentJob == ""
    ensures var job := s.jobs[root].(parentJob := child);
            Accepted(libs, s, job) && !Grounded(ParentsOf(SetJob(libs, s, job, true, clock).state.jobs))
  {
    var job := s.jobs[root].(parentJob := child);
    assert Linked(s.jobs, child) && child != "";
    AcceptsParent(libs, s, root, child);
    var parents := ParentsOf(s.jobs);
    assert AtDistance(parents, root, root, 0) && AtDistance(parents, root, child, 1);
    SetJobKeepsGroundedIff(libs, s, job, clock);
  }

  /** A job that is set is new, keeps its parent, becomes a root, or has no dependents. */
  predicate MovesOnlyLeaves(s: State, c: Command) {
    c.SetJobMsg? ==>
      var stored := Stored(s, c.job.name);
      || c.job.name !in s.jobs || c.job.parentJob == ""
      || c.job.parentJob == stored.parentJob || stored.dependentJobs == []
  }

  lemma LeafIsOnNoOtherChain(jobs: JobMap, leaf: string, n: string)
    requires AllLinked(jobs) && leaf != "" && n != leaf
    requires leaf in jobs ==> jobs[leaf].dependentJobs == []
    ensures !OnChain(ParentsOf(jobs), leaf, n)
  {
    assert forall m | m in jobs :: Linked(jobs, m);
    if k: nat :| AtDistance(ParentsOf(jobs), leaf, n, k) {
      LeafOnChain(ParentsOf(jobs), leaf, n, k);
    }
  }

  lemma LeafMoveKeepsGrounded(libs: Libs, s: State, job: Job, clock: Clock)
    requires Consistent(libs, s) && Accepted(libs, s, job) && Grounded(ParentsOf(s.jobs))
    requires MovesOnlyLeaves(s, SetJobMsg(job))
    ensures Grounded(ParentsOf(SetJob(libs, s, job, true, clock).state.jobs))
  {
    hide SetJob, Grounded, OnChain;
    var parents, stored := ParentsOf(s.jobs), Stored(s, job.name);
    if job.name in s.jobs && job.parentJob == stored.parentJob {
      ParentsAfterSetJob(libs, s, job, clock);
      assert parents[job.name := job.parentJob] == parents;
    } else {
      SetJobKeepsGroundedIff(libs, s, job, clock);
      if job.parentJob != "" {
        LeafIsOnNoOtherChain(s.jobs, job.name, job.parentJob);
      }
    }
  }

  lemma DeletedParents(jobs: JobMap, name: string)
    requires name in jobs
    ensures ParentsOf(Deleted(jobs, name)) == ParentsOf(jobs) - {name}
  {
    hide Unlink;
    var rest: JobMap, after := jobs - {name}, Deleted(jobs, name);
    UnlinkEffect(rest, jobs[name].parentJob, name);
    forall n | n in after ensures after[n].parentJob == jobs[n].parentJob {
      assert n in rest;
    }
  }

  lemma DeletedKeepsGrounded(jobs: JobMap, name: string)
    requires AllLinked(jobs) && name in jobs && jobs[name].dependentJobs == [] && Grounded(ParentsOf(jobs))
    ensures Grounded(ParentsOf(Deleted(jobs, name)))
  {
    hide Unlink, Grounded;
    assert Linked(jobs, name);
    forall n | n in jobs ensures jobs[n].parentJob != name { assert Linked(jobs, n); }
    LeafRemovalKeepsGrounded(ParentsOf(jobs), name);
    DeletedParents(jobs, name);
  }

  lemma SameReferencesSameParents(jobs: JobMap, after: JobMap)
    requires AllSameReferences(jobs, after)
    ensures ParentsOf(after) == ParentsOf(jobs)
  {
    assert forall n | n in jobs :: SameReferences(jobs[n], after[n]);
  }

  lemma StepStaysGrounded(libs: Libs, s: State, c: Command, clock: Clock)
    requires Consistent(libs, s) && Grounded(ParentsOf(s.jobs)) && MovesOnlyLeaves(s, c)
    ensures Grounded(ParentsOf(Step(libs, s, c, clock).jobs))
  {
    hide SetJob, DeleteJob, SetExecution, SetExecutionDone, DeleteExecutions, Grounded, ParentsOf, Accepted,
         AllLinked, AllValid;
    match c {
      case SetJobMsg(job) =>
        SetJobEffect(libs, s, job, true, clock);
        if Accepted(libs, s, job) { LeafMoveKeepsGrounded(libs, s, job, clock); }
      case DeleteJobMsg(name) =>
        DeleteJobEffect(libs, s, name, clock);
        if Deletable(s, name) { DeletedKeepsGrounded(s.jobs, name); }
      case _ =>
        ExecutionCommandsKeepReferences(libs, s, c, clock);
        SameReferencesSameParents(s.jobs, Step(libs, s, c, clock).jobs);
    }
  }

  ghost predicate RunMovesOnlyLeaves(libs: Libs, s: State, log: seq<Entry>)
    decreases |log|
  {
    log != [] ==>
      MovesOnlyLeaves(s, log[0].command)
      && RunMovesOnlyLeaves(libs, Step(libs, s, log[0].command, log[0].clock), log[1..])
  }

  /** Parent chains stay free of circles over every run that moves only jobs without dependents. */
  lemma {:induction false} ReachableIsGrounded(libs: Libs, s: State, log: seq<Entry>)
    requires Consistent(libs, s) && Grounded(ParentsOf(s.jobs)) && RunMovesOnlyLeaves(libs, s, log)
    ensures Grounded(ParentsOf(Run(libs, s, log).jobs))
    decreases |log|
  {
    if log != [] {
      StepStaysConsistent(libs, s, log[0].command, log[0].clock);
      StepStaysGrounded(libs, s, log[0].command, log[0].clock);
      ReachableIsGrounded(libs, Step(libs, s, log[0].command, log[0].clock), log[1..]);
    }
  }

  // ---- Emptying a store ----

  lemma SomeLeaf(libs: Libs, s: State) returns (leaf: string)
    requires Consistent(libs, s) && ExactChildren(s.jobs) && Grounded(ParentsOf(s.jobs)) && s.jobs != map[]
    ensures Deletable(s, leaf)
  {
    var jobs := s.jobs;
    var some :| some in jobs;
    assert some in ParentsOf(jobs);
    leaf := GroundedHasLeaf(ParentsOf(jobs));
    forall c ensures !ListsChild(jobs, leaf, c) {
      assert ListsChild(jobs, leaf, c) <==> ChildOf(jobs, c, leaf);
      assert c in jobs ==> ParentsOf(jobs)[c] == jobs[c].parentJob;
    }
    if jobs[leaf].dependentJobs != [] {
      assert ListsChild(jobs, leaf, jobs[leaf].dependentJobs[0]);
    }
  }

  lemma DeletedKeys(jobs: JobMap, name: string)
    requires name in jobs
    ensures Deleted(jobs, name).Keys == jobs.Keys - {name} && |Deleted(jobs, name)| == |jobs| - 1
  {
    hide Unlink;
    UnlinkEffect(jobs - {name}, jobs[name].parentJob, name);
    assert |Deleted(jobs, name).Keys| == |jobs.Keys| - 1;
  }

  lemma LeafDeletion(libs: Libs, s: State, leaf: string, clock: Clock)
    requires Consistent(libs, s) && ExactChildren(s.jobs) && Grounded(ParentsOf(s.jobs)) && Deletable(s, leaf)
    ensures var t := Step(libs, s, DeleteJobMsg(leaf), clock);
            && Consistent(libs, t) && ExactChildren(t.jobs) && Grounded(ParentsOf(t.jobs))
            && t.jobs.Keys == s.jobs.Keys - {leaf} && |t.jobs| == |s.jobs| - 1
  {
    hide DeleteJob, Deleted, DeleteScan, Grounded, AllLinked, AllValid, ExactChildren, ParentsOf;
    DeleteJobEffect(libs, s, leaf, clock);
    DeletedStaysLinked(s.jobs, leaf);
    DeletedStaysValid(libs, s.jobs, leaf);
    DeletedStaysExact(s.jobs, leaf);
    DeletedKeepsGrounded(s.jobs, leaf);
    DeletedKeys(s.jobs, leaf);
  }

  /** Without circles and with exact lists, deleting leaf after leaf empties the store, in as many commands as it has
      jobs. */
  lemma {:induction false} DeletionsEmptyTheStore(libs: Libs, s: State, clock: Clock) returns (log: seq<Entry>)
    requires Consistent(libs, s) && ExactChildren(s.jobs) && Grounded(ParentsOf(s.jobs))
    ensures |log| == |s.jobs|
    ensures forall i | 0 <= i < |log| :: log[i].command.DeleteJobMsg? && log[i].command.name in s.jobs
    ensures Run(libs, s, log).jobs == map[]
    decreases |s.jobs|
  {
    hide Step, Consistent, ExactChildren, Grounded, ParentsOf;
    if s.jobs == map[] {
      log := [];
    } else {
      var leaf := SomeLeaf(libs, s);
      LeafDeletion(libs, s, leaf, clock);
      var rest := DeletionsEmptyTheStore(libs, Step(libs, s, DeleteJobMsg(leaf), clock), clock);
      log := [Entry(DeleteJobMsg(leaf), clock)] + rest;
      assert log[1..] == rest;
    }
  }
}
