/** The requests that the leader serves: each applies a command to the store and then updates the cron table. */
module Rpc {
  import opened Wrappers
  import opened Types
  import opened Keys
  import opened Commands
  import opened Fsm
  import opened References
  import opened Reachability
  import opened CronTable
  import Cleanup

  // The leader's store and cron table, and the names of the jobs that it has sent to nodes.
  datatype Leader = Leader(state: State, entries: seq<CronEntry>, nextId: nat, runs: seq<string>)

  datatype Reply =
    | Done
    | Retried(again: Execution)
    | JobDeleted
    | Refused(error: Error)

  datatype Replied = Replied(leader: Leader, reply: Reply)

  /** What a request learns from outside the store and the table. */
  datatype Outside = Outside(
    clock: Clock,
    // When the cron library will fire the entry of a job next.
    entryNext: string -> Time,
    // Are the notifications of a finished execution sent?
    notified: bool,
    // What a dependent job learns before it runs.
    around: string -> Cleanup.Surroundings,
    // Is there a node for the run of a job?
    dispatched: string -> bool
  )

  // The errors of the state machine that a SetJob request passes on. Any other error goes unnoticed.
  function ReportedError(r: Response): Option<Error> {
    if r == Failed(ParentJobNotFound) || r == Failed(SameParent) then Some(ParentJobNotFound) else None
  }

  function ApplyCommand(libs: Libs, l: Leader, c: Command, clock: Clock): Leader {
    l.(state := Step(libs, l.state, c, clock))
  }

  function SetJobRequest(libs: Libs, l: Leader, job: Job, clock: Clock): Replied {
    var applied := ApplyCommand(libs, l, SetJobMsg(job), clock);
    var error := ReportedError(Apply(libs, l.state, SetJobMsg(job), clock));
    if error.Some? then Replied(applied, Refused(error.value))
    else
      var added := Add(libs, l.entries, l.nextId, job);
      Replied(applied.(entries := added.entries, nextId := added.nextId),
              if added.error.Some? then Refused(added.error.value) else Done)
  }

  function DeleteJobRequest(libs: Libs, l: Leader, name: string, clock: Clock): Replied {
    var applied := ApplyCommand(libs, l, DeleteJobMsg(name), clock);
    match Apply(libs, l.state, DeleteJobMsg(name), clock)
    case JobResponse(job) => Replied(applied.(entries := Drop(l.entries, job.name)), JobDeleted)
    case Failed(error) => Replied(applied, Refused(error))
    case _ => Replied(applied, Done)
  }

  // A run goes on with the nodes that it finds.
  function Dispatch(l: Leader, name: string, outside: Outside): Replied {
    if outside.dispatched(name) then Replied(l.(runs := l.runs + [name]), Done)
    else Replied(l, Refused(NoTargetNodes))
  }

  /** Running a job, up to the calls of the nodes: a job without a parent gets the next run of its cron entry. */
  function RunJob(libs: Libs, l: Leader, name: string, outside: Outside): Replied {
    if name !in l.state.jobs then Replied(l, Refused(NotFound))
    else
      var job := l.state.jobs[name];
      if job.parentJob != "" then Dispatch(l, name, outside)
      else if Find(l.entries, name).None? then Replied(l, Refused(NotFound))
      else
        var c := SetJobMsg(job.(next := outside.entryNext(name)));
        var error := ReportedError(Apply(libs, l.state, c, outside.clock));
        var stored := ApplyCommand(libs, l, c, outside.clock);
        if error.Some? then Replied(stored, Refused(error.value)) else Dispatch(stored, name, outside)
  }

  /** The leader after a job has been asked to run: it may clean up stale executions, and it runs if it may. */
  function AskToRun(libs: Libs, l: Leader, name: string, outside: Outside): Leader
    requires name in l.state.jobs
  {
    var decision := Cleanup.Decide(libs, l.state, l.state.jobs[name], outside.around(name));
    var cleaned := l.(state := decision.state);
    if decision.runnable then RunJob(libs, cleaned, name, outside).leader else cleaned
  }

  /** Asks the dependent jobs to run, until one of them is not stored. A run that fails is only logged. */
  function RunAll(libs: Libs, l: Leader, names: seq<string>, outside: Outside): Replied
    decreases |names|
  {
    if names == [] then Replied(l, Done)
    else if names[0] !in l.state.jobs then Replied(l, Refused(NotFound))
    else RunAll(libs, AskToRun(libs, l, names[0], outside), names[1..], outside)
  }

  /** Is a finished execution run once more? */
  predicate Retries(job: Job, e: Execution) {
    !e.success && e.attempt < job.spec.retries + 1
  }

  // The execution that is run again.
  function NextAttempt(e: Execution): Execution {
    e.(attempt := e.attempt + 1, output := "")
  }

  /** The report that an execution has finished: it is stored, and then the execution is run again, or the dependent
      jobs are run and an ephemeral job is deleted. */
  function ExecutionDoneRequest(libs: Libs, l: Leader, e: Execution, outside: Outside): Replied {
    if e.jobName !in l.state.jobs then Replied(l, Refused(NotFound))
    else
      var applied := ApplyCommand(libs, l, ExecutionDoneMsg(e), outside.clock);
      if e.jobName !in applied.state.jobs then Replied(applied, Refused(NotFound))
      else
        var job := applied.state.jobs[e.jobName];
        if Retries(job, e) then
          var ran := RunJob(libs, applied, e.jobName, outside);
          if ran.reply.Refused? then ran else Replied(ran.leader, Retried(NextAttempt(e)))
        else if !outside.notified then Replied(applied, Refused(RaftApply))
        else
          var ran := if job.status == STATUS_SUCCESS then RunAll(libs, applied, job.dependentJobs, outside)
              else Replied(applied, Done);
          if ran.reply.Refused? then ran
          else if job.spec.ephemeral && job.status == STATUS_SUCCESS then
            DeleteJobRequest(libs, ran.leader, e.jobName, outside.clock)
          else ran
  }

  datatype Request =
    | SetJobReq(job: Job)
    | DeleteJobReq(name: string)
    | RunJobReq(name: string)
    | ExecutionDoneReq(execution: Execution)
    | SetExecutionReq(execution: Execution)
    | DeleteExecutionsReq(name: string)

  function Serve(libs: Libs, l: Leader, r: Request, outside: Outside): Leader {
    match r
    case SetJobReq(job) => SetJobRequest(libs, l, job, outside.clock).leader
    case DeleteJobReq(name) => DeleteJobRequest(libs, l, name, outside.clock).leader
    case RunJobReq(name) => RunJob(libs, l, name, outside).leader
    case ExecutionDoneReq(e) => ExecutionDoneRequest(libs, l, e, outside).leader
    case SetExecutionReq(e) => ApplyCommand(libs, l, SetExecutionMsg(e), outside.clock)
    case DeleteExecutionsReq(name) => ApplyCommand(libs, l, DeleteExecutionsMsg(name), outside.clock)
  }

  // ---- Agreement of the table with the store ----

  function WantedFor(libs: Libs, jobs: JobMap, name: string): seq<string> {
    if name in jobs then Wanted(libs, jobs[name]) else []
  }

  /** The table holds a job once, under its effective schedule, when it is stored, enabled and without a parent, and
      holds no other job. */
  ghost predicate Agrees(libs: Libs, jobs: JobMap, entries: seq<CronEntry>) {
    forall n {:trigger Schedules(entries, n)} :: Schedules(entries, n) == WantedFor(libs, jobs, n)
  }

  ghost predicate InStep(libs: Libs, l: Leader) {
    Consistent(libs, l.state) && UniqueIds(l.entries, l.nextId) && Agrees(libs, l.state.jobs, l.entries)
  }

  lemma SameDefinitionSameEntry(libs: Libs, j: Job, k: Job)
    requires SameDefinition(j, k)
    ensures Wanted(libs, j) == Wanted(libs, k)
  {
  }

  /** Jobs that keep their definitions keep their entries. */
  lemma SameDefinitionsAgree(libs: Libs, jobs: JobMap, after: JobMap, entries: seq<CronEntry>)
    requires Agrees(libs, jobs, entries) && AllSameDefinition(jobs, after) && after.Keys == jobs.Keys
    ensures Agrees(libs, after, entries)
  {
    hide Wanted, SameDefinition;
    forall n ensures Schedules(entries, n) == WantedFor(libs, after, n) {
      if n in jobs { SameDefinitionSameEntry(libs, jobs[n], after[n]); }
    }
  }

  // Jobs but for one keep their definitions, and the one gets the definition of `job`.
  ghost predicate OneRedefined(jobs: JobMap, job: Job, after: JobMap) {
    && after.Keys == jobs.Keys + {job.name} && SameDefinition(after[job.name], job)
    && forall n | n in jobs && n != job.name :: SameDefinition(jobs[n], after[n])
  }

  lemma RelinkedRedefines(jobs: JobMap, job: Job, version: Job, after: JobMap)
    requires SameButDependents(jobs[version.name := version], after) && SameDefinition(version, job)
    ensures OneRedefined(jobs, job, after)
  {
    hide ExecKey;
    var stored: JobMap := jobs[version.name := version];
    assert stored.Keys == jobs.Keys + {job.name};
    forall n | n in after ensures SameDefinition(stored[n], after[n]) {
      assert after[n] == stored[n].(dependentJobs := after[n].dependentJobs);
    }
  }

  lemma AcceptedRedefines(libs: Libs, s: State, job: Job, clock: Clock)
    requires Consistent(libs, s) && Accepted(libs, s, job)
    ensures OneRedefined(s.jobs, job, SetJob(libs, s, job, true, clock).state.jobs)
    ensures SetJob(libs, s, job, true, clock).error.None?
  {
    hide SetJob, Consistent, Accepted, OneRedefined, ListedAfter, ListsChild, Replaced, Validate, NewVersion;
    SetJobEffect(libs, s, job, true, clock);
    var version, oldParent, after := AcceptedIsRelinked(libs, s, job, clock);
    RelinkedRedefines(s.jobs, job, version, after);
  }

  lemma RedefinedAgrees(
      libs: Libs, jobs: JobMap, job: Job, after: JobMap, entries: seq<CronEntry>, changed: seq<CronEntry>)
    requires Agrees(libs, jobs, entries) && OneRedefined(jobs, job, after)
    requires forall n :: Schedules(changed, n) == if n == job.name then Wanted(libs, job) else Schedules(entries, n)
    ensures Agrees(libs, after, changed)
  {
    hide Wanted, SameDefinition;
    forall n ensures Schedules(changed, n) == WantedFor(libs, after, n) {
      assert Schedules(entries, n) == WantedFor(libs, jobs, n);
      if n == job.name {
        SameDefinitionSameEntry(libs, after[n], job);
      } else if n in jobs {
        SameDefinitionSameEntry(libs, jobs[n], after[n]);
      }
    }
  }

  lemma AtMostOne(libs: Libs, jobs: JobMap, entries: seq<CronEntry>, name: string)
    requires Agrees(libs, jobs, entries)
    ensures |Schedules(entries, name)| <= 1
  {
    assert Schedules(entries, name) == WantedFor(libs, jobs, name);
  }

  /** A job that the store accepts gets the entry it should have, if its effective schedule parses. */
  lemma AcceptedStaysInStep(libs: Libs, l: Leader, job: Job, clock: Clock)
    requires InStep(libs, l) && Accepted(libs, l.state, job) && Parsed(libs, job)
    ensures InStep(libs, SetJobRequest(libs, l, job, clock).leader)
    ensures SetJobRequest(libs, l, job, clock).reply == Done
  {
    hide SetJob, Add, Agrees, UniqueIds, Accepted, OneRedefined, Consistent;
    AcceptedRedefines(libs, l.state, job, clock);
    AtMostOne(libs, l.state.jobs, l.entries, job.name);
    AddHolds(libs, l.entries, l.nextId, job);
    var added := Add(libs, l.entries, l.nextId, job);
    RedefinedAgrees(libs, l.state.jobs, job, SetJob(libs, l.state, job, true, clock).state.jobs, l.entries,
        added.entries);
    StepStaysConsistent(libs, l.state, SetJobMsg(job), clock);
  }

  /** Is the job refused by the store without the request noticing? */
  predicate Unnoticed(libs: Libs, job: Job) {
    var invalid := Validate(libs, job);
    invalid.Some? && invalid.value != SameParent && invalid.value != ParentJobNotFound
  }

  lemma RefusalOf(libs: Libs, s: State, job: Job, clock: Clock)
    requires !Accepted(libs, s, job)
    ensures SetJob(libs, s, job, true, clock).state == s
    ensures ReportedError(Apply(libs, s, SetJobMsg(job), clock)).None? <==> Unnoticed(libs, job)
  {
    hide Merge, NextRun, RemoveFromParent, AddToParent, Validate;
  }

  /** When the store refuses a job, the table and the store still agree exactly when the refusal is reported or the
      refused job would have the entry that the stored one has. */
  lemma RefusedStaysInStepIff(libs: Libs, l: Leader, job: Job, clock: Clock)
    requires InStep(libs, l) && !Accepted(libs, l.state, job)
    ensures InStep(libs, SetJobRequest(libs, l, job, clock).leader) <==>
            !Unnoticed(libs, job)
            || WantedFor(libs, l.state.jobs, job.name) == if Parsed(libs, job) then Wanted(libs, job) else []
  {
    hide SetJob, Add, Agrees, UniqueIds, Consistent, Validate, Accepted, Unnoticed;
    RefusalOf(libs, l.state, job, clock);
    AtMostOne(libs, l.state.jobs, l.entries, job.name);
    AddHolds(libs, l.entries, l.nextId, job);
    var jobs, added := l.state.jobs, Add(libs, l.entries, l.nextId, job);
    TableAgreesIff(libs, jobs, job.name, l.entries, added.entries);
  }

  lemma TableAgreesIff(libs: Libs, jobs: JobMap, name: string, entries: seq<CronEntry>, changed: seq<CronEntry>)
    requires Agrees(libs, jobs, entries) && forall n | n != name :: Schedules(changed, n) == Schedules(entries, n)
    ensures Agrees(libs, jobs, changed) <==> Schedules(changed, name) == WantedFor(libs, jobs, name)
  {
    hide WantedFor;
    if Schedules(changed, name) == WantedFor(libs, jobs, name) {
      forall n ensures Schedules(changed, n) == WantedFor(libs, jobs, n) {
        assert Schedules(entries, n) == WantedFor(libs, jobs, n);
      }
    }
  }

  /** So an invalid job that is not stored is scheduled, and the client is told that all is well. */
  lemma RefusedJobIsScheduled(libs: Libs, l: Leader, job: Job, clock: Clock)
    requires InStep(libs, l) && Unnoticed(libs, job) && job.name !in l.state.jobs
    requires Schedulable(job) && libs.parses(EffectiveSchedule(libs, job))
    ensures var r := SetJobRequest(libs, l, job, clock);
            && r.reply == Done && job.name !in r.leader.state.jobs && Schedules(r.leader.entries, job.name) != []
            && !InStep(libs, r.leader)
  {
    hide SetJob, Add, UniqueIds, Consistent, Validate, EffectiveSchedule;
    RefusalOf(libs, l.state, job, clock);
    AtMostOne(libs, l.state.jobs, l.entries, job.name);
    AddHolds(libs, l.entries, l.nextId, job);
    RefusedStaysInStepIff(libs, l, job, clock);
  }

  /** Any SetJob request for a valid job keeps the table in step with the store. */
  lemma ValidSetJobStaysInStep(libs: Libs, l: Leader, job: Job, clock: Clock)
    requires InStep(libs, l) && ZoneLaw(libs) && Validate(libs, job).None?
    ensures InStep(libs, SetJobRequest(libs, l, job, clock).leader)
    ensures SetJobRequest(libs, l, job, clock).reply ==
            if Accepted(libs, l.state, job) then Done else Refused(ParentJobNotFound)
  {
    hide Validate, InStep, ZoneLaw, SetJob, EffectiveSchedule;
    if Schedulable(job) { ValidIsParsed(libs, job); }
    if Accepted(libs, l.state, job) {
      AcceptedStaysInStep(libs, l, job, clock);
    } else {
      RefusalOf(libs, l.state, job, clock);
      RefusedStaysInStepIff(libs, l, job, clock);
    }
  }

  lemma DeletedDefinitions(jobs: JobMap, name: string)
    requires name in jobs
    ensures AllSameDefinition(jobs, Deleted(jobs, name)) && Deleted(jobs, name).Keys == jobs.Keys - {name}
  {
    hide Unlink, ExecKey;
    UnlinkEffect(jobs - {name}, jobs[name].parentJob, name);
  }

  lemma DeletedAgrees(libs: Libs, jobs: JobMap, name: string, entries: seq<CronEntry>, nextId: nat)
    requires Agrees(libs, jobs, entries) && UniqueIds(entries, nextId) && name in jobs
    ensures Agrees(libs, Deleted(jobs, name), Drop(entries, name)) && UniqueIds(Drop(entries, name), nextId)
  {
    hide Deleted, Wanted, Drop, SameDefinition, UniqueIds, Find;
    DropFirst(entries, nextId, name);
    DeletedDefinitions(jobs, name);
    AtMostOne(libs, jobs, entries, name);
    var after := Deleted(jobs, name);
    forall n ensures Schedules(Drop(entries, name), n) == WantedFor(libs, after, n) {
      assert Schedules(entries, n) == WantedFor(libs, jobs, n);
      if n == name {
        assert Schedules(entries, n) != [] ==> Schedules(entries, n)[1..] == [];
      } else if n in jobs {
        SameDefinitionSameEntry(libs, jobs[n], after[n]);
      }
    }
  }

  lemma DeleteJobStaysInStep(libs: Libs, l: Leader, name: string, clock: Clock)
    requires InStep(libs, l)
    ensures InStep(libs, DeleteJobRequest(libs, l, name, clock).leader)
    ensures var r := DeleteJobRequest(libs, l, name, clock);
            && r.leader.runs == l.runs
            && (name !in l.state.jobs ==> r == Replied(l, Refused(NotFound)))
            && (name in l.state.jobs && l.state.jobs[name].dependentJobs != [] ==>
                  r == Replied(l, Refused(DependentJobs)))
            && (name in l.state.jobs && l.state.jobs[name].dependentJobs == [] ==>
                  r.reply == JobDeleted && r.leader.state.jobs.Keys == l.state.jobs.Keys - {name})
  {
    hide DeleteJob, Agrees, UniqueIds, Consistent, Drop, DeleteScan, Deleted;
    DeleteJobEffect(libs, l.state, name, clock);
    UndeletableError(libs, l.state, name, clock);
    StepStaysConsistent(libs, l.state, DeleteJobMsg(name), clock);
    if Deletable(l.state, name) {
      DeletedAgrees(libs, l.state.jobs, name, l.entries, l.nextId);
      DeletedDefinitions(l.state.jobs, name);
    }
  }

  lemma UndeletableError(libs: Libs, s: State, name: string, clock: Clock)
    ensures name !in s.jobs ==> DeleteJob(libs, s, name, clock).error == Some(NotFound)
    ensures name in s.jobs && s.jobs[name].dependentJobs != [] ==>
              DeleteJob(libs, s, name, clock).error == Some(DependentJobs)
  {
  }

  /** A command that leaves the definitions of the jobs alone leaves the table in step. */
  lemma KeptDefinitionsStayInStep(libs: Libs, l: Leader, c: Command, clock: Clock)
    requires InStep(libs, l)
    requires var after := Step(libs, l.state, c, clock).jobs;
             AllSameDefinition(l.state.jobs, after) && after.Keys == l.state.jobs.Keys
    ensures InStep(libs, ApplyCommand(libs, l, c, clock))
  {
    hide Step, Agrees, UniqueIds, Consistent;
    StepStaysConsistent(libs, l.state, c, clock);
    SameDefinitionsAgree(libs, l.state.jobs, Step(libs, l.state, c, clock).jobs, l.entries);
  }

  lemma ExecutionCommandStaysInStep(libs: Libs, l: Leader, c: Command, clock: Clock)
    requires InStep(libs, l) && (c.SetExecutionMsg? || c.DeleteExecutionsMsg? || c.ExecutionDoneMsg?)
    ensures InStep(libs, ApplyCommand(libs, l, c, clock))
    ensures ApplyCommand(libs, l, c, clock).state.jobs.Keys == l.state.jobs.Keys
  {
    hide Step, Agrees, UniqueIds, Consistent;
    ExecutionCommandsKeepReferences(libs, l.state, c, clock);
    var after := Step(libs, l.state, c, clock).jobs;
    forall n | n in after ensures SameDefinition(l.state.jobs[n], after[n]) {
      assert SameReferences(l.state.jobs[n], after[n]);
    }
    KeptDefinitionsStayInStep(libs, l, c, clock);
  }

  lemma StoredIsAccepted(libs: Libs, s: State, name: string, next: Time)
    requires Consistent(libs, s) && name in s.jobs && s.jobs[name].parentJob == ""
    ensures Accepted(libs, s, s.jobs[name].(next := next))
  {
    assert Validate(libs, s.jobs[name]).None?;
    SameDefinitionSameVerdict(libs, s.jobs[name], s.jobs[name].(next := next));
  }

  lemma RunJobStaysInStep(libs: Libs, l: Leader, name: string, outside: Outside)
    requires InStep(libs, l)
    ensures InStep(libs, RunJob(libs, l, name, outside).leader)
    ensures RunJob(libs, l, name, outside).leader.state.jobs.Keys == l.state.jobs.Keys
  {
    hide Agrees, UniqueIds, Consistent, SetJob, Find, Accepted;
    if name in l.state.jobs && l.state.jobs[name].parentJob == "" {
      var job := l.state.jobs[name].(next := outside.entryNext(name));
      StoredIsAccepted(libs, l.state, name, outside.entryNext(name));
      AcceptedRedefines(libs, l.state, job, outside.clock);
      KeptDefinitionsStayInStep(libs, l, SetJobMsg(job), outside.clock);
    }
  }

  /** A run of a stored job without a parent moves the job's next run to that of its cron entry, never back, and changes
      nothing else. A job without an entry is refused, and a child does not touch the store. */
  lemma RunJobStoresNext(libs: Libs, l: Leader, name: string, outside: Outside)
    requires InStep(libs, l) && name in l.state.jobs
    ensures var r, was := RunJob(libs, l, name, outside), l.state.jobs[name];
            var due := outside.entryNext(name);
            var result := if outside.dispatched(name) then Done else Refused(NoTargetNodes);
            var sent := l.(runs := l.runs + if outside.dispatched(name) then [name] else []);
            && (was.parentJob != "" ==> r == Replied(sent, result))
            && (was.parentJob == "" && was.spec.disabled ==> r == Replied(l, Refused(NotFound)))
            && (was.parentJob == "" && !was.spec.disabled ==>
                  && r.reply == result
                  && r.leader == sent.(state := l.state.(jobs := l.state.jobs[
                                         name := was.(next := if due < was.next then was.next else due)])))
  {
    hide Consistent, UniqueIds, EffectiveSchedule, SetJob, Accepted;
    var was := l.state.jobs[name];
    assert Schedules(l.entries, name) == WantedFor(libs, l.state.jobs, name);
    FoundWhenScheduled(l.entries, l.nextId, name);
    if was.parentJob == "" && !was.spec.disabled {
      var job := was.(next := outside.entryNext(name));
      StoredIsAccepted(libs, l.state, name, outside.entryNext(name));
      SetJobStoresSame(libs, l.state, job, outside.clock);
    }
  }

  lemma FoundWhenScheduled(entries: seq<CronEntry>, nextId: nat, name: string)
    requires UniqueIds(entries, nextId)
    ensures Find(entries, name).Some? <==> Schedules(entries, name) != []
  {
    DropFirst(entries, nextId, name);
  }

  // A stored job that is set with another next run keeps everything else.
  lemma SetJobStoresSame(libs: Libs, s: State, job: Job, clock: Clock)
    requires Consistent(libs, s) && Accepted(libs, s, job) && job.name in s.jobs
             && job == s.jobs[job.name].(next := job.next)
    ensures var was := s.jobs[job.name];
            SetJob(libs, s, job, true, clock) ==
            Outcome(s.(jobs := s.jobs[job.name := was.(next := if job.next < was.next then was.next else job.next)]),
                None)
  {
    hide Consistent, Validate, SetJob, Accepted, GetNext;
    SetJobEffect(libs, s, job, true, clock);
    var was := s.jobs[job.name];
    assert Merge(job, was, true) == job;
  }

  // A report to the leader.
  datatype Report = Report(leader: Leader, execution: Execution, outside: Outside)

  function Answer(libs: Libs, r: Report): Reply {
    ExecutionDoneRequest(libs, r.leader, r.execution, r.outside).reply
  }

  /** The second report is that of the execution which the first one made the leader run again. Nodes report an
      execution with the attempt with which it was run. */
  predicate ReportsRetryOf(libs: Libs, first: Report, second: Report) {
    Answer(libs, first).Retried? && second.execution.attempt == Answer(libs, first).again.attempt
  }

  /** Only a failed execution that is no later attempt than its job has retries is attempted again. */
  lemma RetriedWithin(libs: Libs, r: Report)
    requires Answer(libs, r).Retried?
    ensures r.execution.jobName in r.leader.state.jobs && !r.execution.success
    ensures r.execution.attempt <= r.leader.state.jobs[r.execution.jobName].spec.retries
    ensures Answer(libs, r).again == r.execution.(attempt := r.execution.attempt + 1, output := "")
  {
    hide RunJob, RunAll, DeleteJobRequest, Step;
    ExecutionCommandsKeepReferences(libs, r.leader.state, ExecutionDoneMsg(r.execution), r.outside.clock);
    RetriedStep(libs, r);
  }

  lemma RetriedStep(libs: Libs, r: Report)
    requires Answer(libs, r).Retried?
    requires AllSameReferences(r.leader.state.jobs,
             Step(libs, r.leader.state, ExecutionDoneMsg(r.execution), r.outside.clock).jobs)
    ensures r.execution.jobName in r.leader.state.jobs && !r.execution.success
    ensures r.execution.attempt <= r.leader.state.jobs[r.execution.jobName].spec.retries
    ensures Answer(libs, r).again == r.execution.(attempt := r.execution.attempt + 1, output := "")
  {
    hide RunJob, Step, RunAll;
    var job := r.execution.jobName;
    OnlyRetriesRetry(libs, r.outside);
    var after := Step(libs, r.leader.state, ExecutionDoneMsg(r.execution), r.outside.clock).jobs;
    assert job in r.leader.state.jobs ==> SameReferences(r.leader.state.jobs[job], after[job]);
  }

  // A run of dependents or a deletion does not answer with a retry.
  lemma OnlyRetriesRetry(libs: Libs, outside: Outside)
    ensures forall names: seq<string>, l: Leader {:trigger RunAll(libs, l, names, outside)} ::
              !RunAll(libs, l, names, outside).reply.Retried?
  {
    forall names: seq<string>, l: Leader ensures !RunAll(libs, l, names, outside).reply.Retried? {
      RunAllNeverRetries(libs, l, names, outside);
    }
  }

  lemma {:induction false} RunAllNeverRetries(libs: Libs, l: Leader, names: seq<string>, outside: Outside)
    ensures !RunAll(libs, l, names, outside).reply.Retried?
    decreases |names|
  {
    hide AskToRun;
    if names != [] && names[0] in l.state.jobs {
      RunAllNeverRetries(libs, AskToRun(libs, l, names[0], outside), names[1..], outside);
    }
  }

  /** However often an execution fails, and however its job changes meanwhile, it is attempted at most once more than
      the job had retries at the last time. */
  lemma {:induction false} RetriesAreBounded(libs: Libs, chain: seq<Report>)
    requires |chain| > 1 && chain[0].execution.attempt == 1
    requires forall i | 0 <= i < |chain| - 1 :: ReportsRetryOf(libs, chain[i], chain[i + 1])
    ensures var last := chain[|chain| - 2];
            && chain[|chain| - 1].execution.attempt == |chain|
            && last.execution.jobName in last.leader.state.jobs
            && |chain| <= last.leader.state.jobs[last.execution.jobName].spec.retries + 1
  {
    hide Answer;
    var last := chain[|chain| - 2];
    assert ReportsRetryOf(libs, last, chain[|chain| - 1]);
    RetriedWithin(libs, last);
    if |chain| > 2 {
      var front := chain[..|chain| - 1];
      forall i | 0 <= i < |front| - 1 ensures ReportsRetryOf(libs, front[i], front[i + 1]) {
        assert ReportsRetryOf(libs, chain[i], chain[i + 1]);
      }
      RetriesAreBounded(libs, front);
    }
  }

  /** A cleanup keeps the table in step with the store. */
  lemma {:induction false} SweepStaysInStep(
    libs: Libs, l: Leader, list: seq<Execution>, active: set<string>, now: Time, applied: nat -> bool, clock: Clock,
    calls: nat)
    requires InStep(libs, l)
    ensures InStep(libs, l.(state := Cleanup.Sweep(libs, l.state, list, active, now, applied, clock, calls).state))
    decreases |list|
  {
    hide InStep, Step, Keys.Key;
    if list != [] {
      SweepStaysInStep(libs, l, list[1..], active, now, applied, clock, calls);
      SweepStaysInStep(libs, l, list[1..], active, now, applied, clock, calls + 1);
      var x := Cleanup.Failed(list[0], now);
      ExecutionCommandStaysInStep(libs, l, ExecutionDoneMsg(x), clock);
      SweepStaysInStep(libs, ApplyCommand(libs, l, ExecutionDoneMsg(x), clock), list[1..], active, now, applied, clock,
          calls + 1);
    }
  }

  lemma AskToRunStaysInStep(libs: Libs, l: Leader, name: string, outside: Outside)
    requires InStep(libs, l) && name in l.state.jobs
    ensures InStep(libs, AskToRun(libs, l, name, outside))
  {
    hide InStep, RunJob, Cleanup.Sweep, Cleanup.IsDue, Cleanup.IsActive, Cleanup.RunningOf;
    var job, around := l.state.jobs[name], outside.around(name);
    var decision := Cleanup.Decide(libs, l.state, job, around);
    if around.active.Some? {
      SweepStaysInStep(
        libs, l, Cleanup.RunningOf(libs, l.state.executions, job.name), Cleanup.ActiveKeys(around.active.value),
        around.atCleanup, around.applied, around.clock, 0);
    }
    var cleaned := l.(state := decision.state);
    assert cleaned == l || around.active.Some?;
    RunJobStaysInStep(libs, cleaned, name, outside);
  }

  lemma {:induction false} RunAllStaysInStep(libs: Libs, l: Leader, names: seq<string>, outside: Outside)
    requires InStep(libs, l)
    ensures InStep(libs, RunAll(libs, l, names, outside).leader)
    decreases |names|
  {
    hide InStep, AskToRun;
    if names != [] && names[0] in l.state.jobs {
      AskToRunStaysInStep(libs, l, names[0], outside);
      RunAllStaysInStep(libs, AskToRun(libs, l, names[0], outside), names[1..], outside);
    }
  }

  lemma ExecutionDoneStaysInStep(libs: Libs, l: Leader, e: Execution, outside: Outside)
    requires InStep(libs, l)
    ensures InStep(libs, ExecutionDoneRequest(libs, l, e, outside).leader)
  {
    hide InStep, RunJob, RunAll, DeleteJobRequest, ApplyCommand, Retries;
    if e.jobName in l.state.jobs {
      ExecutionCommandStaysInStep(libs, l, ExecutionDoneMsg(e), outside.clock);
      var applied := ApplyCommand(libs, l, ExecutionDoneMsg(e), outside.clock);
      var job := applied.state.jobs[e.jobName];
      RunJobStaysInStep(libs, applied, e.jobName, outside);
      RunAllStaysInStep(libs, applied, job.dependentJobs, outside);
      var ran := if job.status == STATUS_SUCCESS then RunAll(libs, applied, job.dependentJobs, outside)
                 else Replied(applied, Done);
      DeleteJobStaysInStep(libs, ran.leader, e.jobName, outside.clock);
    }
  }

  predicate Validated(libs: Libs, r: Request) {
    r.SetJobReq? ==> Validate(libs, r.job).None?
  }

  lemma ServeStaysInStep(libs: Libs, l: Leader, r: Request, outside: Outside)
    requires InStep(libs, l) && ZoneLaw(libs) && Validated(libs, r)
    ensures InStep(libs, Serve(libs, l, r, outside))
  {
    hide InStep, ZoneLaw, Validate, SetJobRequest, DeleteJobRequest, RunJob, ExecutionDoneRequest, ApplyCommand;
    match r {
      case SetJobReq(job) => ValidSetJobStaysInStep(libs, l, job, outside.clock);
      case DeleteJobReq(name) => DeleteJobStaysInStep(libs, l, name, outside.clock);
      case RunJobReq(name) => RunJobStaysInStep(libs, l, name, outside);
      case ExecutionDoneReq(e) => ExecutionDoneStaysInStep(libs, l, e, outside);
      case SetExecutionReq(e) => ExecutionCommandStaysInStep(libs, l, SetExecutionMsg(e), outside.clock);
      case DeleteExecutionsReq(name) => ExecutionCommandStaysInStep(libs, l, DeleteExecutionsMsg(name), outside.clock);
    }
  }

  datatype Served = Served(request: Request, outside: Outside)

  function ServeAll(libs: Libs, l: Leader, log: seq<Served>): Leader
    decreases |log|
  {
    if log == [] then l else ServeAll(libs, Serve(libs, l, log[0].request, log[0].outside), log[1..])
  }

  /** Over any sequence of requests whose SetJob jobs are valid, the table holds exactly one entry for each stored job
      that is enabled and has no parent, under the job's effective schedule, and none for any other name. */
  lemma {:induction false} TableAgreesWithStore(libs: Libs, l: Leader, log: seq<Served>)
    requires InStep(libs, l) && ZoneLaw(libs) && forall i | 0 <= i < |log| :: Validated(libs, log[i].request)
    ensures InStep(libs, ServeAll(libs, l, log))
    decreases |log|
  {
    hide InStep, ZoneLaw, Serve, Validated;
    if log != [] {
      ServeStaysInStep(libs, l, log[0].request, log[0].outside);
      assert forall i | 0 <= i < |log[1..]| :: log[1..][i] == log[i + 1];
      TableAgreesWithStore(libs, Serve(libs, l, log[0].request, log[0].outside), log[1..]);
    }
  }

  /** So over any such sequence, an enabled job without a parent is held under its hashed schedule, with its zone in
      front unless it has none or the schedule is a descriptor or names a zone itself; no other job is held. */
  lemma TableHoldsSchedules(libs: Libs, l: Leader, log: seq<Served>, name: string)
    requires InStep(libs, l) && ZoneLaw(libs) && forall i | 0 <= i < |log| :: Validated(libs, log[i].request)
    ensures var t := ServeAll(libs, l, log);
            Schedules(t.entries, name) ==
              if name !in t.state.jobs || t.state.jobs[name].spec.disabled || t.state.jobs[name].parentJob != "" then []
              else
                var job := t.state.jobs[name];
                var hashed := libs.scheduleHash(name, job.schedule);
                if job.spec.timezone == "" || "@" <= hashed || "TZ=" <= hashed || "CRON_TZ=" <= hashed then [hashed]
                else ["CRON_TZ=" + job.spec.timezone + " " + hashed]
  {
    TableAgreesWithStore(libs, l, log);
    hide Consistent, UniqueIds, ServeAll, EffectiveSchedule, ZoneLaw, Validated;
    var t := ServeAll(libs, l, log);
    assert Schedules(t.entries, name) == WantedFor(libs, t.state.jobs, name);
    if name in t.state.jobs { HeldSchedule(libs, t.state.jobs[name]); }
  }

  // A listing of all stored jobs.
  ghost predicate Enumerates(list: seq<Job>, jobs: JobMap) {
    && DistinctJobs(list)
    && (forall i | 0 <= i < |list| :: list[i].name in jobs && jobs[list[i].name] == list[i])
    && (forall n | n in jobs :: exists i :: 0 <= i < |list| && list[i].name == n)
  }

  /** Starting the scheduler over all stored jobs succeeds, and puts the table in step with the store. */
  lemma StartIsInStep(libs: Libs, s: State, list: seq<Job>, nextId: nat)
    requires Consistent(libs, s) && ZoneLaw(libs) && Enumerates(list, s.jobs)
    ensures var r := AddAll(libs, [], nextId, list); r.error.None? && InStep(libs, Leader(s, r.entries, r.nextId, []))
  {
    hide Schedules, Wanted, Add, AddAll, Parsed, Validate, ZoneLaw, UniqueIds, DistinctJobs, AllLinked;
    assert UniqueIds([], nextId) by { NoEntries(nextId); }
    forall n ensures Schedules([], n) == [] { NothingScheduled(n); }
    AddAllHolds(libs, [], nextId, list);
    forall i | 0 <= i < |list| ensures Parsed(libs, list[i]) {
      assert Validate(libs, s.jobs[list[i].name]).None?;
      ValidIsParsedJob(libs, list[i]);
    }
    var r := AddAll(libs, [], nextId, list);
    forall n ensures Schedules(r.entries, n) == WantedFor(libs, s.jobs, n) {
      if n in s.jobs {
        var i :| 0 <= i < |list| && list[i].name == n;
        assert Schedules(r.entries, list[i].name) == Wanted(libs, list[i]);
      }
    }
  }

  lemma NoEntries(nextId: nat)
    ensures UniqueIds([], nextId)
  {
  }

  lemma NothingScheduled(n: string)
    ensures Schedules([], n) == []
  {
  }

  lemma ValidIsParsedJob(libs: Libs, job: Job)
    requires ZoneLaw(libs) && Validate(libs, job).None?
    ensures Parsed(libs, job)
  {
    if Schedulable(job) { ValidIsParsed(libs, job); }
  }
}

/** The request handlers over the flat store and the scheduler, each proved to compute the function of module Rpc. */
module Handlers {
  import opened Wrappers
  import opened Types
  import opened Commands
  import opened Fsm
  import opened CronTable
  import opened Scheduling
  import opened Rpc
  import Cleanup
  import FlatStore

  lemma RunNone(libs: Libs, l: Leader, outside: Outside)
    ensures RunAll(libs, l, [], outside) == Replied(l, Done)
  {
  }

  class GrpcServer {
    const store: FlatStore.Store
    const sched: Scheduler
    // The names of the jobs that were sent to nodes.
    var runs: seq<string>

    ghost predicate Valid()
      reads store, sched
    {
      store.Valid() && sched.libs == store.libs
    }

    ghost function View(): Leader
      reads this, store, sched
    {
      Leader(store.view, sched.entries, sched.nextId, runs)
    }

    constructor (store: FlatStore.Store, sched: Scheduler)
      requires store.Valid() && sched.libs == store.libs
      ensures Valid() && this.store == store && this.sched == sched && runs == []
    {
      runs := [];
      this.store := store;
      this.sched := sched;
    }

    method ApplySetJob(job: Job, clock: Clock) returns (error: Option<Error>)
      requires Valid()
      modifies store
      ensures Valid() && View() == ApplyCommand(store.libs, old(View()), SetJobMsg(job), clock)
      ensures error == ReportedError(Fsm.Apply(store.libs, old(store.view), SetJobMsg(job), clock))
    {
      hide Step, Fsm.Apply, FlatStore.Represents;
      var res := store.Apply(SetJobMsg(job), clock);
      match res {
        case Failed(ParentJobNotFound) => error := Some(ParentJobNotFound);
        case Failed(SameParent) => error := Some(ParentJobNotFound);
        case _ => error := None;
      }
    }

    method SetJob(job: Job, clock: Clock) returns (reply: Reply)
      requires Valid()
      modifies store, sched
      ensures Valid() && Replied(View(), reply) == SetJobRequest(store.libs, old(View()), job, clock)
    {
      hide Step, Fsm.Apply, Add, FlatStore.Represents;
      var error := ApplySetJob(job, clock);
      if error.Some? {
        return Refused(error.value);
      }
      error := sched.AddJob(job);
      reply := if error.Some? then Refused(error.value) else Done;
    }

    method DeleteJob(name: string, clock: Clock) returns (reply: Reply)
      requires Valid()
      modifies store, sched
      ensures Valid() && Replied(View(), reply) == DeleteJobRequest(store.libs, old(View()), name, clock)
    {
      hide Step, Fsm.Apply, Drop, FlatStore.Represents;
      var res := store.Apply(DeleteJobMsg(name), clock);
      match res {
        case JobResponse(job) =>
          sched.RemoveJob(job.name);
          reply := JobDeleted;
        case Failed(error) => reply := Refused(error);
        case _ => reply := Done;
      }
    }

    method Run(name: string, outside: Outside) returns (reply: Reply)
      requires Valid()
      modifies this`runs, store
      ensures Valid() && Replied(View(), reply) == RunJob(store.libs, old(View()), name, outside)
    {
      hide Step, Fsm.Apply, Find, FlatStore.Represents;
      var job := store.GetJob(name);
      if job.None? {
        return Refused(NotFound);
      }
      if job.value.parentJob == "" {
        var ej := sched.GetEntryJob(name);
        if ej.None? {
          return Refused(NotFound);
        }
        var error := ApplySetJob(job.value.(next := outside.entryNext(name)), outside.clock);
        if error.Some? {
          return Refused(error.value);
        }
      }
      if !outside.dispatched(name) {
        return Refused(NoTargetNodes);
      }
      runs := runs + [name];
      return Done;
    }

    method RunDependentJobs(names: seq<string>, outside: Outside) returns (reply: Reply)
      requires Valid()
      modifies this`runs, store
      ensures Valid() && Replied(View(), reply) == RunAll(store.libs, old(View()), names, outside)
    {
      hide RunJob, Cleanup.Decide, FlatStore.Represents;
      for i := 0 to |names|
        invariant Valid() && RunAll(store.libs, old(View()), names, outside) ==
                  RunAll(store.libs, View(), names[i..], outside)
      {
        assert names[i..][1..] == names[i + 1..];
        var dj := store.GetJob(names[i]);
        if dj.None? {
          return Refused(NotFound);
        }
        var runnable := Cleanup.IsRunnable(store, dj.value, outside.around(names[i]));
        if runnable {
          var _ := Run(names[i], outside);
        }
      }
      return Done;
    }

    method ExecutionDone(e: Execution, outside: Outside) returns (reply: Reply)
      requires Valid()
      modifies this`runs, store, sched
      ensures Valid() && Replied(View(), reply) == ExecutionDoneRequest(store.libs, old(View()), e, outside)
    {
      hide Step, Fsm.Apply, RunJob, RunAll, DeleteJobRequest, FlatStore.Represents;
      var job := store.GetJob(e.jobName);
      if job.None? {
        return Refused(NotFound);
      }
      var _ := store.Apply(ExecutionDoneMsg(e), outside.clock);
      // The stored job may have changed.
      job := store.GetJob(e.jobName);
      if job.None? {
        return Refused(NotFound);
      }
      if !e.success && e.attempt < job.value.spec.retries + 1 {
        var execution := e.(attempt := e.attempt + 1, output := "");
        reply := Run(e.jobName, outside);
        if !reply.Refused? {
          reply := Retried(execution);
        }
        return;
      }
      if !outside.notified {
        return Refused(RaftApply);
      }
      reply := Done;
      RunNone(store.libs, View(), outside);
      if |job.value.dependentJobs| > 0 && job.value.status == STATUS_SUCCESS {
        reply := RunDependentJobs(job.value.dependentJobs, outside);
        if reply.Refused? {
          return;
        }
      }
      if job.value.spec.ephemeral && job.value.status == STATUS_SUCCESS {
        reply := DeleteJob(e.jobName, outside.clock);
      }
    }
  }
}
