/** What a report that an execution has finished leads to: which job runs next, and whether the job is deleted. */
module Reports {
  import opened Wrappers
  import opened Types
  import opened Keys
  import opened Commands
  import opened Fsm
  import opened References
  import opened Reachability
  import opened Executions
  import opened CronTable
  import opened Rpc
  import Cleanup

  // Jobs keep their references: no cleanup and no run changes a list of dependents or a definition.
  lemma {:induction false} SweepKeepsReferences(
    libs: Libs, s: State, list: seq<Execution>, active: set<string>, now: Time, applied: nat -> bool, clock: Clock,
    calls: nat)
    ensures var t := Cleanup.Sweep(libs, s, list, active, now, applied, clock, calls).state;
            AllSameReferences(s.jobs, t.jobs)
    decreases |list|
  {
    hide Step, Keys.Key, AllSameReferences, Cleanup.Failed;
    if list == [] {
      ReferencesStay(s.jobs);
    } else {
      SweepKeepsReferences(libs, s, list[1..], active, now, applied, clock, calls);
      SweepKeepsReferences(libs, s, list[1..], active, now, applied, clock, calls + 1);
      var x := Cleanup.Failed(list[0], now);
      var t := Step(libs, s, ExecutionDoneMsg(x), clock);
      ExecutionCommandsKeepReferences(libs, s, ExecutionDoneMsg(x), clock);
      SweepKeepsReferences(libs, t, list[1..], active, now, applied, clock, calls + 1);
      var u := Cleanup.Sweep(libs, t, list[1..], active, now, applied, clock, calls + 1).state;
      ReferencesTwice(s.jobs, t.jobs, u.jobs);
    }
  }

  lemma ReferencesStay(jobs: JobMap)
    ensures AllSameReferences(jobs, jobs)
  {
  }

  lemma ReferencesTwice(a: JobMap, b: JobMap, c: JobMap)
    requires AllSameReferences(a, b) && AllSameReferences(b, c)
    ensures AllSameReferences(a, c)
  {
    forall n | n in a ensures SameReferences(a[n], c[n]) {
      assert SameReferences(a[n], b[n]) && SameReferences(b[n], c[n]);
    }
  }

  /** A job that is asked to run is sent to nodes exactly when it may run and there is a node for it. */
  lemma AskedJobRunsIff(libs: Libs, l: Leader, name: string, outside: Outside)
    requires InStep(libs, l) && name in l.state.jobs
    ensures var t := AskToRun(libs, l, name, outside);
            var may := Cleanup.MayRun(libs, l.state, l.state.jobs[name], outside.around(name));
            && t.runs == l.runs + (if may && outside.dispatched(name) then [name] else [])
            && AllSameReferences(l.state.jobs, t.state.jobs)
  {
    hide InStep, RunJob, Cleanup.Sweep, Cleanup.IsActive, Cleanup.RunningOf, Cleanup.MayRun, SameReferences;
    var job, around := l.state.jobs[name], outside.around(name);
    var decision := Cleanup.Decide(libs, l.state, job, around);
    Cleanup.DecidesMayRun(libs, l.state, job, around);
    ReferencesStay(l.state.jobs);
    if around.active.Some? {
      var list, active := Cleanup.RunningOf(libs, l.state.executions, name), Cleanup.ActiveKeys(around.active.value);
      SweepStaysInStep(libs, l, list, active, around.atCleanup, around.applied, around.clock, 0);
      SweepKeepsReferences(libs, l.state, list, active, around.atCleanup, around.applied, around.clock, 0);
    }
    var cleaned := l.(state := decision.state);
    assert cleaned == l || around.active.Some?;
    if decision.runnable {
      RunnableIsEnabled(libs, l.state, job, around, cleaned.state.jobs);
      RunOfEnabled(libs, cleaned, name, outside);
      ReferencesTwice(l.state.jobs, cleaned.state.jobs, RunJob(libs, cleaned, name, outside).leader.state.jobs);
    }
  }

  // The turn of one dependent job.
  ghost predicate Turn(libs: Libs, before: Leader, name: string, outside: Outside, after: Leader) {
    && name in before.state.jobs
    && after.runs == before.runs +
       (if Cleanup.MayRun(libs, before.state, before.state.jobs[name], outside.around(name)) && outside.dispatched(name)
        then [name] else [])
    && AllSameReferences(before.state.jobs, after.state.jobs)
  }

  // The turns of the first dependent jobs, in the order of the list, until one of them is not stored.
  ghost predicate Turns(libs: Libs, names: seq<string>, outside: Outside, turns: seq<Leader>) {
    && 0 < |turns| <= |names| + 1
    && (forall i | 0 <= i < |turns| - 1 :: Turn(libs, turns[i], names[i], outside, turns[i + 1]))
    && (|turns| <= |names| ==> names[|turns| - 1] !in turns[0].state.jobs)
  }

  /** Dependent jobs are asked in the order of the list, each in the state that the ones before have left. */
  lemma {:induction false} DependentsTakeTurns(libs: Libs, l: Leader, names: seq<string>, outside: Outside)
    returns (turns: seq<Leader>)
    requires InStep(libs, l)
    ensures Turns(libs, names, outside, turns) && turns[0] == l
    ensures var last := turns[|turns| - 1];
            && AllSameReferences(l.state.jobs, last.state.jobs)
            && RunAll(libs, l, names, outside) ==
               Replied(last, if |turns| > |names| then Done else Refused(NotFound))
    decreases |names|
  {
    hide InStep, AskToRun, AllSameReferences, Cleanup.MayRun;
    ReferencesStay(l.state.jobs);
    if names == [] || names[0] !in l.state.jobs {
      turns := [l];
    } else {
      AskedJobRunsIff(libs, l, names[0], outside);
      AskToRunStaysInStep(libs, l, names[0], outside);
      var next := AskToRun(libs, l, names[0], outside);
      var rest := DependentsTakeTurns(libs, next, names[1..], outside);
      turns := [l] + rest;
      ReferencesTwice(l.state.jobs, next.state.jobs, rest[|rest| - 1].state.jobs);
      OneMoreTurn(libs, l, names, outside, rest);
    }
  }

  lemma OneMoreTurn(libs: Libs, l: Leader, names: seq<string>, outside: Outside, rest: seq<Leader>)
    requires names != [] && Turns(libs, names[1..], outside, rest) && Turn(libs, l, names[0], outside, rest[0])
    ensures Turns(libs, names, outside, [l] + rest)
  {
    var turns := [l] + rest;
    assert turns[0].state.jobs.Keys == turns[1].state.jobs.Keys;
    hide Turn;
    forall i | 0 <= i < |turns| - 1 ensures Turn(libs, turns[i], names[i], outside, turns[i + 1]) {
      if i > 0 { assert Turn(libs, rest[i - 1], names[1..][i - 1], outside, rest[i]); }
    }
  }

  lemma SameJobNames(jobs: JobMap, after: JobMap)
    requires AllSameReferences(jobs, after)
    ensures after.Keys == jobs.Keys
  {
  }

  lemma SameReferencesOf(jobs: JobMap, after: JobMap, name: string)
    requires AllSameReferences(jobs, after) && name in jobs
    ensures name in after && SameReferences(jobs[name], after[name])
  {
  }

  // The state after the report alone.
  function Reported(libs: Libs, l: Leader, e: Execution, outside: Outside): Leader {
    l.(state := Step(libs, l.state, ExecutionDoneMsg(e), outside.clock))
  }

  lemma ReportedKeeps(libs: Libs, l: Leader, e: Execution, outside: Outside)
    requires InStep(libs, l) && e.jobName in l.state.jobs
    ensures InStep(libs, Reported(libs, l, e, outside))
    ensures AllSameReferences(l.state.jobs, Reported(libs, l, e, outside).state.jobs)
    ensures e.jobName in Reported(libs, l, e, outside).state.jobs
    ensures SameReferences(l.state.jobs[e.jobName], Reported(libs, l, e, outside).state.jobs[e.jobName])
  {
    hide InStep, Step, SameReferences;
    ExecutionCommandStaysInStep(libs, l, ExecutionDoneMsg(e), outside.clock);
    ExecutionCommandsKeepReferences(libs, l.state, ExecutionDoneMsg(e), outside.clock);
  }

  /** A failed execution whose attempt is within the retries of its job is run again, and nothing else is: it is sent
      exactly when its job is scheduled or a child, and there is a node for it. */
  lemma ReportRetries(libs: Libs, l: Leader, e: Execution, outside: Outside)
    requires InStep(libs, l) && e.jobName in l.state.jobs
    requires !e.success && e.attempt <= l.state.jobs[e.jobName].spec.retries
    ensures var job, r := l.state.jobs[e.jobName], ExecutionDoneRequest(libs, l, e, outside);
            && (if job.spec.disabled && job.parentJob == "" then r.reply == Refused(NotFound)
                else if !outside.dispatched(e.jobName) then r.reply == Refused(NoTargetNodes)
                else r.reply == Retried(e.(attempt := e.attempt + 1, output := "")))
            && r.leader.runs == l.runs + (if r.reply.Retried? then [e.jobName] else [])
            && r.leader.state.jobs.Keys == l.state.jobs.Keys
  {
    hide InStep, Reported, ExecutionDoneRequest, RunJob;
    ReportedKeeps(libs, l, e, outside);
    var t := Reported(libs, l, e, outside);
    assert t.runs == l.runs by { ReportedRuns(libs, l, e, outside); }
    RetryIsRun(libs, l, e, outside);
    RunJobStaysInStep(libs, t, e.jobName, outside);
    RunJobReply(libs, t, e.jobName, outside);
  }

  lemma ReportedRuns(libs: Libs, l: Leader, e: Execution, outside: Outside)
    ensures Reported(libs, l, e, outside).runs == l.runs
  {
  }

  lemma RetryIsRun(libs: Libs, l: Leader, e: Execution, outside: Outside)
    requires e.jobName in l.state.jobs && e.jobName in Reported(libs, l, e, outside).state.jobs
    requires !e.success && e.attempt <= Reported(libs, l, e, outside).state.jobs[e.jobName].spec.retries
    ensures var ran := RunJob(libs, Reported(libs, l, e, outside), e.jobName, outside);
            ExecutionDoneRequest(libs, l, e, outside) ==
              if ran.reply.Refused? then ran
              else Replied(ran.leader, Retried(e.(attempt := e.attempt + 1, output := "")))
  {
    hide Step, RunJob, RunAll, DeleteJobRequest;
  }

  lemma RunJobReply(libs: Libs, l: Leader, name: string, outside: Outside)
    requires InStep(libs, l) && name in l.state.jobs
    ensures var job, r := l.state.jobs[name], RunJob(libs, l, name, outside);
            && r.reply == (if job.spec.disabled && job.parentJob == "" then Refused(NotFound)
                           else if !outside.dispatched(name) then Refused(NoTargetNodes)
                           else Done)
            && r.leader.runs == l.runs + (if r.reply == Done then [name] else [])
  {
    hide InStep, RunJob;
    RunJobStoresNext(libs, l, name, outside);
  }

  /** Without notifications, or when the status of the job is another one than success, a report that asks for no
      retry is stored, and nothing runs. */
  lemma ReportRunsNothing(libs: Libs, l: Leader, e: Execution, outside: Outside)
    requires InStep(libs, l) && e.jobName in l.state.jobs
    requires e.success || e.attempt > l.state.jobs[e.jobName].spec.retries
    requires outside.notified ==>
               Stored(Step(libs, l.state, ExecutionDoneMsg(e), outside.clock), e.jobName).status != "success"
    ensures ExecutionDoneRequest(libs, l, e, outside) ==
            Replied(l.(state := Step(libs, l.state, ExecutionDoneMsg(e), outside.clock)),
                    if outside.notified then Done else Refused(RaftApply))
  {
    hide InStep, Step, RunJob, RunAll, DeleteJobRequest;
    ReportedKeeps(libs, l, e, outside);
  }

  /** When the status of the job is success and its report asks for no retry, its dependent jobs take their turns, in
      the order of the list and until one of them is not stored; an ephemeral job is deleted behind them, which it is
      only without dependents. */
  lemma ReportRunsDependents(libs: Libs, l: Leader, e: Execution, outside: Outside) returns (turns: seq<Leader>)
    requires InStep(libs, l) && e.jobName in l.state.jobs && outside.notified
    requires e.success || e.attempt > l.state.jobs[e.jobName].spec.retries
    requires Stored(Step(libs, l.state, ExecutionDoneMsg(e), outside.clock), e.jobName).status == "success"
    ensures var job, r := l.state.jobs[e.jobName], ExecutionDoneRequest(libs, l, e, outside);
            && Turns(libs, job.dependentJobs, outside, turns)
            && turns[0] == l.(state := Step(libs, l.state, ExecutionDoneMsg(e), outside.clock))
            && var last := turns[|turns| - 1];
            && r.leader.runs == last.runs
            && (|turns| <= |job.dependentJobs| ==> r == Replied(last, Refused(NotFound)))
            && (|turns| > |job.dependentJobs| ==>
                  if !job.spec.ephemeral then r == Replied(last, Done)
                  else if job.dependentJobs != [] then r == Replied(last, Refused(DependentJobs))
                  else r.reply == JobDeleted && r.leader.state.jobs.Keys == l.state.jobs.Keys - {e.jobName})
  {
    hide InStep, Step, RunJob, RunAll, DeleteJobRequest, Turns, AllSameReferences;
    ReportedKeeps(libs, l, e, outside);
    var t, names := Reported(libs, l, e, outside), l.state.jobs[e.jobName].dependentJobs;
    turns := DependentsTakeTurns(libs, t, names, outside);
    TurnsBound(libs, names, outside, turns);
    RunAllStaysInStep(libs, t, names, outside);
    var last := turns[|turns| - 1];
    SameJobNames(l.state.jobs, t.state.jobs);
    SameJobNames(t.state.jobs, last.state.jobs);
    SameReferencesOf(t.state.jobs, last.state.jobs, e.jobName);
    DeleteJobStaysInStep(libs, last, e.jobName, outside.clock);
  }

  /** That holds of every report: one that is late or repeated, and is not counted, asks the dependent jobs again. */
  lemma UncountedReportRunsDependents(libs: Libs, l: Leader, e: Execution, outside: Outside)
    returns (turns: seq<Leader>)
    requires InStep(libs, l) && e.jobName in l.state.jobs && outside.notified && !Counts(l.state, e)
    requires e.success || e.attempt > l.state.jobs[e.jobName].spec.retries
    requires l.state.jobs[e.jobName].status == "success"
    ensures Turns(libs, l.state.jobs[e.jobName].dependentJobs, outside, turns)
    ensures turns[0].state.jobs == l.state.jobs && turns[0].runs == l.runs
    ensures ExecutionDoneRequest(libs, l, e, outside).leader.runs == turns[|turns| - 1].runs
  {
    hide InStep, ExecutionDoneRequest, Turns, Counts, SetExecutionDone;
    DoneJobs(libs, l.state, e);
    turns := ReportRunsDependents(libs, l, e, outside);
    TurnsBound(libs, l.state.jobs[e.jobName].dependentJobs, outside, turns);
  }

  lemma TurnsBound(libs: Libs, names: seq<string>, outside: Outside, turns: seq<Leader>)
    requires Turns(libs, names, outside, turns)
    ensures 0 < |turns| <= |names| + 1
  {
  }

  /** A report deletes its job exactly when it asks for no retry, notifications are sent, the status is success, and
      the job is ephemeral and has no dependents. */
  lemma ReportDeletesIff(libs: Libs, l: Leader, e: Execution, outside: Outside)
    requires InStep(libs, l) && e.jobName in l.state.jobs
    ensures var job := l.state.jobs[e.jobName];
            e.jobName !in ExecutionDoneRequest(libs, l, e, outside).leader.state.jobs <==>
            && (e.success || e.attempt > job.spec.retries) && outside.notified
            && Stored(Step(libs, l.state, ExecutionDoneMsg(e), outside.clock), e.jobName).status == "success"
            && job.spec.ephemeral && job.dependentJobs == []
  {
    hide InStep, Step, ExecutionDoneRequest, Turns, AllSameReferences, Turn;
    var job := l.state.jobs[e.jobName];
    ReportedKeeps(libs, l, e, outside);
    SameJobNames(l.state.jobs, Reported(libs, l, e, outside).state.jobs);
    if !e.success && e.attempt <= job.spec.retries {
      ReportRetries(libs, l, e, outside);
    } else if !outside.notified || Stored(Reported(libs, l, e, outside).state, e.jobName).status != "success" {
      ReportRunsNothing(libs, l, e, outside);
    } else {
      var turns := ReportRunsDependents(libs, l, e, outside);
      TurnsKeepJobs(libs, job.dependentJobs, outside, turns);
    }
  }

  lemma TurnsKeepJobs(libs: Libs, names: seq<string>, outside: Outside, turns: seq<Leader>)
    requires Turns(libs, names, outside, turns)
    ensures 0 < |turns| <= |names| + 1 && turns[|turns| - 1].state.jobs.Keys == turns[0].state.jobs.Keys
  {
    hide Cleanup.MayRun, SameReferences;
    var i := 0;
    while i < |turns| - 1
      invariant 0 <= i < |turns| && turns[i].state.jobs.Keys == turns[0].state.jobs.Keys
    {
      assert Turn(libs, turns[i], names[i], outside, turns[i + 1]);
      i := i + 1;
    }
  }

  lemma RunnableIsEnabled(libs: Libs, s: State, job: Job, around: Cleanup.Surroundings, after: JobMap)
    requires Cleanup.MayRun(libs, s, job, around) && AllSameReferences(s.jobs, after)
    ensures job.name in s.jobs && s.jobs[job.name] == job ==> !after[job.name].spec.disabled
  {
  }

  lemma RunOfEnabled(libs: Libs, l: Leader, name: string, outside: Outside)
    requires InStep(libs, l) && name in l.state.jobs && !l.state.jobs[name].spec.disabled
    ensures var r := RunJob(libs, l, name, outside);
            && r.leader.runs == l.runs + (if outside.dispatched(name) then [name] else [])
            && r.reply == (if outside.dispatched(name) then Done else Refused(NoTargetNodes))
            && AllSameReferences(l.state.jobs, r.leader.state.jobs)
  {
    hide InStep, RunJob;
    RunJobStoresNext(libs, l, name, outside);
  }

  // ---- The dependent jobs that run ----

  /** The dependent jobs that run after a success, by the state that the report leaves: those that may run and have a
      node, in the order of the list, up to the first that is not stored. */
  ghost function Sent(libs: Libs, s: State, names: seq<string>, outside: Outside): seq<string> {
    if names == [] || names[0] !in s.jobs then []
    else
      (if Cleanup.MayRun(libs, s, s.jobs[names[0]], outside.around(names[0])) && outside.dispatched(names[0])
       then [names[0]] else [])
      + Sent(libs, s, names[1..], outside)
  }

  // The records of the job are the same in both.
  ghost predicate SameRecords(executions: ExecMap, after: ExecMap, name: string) {
    && PlainNames(executions) && PlainNames(after)
    && RecordsOf(after, name) == RecordsOf(executions, name)
    && forall k | k in RecordsOf(executions, name) :: after[k] == executions[k]
  }

  lemma SameRecordsTwice(a: ExecMap, b: ExecMap, c: ExecMap, name: string)
    requires SameRecords(a, b, name) && SameRecords(b, c, name)
    ensures SameRecords(a, c, name)
  {
    hide ExecKey, NoColon;
  }

  lemma SameRecordsRefl(executions: ExecMap, name: string)
    requires PlainNames(executions)
    ensures SameRecords(executions, executions, name)
  {
    hide ExecKey, NoColon;
  }

  /** What is listed of a job depends on its own records alone. */
  lemma SameRecordsSameListing(libs: Libs, executions: ExecMap, after: ExecMap, name: string)
    requires libs.AscendLaw() && SameRecords(executions, after, name) && NoColon(name)
    ensures GetExecutions(libs, after, name) == GetExecutions(libs, executions, name)
  {
    hide ExecKey, NoColon, Lists;
    ListedAreRecords(executions, name);
    ListedAreRecords(after, name);
    var keys := libs.ascend(Listed(executions, name));
    AscendsOnce(libs, Listed(executions, name));
    RecordsAt(executions, keys);
    RecordsAt(after, keys);
    assert GetExecutions(libs, after, name) == Records(after, keys);
    assert GetExecutions(libs, executions, name) == Records(executions, keys);
  }

  // A report for another job.
  lemma ReportSparesOthers(libs: Libs, s: State, x: Execution, clock: Clock, name: string)
    requires PlainNames(s.executions) && NoColon(x.jobName) && x.jobName != name
    ensures SameRecords(s.executions, Step(libs, s, ExecutionDoneMsg(x), clock).executions, name)
  {
    DoneExecutions(libs, s, x);
    hide ExecKey, NoColon, SetExecutionDone, SameRecords, PutExecution;
    SameRecordsRefl(s.executions, name);
    PutSparesOthers(s.executions, x, name);
  }

  lemma PutSparesOthers(executions: ExecMap, x: Execution, name: string)
    requires PlainNames(executions) && NoColon(x.jobName) && x.jobName != name
    ensures SameRecords(executions, PutExecution(executions, x), name)
  {
    hide ExecKey, NoColon, Supersedes;
    PutKeepsPlainNames(executions, x);
    PutKeepsOthers(executions, x);
    var k := ExecKey(x);
    if k in executions && executions[k].jobName == name {
      OtherKey(executions[k], x);
    }
  }

  lemma OtherKey(d: Execution, e: Execution)
    requires NoColon(d.jobName) && NoColon(e.jobName) && d.jobName != e.jobName
    ensures ExecKey(d) != ExecKey(e)
  {
    ExecKeyInjective(d, e);
  }

  lemma {:induction false} SweepSparesOthers(
    libs: Libs, s: State, list: seq<Execution>, active: set<string>, now: Time, applied: nat -> bool, clock: Clock,
    calls: nat, name: string)
    requires PlainNames(s.executions) && forall x | x in list :: NoColon(x.jobName) && x.jobName != name
    ensures var t := Cleanup.Sweep(libs, s, list, active, now, applied, clock, calls).state;
            SameRecords(s.executions, t.executions, name)
    decreases |list|
  {
    hide Step, Keys.Key, ExecKey, NoColon, SameRecords, PlainNames;
    if list == [] {
      SameRecordsRefl(s.executions, name);
    } else {
      assert forall x | x in list[1..] :: x in list;
      SweepSparesOthers(libs, s, list[1..], active, now, applied, clock, calls, name);
      SweepSparesOthers(libs, s, list[1..], active, now, applied, clock, calls + 1, name);
      var x := Cleanup.Failed(list[0], now);
      var t := Step(libs, s, ExecutionDoneMsg(x), clock);
      ReportSparesOthers(libs, s, x, clock, name);
      SameRecordsPlain(s.executions, t.executions, name);
      SweepSparesOthers(libs, t, list[1..], active, now, applied, clock, calls + 1, name);
      var u := Cleanup.Sweep(libs, t, list[1..], active, now, applied, clock, calls + 1).state;
      SameRecordsTwice(s.executions, t.executions, u.executions, name);
    }
  }

  lemma SameRecordsPlain(executions: ExecMap, after: ExecMap, name: string)
    requires SameRecords(executions, after, name)
    ensures PlainNames(after)
  {
  }

  lemma StoredNameIsPlain(libs: Libs, s: State, name: string)
    requires Consistent(libs, s) && name in s.jobs
    ensures NoColon(name)
  {
    hide IsSlug, NoColon;
    assert Validate(libs, s.jobs[name]).None?;
    SlugHasNoColon(libs, name);
  }

  lemma RunKeepsExecutions(libs: Libs, l: Leader, name: string, outside: Outside)
    ensures RunJob(libs, l, name, outside).leader.state.executions == l.state.executions
  {
    hide SetJob, Find;
    if name in l.state.jobs {
      SetJobKeepsExecutions(libs, l.state, l.state.jobs[name].(next := outside.entryNext(name)), true, outside.clock);
    }
  }

  /** The turn of one job changes no record of another one. */
  lemma TurnSparesOthers(libs: Libs, l: Leader, d: string, outside: Outside, name: string)
    requires InStep(libs, l) && libs.Lawful() && d in l.state.jobs && PlainNames(l.state.executions) && name != d
    ensures SameRecords(l.state.executions, AskToRun(libs, l, d, outside).state.executions, name)
  {
    StoredNameIsPlain(libs, l.state, d);
    hide InStep, RunJob, Cleanup.Sweep, Cleanup.IsActive, Cleanup.IsDue, Cleanup.RunningOf, ExecKey, NoColon,
         PlainNames, SameRecords, Lists, Libs.Lawful;
    var job, around := l.state.jobs[d], outside.around(d);
    SameRecordsRefl(l.state.executions, name);
    var decision := Cleanup.Decide(libs, l.state, job, around);
    RunKeepsExecutions(libs, l.(state := decision.state), d, outside);
    if around.active.Some? {
      var list := Cleanup.RunningOf(libs, l.state.executions, d);
      RunningAreOwn(libs, l.state.executions, d);
      SweepSparesOthers(libs, l.state, list, Cleanup.ActiveKeys(around.active.value), around.atCleanup, around.applied,
                        around.clock, 0, name);
    }
  }

  lemma RunningAreOwn(libs: Libs, executions: ExecMap, name: string)
    requires libs.Lawful() && PlainNames(executions) && NoColon(name)
    ensures forall x | x in Cleanup.RunningOf(libs, executions, name) :: x.jobName == name
  {
    hide ExecKey, NoColon, GetExecutions, Lists;
    ListingHolds(libs, executions, name);
    Cleanup.RunningSublist(GetExecutions(libs, executions, name));
    ListedAreRecords(executions, name);
  }

  /** Whether a job may run does not change with the turn of another one. */
  lemma TurnKeepsOthers(libs: Libs, l: Leader, d: string, outside: Outside, name: string)
    requires InStep(libs, l) && libs.Lawful() && PlainNames(l.state.executions)
    requires d in l.state.jobs && name in l.state.jobs && name != d
    ensures var t := AskToRun(libs, l, d, outside);
            && name in t.state.jobs
            && Cleanup.MayRun(libs, t.state, t.state.jobs[name], outside.around(name)) ==
               Cleanup.MayRun(libs, l.state, l.state.jobs[name], outside.around(name))
  {
    var t := AskToRun(libs, l, d, outside);
    StoredNameIsPlain(libs, l.state, name);
    hide InStep, AskToRun, Cleanup.AllCleared, Cleanup.ActiveKeys, GetExecutions, SameRecords, NoColon, PlainNames;
    AskedJobRunsIff(libs, l, d, outside);
    SameReferencesOf(l.state.jobs, t.state.jobs, name);
    TurnSparesOthers(libs, l, d, outside, name);
    SameRecordsSameListing(libs, l.state.executions, t.state.executions, name);
  }

  lemma {:induction false} SentIsSame(libs: Libs, s: State, t: State, names: seq<string>, outside: Outside)
    requires t.jobs.Keys == s.jobs.Keys
    requires forall n | n in names && n in s.jobs ::
               Cleanup.MayRun(libs, t, t.jobs[n], outside.around(n)) ==
               Cleanup.MayRun(libs, s, s.jobs[n], outside.around(n))
    ensures Sent(libs, t, names, outside) == Sent(libs, s, names, outside)
  {
    hide Cleanup.MayRun;
    if names != [] {
      assert names[0] in names && forall n | n in names[1..] :: n in names;
      if names[0] in s.jobs { SentIsSame(libs, s, t, names[1..], outside); }
    }
  }

  /** For a list that names no job twice, the dependent jobs that run are those that may run when the report has been
      stored, in the order of the list. */
  lemma {:induction false} DependentsThatRun(libs: Libs, l: Leader, names: seq<string>, outside: Outside)
    requires InStep(libs, l) && libs.Lawful() && PlainNames(l.state.executions) && Distinct(names)
    ensures RunAll(libs, l, names, outside).leader.runs == l.runs + Sent(libs, l.state, names, outside)
    decreases |names|
  {
    hide InStep, AskToRun, Cleanup.MayRun, PlainNames, Distinct, Libs.Lawful;
    if names != [] && names[0] in l.state.jobs {
      FirstTurn(libs, l, names, outside);
      DependentsThatRun(libs, AskToRun(libs, l, names[0], outside), names[1..], outside);
    }
  }

  // After the first turn, the others run as they would have before.
  lemma FirstTurn(libs: Libs, l: Leader, names: seq<string>, outside: Outside)
    requires InStep(libs, l) && libs.Lawful() && PlainNames(l.state.executions) && Distinct(names)
    requires names != [] && names[0] in l.state.jobs
    ensures var t := AskToRun(libs, l, names[0], outside);
            var may := Cleanup.MayRun(libs, l.state, l.state.jobs[names[0]], outside.around(names[0]));
            && InStep(libs, t) && PlainNames(t.state.executions) && Distinct(names[1..])
            && t.runs == l.runs + (if may && outside.dispatched(names[0]) then [names[0]] else [])
            && Sent(libs, t.state, names[1..], outside) == Sent(libs, l.state, names[1..], outside)
  {
    hide InStep, AskToRun, Cleanup.MayRun, PlainNames, SameRecords, Libs.Lawful, AllSameReferences, Sent;
    var d, rest := names[0], names[1..];
    var t := AskToRun(libs, l, d, outside);
    AskedJobRunsIff(libs, l, d, outside);
    AskToRunStaysInStep(libs, l, d, outside);
    SameJobNames(l.state.jobs, t.state.jobs);
    assert |d + "-"| != |d|;
    TurnSparesOthers(libs, l, d, outside, d + "-");
    SameRecordsPlain(l.state.executions, t.state.executions, d + "-");
    forall n | n in rest && n in l.state.jobs
      ensures Cleanup.MayRun(libs, t.state, t.state.jobs[n], outside.around(n)) ==
              Cleanup.MayRun(libs, l.state, l.state.jobs[n], outside.around(n))
    {
      TurnKeepsOthers(libs, l, d, outside, n);
    }
    SentIsSame(libs, l.state, t.state, rest, outside);
  }

  /** After a success the dependent jobs that may run are sent to nodes, each once and in the order of the list. */
  lemma ReportSendsDependents(libs: Libs, l: Leader, e: Execution, outside: Outside)
    requires InStep(libs, l) && e.jobName in l.state.jobs && outside.notified && libs.Lawful()
    requires e.success || e.attempt > l.state.jobs[e.jobName].spec.retries
    requires Stored(Step(libs, l.state, ExecutionDoneMsg(e), outside.clock), e.jobName).status == "success"
    requires PlainNames(l.state.executions) && Distinct(l.state.jobs[e.jobName].dependentJobs)
    ensures ExecutionDoneRequest(libs, l, e, outside).leader.runs ==
            l.runs + Sent(libs, Step(libs, l.state, ExecutionDoneMsg(e), outside.clock),
                          l.state.jobs[e.jobName].dependentJobs, outside)
  {
    StoredNameIsPlain(libs, l.state, e.jobName);
    hide InStep, Step, RunJob, RunAll, ExecutionDoneRequest, Turns, Sent, PlainNames, Distinct;
    ReportedKeeps(libs, l, e, outside);
    var t, names := Reported(libs, l, e, outside), l.state.jobs[e.jobName].dependentJobs;
    ReportKeepsPlainNames(libs, l.state, e, outside.clock);
    DependentsThatRun(libs, t, names, outside);
    SuccessRuns(libs, l, e, outside);
    var r := RunAll(libs, t, names, outside);
    RunAllStaysInStep(libs, t, names, outside);
    DeleteJobStaysInStep(libs, r.leader, e.jobName, outside.clock);
  }

  lemma ReportKeepsPlainNames(libs: Libs, s: State, e: Execution, clock: Clock)
    requires PlainNames(s.executions) && NoColon(e.jobName)
    ensures PlainNames(Step(libs, s, ExecutionDoneMsg(e), clock).executions)
  {
    hide PlainNames, NoColon, SetExecutionDone, PutExecution;
    DoneExecutions(libs, s, e);
    PutKeepsPlainNames(s.executions, e);
  }

  lemma SuccessRuns(libs: Libs, l: Leader, e: Execution, outside: Outside)
    requires e.jobName in l.state.jobs && outside.notified
    requires var t := Reported(libs, l, e, outside).state;
             && e.jobName in t.jobs && t.jobs[e.jobName].status == "success"
             && SameReferences(l.state.jobs[e.jobName], t.jobs[e.jobName])
    requires e.success || e.attempt > l.state.jobs[e.jobName].spec.retries
    ensures var ran := RunAll(libs, Reported(libs, l, e, outside), l.state.jobs[e.jobName].dependentJobs, outside);
            ExecutionDoneRequest(libs, l, e, outside) ==
              if ran.reply.Done? && l.state.jobs[e.jobName].spec.ephemeral then
                DeleteJobRequest(libs, ran.leader, e.jobName, outside.clock)
              else ran
  {
    hide Step, RunJob, RunAll, DeleteJobRequest;
    OnlyRetriesRetry(libs, outside);
    RunAllAnswers(libs, Reported(libs, l, e, outside), l.state.jobs[e.jobName].dependentJobs, outside);
  }

  lemma {:induction false} RunAllAnswers(libs: Libs, l: Leader, names: seq<string>, outside: Outside)
    ensures var reply := RunAll(libs, l, names, outside).reply; reply.Done? || reply.Refused?
    decreases |names|
  {
    hide AskToRun;
    if names != [] && names[0] in l.state.jobs {
      RunAllAnswers(libs, AskToRun(libs, l, names[0], outside), names[1..], outside);
    }
  }
}
