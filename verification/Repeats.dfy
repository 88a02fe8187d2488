/** Reports that come again: when exactly a report that was counted is counted a second time. */
module Repeats {
  import opened Wrappers
  import opened Types
  import opened Keys
  import opened Commands
  import opened Fsm
  import opened References
  import opened Reachability
  import opened Executions

  /** When the last run of a kind finished. */
  function LastResult(job: Job, success: bool): Option<Time> {
    if success then job.lastSuccess else job.lastError
  }

  predicate Counted(libs: Libs, s: State, e: Execution) {
    SetExecutionDone(libs, s, e).counted
  }

  // The state after a report.
  function Done(libs: Libs, s: State, e: Execution): State {
    SetExecutionDone(libs, s, e).state
  }

  lemma CountedIff(libs: Libs, s: State, e: Execution)
    ensures Counted(libs, s, e) <==> Counts(s, e)
  {
    hide ExecKey, ComputeStatus, PutExecution, IncrementStat;
  }

  /** What a report changes in the records and in the last results. */
  lemma DoneEffect(libs: Libs, s: State, e: Execution)
    ensures var t := Done(libs, s, e);
            && t.jobs.Keys == s.jobs.Keys
            && t.executions == (if e.jobName in s.jobs then PutExecution(s.executions, e) else s.executions)
            && (Counted(libs, s, e) ==> e.jobName in s.jobs && t.executions == s.executions[ExecKey(e) := e])
            && forall n, success | n in s.jobs ::
                 LastResult(t.jobs[n], success) ==
                   if Counted(libs, s, e) && n == e.jobName && success == e.success then Some(e.finishedAt)
                   else LastResult(s.jobs[n], success)
  {
    hide ExecKey, SetExecutionDone, ComputeStatus, ShouldCount, Wrap32;
    CountedIff(libs, s, e);
    DoneJobs(libs, s, e);
    DoneExecutions(libs, s, e);
  }

  // A record with the result that the report brings.
  predicate SameResult(r: Execution, e: Execution) {
    r.finishedAt == e.finishedAt && r.success == e.success
  }

  /** A report counts unless its job is gone, a later record is stored, or the record has its result already and the
      job's last result of the kind is this one. */
  lemma CountsIff(s: State, e: Execution)
    ensures Counts(s, e) <==>
            && e.jobName in s.jobs
            && (ExecKey(e) in s.executions ==>
                  var r := s.executions[ExecKey(e)];
                  && r.finishedAt <= e.finishedAt
                  && (SameResult(r, e) ==> LastResult(s.jobs[e.jobName], e.success) != Some(e.finishedAt)))
  {
    hide ExecKey;
  }

  /** After a counted report and one of another execution, the first is counted again exactly when the other was
      counted for the same job and kind, and finished at another time. */
  lemma RepeatCountedIff(libs: Libs, s: State, e: Execution, f: Execution)
    ensures var t := Done(libs, s, e);
            Counted(libs, s, e) && ExecKey(e) != ExecKey(f) ==>
              (Counted(libs, Done(libs, t, f), e) <==>
               Counted(libs, t, f) && f.jobName == e.jobName && f.success == e.success && f.finishedAt != e.finishedAt)
  {
    hide ExecKey, Done, Counted, Counts, LastResult;
    var t := Done(libs, s, e);
    var u := Done(libs, t, f);
    DoneEffect(libs, s, e);
    DoneEffect(libs, t, f);
    CountedIff(libs, u, e);
    CountsIff(u, e);
  }

  // ---- A whole log between the two reports ----

  /** What a command assigns to the last result of a job, if it assigns anything. */
  function Assigned(libs: Libs, s: State, c: Command, name: string, success: bool): Option<Option<Time>> {
    match c
    case SetJobMsg(job) =>
      var brought := LastResult(job, success);
      if job.name != name || !Accepted(libs, s, job) then None
      else if name in s.jobs && After(LastResult(s.jobs[name], success), brought) then None
      else Some(brought)
    case DeleteExecutionsMsg(n) => if n == name then Some(None) else None
    case ExecutionDoneMsg(e) =>
      if Counts(s, e) && e.jobName == name && e.success == success then Some(Some(e.finishedAt)) else None
    case _ => None
  }

  /** The last result that a log assigns, or the one before it. */
  function LastAssigned(
    libs: Libs, s: State, log: seq<Entry>, name: string, success: bool, before: Option<Time>
  ): Option<Time>
    decreases |log|
  {
    if log == [] then before
    else
      var brings := Assigned(libs, s, log[0].command, name, success);
      LastAssigned(libs, Step(libs, s, log[0].command, log[0].clock), log[1..], name, success,
                   if brings.Some? then brings.value else before)
  }

  lemma SetJobAssigns(libs: Libs, s: State, job: Job, clock: Clock, name: string, success: bool)
    requires Consistent(libs, s) && Accepted(libs, s, job)
    ensures var t, brings := SetJob(libs, s, job, true, clock).state, Assigned(libs, s, SetJobMsg(job), name, success);
            name in t.jobs ==>
              && (brings.None? ==> name in s.jobs)
              && LastResult(t.jobs[name], success) == if brings.Some? then brings.value
                 else LastResult(s.jobs[name], success)
  {
    hide SetJob, Accepted, AllValid, Replaced, NewVersion, ExecKey, Validate;
    SetJobEffect(libs, s, job, true, clock);
    var version, oldParent := NewVersion(libs, s, job, true, clock), Stored(s, job.name).parentJob;
    VersionKeeps(libs, s, job, true, clock);
    ReplacedKeepsRest(s.jobs, version, oldParent);
    var after := Replaced(s.jobs, version, oldParent);
    if job.name in s.jobs { assert Linked(s.jobs, job.name); }
    VersionAssigns(libs, s, job, clock, success);
    if name in after {
      assert after[name] == s.jobs[version.name := version][name].(dependentJobs := after[name].dependentJobs);
    }
  }

  lemma VersionAssigns(libs: Libs, s: State, job: Job, clock: Clock, success: bool)
    requires job.name in s.jobs ==> job.name != ""
    ensures var last := LastResult(NewVersion(libs, s, job, true, clock), success);
            last == if job.name in s.jobs && After(LastResult(s.jobs[job.name], success), LastResult(job, success))
                    then LastResult(s.jobs[job.name], success) else LastResult(job, success)
  {
    hide NextRun, ExecKey;
  }

  lemma DeleteJobAssigns(libs: Libs, s: State, name: string, clock: Clock, n: string, success: bool)
    requires Consistent(libs, s)
    ensures var t := DeleteJob(libs, s, name, clock).state;
            n in t.jobs ==> n in s.jobs && LastResult(t.jobs[n], success) == LastResult(s.jobs[n], success)
  {
    hide DeleteJob, DeleteScan, Unlink, ExecKey, Consistent;
    DeleteJobEffect(libs, s, name, clock);
    if Deletable(s, name) {
      UnlinkEffect(s.jobs - {name}, s.jobs[name].parentJob, name);
      var rest: JobMap := s.jobs - {name};
      if n in Deleted(s.jobs, name) { assert n in rest; }
    }
  }

  lemma StepAssigns(libs: Libs, s: State, c: Command, clock: Clock, name: string, success: bool)
    requires Consistent(libs, s)
    ensures var t, brings := Step(libs, s, c, clock), Assigned(libs, s, c, name, success);
            name in t.jobs ==>
              && (brings.None? ==> name in s.jobs)
              && LastResult(t.jobs[name], success) == if brings.Some? then brings.value
                 else LastResult(s.jobs[name], success)
  {
    hide SetJob, DeleteJob, Consistent, Accepted, Counts, Overflow, DeleteScan, PutExecution, ExecKey;
    match c {
      case SetJobMsg(job) =>
        SetJobEffect(libs, s, job, true, clock);
        if Accepted(libs, s, job) { SetJobAssigns(libs, s, job, clock, name, success); }
      case DeleteJobMsg(n) => DeleteJobAssigns(libs, s, n, clock, name, success);
      case ExecutionDoneMsg(e) =>
        DoneEffect(libs, s, e);
        CountedIff(libs, s, e);
      case _ =>
    }
  }

  /** Over every log, the last result of a job is what the last command that assigned it brought. */
  lemma {:induction false} RunAssigns(
    libs: Libs, s: State, log: seq<Entry>, name: string, success: bool, before: Option<Time>)
    requires Consistent(libs, s) && (name in s.jobs ==> LastResult(s.jobs[name], success) == before)
    ensures var u := Run(libs, s, log);
            name in u.jobs ==> LastResult(u.jobs[name], success) == LastAssigned(libs, s, log, name, success, before)
    decreases |log|
  {
    hide Step, Consistent, LastResult, Assigned;
    if log != [] {
      var c, clock := log[0].command, log[0].clock;
      StepAssigns(libs, s, c, clock, name, success);
      StepStaysConsistent(libs, s, c, clock);
      var brings := Assigned(libs, s, c, name, success);
      RunAssigns(libs, Step(libs, s, c, clock), log[1..], name, success, if brings.Some? then brings.value else before);
    }
  }

  /** A counted report that comes again after any log is counted again exactly when its job is still stored and its
      record was deleted or evicted, or has another result that is no later, or is the same while the last command that
      assigned the job's last result of the kind brought another time. */
  lemma RepeatAfterLogIff(libs: Libs, s: State, e: Execution, log: seq<Entry>)
    requires Consistent(libs, s)
    ensures var t := Done(libs, s, e);
            var u := Run(libs, t, log);
            Counted(libs, s, e) ==>
              (Counted(libs, u, e) <==>
               && e.jobName in u.jobs
               && (ExecKey(e) in u.executions ==>
                     var r := u.executions[ExecKey(e)];
                     && r.finishedAt <= e.finishedAt
                     && (SameResult(r, e) ==>
                           LastAssigned(libs, t, log, e.jobName, e.success, Some(e.finishedAt)) != Some(e.finishedAt))))
  {
    hide ExecKey, Run, Counts, Counted, LastResult, LastAssigned, SetExecutionDone, Consistent, SameResult;
    var t := Done(libs, s, e);
    var u := Run(libs, t, log);
    DoneEffect(libs, s, e);
    StepStaysConsistent(libs, s, ExecutionDoneMsg(e), Clock(EPOCH, EPOCH));
    CountedIff(libs, u, e);
    CountsIff(u, e);
    if Counted(libs, s, e) {
      RunAssigns(libs, t, log, e.jobName, e.success, Some(e.finishedAt));
    }
  }

  // Whatever is written under the key of `e` finishes earlier, or has the result of `e`.
  ghost predicate NoOtherResult(log: seq<Entry>, e: Execution) {
    forall x | x in WritesOf(log) && ExecKey(x) == ExecKey(e) :: x.finishedAt < e.finishedAt || SameResult(x, e)
  }

  lemma NoOtherResultTail(log: seq<Entry>, e: Execution)
    requires log != [] && NoOtherResult(log, e)
    ensures NoOtherResult(log[1..], e)
    ensures forall x | x in WriteOf(log[0].command) && ExecKey(x) == ExecKey(e) ::
            x.finishedAt < e.finishedAt || SameResult(x, e)
  {
    hide ExecKey, SameResult;
  }

  // The record of a key that stays stored is what it was, or what the command wrote.
  lemma StepKeepsRecord(libs: Libs, s: State, c: Command, clock: Clock, k: string)
    requires k in s.executions && k in Step(libs, s, c, clock).executions
    ensures var r := Step(libs, s, c, clock).executions[k];
            r == s.executions[k]
            || (r in WriteOf(c) && ExecKey(r) == k && s.executions[k].finishedAt <= r.finishedAt)
  {
    hide SetJob, DeleteJob, SetExecutionDone, Overflow, ExecKey;
    match c {
      case SetJobMsg(job) => SetJobKeepsExecutions(libs, s, job, true, clock);
      case DeleteJobMsg(name) => DeleteJobKeepsOthers(libs, s, name, clock);
      case ExecutionDoneMsg(e) => DoneExecutions(libs, s, e);
      case _ =>
    }
  }

  lemma {:induction false} ResultIsKept(libs: Libs, s: State, log: seq<Entry>, e: Execution)
    requires StaysStored(libs, s, log, ExecKey(e)) && NoOtherResult(log, e)
    requires SameResult(s.executions[ExecKey(e)], e)
    ensures ExecKey(e) in Run(libs, s, log).executions && SameResult(Run(libs, s, log).executions[ExecKey(e)], e)
    decreases |log|
  {
    hide ExecKey, Step, NoOtherResult;
    if log != [] {
      NoOtherResultTail(log, e);
      StepKeepsRecord(libs, s, log[0].command, log[0].clock, ExecKey(e));
      ResultIsKept(libs, Step(libs, s, log[0].command, log[0].clock), log[1..], e);
    }
  }

  /** While the record stays stored and nothing contradicts it, the report is counted again exactly when the last
      command that assigned the job's last result of the kind brought another time. */
  lemma RepeatOfKeptRecordIff(libs: Libs, s: State, e: Execution, log: seq<Entry>)
    requires Consistent(libs, s)
    ensures var t := Done(libs, s, e);
            var u := Run(libs, t, log);
            Counted(libs, s, e) && StaysStored(libs, t, log, ExecKey(e)) && NoOtherResult(log, e) ==>
              (Counted(libs, u, e) <==>
               && e.jobName in u.jobs
               && LastAssigned(libs, t, log, e.jobName, e.success, Some(e.finishedAt)) != Some(e.finishedAt))
  {
    hide ExecKey, Run, Counted, LastAssigned, SetExecutionDone, Consistent, StaysStored, NoOtherResult;
    var t := Done(libs, s, e);
    RepeatAfterLogIff(libs, s, e, log);
    DoneEffect(libs, s, e);
    if Counted(libs, s, e) && StaysStored(libs, t, log, ExecKey(e)) && NoOtherResult(log, e) {
      ResultIsKept(libs, t, log, e);
    }
  }

  // ---- An example ----

  /** Two new reports of one job and kind, and the first once more: all three are counted. */
  lemma AllThreeCounted(libs: Libs, s: State, e: Execution, f: Execution)
    requires e.jobName == f.jobName && e.jobName in s.jobs && e.success == f.success && e.finishedAt != f.finishedAt
    requires ExecKey(e) != ExecKey(f) && ExecKey(e) !in s.executions && ExecKey(f) !in s.executions
    ensures var t := Done(libs, s, e);
            Counted(libs, s, e) && Counted(libs, t, f) && Counted(libs, Done(libs, t, f), e)
  {
    hide ExecKey, Done, Counted, Counts;
    var t := Done(libs, s, e);
    CountedIff(libs, s, e);
    CountsIff(s, e);
    DoneEffect(libs, s, e);
    CountedIff(libs, t, f);
    CountsIff(t, f);
    RepeatCountedIff(libs, s, e, f);
  }

  const EXAMPLE: State := State(map["job" := EMPTY_JOB.(name := "job")], map[], map[])

  const FIRST: Execution := Execution("job", 1, 10, true, "", "node", 0, 1)
  const OTHER: Execution := Execution("job", 2, 20, true, "", "node", 0, 1)

  lemma DifferentKeys()
    ensures ExecKey(FIRST) != ExecKey(OTHER)
  {
    hide ExecKey;
    ExecKeyInjective(FIRST, OTHER);
  }

  /** Two executions of a job succeed, and the first is reported again: it is counted twice. */
  lemma CountedTwice(libs: Libs)
    ensures var t := Done(libs, EXAMPLE, FIRST);
            Counted(libs, EXAMPLE, FIRST) && Counted(libs, t, OTHER) && Counted(libs, Done(libs, t, OTHER), FIRST)
  {
    hide ExecKey, Done, Counted;
    DifferentKeys();
    AllThreeCounted(libs, EXAMPLE, FIRST, OTHER);
  }
}
