/** What each replicated command does to the state of the store, as functions. The class in Store.dfy computes these
    functions on a flat database. */
module Commands {
  import opened Wrappers
  import opened Types
  import opened Keys

  // A job is stored under its own name, and an execution under its own key.
  type JobMap = m: map<string, Job> | forall n | n in m :: m[n].name == n witness map[]
  type ExecMap = m: map<string, Execution> | forall k | k in m :: ExecKey(m[k]) == k witness map[]

  datatype State = State(jobs: JobMap, executions: ExecMap, stats: map<string, Stat>)

  const EMPTY_STATE: State := State(map[], map[], map[])

  // A new state, and the error the caller sees.
  datatype Outcome = Outcome(state: State, error: Option<Error>)

  function Stored(s: State, name: string): Job {
    if name in s.jobs then s.jobs[name] else EMPTY_JOB
  }

  function PutJob(s: State, job: Job): State {
    s.(jobs := s.jobs[job.name := job])
  }

  /** The fields of a stored job that survive a new version of it. */
  function Merge(job: Job, stored: Job, copyDependentJobs: bool): Job {
    if stored.name == "" then job
    else
      job.(lastError := if After(stored.lastError, job.lastError) then stored.lastError else job.lastError,
           lastSuccess := if After(stored.lastSuccess, job.lastSuccess) then stored.lastSuccess else job.lastSuccess,
           successCount := if stored.successCount > job.successCount then stored.successCount else job.successCount,
           errorCount := if stored.errorCount > job.errorCount then stored.errorCount else job.errorCount,
           dependentJobs :=
             if stored.dependentJobs != [] && copyDependentJobs then stored.dependentJobs else job.dependentJobs,
           status := if stored.status != STATUS_NOT_SET then stored.status else job.status)
  }

  function NextRun(libs: Libs, job: Job, stored: Job, clock: Clock): Result<Time, Error> {
    if job.schedule != stored.schedule then GetNext(libs, job, clock)
    else Ok(if job.next < stored.next then stored.next else job.next)
  }

  function SetJob(libs: Libs, s: State, job: Job, copyDependentJobs: bool, clock: Clock): Outcome
    decreases if job.parentJob != Stored(s, job.name).parentJob then 2 else 0
  {
    var invalid := Validate(libs, job);
    if invalid.Some? then Outcome(s, invalid)
    else if job.parentJob != "" && job.parentJob !in s.jobs then Outcome(s, Some(ParentJobNotFound))
    else
      var stored := Stored(s, job.name);
      var merged := Merge(job, stored, copyDependentJobs);
      var next := NextRun(libs, merged, stored, clock);
      if next.Err? then Outcome(s, Some(next.error))
      else
        var s1 := PutJob(s, merged.(next := next.value));
        // When the parent changed, the old and the new parent are updated.
        if job.parentJob == stored.parentJob then Outcome(s1, None)
        else
          var removed := RemoveFromParent(libs, s1, stored, clock);
          if removed.error.Some? then removed else AddToParent(libs, removed.state, job, clock)
  }

  function GetParent(s: State, child: Job): Result<Job, Error> {
    if child.name == child.parentJob then Err(SameParent)
    else if child.parentJob == "" then Err(NoParent)
    else if child.parentJob in s.jobs then Ok(s.jobs[child.parentJob])
    else Err(ParentJobNotFound)
  }

  function Remove(names: seq<string>, name: string): seq<string> {
    if names == [] then []
    else if names[0] != name then [names[0]] + Remove(names[1..], name)
    else Remove(names[1..], name)
  }

  function RemoveFromParent(libs: Libs, s: State, child: Job, clock: Clock): Outcome
    decreases 1
  {
    if child.parentJob == "" then Outcome(s, None)
    else
      var parent := GetParent(s, child);
      if parent.Err? then Outcome(s, Some(parent.error))
      else
        SetJob(libs, s, parent.value.(dependentJobs := Remove(parent.value.dependentJobs, child.name)), false, clock)
  }

  function AddToParent(libs: Libs, s: State, child: Job, clock: Clock): Outcome
    decreases 1
  {
    if child.parentJob == "" then Outcome(s, None)
    else
      var parent := GetParent(s, child);
      if parent.Err? then Outcome(s, Some(parent.error))
      else
        SetJob(libs, s, parent.value.(dependentJobs := parent.value.dependentJobs + [child.name]), false, clock)
  }

  // All executions whose key does not start with the prefix.
  function DeleteScan(executions: ExecMap, prefix: string): ExecMap {
    map k | k in executions && !HasPrefix(k, prefix) :: executions[k]
  }

  function DeleteJob(libs: Libs, s: State, name: string, clock: Clock): Outcome {
    if name !in s.jobs then Outcome(s, Some(NotFound))
    else
      var job := s.jobs[name];
      if job.dependentJobs != [] then Outcome(s, Some(DependentJobs))
      else
        RemoveFromParent(
          libs, State(s.jobs - {name}, DeleteScan(s.executions, DeletePrefix(name)), s.stats), job, clock)
  }

  // The records at the given keys, in order.
  function Records(executions: ExecMap, keys: seq<string>): seq<Execution> {
    if keys == [] then []
    else if keys[0] in executions then [executions[keys[0]]] + Records(executions, keys[1..])
    else Records(executions, keys[1..])
  }

  /** The executions of a job, in the order of their keys. */
  function GetExecutions(libs: Libs, executions: ExecMap, jobName: string): seq<Execution> {
    Records(executions, libs.ascend(set k | k in executions && Lists(ListPrefix(jobName), k)))
  }

  // Is the record at the key, if any, more recent than `e`?
  predicate Supersedes(executions: ExecMap, e: Execution) {
    ExecKey(e) in executions && executions[ExecKey(e)].finishedAt > e.finishedAt
  }

  /** The last writer, by finish time, wins. */
  function PutExecution(executions: ExecMap, e: Execution): ExecMap {
    if Supersedes(executions, e) then executions else executions[ExecKey(e) := e]
  }

  // The records over the limit, oldest first. Sorting keeps the number of records.
  function Overflow(libs: Libs, executions: ExecMap, jobName: string): seq<Execution> {
    var records := GetExecutions(libs, executions, jobName);
    var sorted := libs.sortByStart(records);
    if |records| > MAX_EXECUTIONS && |sorted| == |records| then sorted[..|records| - MAX_EXECUTIONS] else []
  }

  function SetExecution(libs: Libs, s: State, e: Execution): State {
    var executions := PutExecution(s.executions, e);
    s.(executions := executions - set x | x in Overflow(libs, executions, e.jobName) :: ExecKey(x))
  }

  function DeleteExecutions(s: State, name: string): Outcome {
    if name !in s.jobs then Outcome(s, Some(NotFound))
    else
      var job := s.jobs[name].(successCount := 0, errorCount := 0, lastSuccess := None, lastError := None);
      Outcome(State(s.jobs[name := job], DeleteScan(s.executions, DeletePrefix(name)), s.stats), None)
  }

  function CountSuccess(l: seq<Execution>, group: int, success: bool): nat {
    if l == [] then 0
    else (if l[0].group == group && l[0].success == success then 1 else 0) + CountSuccess(l[1..], group, success)
  }

  function ComputeStatus(libs: Libs, executions: ExecMap, jobName: string, group: int): string {
    var l := GetExecutions(libs, executions, jobName);
    var succeeded, failed := CountSuccess(l, group, true), CountSuccess(l, group, false);
    if failed == 0 then STATUS_SUCCESS
    else if succeeded == 0 then STATUS_FAILED
    else STATUS_PARTIALLY_FAILED
  }

  function IncrementStat(stats: map<string, Stat>, day: string, success: bool): map<string, Stat> {
    var stat := if day in stats then stats[day] else Stat(0, 0);
    stats[
      day := if success then stat.(success := Wrap64(stat.success + 1)) else stat.(failed := Wrap64(stat.failed + 1))]
  }

  // A repeated report is counted again only when the job's last result is another one.
  predicate ShouldCount(s: State, e: Execution)
    requires e.jobName in s.jobs
  {
    var job := s.jobs[e.jobName];
    ExecKey(e) in s.executions
    && s.executions[ExecKey(e)].finishedAt == e.finishedAt && s.executions[ExecKey(e)].success == e.success ==>
      (if e.success then job.lastSuccess else job.lastError) != Some(e.finishedAt)
  }

  /** Does the command change the counters? */
  predicate Counts(s: State, e: Execution) {
    e.jobName in s.jobs && !Supersedes(s.executions, e) && ShouldCount(s, e)
  }

  function CountedJob(job: Job, e: Execution, status: string): Job {
    if e.success then
      job.(lastSuccess := Some(e.finishedAt), successCount := Wrap32(job.successCount + 1), status := status)
    else
      job.(lastError := Some(e.finishedAt), errorCount := Wrap32(job.errorCount + 1), status := status)
  }

  datatype DoneOutcome = DoneOutcome(state: State, counted: bool, error: Option<Error>)

  function SetExecutionDone(libs: Libs, s: State, e: Execution): DoneOutcome {
    if e.jobName !in s.jobs then DoneOutcome(s, false, Some(ExecutionDoneForDeletedJob))
    else if Supersedes(s.executions, e) then DoneOutcome(s, false, None)
    else
      var executions := PutExecution(s.executions, e);
      if !ShouldCount(s, e) then DoneOutcome(s.(executions := executions), false, None)
      else
        var job := CountedJob(s.jobs[e.jobName], e, ComputeStatus(libs, executions, e.jobName, e.group));
        DoneOutcome(
          State(s.jobs[e.jobName := job], executions, IncrementStat(s.stats, libs.day(e.finishedAt), e.success)),
          true, None)
  }
}

/** The replicated state machine: the dispatch on the five commands, and runs of a log. */
module Fsm {
  import opened Wrappers
  import opened Types
  import opened Keys
  import opened Commands

  datatype Command =
    | SetJobMsg(job: Job)
    | DeleteJobMsg(name: string)
    | SetExecutionMsg(execution: Execution)
    | DeleteExecutionsMsg(name: string)
    | ExecutionDoneMsg(execution: Execution)

  datatype Response =
    | Nil
    | Failed(error: Error)
    | JobResponse(job: Job)
    | KeyResponse(key: string)

  function Respond(error: Option<Error>, otherwise: Response): Response {
    if error.Some? then Failed(error.value) else otherwise
  }

  /** The state after a command. */
  function Step(libs: Libs, s: State, c: Command, clock: Clock): State {
    match c
    case SetJobMsg(job) => SetJob(libs, s, job, true, clock).state
    case DeleteJobMsg(name) => DeleteJob(libs, s, name, clock).state
    case SetExecutionMsg(e) => SetExecution(libs, s, e)
    case DeleteExecutionsMsg(name) => DeleteExecutions(s, name).state
    case ExecutionDoneMsg(e) => SetExecutionDone(libs, s, e).state
  }

  /** What the state machine returns for a command. */
  function Apply(libs: Libs, s: State, c: Command, clock: Clock): Response {
    match c
    case SetJobMsg(job) => Respond(SetJob(libs, s, job, true, clock).error, Nil)
    case DeleteJobMsg(name) => Respond(DeleteJob(libs, s, name, clock).error, JobResponse(Stored(s, name)))
    case SetExecutionMsg(e) => KeyResponse(ExecKey(e))
    case DeleteExecutionsMsg(name) =>
      Respond(DeleteExecutions(s, name).error, JobResponse(Stored(DeleteExecutions(s, name).state, name)))
    case ExecutionDoneMsg(e) => Respond(SetExecutionDone(libs, s, e).error, Nil)
  }

  // A committed command, with the clock readings of the replica that applies it.
  datatype Entry = Entry(command: Command, clock: Clock)

  function Run(libs: Libs, s: State, log: seq<Entry>): State
    decreases |log|
  {
    if log == [] then s
    else Run(libs, Step(libs, s, log[0].command, log[0].clock), log[1..])
  }
}
