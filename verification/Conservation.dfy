/** Counters: what a report that is counted adds, and how job counters and daily totals relate over whole runs. */
module Conservation {
  import opened Wrappers
  import opened Types
  import opened Keys
  import opened Commands
  import opened Fsm
  import opened References
  import opened Reachability
  import opened Executions

  // ---- Names in reachable stores ----

  lemma StoredNamesArePlain(libs: Libs, jobs: JobMap, name: string)
    requires AllValid(libs, jobs) && name in jobs
    ensures NoColon(name)
  {
    assert Validate(libs, jobs[name]).None?;
    SlugHasNoColon(libs, name);
  }

  predicate PlainCommand(c: Command) {
    c.SetExecutionMsg? ==> NoColon(c.execution.jobName)
  }

  lemma StepKeepsPlainNames(libs: Libs, s: State, c: Command, clock: Clock)
    requires Consistent(libs, s) && PlainNames(s.executions) && PlainCommand(c)
    ensures PlainNames(Step(libs, s, c, clock).executions)
  {
    hide SetJob, DeleteJob, SetExecutionDone, Overflow, ExecKey, NoColon, PutExecution;
    match c {
      case SetJobMsg(job) => SetJobKeepsExecutions(libs, s, job, true, clock);
      case DeleteJobMsg(name) => DeleteJobKeepsOthers(libs, s, name, clock);
      case SetExecutionMsg(e) => PutKeepsPlainNames(s.executions, e);
      case DeleteExecutionsMsg(name) =>
      case ExecutionDoneMsg(e) =>
        DoneExecutions(libs, s, e);
        if e.jobName in s.jobs {
          StoredNamesArePlain(libs, s.jobs, e.jobName);
          PutKeepsPlainNames(s.executions, e);
        }
    }
  }

  /** When commands name only jobs without a colon in their name, so do all stored executions. */
  lemma {:induction false} ReachableNamesArePlain(libs: Libs, s: State, log: seq<Entry>)
    requires Consistent(libs, s) && PlainNames(s.executions)
    requires forall i | 0 <= i < |log| :: PlainCommand(log[i].command)
    ensures PlainNames(Run(libs, s, log).executions)
    decreases |log|
  {
    hide Step, PlainNames, Consistent;
    if log != [] {
      StepKeepsPlainNames(libs, s, log[0].command, log[0].clock);
      StepStaysConsistent(libs, s, log[0].command, log[0].clock);
      ReachableNamesArePlain(libs, Step(libs, s, log[0].command, log[0].clock), log[1..]);
    }
  }

  // ---- One report ----

  function Counter(job: Job, success: bool): int {
    if success then job.successCount else job.errorCount
  }

  function DayTotal(stats: map<string, Stat>, day: string, success: bool): int {
    if day !in stats then 0 else if success then stats[day].success else stats[day].failed
  }

  /** A counted report raises one counter of its job and the total of its kind on the day it finished, by one each, and
      sets the job's status to the classification of the records listed for its group. Nothing else is counted. */
  lemma CountedReport(libs: Libs, s: State, e: Execution)
    requires libs.Lawful() && SetExecutionDone(libs, s, e).counted
    ensures var t := SetExecutionDone(libs, s, e).state;
            && e.jobName in s.jobs && t.jobs.Keys == s.jobs.Keys
            && Counter(t.jobs[e.jobName], e.success) == Wrap32(Counter(s.jobs[e.jobName], e.success) + 1)
            && Counter(t.jobs[e.jobName], !e.success) == Counter(s.jobs[e.jobName], !e.success)
            && (forall n | n in s.jobs && n != e.jobName :: t.jobs[n] == s.jobs[n])
            && (forall day, success :: DayTotal(t.stats, day, success) ==
                  if day == libs.day(e.finishedAt) && success == e.success
                  then Wrap64(DayTotal(s.stats, day, success) + 1)
                  else DayTotal(s.stats, day, success))
            && t.executions == s.executions[ExecKey(e) := e]
            && t.jobs[e.jobName].status ==
                 if !GroupHas(t.executions, e.jobName, e.group, false) then STATUS_SUCCESS
                 else if !GroupHas(t.executions, e.jobName, e.group, true) then STATUS_FAILED
                 else STATUS_PARTIALLY_FAILED
  {
    hide ExecKey, ComputeStatus, GroupHas;
    StatusClassifiesGroup(libs, PutExecution(s.executions, e), e.jobName, e.group);
  }

  lemma UncountedReport(libs: Libs, s: State, e: Execution)
    requires !SetExecutionDone(libs, s, e).counted
    ensures SetExecutionDone(libs, s, e).state.jobs == s.jobs && SetExecutionDone(libs, s, e).state.stats == s.stats
  {
    hide ExecKey, PutExecution;
  }

  // ---- Daily totals over a run ----

  predicate CountsOn(libs: Libs, s: State, c: Command, day: string, success: bool) {
    && c.ExecutionDoneMsg? && Counts(s, c.execution)
    && libs.day(c.execution.finishedAt) == day && c.execution.success == success
  }

  // The number of counted reports of one kind on one day.
  function Counted(libs: Libs, s: State, log: seq<Entry>, day: string, success: bool): nat
    decreases |log|
  {
    if log == [] then 0
    else
      (if CountsOn(libs, s, log[0].command, day, success) then 1 else 0)
      + Counted(libs, Step(libs, s, log[0].command, log[0].clock), log[1..], day, success)
  }

  lemma StepTotals(libs: Libs, s: State, c: Command, clock: Clock, day: string, success: bool)
    ensures DayTotal(Step(libs, s, c, clock).stats, day, success) ==
            if CountsOn(libs, s, c, day, success) then Wrap64(DayTotal(s.stats, day, success) + 1)
            else DayTotal(s.stats, day, success)
  {
    hide SetJob, DeleteJob, Overflow, ExecKey, ComputeStatus, PutExecution, CountedJob;
    match c {
      case SetJobMsg(job) => SetJobKeepsExecutions(libs, s, job, true, clock);
      case DeleteJobMsg(name) => DeleteJobKeepsOthers(libs, s, name, clock);
      case _ =>
    }
  }

  lemma WrapStep(n: int, m: int)
    ensures Wrap64(Wrap64(n) + m) == Wrap64(n + m)
  {
    var q := (n + 0x8000_0000_0000_0000) / 0x1_0000_0000_0000_0000;
    assert Wrap64(n) == n - q * 0x1_0000_0000_0000_0000;
  }

  /** Over any run each daily total grows by exactly the number of counted reports of its kind on its day. */
  lemma {:induction false} TotalsCountReports(libs: Libs, s: State, log: seq<Entry>, day: string, success: bool)
    requires Wrap64(DayTotal(s.stats, day, success)) == DayTotal(s.stats, day, success)
    ensures DayTotal(Run(libs, s, log).stats, day, success) ==
            Wrap64(DayTotal(s.stats, day, success) + Counted(libs, s, log, day, success))
    decreases |log|
  {
    hide Step, CountsOn, Wrap64;
    if log != [] {
      var was, next := DayTotal(s.stats, day, success), Step(libs, s, log[0].command, log[0].clock);
      var more := Counted(libs, next, log[1..], day, success);
      StepTotals(libs, s, log[0].command, log[0].clock, day, success);
      WrapStep(was + 1, 0);
      WrapStep(was + 1, more);
      TotalsCountReports(libs, next, log[1..], day, success);
    }
  }

  // ---- Job counters over a run ----

  function Counters(jobs: JobMap, success: bool): map<string, int> {
    map n | n in jobs :: Counter(jobs[n], success)
  }

  // The counters of all jobs after a command.
  function CountersAfter(libs: Libs, s: State, c: Command, success: bool): map<string, int> {
    var counters := Counters(s.jobs, success);
    match c
    case SetJobMsg(job) =>
      if !Accepted(libs, s, job) then counters
      else
        var brought := Counter(job, success);
        counters[job.name := if job.name in s.jobs && counters[job.name] > brought then counters[job.name] else brought]
    case DeleteJobMsg(name) => if Deletable(s, name) then counters - {name} else counters
    case SetExecutionMsg(_) => counters
    case DeleteExecutionsMsg(name) => if name in s.jobs then counters[name := 0] else counters
    case ExecutionDoneMsg(e) =>
      if Counts(s, e) && e.success == success then counters[e.jobName := Wrap32(counters[e.jobName] + 1)] else counters
  }

  lemma SetJobCounters(libs: Libs, s: State, job: Job, clock: Clock, success: bool)
    requires Consistent(libs, s) && Accepted(libs, s, job)
    ensures Counters(SetJob(libs, s, job, true, clock).state.jobs, success) ==
            CountersAfter(libs, s, SetJobMsg(job), success)
  {
    hide SetJob, Consistent, Replaced, NewVersion, ExecKey, Accepted, Validate, CountersAfter;
    SetJobEffect(libs, s, job, true, clock);
    var version := NewVersion(libs, s, job, true, clock);
    var oldParent := Stored(s, job.name).parentJob;
    AcceptedNames(libs, s, job);
    VersionKeeps(libs, s, job, true, clock);
    ReplacedKeepsRest(s.jobs, version, oldParent);
    ReplacedCounters(s.jobs, version, Replaced(s.jobs, version, oldParent), success);
    VersionCounters(libs, s, job, clock, success);
  }

  lemma ReplacedCounters(jobs: JobMap, version: Job, after: JobMap, success: bool)
    requires SameButDependents(jobs[version.name := version], after)
    ensures Counters(after, success) == Counters(jobs, success)[version.name := Counter(version, success)]
  {
    hide ExecKey;
    var stored: JobMap := jobs[version.name := version];
    var counters := Counters(jobs, success)[version.name := Counter(version, success)];
    assert Counters(after, success).Keys == stored.Keys == counters.Keys;
    forall n | n in stored ensures Counters(after, success)[n] == counters[n] {
      SameCounter(stored[n], after[n], success);
    }
  }

  lemma SameCounter(j: Job, k: Job, success: bool)
    requires k == j.(dependentJobs := k.dependentJobs)
    ensures Counter(k, success) == Counter(j, success)
  {
  }

  lemma VersionCounters(libs: Libs, s: State, job: Job, clock: Clock, success: bool)
    requires Consistent(libs, s) && Accepted(libs, s, job)
    ensures CountersAfter(libs, s, SetJobMsg(job), success) ==
            Counters(s.jobs, success)[job.name := Counter(NewVersion(libs, s, job, true, clock), success)]
  {
    hide NextRun, ExecKey, Consistent, Accepted;
    AcceptedNames(libs, s, job);
  }

  lemma AcceptedNames(libs: Libs, s: State, job: Job)
    requires Consistent(libs, s) && Accepted(libs, s, job)
    ensures job.name != "" && job.parentJob != job.name
    ensures Stored(s, job.name).parentJob == job.name ==> Stored(s, job.name).parentJob == ""
  {
    assert job.name in s.jobs ==> Linked(s.jobs, job.name);
  }

  lemma StepCounters(libs: Libs, s: State, c: Command, clock: Clock, success: bool)
    requires Consistent(libs, s)
    ensures Counters(Step(libs, s, c, clock).jobs, success) == CountersAfter(libs, s, c, success)
  {
    hide Counters, CountersAfter, Accepted, Consistent, SetJob, DeleteJob, SetExecution, DeleteExecutions,
         SetExecutionDone;
    match c {
      case SetJobMsg(job) =>
        SetJobEffect(libs, s, job, true, clock);
        if Accepted(libs, s, job) {
          SetJobCounters(libs, s, job, clock, success);
        } else {
          RefusedCounters(libs, s, job, success);
        }
      case DeleteJobMsg(name) => DeletionCounters(libs, s, name, clock, success);
      case ExecutionDoneMsg(e) => DoneCounters(libs, s, e, success);
      case DeleteExecutionsMsg(name) => ResetCounters(libs, s, name, success);
      case SetExecutionMsg(e) => StartCounters(libs, s, e, success);
    }
  }

  lemma DeletionCounters(libs: Libs, s: State, name: string, clock: Clock, success: bool)
    requires Consistent(libs, s)
    ensures Counters(DeleteJob(libs, s, name, clock).state.jobs, success) ==
            CountersAfter(libs, s, DeleteJobMsg(name), success)
  {
    hide Counters, DeleteJob, Consistent, DeleteScan, Deleted;
    DeleteJobEffect(libs, s, name, clock);
    if Deletable(s, name) { UnlinkedCounters(s.jobs, name, success); }
  }

  lemma DoneCounters(libs: Libs, s: State, e: Execution, success: bool)
    ensures Counters(SetExecutionDone(libs, s, e).state.jobs, success) ==
            CountersAfter(libs, s, ExecutionDoneMsg(e), success)
  {
    hide SetExecutionDone, ComputeStatus, PutExecution, ExecKey, Counts, Counters, CountedJob, Wrap32;
    DoneJobs(libs, s, e);
    if Counts(s, e) {
      CountsStored(s, e);
      var status := ComputeStatus(libs, PutExecution(s.executions, e), e.jobName, e.group);
      var job := CountedJob(s.jobs[e.jobName], e, status);
      CountedCounter(s.jobs[e.jobName], e, status, success);
      OneCounter(s.jobs, job, success);
      CounterIn(s.jobs, e.jobName, success);
    }
  }

  lemma CountedCounter(job: Job, e: Execution, status: string, success: bool)
    ensures CountedJob(job, e, status).name == job.name
    ensures Counter(CountedJob(job, e, status), success) ==
            if success == e.success then Wrap32(Counter(job, success) + 1) else Counter(job, success)
  {
    hide Wrap32;
  }

  lemma OneCounter(jobs: JobMap, job: Job, success: bool)
    ensures Counters(jobs[job.name := job], success) == Counters(jobs, success)[job.name := Counter(job, success)]
  {
    hide ExecKey;
  }

  lemma CounterIn(jobs: JobMap, name: string, success: bool)
    requires name in jobs
    ensures name in Counters(jobs, success) && Counters(jobs, success)[name] == Counter(jobs[name], success)
    ensures Counters(jobs, success)[name := Counter(jobs[name], success)] == Counters(jobs, success)
  {
    hide ExecKey;
  }

  lemma ResetCounters(libs: Libs, s: State, name: string, success: bool)
    ensures Counters(DeleteExecutions(s, name).state.jobs, success) ==
            CountersAfter(libs, s, DeleteExecutionsMsg(name), success)
  {
    hide DeleteScan, ExecKey;
  }

  lemma StartCounters(libs: Libs, s: State, e: Execution, success: bool)
    ensures Counters(SetExecution(libs, s, e).jobs, success) == CountersAfter(libs, s, SetExecutionMsg(e), success)
  {
    hide Overflow, PutExecution, ExecKey;
  }

  lemma RefusedCounters(libs: Libs, s: State, job: Job, success: bool)
    requires !Accepted(libs, s, job)
    ensures CountersAfter(libs, s, SetJobMsg(job), success) == Counters(s.jobs, success)
  {
  }

  lemma UnlinkedCounters(jobs: JobMap, name: string, success: bool)
    requires name in jobs
    ensures Counters(Deleted(jobs, name), success) == Counters(jobs, success) - {name}
  {
    hide Unlink;
    var rest: JobMap, after := jobs - {name}, Deleted(jobs, name);
    UnlinkEffect(rest, jobs[name].parentJob, name);
    forall n | n in rest ensures n in after && Counter(after[n], success) == Counter(jobs[n], success) {
      assert rest[n] == jobs[n];
    }
  }

  /** A job that is set brings counters no larger than the stored ones, which are zero for a new job. */
  predicate BringsNoCounts(s: State, c: Command, success: bool) {
    c.SetJobMsg? ==>
      var stored := Stored(s, c.job.name);
      if c.job.name in s.jobs then Counter(c.job, success) <= Counter(stored, success) else Counter(c.job, success) == 0
  }

  ghost predicate RunBringsNoCounts(libs: Libs, s: State, log: seq<Entry>, success: bool)
    decreases |log|
  {
    log != [] ==>
      BringsNoCounts(s, log[0].command, success)
      && RunBringsNoCounts(libs, Step(libs, s, log[0].command, log[0].clock), log[1..], success)
  }

  // Does the command start the counters of the job afresh?
  predicate Resets(libs: Libs, s: State, c: Command, name: string) {
    match c
    case SetJobMsg(job) => job.name == name && name !in s.jobs && Accepted(libs, s, job)
    case DeleteExecutionsMsg(n) => n == name
    case _ => false
  }

  lemma Wrap32Step(n: int, m: int)
    ensures Wrap32(Wrap32(n) + m) == Wrap32(n + m)
  {
    var q := (n + 0x8000_0000) / 0x1_0000_0000;
    assert Wrap32(n) == n - q * 0x1_0000_0000;
  }

  // The tally after one command.
  function TallyStep(libs: Libs, s: State, c: Command, name: string, success: bool, soFar: nat): nat {
    if Resets(libs, s, c, name) then 0
    else if c.ExecutionDoneMsg? && Counts(s, c.execution)
            && c.execution.jobName == name && c.execution.success == success then soFar + 1
    else soFar
  }

  // The number of counted reports of a job since its counters were last reset, after `so far` reports.
  function Tally(libs: Libs, s: State, log: seq<Entry>, name: string, success: bool, soFar: nat): nat
    decreases |log|
  {
    if log == [] then soFar
    else
      var c := log[0].command;
      Tally(libs, Step(libs, s, c, log[0].clock), log[1..], name, success, TallyStep(libs, s, c, name, success, soFar))
  }

  lemma StepTally(libs: Libs, s: State, c: Command, clock: Clock, name: string, success: bool, soFar: nat)
    requires Consistent(libs, s) && BringsNoCounts(s, c, success)
    requires name in s.jobs ==> Counter(s.jobs[name], success) == Wrap32(soFar)
    ensures var t := Step(libs, s, c, clock);
            name in t.jobs ==> Counter(t.jobs[name], success) == Wrap32(TallyStep(libs, s, c, name, success, soFar))
  {
    hide Step, Consistent, Wrap32, TallyStep, CountersAfter, BringsNoCounts;
    StepCounters(libs, s, c, clock, success);
    TallyAfter(libs, s, c, name, success, soFar);
    var t := Step(libs, s, c, clock);
    assert name in t.jobs ==> Counters(t.jobs, success)[name] == Counter(t.jobs[name], success);
  }

  lemma TallyAfter(libs: Libs, s: State, c: Command, name: string, success: bool, soFar: nat)
    requires BringsNoCounts(s, c, success)
    requires name in s.jobs ==> Counter(s.jobs[name], success) == Wrap32(soFar)
    ensures var after := CountersAfter(libs, s, c, success);
            name in after ==> after[name] == Wrap32(TallyStep(libs, s, c, name, success, soFar))
  {
    hide Wrap32, Counts, Accepted, ExecKey, Deletable;
    Wrap32Step(soFar, 1);
    WrapZero();
    if c.ExecutionDoneMsg? && Counts(s, c.execution) { CountsStored(s, c.execution); }
  }

  /** When no command brings counts of its own, every job's counter is the number of its counted reports since the job
      was created or its executions were deleted. */
  lemma {:induction false} CountersTallyReports(
      libs: Libs, s: State, log: seq<Entry>, name: string, success: bool, soFar: nat)
    requires Consistent(libs, s) && RunBringsNoCounts(libs, s, log, success)
    requires name in s.jobs ==> Counter(s.jobs[name], success) == Wrap32(soFar)
    ensures name in Run(libs, s, log).jobs ==>
              Counter(Run(libs, s, log).jobs[name], success) == Wrap32(Tally(libs, s, log, name, success, soFar))
    decreases |log|
  {
    hide Step, Consistent, Wrap32, TallyStep, BringsNoCounts;
    if log != [] {
      var c, next := log[0].command, Step(libs, s, log[0].command, log[0].clock);
      StepTally(libs, s, c, log[0].clock, name, success, soFar);
      StepStaysConsistent(libs, s, c, log[0].clock);
      CountersTallyReports(libs, next, log[1..], name, success, TallyStep(libs, s, c, name, success, soFar));
    }
  }

  lemma WrapZero()
    ensures Wrap32(0) == 0 && Wrap64(0) == 0
  {
  }

  // ---- Sums ----

  ghost function Sum(m: map<string, int>): int {
    if m == map[] then 0 else var k :| k in m; m[k] + Sum(m - {k})
  }

  lemma {:induction false} SumWithout(m: map<string, int>, k: string)
    requires k in m
    ensures Sum(m) == m[k] + Sum(m - {k})
    decreases |m|
  {
    var j :| j in m && Sum(m) == m[j] + Sum(m - {j});
    if j != k {
      assert |m - {j}| < |m| && |m - {k}| < |m| by { assert (m - {j}).Keys < m.Keys && (m - {k}).Keys < m.Keys; }
      SumWithout(m - {j}, k);
      SumWithout(m - {k}, j);
      assert m - {j} - {k} == m - {k} - {j};
    }
  }

  lemma SumUpdate(m: map<string, int>, k: string, v: int)
    ensures Sum(m[k := v]) == Sum(m) + v - (if k in m then m[k] else 0)
  {
    SumWithout(m[k := v], k);
    if k in m {
      SumWithout(m, k);
      assert m[k := v] - {k} == m - {k};
    } else {
      assert m[k := v] - {k} == m;
    }
  }

  function Totals(stats: map<string, Stat>, success: bool): map<string, int> {
    map day | day in stats :: DayTotal(stats, day, success)
  }

  // All counters can be raised by one without overflow.
  ghost predicate Headroom(s: State, success: bool) {
    && (forall n | n in s.jobs :: 0 <= Counter(s.jobs[n], success) < MAX_INT32)
    && (forall day | day in s.stats :: 0 <= DayTotal(s.stats, day, success) < MAX_INT64)
  }

  lemma WrapInRange(n: int)
    ensures 0 <= n <= MAX_INT32 ==> Wrap32(n) == n
    ensures 0 <= n <= MAX_INT64 ==> Wrap64(n) == n
  {
  }

  lemma StepTotalsMap(libs: Libs, s: State, c: Command, clock: Clock, success: bool)
    ensures var day := if c.ExecutionDoneMsg? then libs.day(c.execution.finishedAt) else "";
            Totals(Step(libs, s, c, clock).stats, success) ==
              if c.ExecutionDoneMsg? && Counts(s, c.execution) then
                Totals(s.stats, success)[
                  day := if c.execution.success == success
                         then Wrap64(DayTotal(s.stats, day, success) + 1)
                         else DayTotal(s.stats, day, success)]
              else Totals(s.stats, success)
  {
    hide SetJob, DeleteJob, SetExecutionDone, Overflow, ExecKey, PutExecution, Totals, DayTotal, Counts, Wrap64;
    match c {
      case SetJobMsg(job) => SetJobKeepsExecutions(libs, s, job, true, clock);
      case DeleteJobMsg(name) => DeleteJobKeepsOthers(libs, s, name, clock);
      case ExecutionDoneMsg(e) =>
        DoneStats(libs, s, e);
        IncrementedTotals(s.stats, libs.day(e.finishedAt), e.success, success);
      case _ =>
    }
  }

  lemma DoneStats(libs: Libs, s: State, e: Execution)
    ensures SetExecutionDone(libs, s, e).state.stats ==
            if Counts(s, e) then IncrementStat(s.stats, libs.day(e.finishedAt), e.success) else s.stats
  {
    hide PutExecution, ComputeStatus, IncrementStat, Supersedes, CountedJob;
  }

  lemma IncrementedTotals(stats: map<string, Stat>, day: string, counted: bool, success: bool)
    ensures Totals(IncrementStat(stats, day, counted), success) ==
            Totals(stats, success)[day := if counted == success then Wrap64(DayTotal(stats, day, success) + 1)
                                          else DayTotal(stats, day, success)]
  {
    hide Wrap64;
  }

  lemma CountedSums(libs: Libs, s: State, e: Execution, clock: Clock, success: bool)
    requires Consistent(libs, s) && Headroom(s, success) && Counts(s, e)
    ensures var t := Step(libs, s, ExecutionDoneMsg(e), clock);
            var more := if e.success == success then 1 else 0;
            && Sum(Counters(t.jobs, success)) == Sum(Counters(s.jobs, success)) + more
            && Sum(Totals(t.stats, success)) == Sum(Totals(s.stats, success)) + more
  {
    hide Step, Sum, Consistent, Counts, Wrap32, Wrap64;
    var counters, totals := Counters(s.jobs, success), Totals(s.stats, success);
    var day := libs.day(e.finishedAt);
    var was := DayTotal(s.stats, day, success);
    StepCounters(libs, s, ExecutionDoneMsg(e), clock, success);
    StepTotalsMap(libs, s, ExecutionDoneMsg(e), clock, success);
    CountsStored(s, e);
    WrapInRange(counters[e.jobName] + 1);
    WrapInRange(was + 1);
    SumUpdate(counters, e.jobName, counters[e.jobName] + 1);
    SumUpdate(totals, day, was + 1);
    SumUpdate(totals, day, was);
  }

  lemma StepSums(libs: Libs, s: State, c: Command, clock: Clock, success: bool)
    requires Consistent(libs, s) && Headroom(s, success) && BringsNoCounts(s, c, success)
    ensures var t := Step(libs, s, c, clock);
            Sum(Counters(t.jobs, success)) - Sum(Counters(s.jobs, success))
              <= Sum(Totals(t.stats, success)) - Sum(Totals(s.stats, success))
  {
    hide Step, Sum, Consistent, Counts, Accepted, Totals;
    var counters := Counters(s.jobs, success);
    StepCounters(libs, s, c, clock, success);
    StepTotalsMap(libs, s, c, clock, success);
    match c {
      case SetJobMsg(job) =>
        if Accepted(libs, s, job) {
          SumUpdate(counters, job.name, if job.name in counters then counters[job.name] else 0);
        }
      case DeleteJobMsg(name) => if Deletable(s, name) { SumWithout(counters, name); }
      case DeleteExecutionsMsg(name) => SumUpdate(counters, name, 0);
      case SetExecutionMsg(_) =>
      case ExecutionDoneMsg(e) => if Counts(s, e) { CountedSums(libs, s, e, clock, success); }
    }
  }

  lemma CountsStored(s: State, e: Execution)
    requires Counts(s, e)
    ensures e.jobName in s.jobs
  {
  }

  ghost predicate RunHasHeadroom(libs: Libs, s: State, log: seq<Entry>, success: bool)
    decreases |log|
  {
    Headroom(s, success)
    && (log != [] ==> RunHasHeadroom(libs, Step(libs, s, log[0].command, log[0].clock), log[1..], success))
  }

  /** The counters of all jobs together never exceed the daily totals together, as long as no counter overflows. */
  lemma {:induction false} CountersNeverExceedTotals(libs: Libs, s: State, log: seq<Entry>, success: bool)
    requires Consistent(libs, s) && RunBringsNoCounts(libs, s, log, success) && RunHasHeadroom(libs, s, log, success)
    requires Sum(Counters(s.jobs, success)) <= Sum(Totals(s.stats, success))
    ensures Sum(Counters(Run(libs, s, log).jobs, success)) <= Sum(Totals(Run(libs, s, log).stats, success))
    decreases |log|
  {
    hide Step, Sum, Counters, Totals, Consistent, Headroom;
    if log != [] {
      StepSums(libs, s, log[0].command, log[0].clock, success);
      StepStaysConsistent(libs, s, log[0].command, log[0].clock);
      CountersNeverExceedTotals(libs, Step(libs, s, log[0].command, log[0].clock), log[1..], success);
    }
  }
}
