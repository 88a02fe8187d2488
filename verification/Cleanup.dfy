/** The cleanup of executions that the store believes to be running although no node runs them any more. */
module Cleanup {
  import opened Wrappers
  import opened Types
  import opened Keys
  import opened Commands
  import opened Fsm
  import opened Executions
  import opened Conservation
  import FlatStore

  // An execution that runs for longer than four hours and is not active on any node is stale.
  const STALE_THRESHOLD: int := 4 * 3600 * NANOS_PER_SECOND

  const STALE_OUTPUT: string := "\nExecution marked as failed: detected as stale (not active on any node)"

  predicate Stale(x: Execution, active: set<string>, now: Time) {
    Key(x) !in active && now - x.startedAt > STALE_THRESHOLD
  }

  function Failed(x: Execution, now: Time): Execution {
    x.(finishedAt := now, success := false, output := x.output + STALE_OUTPUT)
  }

  datatype Swept = Swept(state: State, remaining: seq<Execution>)

  /** Reports every stale record of the list as failed, and returns the others that are not active. A record whose
      report is not applied is returned in the form in which it was reported. */
  function Sweep(
    libs: Libs, s: State, l: seq<Execution>, active: set<string>, now: Time, applied: nat -> bool, clock: Clock,
    calls: nat
  ): Swept
    decreases |l|
  {
    if l == [] then Swept(s, [])
    else if Key(l[0]) in active then Sweep(libs, s, l[1..], active, now, applied, clock, calls)
    else if !Stale(l[0], active, now) then
      var r := Sweep(libs, s, l[1..], active, now, applied, clock, calls);
      r.(remaining := [l[0]] + r.remaining)
    else
      var x := Failed(l[0], now);
      if applied(calls) then
        Sweep(libs, Step(libs, s, ExecutionDoneMsg(x), clock), l[1..], active, now, applied, clock, calls + 1)
      else
        var r := Sweep(libs, s, l[1..], active, now, applied, clock, calls + 1);
        r.(remaining := [x] + r.remaining)
  }

  // The executions of the list that are neither active nor stale.
  function Recent(l: seq<Execution>, active: set<string>, now: Time): seq<Execution> {
    if l == [] then []
    else if Key(l[0]) !in active && !Stale(l[0], active, now) then [l[0]] + Recent(l[1..], active, now)
    else Recent(l[1..], active, now)
  }

  // Is the record reported as failed, and found by the report?
  predicate Reported(x: Execution, stored: set<string>, active: set<string>, now: Time) {
    Stale(x, active, now) && x.jobName in stored
  }

  // The number of reports for a job.
  function ReportCount(l: seq<Execution>, name: string, active: set<string>, now: Time): nat {
    if l == [] then 0
    else (if Stale(l[0], active, now) && l[0].jobName == name then 1 else 0) + ReportCount(l[1..], name, active, now)
  }

  // The number of reports for all stored jobs.
  function ReportTotal(l: seq<Execution>, stored: set<string>, active: set<string>, now: Time): nat {
    if l == [] then 0
    else (if Reported(l[0], stored, active, now) then 1 else 0) + ReportTotal(l[1..], stored, active, now)
  }

  /** Different records that are stored and not finished. */
  ghost predicate Unfinished(executions: ExecMap, l: seq<Execution>) {
    && (forall i, j | 0 <= i < j < |l| :: ExecKey(l[i]) != ExecKey(l[j]))
    && (forall i | 0 <= i < |l| ::
          l[i].finishedAt == ZERO_TIME && ExecKey(l[i]) in executions && executions[ExecKey(l[i])] == l[i])
  }

  // A job after a number of its records has been reported: they only raise the error count and replace last error and
  // status.
  predicate JobSwept(was: Job, is_: Job, count: nat) {
    && is_ == was.(errorCount := is_.errorCount, lastError := is_.lastError, status := is_.status)
    && Wrap32(is_.errorCount) == Wrap32(was.errorCount + count)
    && (count == 0 ==> is_ == was)
  }

  lemma JobSweptTwice(a: Job, b: Job, c: Job, m: nat, n: nat)
    requires JobSwept(a, b, m) && JobSwept(b, c, n)
    ensures JobSwept(a, c, m + n)
  {
    hide Wrap32;
    Wrap32Step(a.errorCount + m, n);
    Wrap32Step(b.errorCount, n);
  }

  /** The report of a stale record of a stored job is always counted: it is stored as failed and raises the job's error
      count by one. */
  lemma StaleIsCounted(libs: Libs, s: State, x: Execution, now: Time, clock: Clock)
    requires x.jobName in s.jobs && ExecKey(x) in s.executions && s.executions[ExecKey(x)] == x
    requires x.finishedAt == ZERO_TIME && now > ZERO_TIME
    ensures var t := Step(libs, s, ExecutionDoneMsg(Failed(x, now)), clock);
            && t.executions == s.executions[ExecKey(x) := Failed(x, now)]
            && t.jobs.Keys == s.jobs.Keys && (forall n | n in s.jobs && n != x.jobName :: t.jobs[n] == s.jobs[n])
            && JobSwept(s.jobs[x.jobName], t.jobs[x.jobName], 1)
            && t.jobs[x.jobName].errorCount == Wrap32(s.jobs[x.jobName].errorCount + 1)
            && DayTotal(t.stats, libs.day(now), false) == Wrap64(DayTotal(s.stats, libs.day(now), false) + 1)
  {
    hide Failed, ExecKey, Key, Step, Counts, CountedJob, ComputeStatus, PutExecution, IncrementStat, DayTotal,
         JobSwept, Wrap32, Wrap64;
    var e := Failed(x, now);
    StaleCounts(s, x, now);
    FailedFields(x, now);
    var status := ComputeStatus(libs, PutExecution(s.executions, e), e.jobName, e.group);
    CountedStep(libs, s, e, clock);
    FailureIsCounted(s.jobs[x.jobName], e, status);
    FailureOfDay(s.stats, libs.day(now));
  }

  lemma FailedFields(x: Execution, now: Time)
    ensures var e := Failed(x, now); e.jobName == x.jobName && !e.success && e.finishedAt == now
  {
  }

  // The state after a counted report.
  lemma CountedStep(libs: Libs, s: State, e: Execution, clock: Clock)
    requires Counts(s, e)
    ensures e.jobName in s.jobs
    ensures var status := ComputeStatus(libs, PutExecution(s.executions, e), e.jobName, e.group);
            Step(libs, s, ExecutionDoneMsg(e), clock) ==
            State(s.jobs[e.jobName := CountedJob(s.jobs[e.jobName], e, status)], PutExecution(s.executions, e),
                  IncrementStat(s.stats, libs.day(e.finishedAt), e.success))
  {
    hide ExecKey, ComputeStatus, PutExecution, IncrementStat, CountedJob;
  }

  lemma FailureIsCounted(job: Job, e: Execution, status: string)
    requires !e.success
    ensures var is_ := CountedJob(job, e, status);
            is_.name == job.name && JobSwept(job, is_, 1) && is_.errorCount == Wrap32(job.errorCount + 1)
  {
    hide Wrap32;
    Wrap32Step(job.errorCount + 1, 0);
  }

  lemma FailureOfDay(stats: map<string, Stat>, day: string)
    ensures DayTotal(IncrementStat(stats, day, false), day, false) == Wrap64(DayTotal(stats, day, false) + 1)
  {
    hide Wrap64;
  }

  lemma StaleCounts(s: State, x: Execution, now: Time)
    requires x.jobName in s.jobs && ExecKey(x) in s.executions && s.executions[ExecKey(x)] == x
    requires x.finishedAt == ZERO_TIME && now > ZERO_TIME
    ensures Counts(s, Failed(x, now))
    ensures PutExecution(s.executions, Failed(x, now)) == s.executions[ExecKey(x) := Failed(x, now)]
  {
    SameKey(x, now);
    hide ExecKey;
  }

  lemma SameKey(x: Execution, now: Time)
    ensures ExecKey(Failed(x, now)) == ExecKey(x) && Key(Failed(x, now)) == Key(x)
  {
  }

  // What becomes of one record.
  function MarkedOne(y: Execution, l: seq<Execution>, stored: set<string>, active: set<string>, now: Time): Execution {
    if y in l && Reported(y, stored, active, now) then Failed(y, now) else y
  }

  // What the records are after the stale ones of the list have been reported.
  function Marked(executions: ExecMap, l: seq<Execution>, stored: set<string>, active: set<string>, now: Time)
    : map<string, Execution>
  {
    map k | k in executions :: MarkedOne(executions[k], l, stored, active, now)
  }

  ghost predicate SweptJobs(jobs: JobMap, after: JobMap, l: seq<Execution>, active: set<string>, now: Time) {
    && after.Keys == jobs.Keys
    && forall n {:trigger after[n]} | n in jobs :: JobSwept(jobs[n], after[n], ReportCount(l, n, active, now))
  }

  ghost predicate SweptTo(libs: Libs, s: State, l: seq<Execution>, active: set<string>, now: Time, r: Swept) {
    && r.remaining == Recent(l, active, now)
    && r.state.executions == Marked(s.executions, l, s.jobs.Keys, active, now)
    && SweptJobs(s.jobs, r.state.jobs, l, active, now)
    && Wrap64(DayTotal(r.state.stats, libs.day(now), false)) ==
       Wrap64(DayTotal(s.stats, libs.day(now), false) + ReportTotal(l, s.jobs.Keys, active, now))
  }

  lemma {:induction false} SweepHolds(
    libs: Libs, s: State, l: seq<Execution>, active: set<string>, now: Time, applied: nat -> bool, clock: Clock,
    calls: nat)
    requires Unfinished(s.executions, l) && now > ZERO_TIME && forall i: nat :: applied(i)
    ensures SweptTo(libs, s, l, active, now, Sweep(libs, s, l, active, now, applied, clock, calls))
    decreases |l|
  {
    hide SweptTo, SweptJobs, JobSwept, Unfinished, Marked, Recent, ReportCount, ReportTotal, Stale, Step, ExecKey, Key;
    if l == [] {
      SweptNone(libs, s, active, now);
    } else {
      var x, rest := l[0], l[1..];
      UnfinishedRest(s.executions, l);
      if Stale(x, active, now) {
        StaleIsNotActive(x, active, now);
        var t := Step(libs, s, ExecutionDoneMsg(Failed(x, now)), clock);
        if x.jobName in s.jobs {
          StaleIsCounted(libs, s, x, now, clock);
          UnfinishedAfter(s.executions, l, now);
          SweepHolds(libs, t, rest, active, now, applied, clock, calls + 1);
          MarkedCons(s.executions, l, s.jobs.Keys, active, now);
          SweptOnce(libs, s, t, l, active, now, Sweep(libs, t, rest, active, now, applied, clock, calls + 1));
        } else {
          MissingJobUnchanged(libs, s, Failed(x, now), clock);
          SweepHolds(libs, s, rest, active, now, applied, clock, calls + 1);
          SweptSkip(libs, s, l, active, now, Sweep(libs, s, rest, active, now, applied, clock, calls + 1));
        }
      } else {
        SweepHolds(libs, s, rest, active, now, applied, clock, calls);
        SweptSkip(libs, s, l, active, now, Sweep(libs, s, rest, active, now, applied, clock, calls));
      }
    }
  }

  lemma StaleIsNotActive(x: Execution, active: set<string>, now: Time)
    requires Stale(x, active, now)
    ensures Key(x) !in active
  {
  }

  // A report for a job that is not stored is refused.
  lemma MissingJobUnchanged(libs: Libs, s: State, x: Execution, clock: Clock)
    requires x.jobName !in s.jobs
    ensures Step(libs, s, ExecutionDoneMsg(x), clock) == s
  {
    hide ExecKey;
  }

  lemma SweptNone(libs: Libs, s: State, active: set<string>, now: Time)
    ensures SweptTo(libs, s, [], active, now, Swept(s, []))
  {
    hide Wrap32, Wrap64, DayTotal, ExecKey, Key;
    assert Marked(s.executions, [], s.jobs.Keys, active, now) == s.executions;
  }

  lemma SweptSkip(libs: Libs, s: State, l: seq<Execution>, active: set<string>, now: Time, r: Swept)
    requires l != [] && !Reported(l[0], s.jobs.Keys, active, now) && SweptTo(libs, s, l[1..], active, now, r)
    ensures SweptTo(libs, s, l, active, now,
                    if Key(l[0]) in active || Stale(l[0], active, now) then r
                    else r.(remaining := [l[0]] + r.remaining))
  {
    hide Wrap64, DayTotal, ExecKey, Key, Stale, JobSwept;
    MarkedSkip(s.executions, l, s.jobs.Keys, active, now);
    hide Marked;
    var after := r.state.jobs;
    forall n | n in s.jobs ensures JobSwept(s.jobs[n], after[n], ReportCount(l, n, active, now)) {
      assert JobSwept(s.jobs[n], after[n], ReportCount(l[1..], n, active, now));
    }
  }

  lemma UnfinishedRest(executions: ExecMap, l: seq<Execution>)
    requires Unfinished(executions, l) && l != []
    ensures Unfinished(executions, l[1..])
    ensures l[0].finishedAt == ZERO_TIME && ExecKey(l[0]) in executions && executions[ExecKey(l[0])] == l[0]
    ensures forall i | 0 <= i < |l[1..]| :: ExecKey(l[1..][i]) != ExecKey(l[0])
  {
    hide ExecKey;
    assert forall i | 0 <= i < |l[1..]| :: l[1..][i] == l[i + 1];
  }

  lemma UnfinishedAfter(executions: ExecMap, l: seq<Execution>, now: Time)
    requires Unfinished(executions, l) && l != []
    ensures ExecKey(Failed(l[0], now)) == ExecKey(l[0])
    ensures Unfinished(executions[ExecKey(l[0]) := Failed(l[0], now)], l[1..])
  {
    SameKey(l[0], now);
    hide ExecKey;
    UnfinishedRest(executions, l);
  }

  lemma MarkedEntry(
      executions: ExecMap, l: seq<Execution>, stored: set<string>, active: set<string>, now: Time, k: string)
    requires Unfinished(executions, l) && l != [] && Reported(l[0], stored, active, now) && k in executions
    ensures ExecKey(Failed(l[0], now)) == ExecKey(l[0])
    ensures MarkedOne(executions[ExecKey(l[0]) := Failed(l[0], now)][k], l[1..], stored, active, now) ==
            MarkedOne(executions[k], l, stored, active, now)
  {
    hide ExecKey, Unfinished, Failed, Reported;
    SameKey(l[0], now);
    FirstIsStored(executions, l);
    if k == ExecKey(l[0]) {
      KeyNotInRest(executions, l, Failed(l[0], now));
    } else {
      InRest(executions, l, k);
    }
  }

  lemma FirstIsStored(executions: ExecMap, l: seq<Execution>)
    requires Unfinished(executions, l) && l != []
    ensures ExecKey(l[0]) in executions && executions[ExecKey(l[0])] == l[0] && l[0] in l
  {
    hide ExecKey;
  }

  lemma KeyNotInRest(executions: ExecMap, l: seq<Execution>, y: Execution)
    requires Unfinished(executions, l) && l != [] && ExecKey(y) == ExecKey(l[0])
    ensures y !in l[1..]
  {
    hide ExecKey, Unfinished;
    UnfinishedRest(executions, l);
  }

  lemma InRest(executions: ExecMap, l: seq<Execution>, k: string)
    requires l != [] && k in executions && k != ExecKey(l[0])
    ensures executions[k] in l <==> executions[k] in l[1..]
  {
    hide ExecKey;
    assert ExecKey(executions[k]) == k;
    assert l == [l[0]] + l[1..];
  }

  lemma MarkedCons(executions: ExecMap, l: seq<Execution>, stored: set<string>, active: set<string>, now: Time)
    requires Unfinished(executions, l) && l != [] && Reported(l[0], stored, active, now)
    ensures ExecKey(Failed(l[0], now)) == ExecKey(l[0])
    ensures Marked(executions[ExecKey(l[0]) := Failed(l[0], now)], l[1..], stored, active, now) ==
            Marked(executions, l, stored, active, now)
  {
    hide ExecKey, Unfinished, MarkedOne, Reported, Failed;
    UnfinishedRest(executions, l);
    UnfinishedAfter(executions, l, now);
    forall k | k in executions
      ensures MarkedOne(executions[ExecKey(l[0]) := Failed(l[0], now)][k], l[1..], stored, active, now) ==
              MarkedOne(executions[k], l, stored, active, now)
    {
      MarkedEntry(executions, l, stored, active, now, k);
    }
  }

  lemma MarkedSkip(executions: ExecMap, l: seq<Execution>, stored: set<string>, active: set<string>, now: Time)
    requires l != [] && !Reported(l[0], stored, active, now)
    ensures Marked(executions, l[1..], stored, active, now) == Marked(executions, l, stored, active, now)
  {
    hide ExecKey, Reported, Failed;
    forall k | k in executions
      ensures MarkedOne(executions[k], l[1..], stored, active, now) == MarkedOne(executions[k], l, stored, active, now)
    {
      assert executions[k] in l <==> executions[k] == l[0] || executions[k] in l[1..];
    }
  }

  lemma SweptOnce(libs: Libs, s: State, t: State, l: seq<Execution>, active: set<string>, now: Time, r: Swept)
    requires l != [] && Stale(l[0], active, now) && l[0].jobName in s.jobs && SweptTo(libs, t, l[1..], active, now, r)
    requires Marked(t.executions, l[1..], s.jobs.Keys, active, now) == Marked(s.executions, l, s.jobs.Keys, active, now)
    requires t.jobs.Keys == s.jobs.Keys && (forall n | n in s.jobs && n != l[0].jobName :: t.jobs[n] == s.jobs[n])
    requires JobSwept(s.jobs[l[0].jobName], t.jobs[l[0].jobName], 1)
    requires DayTotal(t.stats, libs.day(now), false) == Wrap64(DayTotal(s.stats, libs.day(now), false) + 1)
    ensures SweptTo(libs, s, l, active, now, r)
  {
    hide Wrap64, DayTotal, Marked, Stale, JobSwept, Key, ExecKey;
    WrapStep(DayTotal(s.stats, libs.day(now), false) + 1, ReportTotal(l[1..], s.jobs.Keys, active, now));
    SweptJobsOnce(s.jobs, t.jobs, r.state.jobs, l, active, now);
    RecentSkips(l, active, now);
    hide SweptJobs, Recent;
  }

  lemma RecentSkips(l: seq<Execution>, active: set<string>, now: Time)
    requires l != [] && Stale(l[0], active, now)
    ensures Recent(l, active, now) == Recent(l[1..], active, now)
  {
    hide Key;
  }

  lemma SweptJobsOnce(jobs: JobMap, next: JobMap, after: JobMap, l: seq<Execution>, active: set<string>, now: Time)
    requires l != [] && Stale(l[0], active, now) && l[0].jobName in jobs && SweptJobs(next, after, l[1..], active, now)
    requires next.Keys == jobs.Keys && (forall n | n in jobs && n != l[0].jobName :: next[n] == jobs[n])
    requires JobSwept(jobs[l[0].jobName], next[l[0].jobName], 1)
    ensures SweptJobs(jobs, after, l, active, now)
  {
    hide Stale, JobSwept, ExecKey, Key;
    forall n | n in jobs ensures JobSwept(jobs[n], after[n], ReportCount(l, n, active, now)) {
      var more := ReportCount(l[1..], n, active, now);
      assert JobSwept(next[n], after[n], more);
      if n == l[0].jobName { JobSweptTwice(jobs[n], next[n], after[n], 1, more); }
    }
  }

  /** The running executions that are listed for a job are stored, different from each other, and not finished. */
  lemma RunningAreUnfinished(libs: Libs, executions: ExecMap, jobName: string)
    requires libs.Lawful()
    ensures var l := RunningIn(GetExecutions(libs, executions, jobName));
            && Unfinished(executions, l)
            && forall k | k in executions ::
                 executions[k] in l <==> k in Listed(executions, jobName) && Running(executions[k])
  {
    hide ExecKey, GetExecutions, Lists, Listed;
    var all := GetExecutions(libs, executions, jobName);
    ListingHolds(libs, executions, jobName);
    ListedAreStored(executions, jobName);
    RunningSublist(all);
    var l := RunningIn(all);
    forall i | 0 <= i < |l| ensures ExecKey(l[i]) in executions && executions[ExecKey(l[i])] == l[i] && Running(l[i]) {
      assert l[i] in all;
    }
    forall k | k in executions ensures executions[k] in all <==> k in Listed(executions, jobName) {
      assert ExecKey(executions[k]) == k;
    }
  }

  lemma {:induction false} RunningSublist(l: seq<Execution>)
    requires AllDistinct(l)
    ensures AllDistinct(RunningIn(l)) && forall x :: x in RunningIn(l) <==> x in l && Running(x)
  {
    if l != [] {
      assert l == [l[0]] + l[1..];
      RunningSublist(l[1..]);
      assert l[0] !in l[1..];
    }
  }

  lemma {:induction false} RecentAre(l: seq<Execution>, active: set<string>, now: Time, x: Execution)
    ensures x in Recent(l, active, now) <==> x in l && Key(x) !in active && now - x.startedAt <= STALE_THRESHOLD
  {
    hide Key;
    if l != [] { RecentAre(l[1..], active, now, x); }
  }

  // The running records that are listed for a job.
  function RunningOf(libs: Libs, executions: ExecMap, jobName: string): seq<Execution> {
    RunningIn(GetExecutions(libs, executions, jobName))
  }

  predicate IsRunningOf(executions: ExecMap, jobName: string, k: string) {
    k in Listed(executions, jobName) && k in executions && Running(executions[k])
  }

  /** When every report is applied, the cleanup divides the running records that are listed for a job: those whose key
      is active, and those that are returned, which are within the threshold, stay as they are; of the others, every
      one whose job is stored is finished and failed afterwards. The error count of each job rises by the number of its
      records among the latter, and the day's failures by the number of all of them. No other record and no other field
      changes. */
  lemma CleanupPartitions(
      libs: Libs, s: State, jobName: string, active: set<string>, now: Time, applied: nat -> bool, clock: Clock)
    requires libs.Lawful() && now > ZERO_TIME && forall i: nat :: applied(i)
    ensures var l := RunningOf(libs, s.executions, jobName);
            var r := Sweep(libs, s, l, active, now, applied, clock, 0);
            && SweptTo(libs, s, l, active, now, r)
            && r.state.executions.Keys == s.executions.Keys
            && forall k | k in s.executions ::
                 var was, is_ := s.executions[k], r.state.executions[k];
                 if IsRunningOf(s.executions, jobName, k) && Reported(was, s.jobs.Keys, active, now) then
                   && is_ == was.(finishedAt := now, success := false, output := was.output + STALE_OUTPUT)
                   && !Running(is_)
                 else
                   && is_ == was
                   && (IsRunningOf(s.executions, jobName, k) && !Stale(was, active, now) ==>
                         (Key(was) in active) != (was in r.remaining))
  {
    hide ExecKey, Key, GetExecutions, Sweep, SweptTo, Unfinished, Listed, Wrap32, Wrap64;
    var l := RunningOf(libs, s.executions, jobName);
    RunningAreUnfinished(libs, s.executions, jobName);
    SweepHolds(libs, s, l, active, now, applied, clock, 0);
    SweptExecutions(libs, s, l, active, now, Sweep(libs, s, l, active, now, applied, clock, 0));
    forall x
      ensures x in Recent(l, active, now) <==>
              x in l && Key(x) !in active && now - x.startedAt <= STALE_THRESHOLD
    {
      RecentAre(l, active, now, x);
    }
  }

  lemma SweptExecutions(libs: Libs, s: State, l: seq<Execution>, active: set<string>, now: Time, r: Swept)
    requires SweptTo(libs, s, l, active, now, r)
    ensures r.remaining == Recent(l, active, now)
    ensures r.state.executions == Marked(s.executions, l, s.jobs.Keys, active, now)
  {
  }

  /** Is every running record of the job accounted for: active, or returned? */
  ghost predicate Accounted(executions: ExecMap, jobName: string, active: set<string>, remaining: seq<Execution>) {
    forall k {:trigger IsRunningOf(executions, jobName, k)} | IsRunningOf(executions, jobName, k) ::
      Key(executions[k]) in active || executions[k] in remaining
  }

  /** The cleanup accounts for every running record that is listed for the job exactly when no stale one among them
      belongs to a job that is not stored. */
  lemma CleanupAccountsIff(
      libs: Libs, s: State, jobName: string, active: set<string>, now: Time, applied: nat -> bool, clock: Clock)
    requires libs.Lawful() && now > ZERO_TIME && forall i: nat :: applied(i)
    ensures var r := Sweep(libs, s, RunningOf(libs, s.executions, jobName), active, now, applied, clock, 0);
            Accounted(r.state.executions, jobName, active, r.remaining) <==>
              forall k {:trigger IsRunningOf(s.executions, jobName, k)} | IsRunningOf(s.executions, jobName, k) ::
                Stale(s.executions[k], active, now) ==> s.executions[k].jobName in s.jobs
  {
    hide ExecKey, Key, GetExecutions, Sweep, SweptTo, Lists, Libs.Lawful, RunningOf;
    CleanupPartitions(libs, s, jobName, active, now, applied, clock);
    var l := RunningOf(libs, s.executions, jobName);
    var r := Sweep(libs, s, l, active, now, applied, clock, 0);
    SweptExecutions(libs, s, l, active, now, r);
    forall k ensures k in Listed(r.state.executions, jobName) <==> k in Listed(s.executions, jobName) {
    }
    forall k | IsRunningOf(s.executions, jobName, k) && Stale(s.executions[k], active, now)
      ensures s.executions[k] !in r.remaining
    {
      RecentAre(l, active, now, s.executions[k]);
    }
    AccountedIff(s.executions, r.state.executions, jobName, s.jobs.Keys, active, now, r.remaining);
  }

  lemma AccountedIff(
    executions: ExecMap, after: ExecMap, jobName: string, stored: set<string>, active: set<string>, now: Time,
    remaining: seq<Execution>)
    requires forall k :: k in Listed(after, jobName) <==> k in Listed(executions, jobName)
    requires after.Keys == executions.Keys
    requires forall k | k in executions ::
               if IsRunningOf(executions, jobName, k) && Reported(executions[k], stored, active, now)
               then !Running(after[k])
               else
                 && after[k] == executions[k]
                 && (IsRunningOf(executions, jobName, k) && !Stale(executions[k], active, now) ==>
                       (Key(executions[k]) in active) != (executions[k] in remaining))
    requires forall k | IsRunningOf(executions, jobName, k) && Stale(executions[k], active, now) ::
             executions[k] !in remaining
    ensures Accounted(after, jobName, active, remaining) <==>
            forall k {:trigger IsRunningOf(executions, jobName, k)} | IsRunningOf(executions, jobName, k) ::
              Stale(executions[k], active, now) ==> executions[k].jobName in stored
  {
    hide ExecKey, Key, Listed, Running;
    forall k ensures IsRunningOf(after, jobName, k) <==>
                     IsRunningOf(executions, jobName, k) && !Reported(executions[k], stored, active, now)
    {
    }
  }

  /** For names without a colon that is always so: then exactly the job's own records are listed. */
  lemma PlainCleanupAccounts(
      libs: Libs, s: State, jobName: string, active: set<string>, now: Time, applied: nat -> bool, clock: Clock)
    requires libs.Lawful() && now > ZERO_TIME && forall i: nat :: applied(i)
    requires PlainNames(s.executions) && NoColon(jobName) && jobName in s.jobs
    ensures var r := Sweep(libs, s, RunningOf(libs, s.executions, jobName), active, now, applied, clock, 0);
            && Accounted(r.state.executions, jobName, active, r.remaining)
            && forall k :: IsRunningOf(s.executions, jobName, k) <==>
                 k in s.executions && s.executions[k].jobName == jobName && Running(s.executions[k])
  {
    hide ExecKey, Key, GetExecutions, Sweep, Lists, Libs.Lawful, RunningOf, Accounted, NoColon, PlainNames;
    CleanupAccountsIff(libs, s, jobName, active, now, applied, clock);
    ListedAreRecords(s.executions, jobName);
  }

  /** Goes through the running executions that the store lists. */
  method CleanupStaleRunningExecutions(
      store: FlatStore.Store, jobName: string, active: set<string>, now: Time, applied: nat -> bool, clock: Clock)
    returns (remainingRunning: seq<Execution>)
    requires store.Valid()
    modifies store
    ensures store.Valid()
    ensures Swept(store.view, remainingRunning) ==
            Sweep(store.libs, old(store.view), RunningOf(store.libs, old(store.view.executions), jobName),
                  active, now, applied, clock, 0)
  {
    hide ExecKey, Key, RunningOf, Step, Sweep, FlatStore.Store.Valid;
    var runningExecs := store.GetRunningExecutions(jobName);
    RunningAsListed(store.libs, store.view.executions, jobName);
    remainingRunning := [];
    var calls := 0;
    assert runningExecs[0..] == runningExecs;
    for i := 0 to |runningExecs|
      invariant store.Valid()
      invariant Sweep(store.libs, old(store.view), runningExecs, active, now, applied, clock, 0) ==
                Behind(remainingRunning,
                    Sweep(store.libs, store.view, runningExecs[i..], active, now, applied, clock, calls))
    {
      SweepNext(store.libs, store.view, runningExecs, i, active, now, applied, clock, calls, remainingRunning);
      var exec := runningExecs[i];
      if Key(exec) in active {
        continue;
      }
      if now - exec.startedAt <= STALE_THRESHOLD {
        remainingRunning := remainingRunning + [exec];
        continue;
      }
      exec := exec.(finishedAt := now, success := false, output := exec.output + STALE_OUTPUT);
      if applied(calls) {
        var _ := store.Apply(ExecutionDoneMsg(exec), clock);
      } else {
        remainingRunning := remainingRunning + [exec];
      }
      calls := calls + 1;
    }
    assert runningExecs[|runningExecs|..] == [];
    SweepNothing(store.libs, store.view, active, now, applied, clock, calls);
  }

  lemma RunningAsListed(libs: Libs, executions: ExecMap, jobName: string)
    ensures RunningOf(libs, executions, jobName) == RunningIn(GetExecutions(libs, executions, jobName))
  {
  }

  // What a sweep returns behind earlier records.
  function Behind(front: seq<Execution>, r: Swept): Swept {
    r.(remaining := front + r.remaining)
  }

  lemma SweepNothing(
      libs: Libs, s: State, active: set<string>, now: Time, applied: nat -> bool, clock: Clock, calls: nat)
    ensures Sweep(libs, s, [], active, now, applied, clock, calls) == Swept(s, [])
  {
  }

  /** The sweep of the entries from `i` on: entry `i`, and then the others. */
  lemma SweepNext(
    libs: Libs, s: State, l: seq<Execution>, i: nat, active: set<string>, now: Time, applied: nat -> bool, clock: Clock,
    calls: nat, front: seq<Execution>)
    requires i < |l|
    ensures var x := Failed(l[i], now);
            Behind(front, Sweep(libs, s, l[i..], active, now, applied, clock, calls)) ==
              if Key(l[i]) in active then Behind(front, Sweep(libs, s, l[i + 1..], active, now, applied, clock, calls))
              else if now - l[i].startedAt <= STALE_THRESHOLD then
                Behind(front + [l[i]], Sweep(libs, s, l[i + 1..], active, now, applied, clock, calls))
              else if applied(calls) then
                Behind(front, Sweep(libs, Step(libs, s, ExecutionDoneMsg(x), clock), l[i + 1..], active, now, applied,
                    clock, calls + 1))
              else Behind(front + [x], Sweep(libs, s, l[i + 1..], active, now, applied, clock, calls + 1))
  {
    hide ExecKey, Key, Step, Failed;
    assert l[i..][0] == l[i] && l[i..][1..] == l[i + 1..];
    Reassociate(front, l[i], Sweep(libs, s, l[i + 1..], active, now, applied, clock, calls).remaining);
    Reassociate(front, Failed(l[i], now), Sweep(libs, s, l[i + 1..], active, now, applied, clock, calls + 1).remaining);
  }

  lemma Reassociate(front: seq<Execution>, x: Execution, rest: seq<Execution>)
    ensures front + ([x] + rest) == front + [x] + rest
  {
  }

  // ---- May a job run? ----

  // What a job learns from outside the store before it runs.
  datatype Surroundings = Surroundings(
    atStart: Time,
    atExpiry: Time,
    atCleanup: Time,
    globalLock: bool,
    // The executions that are active on any node, unless they cannot be asked for.
    active: Option<seq<Execution>>,
    // Which reports of the cleanup are applied?
    applied: nat -> bool,
    clock: Clock
  )

  function ActiveKeys(l: seq<Execution>): set<string> {
    set x | x in l :: Key(x)
  }

  // Nothing in the job's own settings stands against its running.
  predicate IsDue(job: Job, around: Surroundings) {
    && !job.spec.disabled
    && !(job.spec.startsAt.Some? && around.atStart < job.spec.startsAt.value)
    && !(job.spec.expiresAt.Some? && around.atExpiry > job.spec.expiresAt.value)
    && !around.globalLock
  }

  // The execution of the job that is active on some node.
  predicate IsActive(job: Job, l: seq<Execution>) {
    exists x :: x in l && x.jobName == job.name
  }

  datatype Decision = Decision(state: State, runnable: bool)

  /** A job that forbids concurrent runs waits for its active executions, and for those that a cleanup leaves. */
  function Decide(libs: Libs, s: State, job: Job, around: Surroundings): Decision {
    if !IsDue(job, around) then Decision(s, false)
    else if job.spec.concurrency != CONCURRENCY_FORBID then Decision(s, true)
    else if around.active.None? || IsActive(job, around.active.value) then Decision(s, false)
    else
      var running := RunningOf(libs, s.executions, job.name);
      var r := Sweep(libs, s, running, ActiveKeys(around.active.value), around.atCleanup, around.applied, around.clock,
          0);
      Decision(r.state, r.remaining == [])
  }

  /** Decides whether a job runs now. */
  method IsRunnable(store: FlatStore.Store, job: Job, around: Surroundings) returns (runnable: bool)
    requires store.Valid()
    modifies store
    ensures store.Valid() && Decision(store.view, runnable) == Decide(store.libs, old(store.view), job, around)
  {
    hide ExecKey, Key, GetExecutions, Step, Sweep, FlatStore.Store.Valid;
    if job.spec.disabled {
      return false;
    }
    if job.spec.startsAt.Some? && around.atStart < job.spec.startsAt.value {
      return false;
    }
    if job.spec.expiresAt.Some? && around.atExpiry > job.spec.expiresAt.value {
      return false;
    }
    if around.globalLock {
      return false;
    }
    if job.spec.concurrency == CONCURRENCY_FORBID {
      if around.active.None? {
        return false;
      }
      var exs := around.active.value;
      for i := 0 to |exs|
        invariant forall k | 0 <= k < i :: exs[k].jobName != job.name
        invariant store.Valid() && store.view == old(store.view)
      {
        if exs[i].jobName == job.name {
          return false;
        }
      }
      var runningExecs :=
        CleanupStaleRunningExecutions(store, job.name, ActiveKeys(exs), around.atCleanup, around.applied, around.clock);
      if |runningExecs| > 0 {
        return false;
      }
    }
    return true;
  }

  // How many stale records come before position `i`?
  function StaleBefore(l: seq<Execution>, i: nat, active: set<string>, now: Time): nat
    requires i <= |l|
  {
    if i == 0 then 0 else StaleBefore(l, i - 1, active, now) + if Stale(l[i - 1], active, now) then 1 else 0
  }

  lemma {:induction false} StaleBeforeRest(l: seq<Execution>, i: nat, active: set<string>, now: Time)
    requires l != [] && i <= |l[1..]|
    ensures StaleBefore(l, i + 1, active, now) ==
            (if Stale(l[0], active, now) then 1 else 0) + StaleBefore(l[1..], i, active, now)
  {
    hide Stale;
    if i > 0 { StaleBeforeRest(l, i - 1, active, now); }
  }

  // Does the sweep leave the record at position `i` behind?
  predicate Cleared(
    l: seq<Execution>, i: nat, active: set<string>, now: Time, applied: nat -> bool, calls: nat)
    requires i < |l|
  {
    Key(l[i]) in active || (now - l[i].startedAt > STALE_THRESHOLD && applied(calls + StaleBefore(l, i, active, now)))
  }

  predicate AllCleared(l: seq<Execution>, active: set<string>, now: Time, applied: nat -> bool, calls: nat) {
    forall i | 0 <= i < |l| :: Cleared(l, i, active, now, applied, calls)
  }

  lemma AllClearedRest(l: seq<Execution>, active: set<string>, now: Time, applied: nat -> bool, calls: nat)
    requires l != []
    ensures AllCleared(l, active, now, applied, calls) <==>
            && (Key(l[0]) in active || (Stale(l[0], active, now) && applied(calls)))
            && AllCleared(l[1..], active, now, applied, if Stale(l[0], active, now) then calls + 1 else calls)
  {
    hide Key;
    var rest, more := l[1..], if Stale(l[0], active, now) then calls + 1 else calls;
    forall i | 0 < i < |l|
      ensures Cleared(l, i, active, now, applied, calls) == Cleared(rest, i - 1, active, now, applied, more)
    {
      StaleBeforeRest(l, i - 1, active, now);
      assert rest[i - 1] == l[i];
    }
    if AllCleared(l, active, now, applied, calls) {
      assert Cleared(l, 0, active, now, applied, calls);
      forall i | 0 <= i < |rest| ensures Cleared(rest, i, active, now, applied, more) {
        assert Cleared(l, i + 1, active, now, applied, calls);
      }
    }
  }

  /** A sweep returns nothing exactly when every record is active, or stale and its report applied. */
  lemma {:induction false} SweepClearsIff(
    libs: Libs, s: State, l: seq<Execution>, active: set<string>, now: Time, applied: nat -> bool, clock: Clock,
    calls: nat)
    ensures Sweep(libs, s, l, active, now, applied, clock, calls).remaining == [] <==>
            AllCleared(l, active, now, applied, calls)
    decreases |l|
  {
    hide Step, Key, Cleared;
    if l != [] {
      var x := l[0];
      var more := if Stale(x, active, now) then calls + 1 else calls;
      var t := if Stale(x, active, now) && applied(calls) then Step(libs, s, ExecutionDoneMsg(Failed(x, now)), clock)
               else s;
      SweepClearsIff(libs, t, l[1..], active, now, applied, clock, more);
      AllClearedRest(l, active, now, applied, calls);
      hide AllCleared;
    }
  }

  /** When a job runs. A job that is disabled, that has not started or has expired, and any job under the global lock
      does not run. Any other job runs at once unless it forbids concurrent runs. Then it runs exactly when the active
      executions are known, none of them is the job's own, and each running record that is listed for it has the key
      of an active execution, or is stale and its report is applied. Only in this last case is anything cleaned up. */
  lemma RunnableIff(libs: Libs, s: State, job: Job, around: Surroundings)
    ensures var spec, r := job.spec, Decide(libs, s, job, around);
            var running := RunningOf(libs, s.executions, job.name);
            var waits := spec.disabled || around.globalLock
                         || (spec.startsAt.Some? && around.atStart < spec.startsAt.value)
                         || (spec.expiresAt.Some? && around.atExpiry > spec.expiresAt.value);
            var known := around.active.Some? && forall x | x in around.active.value :: x.jobName != job.name;
            && (waits ==> r == Decision(s, false))
            && (!waits && spec.concurrency != "forbid" ==> r == Decision(s, true))
            && (!waits && spec.concurrency == "forbid" && !known ==> r == Decision(s, false))
            && (!waits && spec.concurrency == "forbid" && known ==>
                  var active := set x | x in around.active.value :: Key(x);
                  r.runnable <==> forall i | 0 <= i < |running| ::
                    Cleared(running, i, active, around.atCleanup, around.applied, 0))
  {
    hide RunningOf, Sweep, Key, Cleared;
    if around.active.Some? {
      SweepClearsIff(libs, s, RunningOf(libs, s.executions, job.name), ActiveKeys(around.active.value),
                     around.atCleanup, around.applied, around.clock, 0);
      assert ActiveKeys(around.active.value) == set x | x in around.active.value :: Key(x);
    }
  }

  /** May the job run, by what it and the store say? */
  ghost predicate MayRun(libs: Libs, s: State, job: Job, around: Surroundings) {
    && !job.spec.disabled && !around.globalLock
    && (job.spec.startsAt.Some? ==> around.atStart >= job.spec.startsAt.value)
    && (job.spec.expiresAt.Some? ==> around.atExpiry <= job.spec.expiresAt.value)
    && (job.spec.concurrency == "forbid" ==>
          && around.active.Some? && (forall x | x in around.active.value :: x.jobName != job.name)
          && AllCleared(RunningOf(libs, s.executions, job.name), ActiveKeys(around.active.value),
                        around.atCleanup, around.applied, 0))
  }

  lemma DecidesMayRun(libs: Libs, s: State, job: Job, around: Surroundings)
    ensures Decide(libs, s, job, around).runnable <==> MayRun(libs, s, job, around)
  {
    hide RunningOf, Sweep, Key, Cleared;
    RunnableIff(libs, s, job, around);
    if around.active.Some? {
      assert ActiveKeys(around.active.value) == set x | x in around.active.value :: Key(x);
    }
  }

  // ---- Reports that are not applied ----

  /** The records whose reports are applied. */
  function Applied(l: seq<Execution>, active: set<string>, now: Time, applied: nat -> bool, calls: nat)
    : seq<Execution>
  {
    if l == [] then []
    else if !Stale(l[0], active, now) then Applied(l[1..], active, now, applied, calls)
    else (if applied(calls) then [l[0]] else []) + Applied(l[1..], active, now, applied, calls + 1)
  }

  predicate AppliedAt(l: seq<Execution>, i: nat, active: set<string>, now: Time, applied: nat -> bool, calls: nat)
    requires i < |l|
  {
    Stale(l[i], active, now) && applied(calls + StaleBefore(l, i, active, now))
  }

  lemma AppliedAtRest(l: seq<Execution>, i: nat, active: set<string>, now: Time, applied: nat -> bool, calls: nat)
    requires 0 < i < |l|
    ensures AppliedAt(l, i, active, now, applied, calls) <==>
            AppliedAt(l[1..], i - 1, active, now, applied, if Stale(l[0], active, now) then calls + 1 else calls)
  {
    hide Stale;
    StaleBeforeRest(l, i - 1, active, now);
    assert l[1..][i - 1] == l[i];
  }

  lemma {:induction false} AppliedAre(
    l: seq<Execution>, active: set<string>, now: Time, applied: nat -> bool, calls: nat, x: Execution)
    ensures x in Applied(l, active, now, applied, calls) <==>
            exists i :: 0 <= i < |l| && l[i] == x && AppliedAt(l, i, active, now, applied, calls)
  {
    hide Stale;
    if l != [] {
      var more := if Stale(l[0], active, now) then calls + 1 else calls;
      AppliedAre(l[1..], active, now, applied, more, x);
      if i :| 0 <= i < |l[1..]| && l[1..][i] == x && AppliedAt(l[1..], i, active, now, applied, more) {
        AppliedAtRest(l, i + 1, active, now, applied, calls);
        assert l[i + 1] == x;
      }
      if i :| 0 < i < |l| && l[i] == x && AppliedAt(l, i, active, now, applied, calls) {
        AppliedAtRest(l, i, active, now, applied, calls);
        assert l[1..][i - 1] == x;
      }
      assert Stale(l[0], active, now) && applied(calls) <==> AppliedAt(l, 0, active, now, applied, calls);
    }
  }

  // All reports of the remaining records are applied.
  function Always(): nat -> bool {
    (call: nat) => true
  }

  lemma StaleIsApplied(
    libs: Libs, s: State, x: Execution, rest: seq<Execution>, active: set<string>, now: Time, clock: Clock, calls: nat)
    requires Stale(x, active, now)
    ensures var t := Step(libs, s, ExecutionDoneMsg(Failed(x, now)), clock);
            Sweep(libs, s, [x] + rest, active, now, Always(), clock, calls) ==
            Sweep(libs, t, rest, active, now, Always(), clock, calls + 1)
  {
    hide Step, Key, Failed;
    assert ([x] + rest)[1..] == rest;
    StaleIsNotActive(x, active, now);
  }

  /** A sweep leaves the state that a sweep of the records with applied reports alone leaves. */
  lemma {:induction false} SweepAppliesOnly(
    libs: Libs, s: State, l: seq<Execution>, active: set<string>, now: Time, applied: nat -> bool, clock: Clock,
    calls: nat, others: nat)
    ensures Sweep(libs, s, l, active, now, applied, clock, calls).state ==
            Sweep(libs, s, Applied(l, active, now, applied, calls), active, now, Always(), clock, others).state
    decreases |l|
  {
    hide Step, Key, Failed;
    if l != [] {
      var x, rest := l[0], l[1..];
      if !Stale(x, active, now) {
        SweepAppliesOnly(libs, s, rest, active, now, applied, clock, calls, others);
      } else if applied(calls) {
        var t := Step(libs, s, ExecutionDoneMsg(Failed(x, now)), clock);
        SweepAppliesOnly(libs, t, rest, active, now, applied, clock, calls + 1, others + 1);
        StaleIsApplied(libs, s, x, Applied(rest, active, now, applied, calls + 1), active, now, clock, others);
        StaleIsNotActive(x, active, now);
      } else {
        SweepAppliesOnly(libs, s, rest, active, now, applied, clock, calls + 1, others);
        assert [] + Applied(rest, active, now, applied, calls + 1) == Applied(rest, active, now, applied, calls + 1);
        StaleIsNotActive(x, active, now);
      }
    }
  }

  lemma {:induction false} AppliedUnfinished(
    executions: ExecMap, l: seq<Execution>, active: set<string>, now: Time, applied: nat -> bool, calls: nat)
    requires Unfinished(executions, l)
    ensures Unfinished(executions, Applied(l, active, now, applied, calls))
    decreases |l|
  {
    hide ExecKey, Stale, Unfinished;
    if l == [] {
    } else {
      var more := if Stale(l[0], active, now) then calls + 1 else calls;
      UnfinishedRest(executions, l);
      AppliedUnfinished(executions, l[1..], active, now, applied, more);
      var rest := Applied(l[1..], active, now, applied, more);
      assert [] + rest == rest;
      forall x | x in rest ensures x in l[1..] {
        AppliedAre(l[1..], active, now, applied, more, x);
      }
      UnfinishedCons(executions, l, rest);
    }
  }

  lemma UnfinishedCons(executions: ExecMap, l: seq<Execution>, some: seq<Execution>)
    requires Unfinished(executions, l) && l != [] && Unfinished(executions, some)
    requires forall x | x in some :: x in l[1..]
    ensures Unfinished(executions, [l[0]] + some)
  {
    hide ExecKey;
    var all := [l[0]] + some;
    forall i | 0 <= i < |some| ensures ExecKey(some[i]) != ExecKey(l[0]) {
      assert some[i] in l[1..];
      var k :| 0 <= k < |l[1..]| && l[1..][k] == some[i];
      assert l[k + 1] == some[i];
    }
  }

  // What is returned for the record at a position, if anything is.
  predicate ReturnedAt(
    l: seq<Execution>, i: nat, active: set<string>, now: Time, applied: nat -> bool, calls: nat, x: Execution)
    requires i < |l|
  {
    && Key(l[i]) !in active
    && if now - l[i].startedAt <= STALE_THRESHOLD then x == l[i]
       else !applied(calls + StaleBefore(l, i, active, now))
            && x == l[i].(finishedAt := now, success := false, output := l[i].output + STALE_OUTPUT)
  }

  lemma ReturnedAtRest(
    l: seq<Execution>, i: nat, active: set<string>, now: Time, applied: nat -> bool, calls: nat, x: Execution)
    requires 0 < i < |l|
    ensures ReturnedAt(l, i, active, now, applied, calls, x) <==>
            ReturnedAt(l[1..], i - 1, active, now, applied, if Stale(l[0], active, now) then calls + 1 else calls, x)
  {
    hide Stale, Key;
    StaleBeforeRest(l, i - 1, active, now);
    assert l[1..][i - 1] == l[i];
  }

  /** What a sweep returns: the recent records, and those whose report was not applied, as they were reported. */
  lemma {:induction false} SweepReturns(
    libs: Libs, s: State, l: seq<Execution>, active: set<string>, now: Time, applied: nat -> bool, clock: Clock,
    calls: nat, x: Execution)
    ensures x in Sweep(libs, s, l, active, now, applied, clock, calls).remaining <==>
            exists i :: 0 <= i < |l| && ReturnedAt(l, i, active, now, applied, calls, x)
    decreases |l|
  {
    hide Step, Key;
    if l != [] {
      var more := if Stale(l[0], active, now) then calls + 1 else calls;
      var t := if Stale(l[0], active, now) && applied(calls)
               then Step(libs, s, ExecutionDoneMsg(Failed(l[0], now)), clock) else s;
      SweepReturns(libs, t, l[1..], active, now, applied, clock, more, x);
      ReturnedFirst(l, active, now, applied, calls, x);
      hide ReturnedAt;
    }
  }

  lemma ReturnedFirst(
    l: seq<Execution>, active: set<string>, now: Time, applied: nat -> bool, calls: nat, x: Execution)
    requires l != []
    ensures (exists i :: 0 <= i < |l| && ReturnedAt(l, i, active, now, applied, calls, x)) <==>
            var rest, more := l[1..], if Stale(l[0], active, now) then calls + 1 else calls;
            || ReturnedAt(l, 0, active, now, applied, calls, x)
            || exists i :: 0 <= i < |rest| && ReturnedAt(rest, i, active, now, applied, more, x)
  {
    hide Stale, ReturnedAt;
    var more := if Stale(l[0], active, now) then calls + 1 else calls;
    if i :| 0 < i < |l| && ReturnedAt(l, i, active, now, applied, calls, x) {
      ReturnedAtRest(l, i, active, now, applied, calls, x);
    }
    if i :| 0 <= i < |l[1..]| && ReturnedAt(l[1..], i, active, now, applied, more, x) {
      ReturnedAtRest(l, i + 1, active, now, applied, calls, x);
    }
  }

  /** Whichever reports are applied: a record that is listed for the job as running, is stale and has its report
      applied, is finished and failed afterwards when its job is stored, and every other record stays as it is. Error
      counts rise by the reports of each job, and the day's failures by all of them. */
  lemma CleanupMarks(
      libs: Libs, s: State, jobName: string, active: set<string>, now: Time, applied: nat -> bool, clock: Clock)
    requires libs.Lawful() && now > ZERO_TIME
    ensures var l := RunningOf(libs, s.executions, jobName);
            var reported := Applied(l, active, now, applied, 0);
            var t := Sweep(libs, s, l, active, now, applied, clock, 0).state;
            && t.executions.Keys == s.executions.Keys && SweptJobs(s.jobs, t.jobs, reported, active, now)
            && Wrap64(DayTotal(t.stats, libs.day(now), false)) ==
               Wrap64(DayTotal(s.stats, libs.day(now), false) + ReportTotal(reported, s.jobs.Keys, active, now))
            && forall k | k in s.executions ::
                 var was := s.executions[k];
                 t.executions[k] ==
                   if was.jobName in s.jobs
                      && exists i :: 0 <= i < |l| && l[i] == was && AppliedAt(l, i, active, now, applied, 0)
                   then was.(finishedAt := now, success := false, output := was.output + STALE_OUTPUT)
                   else was
  {
    hide ExecKey, Key, GetExecutions, Sweep, Unfinished, Listed, Wrap32, Wrap64, SweptJobs, ReportTotal, Applied;
    var l := RunningOf(libs, s.executions, jobName);
    var reported := Applied(l, active, now, applied, 0);
    RunningAreUnfinished(libs, s.executions, jobName);
    AppliedUnfinished(s.executions, l, active, now, applied, 0);
    SweepAppliesOnly(libs, s, l, active, now, applied, clock, 0, 0);
    SweepHolds(libs, s, reported, active, now, Always(), clock, 0);
    hide RunningOf;
    forall k | k in s.executions
      ensures s.executions[k] in reported <==>
              exists i :: 0 <= i < |l| && l[i] == s.executions[k] && AppliedAt(l, i, active, now, applied, 0)
    {
      AppliedAre(l, active, now, applied, 0, s.executions[k]);
    }
    hide AppliedAt;
  }

  /** When every report is applied, a job that forbids concurrent runs and is otherwise free to run does so exactly when
      each running record that is listed for it is active, or older than four hours. */
  lemma ForbiddingRunsIff(libs: Libs, s: State, job: Job, around: Surroundings)
    requires libs.Lawful() && job.spec.concurrency == "forbid" && forall i: nat :: around.applied(i)
    requires !job.spec.disabled && !around.globalLock
    requires job.spec.startsAt.Some? ==> around.atStart >= job.spec.startsAt.value
    requires job.spec.expiresAt.Some? ==> around.atExpiry <= job.spec.expiresAt.value
    ensures Decide(libs, s, job, around).runnable <==>
            && around.active.Some?
            && (forall x | x in around.active.value :: x.jobName != job.name)
            && forall k {:trigger IsRunningOf(s.executions, job.name, k)} | IsRunningOf(s.executions, job.name, k) ::
                 || (exists x :: x in around.active.value && Key(x) == Key(s.executions[k]))
                 || around.atCleanup - s.executions[k].startedAt > 4 * 3600 * NANOS_PER_SECOND
  {
    hide ExecKey, Key, GetExecutions, Decide, Libs.Lawful, Listed;
    RunnableIff(libs, s, job, around);
    RunningAreUnfinished(libs, s.executions, job.name);
    if around.active.Some? {
      ClearedByKey(s.executions, job.name, RunningOf(libs, s.executions, job.name), ActiveKeys(around.active.value),
                   around);
    }
  }

  lemma ClearedByKey(
      executions: ExecMap, jobName: string, l: seq<Execution>, active: set<string>, around: Surroundings)
    requires Unfinished(executions, l) && forall i: nat :: around.applied(i)
    requires forall k | k in executions ::
               executions[k] in l <==> k in Listed(executions, jobName) && Running(executions[k])
    ensures (forall i | 0 <= i < |l| :: Cleared(l, i, active, around.atCleanup, around.applied, 0)) <==>
            forall k {:trigger IsRunningOf(executions, jobName, k)} | IsRunningOf(executions, jobName, k) ::
              Key(executions[k]) in active || around.atCleanup - executions[k].startedAt > STALE_THRESHOLD
  {
    hide ExecKey, Key, Listed, Running;
    if forall i | 0 <= i < |l| :: Cleared(l, i, active, around.atCleanup, around.applied, 0) {
      forall k | IsRunningOf(executions, jobName, k)
        ensures Key(executions[k]) in active || around.atCleanup - executions[k].startedAt > STALE_THRESHOLD
      {
        var i :| 0 <= i < |l| && l[i] == executions[k];
        assert Cleared(l, i, active, around.atCleanup, around.applied, 0);
      }
    } else {
      var i :| 0 <= i < |l| && !Cleared(l, i, active, around.atCleanup, around.applied, 0);
      assert IsRunningOf(executions, jobName, ExecKey(l[i]));
    }
  }

  /** When a job that forbids concurrent runs may run, and the cleanup could report what it found, then the running
      records that are still listed for the job have the key of an active execution of another job, or belong to a job
      that is not stored. */
  lemma RunnableHasNothingRunning(libs: Libs, s: State, job: Job, around: Surroundings, k: string)
    requires libs.Lawful() && around.atCleanup > ZERO_TIME && forall i: nat :: around.applied(i)
    requires job.spec.concurrency == CONCURRENCY_FORBID && Decide(libs, s, job, around).runnable
    ensures var t := Decide(libs, s, job, around).state;
            && around.active.Some?
            && (IsRunningOf(s.executions, job.name, k) && k in t.executions && Running(t.executions[k]) ==>
                  || t.executions[k].jobName !in s.jobs
                  || exists x :: x in around.active.value && Key(x) == Key(t.executions[k]) && x.jobName != job.name)
  {
    hide ExecKey, Key, GetExecutions, Sweep, SweptTo, Libs.Lawful, Listed, RunningOf;
    var active := around.active.value;
    CleanupPartitions(libs, s, job.name, ActiveKeys(active), around.atCleanup, around.applied, around.clock);
    var t := Decide(libs, s, job, around).state;
    if IsRunningOf(s.executions, job.name, k) && k in t.executions && Running(t.executions[k])
       && t.executions[k].jobName in s.jobs
    {
      assert Key(t.executions[k]) in ActiveKeys(active);
      var x :| x in active && Key(x) == Key(t.executions[k]);
      assert x.jobName != job.name;
    }
  }
}
