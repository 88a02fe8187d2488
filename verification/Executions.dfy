/** Execution records: listings, the classification of a group, eviction over the limit, and the rule that the last
    writer by finish time wins. */
module Executions {
  import opened Wrappers
  import opened Types
  import opened Keys
  import opened Commands
  import opened Fsm

  // ---- Listings ----

  // The keys of a listing of the job's executions.
  function Listed(executions: ExecMap, jobName: string): set<string> {
    set k | k in executions && Lists(ListPrefix(jobName), k)
  }

  /** The keys of the records of a job. */
  function RecordsOf(executions: ExecMap, jobName: string): set<string> {
    set k | k in executions && executions[k].jobName == jobName
  }

  ghost predicate PlainNames(executions: ExecMap) {
    forall k | k in executions :: NoColon(executions[k].jobName)
  }

  /** For names without a colon, what is listed under a job's name are the job's own records. */
  lemma ListedAreRecords(executions: ExecMap, jobName: string)
    requires PlainNames(executions) && NoColon(jobName)
    ensures Listed(executions, jobName) == RecordsOf(executions, jobName)
  {
    forall k | k in executions ensures Lists(ListPrefix(jobName), k) <==> executions[k].jobName == jobName {
      assert ExecKey(executions[k]) == k;
      ListingSelects(jobName, executions[k]);
    }
  }

  lemma ListedAreStored(executions: ExecMap, jobName: string)
    ensures Listed(executions, jobName) <= executions.Keys
  {
    hide ExecKey, Lists;
  }

  ghost predicate AllDistinct<T>(l: seq<T>) {
    forall i, j | 0 <= i < j < |l| :: l[i] != l[j]
  }

  lemma {:induction false} DistinctHoldsOnce<T>(l: seq<T>)
    requires AllDistinct(l)
    ensures forall x | x in l :: multiset(l)[x] == 1
  {
    if l != [] {
      DistinctHoldsOnce(l[1..]);
      assert l == [l[0]] + l[1..];
      assert l[0] !in l[1..];
    }
  }

  lemma OnceIsDistinct<T>(l: seq<T>)
    requires forall x | x in l :: multiset(l)[x] == 1
    ensures AllDistinct(l)
  {
    forall i, j | 0 <= i < j < |l| ensures l[i] != l[j] {
      assert l == l[..j] + l[j..];
      assert l[i] in l[..j] && l[j] in l[j..];
      assert multiset(l)[l[j]] == 1;
    }
  }

  lemma AscendsOnce(libs: Libs, keys: set<string>)
    requires libs.AscendLaw()
    ensures AllDistinct(libs.ascend(keys)) && |libs.ascend(keys)| == |keys|
    ensures forall k :: k in libs.ascend(keys) <==> k in keys
  {
    var l := libs.ascend(keys);
    assert multiset(l) == multiset(keys);
    assert forall k :: k in l <==> k in multiset(l);
    assert forall k | k in l :: multiset(l)[k] == 1;
    OnceIsDistinct(l);
    assert |multiset(l)| == |l| && |multiset(keys)| == |keys|;
  }

  lemma {:induction false} RecordsAt(executions: ExecMap, keys: seq<string>)
    requires forall k | k in keys :: k in executions
    ensures |Records(executions, keys)| == |keys|
    ensures forall i | 0 <= i < |keys| :: Records(executions, keys)[i] == executions[keys[i]]
  {
    hide ExecKey;
    if keys != [] {
      RecordsAt(executions, keys[1..]);
    }
  }

  /** A listing holds each selected record once. */
  lemma ListingHolds(libs: Libs, executions: ExecMap, jobName: string)
    requires libs.AscendLaw()
    ensures var l := GetExecutions(libs, executions, jobName);
            && |l| == |Listed(executions, jobName)| && AllDistinct(l)
            && (forall x :: x in l <==> ExecKey(x) in Listed(executions, jobName) && executions[ExecKey(x)] == x)
  {
    hide ExecKey, Lists;
    var keys := libs.ascend(Listed(executions, jobName));
    var l := GetExecutions(libs, executions, jobName);
    AscendsOnce(libs, Listed(executions, jobName));
    RecordsAt(executions, keys);
    hide Libs.AscendLaw, GetExecutions, Records;
    RecordsOfKeys(executions, keys, l);
  }

  // Records at different keys are different, and are those that the keys select.
  lemma RecordsOfKeys(executions: ExecMap, keys: seq<string>, l: seq<Execution>)
    requires AllDistinct(keys) && |l| == |keys| && forall k | k in keys :: k in executions
    requires forall i | 0 <= i < |keys| :: l[i] == executions[keys[i]]
    ensures AllDistinct(l)
    ensures forall x :: x in l <==> ExecKey(x) in keys && executions[ExecKey(x)] == x
  {
    hide ExecKey;
    forall i | 0 <= i < |l| ensures ExecKey(l[i]) == keys[i] {
      assert keys[i] in executions;
    }
    forall x | ExecKey(x) in keys && executions[ExecKey(x)] == x ensures x in l {
      var i :| 0 <= i < |keys| && keys[i] == ExecKey(x);
      assert l[i] == executions[keys[i]];
    }
  }

  // ---- The status of a group ----

  lemma {:induction false} CountsPresence(l: seq<Execution>, group: int, success: bool)
    ensures CountSuccess(l, group, success) > 0 <==> exists x :: x in l && x.group == group && x.success == success
  {
    if l != [] {
      CountsPresence(l[1..], group, success);
      assert forall x :: x in l <==> x == l[0] || x in l[1..];
    }
  }

  // Do the records listed under the job's name hold one of the group with the given result?
  ghost predicate GroupHas(executions: ExecMap, jobName: string, group: int, success: bool) {
    exists k :: k in Listed(executions, jobName) && executions[k].group == group && executions[k].success == success
  }

  /** The status depends on the stored records of the group alone, and not on the order of a listing. */
  lemma StatusClassifiesGroup(libs: Libs, executions: ExecMap, jobName: string, group: int)
    requires libs.AscendLaw()
    ensures ComputeStatus(libs, executions, jobName, group) ==
            if !GroupHas(executions, jobName, group, false) then STATUS_SUCCESS
            else if !GroupHas(executions, jobName, group, true) then STATUS_FAILED
            else STATUS_PARTIALLY_FAILED
  {
    hide ExecKey, GetExecutions, Lists;
    var l := GetExecutions(libs, executions, jobName);
    ListingHolds(libs, executions, jobName);
    forall success ensures CountSuccess(l, group, success) > 0 <==> GroupHas(executions, jobName, group, success) {
      CountsPresence(l, group, success);
      if GroupHas(executions, jobName, group, success) {
        var k :| k in Listed(executions, jobName) && executions[k].group == group && executions[k].success == success;
        assert ExecKey(executions[k]) == k && executions[k] in l;
      }
    }
  }

  // ---- Eviction ----

  lemma {:induction false} KeysOfDistinct(l: seq<Execution>)
    requires forall i, j | 0 <= i < j < |l| :: ExecKey(l[i]) != ExecKey(l[j])
    ensures |set x | x in l :: ExecKey(x)| == |l|
  {
    var keys := set x | x in l :: ExecKey(x);
    if l == [] {
      assert keys == {};
    } else {
      var rest := set x | x in l[1..] :: ExecKey(x);
      KeysOfDistinct(l[1..]);
      assert forall x :: x in l <==> x == l[0] || x in l[1..];
      assert keys == {ExecKey(l[0])} + rest;
    }
  }

  // The keys that are evicted.
  function Evicted(libs: Libs, executions: ExecMap, jobName: string): set<string> {
    set x | x in Overflow(libs, executions, jobName) :: ExecKey(x)
  }

  /** What a sorted listing with its first records cut off leaves. */
  lemma SortedListing(libs: Libs, executions: ExecMap, jobName: string) returns (sorted: seq<Execution>)
    requires libs.Lawful()
    ensures sorted == libs.sortByStart(GetExecutions(libs, executions, jobName))
    ensures |sorted| == |Listed(executions, jobName)| == |GetExecutions(libs, executions, jobName)|
            && SortedByStart(sorted)
    ensures forall i, j | 0 <= i < j < |sorted| :: ExecKey(sorted[i]) != ExecKey(sorted[j])
    ensures forall x :: x in sorted <==> ExecKey(x) in Listed(executions, jobName) && executions[ExecKey(x)] == x
  {
    hide ExecKey, Lists, GetExecutions;
    var l := GetExecutions(libs, executions, jobName);
    sorted := libs.sortByStart(l);
    ListingHolds(libs, executions, jobName);
    assert multiset(sorted) == multiset(l);
    assert |sorted| == |multiset(sorted)| == |l|;
    assert forall x :: x in sorted <==> x in multiset(sorted);
    assert forall x :: x in l <==> x in multiset(l);
    DistinctHoldsOnce(l);
    OnceIsDistinct(sorted);
    forall i, j | 0 <= i < j < |sorted| ensures ExecKey(sorted[i]) != ExecKey(sorted[j]) {
      assert sorted[i] in sorted && sorted[j] in sorted;
    }
  }

  /** Eviction removes just the records over the limit, and none that started later than one that stays. */
  lemma EvictedAreOldest(libs: Libs, executions: ExecMap, jobName: string)
    requires libs.Lawful()
    ensures var listed, evicted := Listed(executions, jobName), Evicted(libs, executions, jobName);
            && evicted <= listed && |listed - evicted| == Min(MAX_EXECUTIONS, |listed|)
            && (forall k, m | k in evicted && m in listed - evicted ::
                  executions[k].startedAt <= executions[m].startedAt)
  {
    hide ExecKey, Lists, GetExecutions;
    var listed, evicted := Listed(executions, jobName), Evicted(libs, executions, jobName);
    var sorted := SortedListing(libs, executions, jobName);
    var over := Overflow(libs, executions, jobName);
    assert over <= sorted;
    assert forall x | x in over :: x in sorted;
    KeysOfDistinct(over);
    assert |evicted| == |over|;
    assert |listed - evicted| == |listed| - |evicted|;
    hide Overflow;
    FrontIsOldest(executions, sorted, over, listed, evicted);
  }

  // The front of a sorted listing started no later than what is left when its keys are taken away.
  lemma FrontIsOldest(
      executions: ExecMap, sorted: seq<Execution>, front: seq<Execution>, listed: set<string>, taken: set<string>)
    requires front <= sorted && SortedByStart(sorted) && listed <= executions.Keys
    requires forall x :: x in sorted <==> ExecKey(x) in listed && executions[ExecKey(x)] == x
    requires forall k :: k in taken <==> exists x :: x in front && ExecKey(x) == k
    ensures forall k, m | k in taken && m in listed - taken :: executions[k].startedAt <= executions[m].startedAt
  {
    hide ExecKey;
    forall k, m | k in taken && m in listed - taken ensures executions[k].startedAt <= executions[m].startedAt {
      var i :| 0 <= i < |front| && ExecKey(front[i]) == k;
      assert ExecKey(executions[m]) == m && executions[m] in sorted;
      var j :| 0 <= j < |sorted| && sorted[j] == executions[m];
      assert front[i] == sorted[i] && sorted[i] in sorted;
      assert j >= |front|;
    }
  }

  lemma PutKeepsPlainNames(executions: ExecMap, e: Execution)
    requires PlainNames(executions) && NoColon(e.jobName)
    ensures PlainNames(PutExecution(executions, e))
  {
    hide ExecKey, NoColon;
  }

  /** After an execution is set, at most the limit is listed under the name of its job, or all that was listed with it
      when that was less. Every evicted record started no later than every survivor, and survivors, other records, jobs
      and statistics are as they were. */
  lemma SetExecutionKeepsNewest(libs: Libs, s: State, e: Execution)
    requires libs.Lawful()
    ensures var before := PutExecution(s.executions, e);
            var t := SetExecution(libs, s, e);
            var had, has := Listed(before, e.jobName), Listed(t.executions, e.jobName);
            && ExecKey(e) in had && |has| == Min(MAX_EXECUTIONS, |had|) && has <= had
            && (forall k, m | k in had - has && m in has :: before[k].startedAt <= before[m].startedAt)
            && (forall k | k in has :: t.executions[k] == before[k])
            && (forall k | k !in had :: k in t.executions <==> k in s.executions)
            && (forall k | k !in had && k in s.executions :: t.executions[k] == s.executions[k])
            && t.jobs == s.jobs && t.stats == s.stats
  {
    hide Overflow, Lists, ExecKey, PutExecution;
    var before := PutExecution(s.executions, e);
    var listed, evicted := Listed(before, e.jobName), Evicted(libs, before, e.jobName);
    var t := SetExecution(libs, s, e);
    EvictedAreOldest(libs, before, e.jobName);
    OwnKeyIsListed(s.executions, e);
    PutKeepsOthers(s.executions, e);
    assert t.executions == before - evicted;
    assert Listed(t.executions, e.jobName) == listed - evicted;
  }

  lemma PutKeepsOthers(executions: ExecMap, e: Execution)
    ensures forall k | k != ExecKey(e) ::
      && (k in PutExecution(executions, e) <==> k in executions)
      && (k in executions ==> PutExecution(executions, e)[k] == executions[k])
  {
    hide ExecKey;
  }

  /** The key of an execution is listed under the name of its job, whatever the names are. */
  lemma OwnKeyIsListed(executions: ExecMap, e: Execution)
    ensures Lists(ListPrefix(e.jobName), ExecKey(e))
    ensures ExecKey(e) in Listed(PutExecution(executions, e), e.jobName)
  {
    CommonPrefix(EXECUTIONS, e.jobName + ":", e.jobName + ":" + Key(e));
    assert e.jobName + ":" <= e.jobName + ":" + Key(e);
    assert |Key(e)| >= 2;
  }

  // ---- The last writer wins ----

  /** What a report that an execution is done changes in the executions. */
  lemma DoneExecutions(libs: Libs, s: State, e: Execution)
    ensures SetExecutionDone(libs, s, e).state.executions ==
            if e.jobName in s.jobs then PutExecution(s.executions, e) else s.executions
  {
    hide ComputeStatus, ShouldCount, IncrementStat, CountedJob, ExecKey;
  }

  /** What is stored under the key of an execution after it is set or reported: the execution, unless the record that
      was there finished later. A set execution can also be evicted at once, and a report for a job that is not stored
      writes nothing. */
  lemma WrittenRecord(libs: Libs, s: State, e: Execution)
    ensures var k := ExecKey(e);
            var kept := k in s.executions && s.executions[k].finishedAt > e.finishedAt;
            var set_, done := SetExecution(libs, s, e).executions, SetExecutionDone(libs, s, e).state.executions;
            && (k in set_ ==> set_[k] == if kept then s.executions[k] else e)
            && (e.jobName in s.jobs ==> k in done && done[k] == if kept then s.executions[k] else e)
            && (e.jobName !in s.jobs ==> done == s.executions)
            && (forall m | m in s.executions && m != k :: m in done && done[m] == s.executions[m])
  {
    DoneExecutions(libs, s, e);
    hide ExecKey, Overflow, SetExecutionDone;
  }

  /** A record that stays never goes back to an earlier finish time. */
  lemma FinishTimeNeverFalls(libs: Libs, s: State, c: Command, clock: Clock, k: string)
    requires k in s.executions && k in Step(libs, s, c, clock).executions
    ensures s.executions[k].finishedAt <= Step(libs, s, c, clock).executions[k].finishedAt
  {
    hide SetJob, DeleteJob, SetExecutionDone, Overflow, ExecKey;
    match c {
      case SetJobMsg(job) => SetJobKeepsExecutions(libs, s, job, true, clock);
      case DeleteJobMsg(name) => DeleteJobKeepsOthers(libs, s, name, clock);
      case ExecutionDoneMsg(e) => DoneExecutions(libs, s, e);
      case _ =>
    }
  }

  lemma {:induction false} SetJobKeepsExecutions(libs: Libs, s: State, job: Job, copyDependentJobs: bool, clock: Clock)
    ensures SetJob(libs, s, job, copyDependentJobs, clock).state.executions == s.executions
    ensures SetJob(libs, s, job, copyDependentJobs, clock).state.stats == s.stats
    decreases if job.parentJob != Stored(s, job.name).parentJob then 2 else 0
  {
    hide Validate, NextRun, Merge, RemoveFromParent, AddToParent, ExecKey, Stored;
    var stored := Stored(s, job.name);
    var merged := Merge(job, stored, copyDependentJobs);
    var next := NextRun(libs, merged, stored, clock);
    if next.Ok? && job.parentJob != stored.parentJob {
      var s1 := PutJob(s, merged.(next := next.value));
      RemoveKeepsExecutions(libs, s1, stored, clock);
      AddKeepsExecutions(libs, RemoveFromParent(libs, s1, stored, clock).state, job, clock);
    }
  }

  lemma {:induction false} RemoveKeepsExecutions(libs: Libs, s: State, child: Job, clock: Clock)
    ensures RemoveFromParent(libs, s, child, clock).state.executions == s.executions
    ensures RemoveFromParent(libs, s, child, clock).state.stats == s.stats
    decreases 1
  {
    hide Validate, NextRun, Merge, SetJob, Remove, ExecKey;
    var parent := GetParent(s, child);
    if child.parentJob != "" && parent.Ok? {
      SetJobKeepsExecutions(libs, s, parent.value.(dependentJobs := Remove(parent.value.dependentJobs, child.name)),
          false, clock);
    }
  }

  lemma {:induction false} AddKeepsExecutions(libs: Libs, s: State, child: Job, clock: Clock)
    ensures AddToParent(libs, s, child, clock).state.executions == s.executions
    ensures AddToParent(libs, s, child, clock).state.stats == s.stats
    decreases 1
  {
    hide Validate, NextRun, Merge, SetJob, Remove, ExecKey;
    var parent := GetParent(s, child);
    if child.parentJob != "" && parent.Ok? {
      SetJobKeepsExecutions(libs, s, parent.value.(dependentJobs := parent.value.dependentJobs + [child.name]), false,
          clock);
    }
  }

  /** Deleting a job deletes the records of the jobs whose name starts with its name, and no others. */
  lemma DeleteJobKeepsOthers(libs: Libs, s: State, name: string, clock: Clock)
    ensures var t := DeleteJob(libs, s, name, clock).state;
            && t.stats == s.stats
            && (t.executions == s.executions || t.executions == DeleteScan(s.executions, DeletePrefix(name)))
  {
    hide SetJob, RemoveFromParent;
    if name in s.jobs && s.jobs[name].dependentJobs == [] {
      RemoveKeepsExecutions(
        libs, State(s.jobs - {name}, DeleteScan(s.executions, DeletePrefix(name)), s.stats), s.jobs[name], clock);
    }
  }

  lemma DeleteScanSelects(executions: ExecMap, name: string)
    requires NoColon(name)
    ensures DeleteScan(executions, DeletePrefix(name)) ==
            map k | k in executions && !(name <= executions[k].jobName) :: executions[k]
  {
    forall k | k in executions ensures HasPrefix(k, DeletePrefix(name)) <==> name <= executions[k].jobName {
      assert ExecKey(executions[k]) == k;
      DeletionSelects(name, executions[k]);
    }
  }

  // The records of other jobs that a deletion by name leaves.
  ghost predicate SparesOthers(executions: ExecMap, after: ExecMap, name: string) {
    forall k | k in executions && executions[k].jobName != name :: k in after && after[k] == executions[k]
  }

  /** Deleting the executions of a job leaves the records of all other jobs alone exactly when no other job with a
      record has a name that starts with the job's name. */
  lemma DeletionSparesOthersIff(s: State, name: string)
    requires name in s.jobs && NoColon(name)
    ensures SparesOthers(s.executions, DeleteExecutions(s, name).state.executions, name) <==>
            forall k | k in s.executions && s.executions[k].jobName != name :: !(name <= s.executions[k].jobName)
  {
    hide ExecKey, NoColon, DeleteScan;
    DeleteScanSelects(s.executions, name);
    assert DeleteExecutions(s, name).state.executions == DeleteScan(s.executions, DeletePrefix(name));
  }

  /** Is the key stored before and after every command of the run? */
  ghost predicate StaysStored(libs: Libs, s: State, log: seq<Entry>, k: string)
    decreases |log|
  {
    k in s.executions && (log != [] ==> StaysStored(libs, Step(libs, s, log[0].command, log[0].clock), log[1..], k))
  }

  predicate Running(e: Execution) {
    e.startedAt != ZERO_TIME && e.finishedAt == ZERO_TIME
  }

  function RunningIn(l: seq<Execution>): seq<Execution> {
    if l == [] then []
    else if Running(l[0]) then [l[0]] + RunningIn(l[1..])
    else RunningIn(l[1..])
  }

  /** A record is running when it has a start time and no finish time, and running records keep their order. */
  lemma {:induction false} RunningAppend(l: seq<Execution>, x: Execution)
    ensures RunningIn(l + [x]) ==
            RunningIn(l) + if x.startedAt != ZERO_TIME && x.finishedAt == ZERO_TIME then [x] else []
  {
    if l == [] {
      assert [x][1..] == [];
    } else {
      assert (l + [x])[1..] == l[1..] + [x];
      RunningAppend(l[1..], x);
    }
  }

  /** Over every run, a record that is not deleted or evicted never goes back to an earlier finish time, so that no late
      start record makes a finished execution appear running again. */
  lemma {:induction false} FinishedStaysFinished(libs: Libs, s: State, log: seq<Entry>, k: string)
    requires StaysStored(libs, s, log, k)
    ensures k in Run(libs, s, log).executions
    ensures s.executions[k].finishedAt <= Run(libs, s, log).executions[k].finishedAt
    ensures s.executions[k].finishedAt > ZERO_TIME ==> !Running(Run(libs, s, log).executions[k])
    decreases |log|
  {
    hide Step;
    if log != [] {
      FinishTimeNeverFalls(libs, s, log[0].command, log[0].clock, k);
      FinishedStaysFinished(libs, Step(libs, s, log[0].command, log[0].clock), log[1..], k);
    }
  }

  function Writes(executions: ExecMap, l: seq<Execution>): ExecMap
    decreases |l|
  {
    if l == [] then executions else Writes(PutExecution(executions, l[0]), l[1..])
  }

  /** Is `r` the last of the writes `l` to `k` by finish time, or the record before them if that finished later? */
  ghost predicate Latest(executions: ExecMap, l: seq<Execution>, k: string, r: Execution) {
    && (r in l || (k in executions && r == executions[k]
                   && forall x | x in l && ExecKey(x) == k :: x.finishedAt < r.finishedAt))
    && ExecKey(r) == k
    && (forall x | x in l && ExecKey(x) == k :: x.finishedAt <= r.finishedAt)
    && (k in executions ==> executions[k].finishedAt <= r.finishedAt)
  }

  lemma {:induction false} WritesKeepLatest(executions: ExecMap, l: seq<Execution>, k: string)
    ensures k in Writes(executions, l) <==> k in executions || exists x :: x in l && ExecKey(x) == k
    ensures k in Writes(executions, l) ==> Latest(executions, l, k, Writes(executions, l)[k])
    decreases |l|
  {
    hide ExecKey;
    if l != [] {
      var next := PutExecution(executions, l[0]);
      WritesKeepLatest(next, l[1..], k);
      assert forall x :: x in l <==> x == l[0] || x in l[1..];
    }
  }

  /** Two writes with the same key and finish time are the same write. */
  ghost predicate DistinctFinishTimes(l: seq<Execution>) {
    forall x, y | x in l && y in l && ExecKey(x) == ExecKey(y) && x.finishedAt == y.finishedAt :: x == y
  }

  /** Whatever the order, and however often a write is repeated, the same writes leave the same records. */
  lemma WritesConverge(executions: ExecMap, l: seq<Execution>, m: seq<Execution>)
    requires DistinctFinishTimes(l) && forall x :: x in l <==> x in m
    ensures Writes(executions, l) == Writes(executions, m)
  {
    hide ExecKey, Writes;
    forall k ensures k in Writes(executions, l) <==> k in Writes(executions, m)
             ensures k in Writes(executions, l) ==> Writes(executions, l)[k] == Writes(executions, m)[k]
    {
      WritesKeepLatest(executions, l, k);
      WritesKeepLatest(executions, m, k);
    }
  }

  /** Does the command, at most, write one execution? */
  predicate WritesAtMost(libs: Libs, s: State, c: Command) {
    match c
    case SetJobMsg(_) => true
    case SetExecutionMsg(e) => Overflow(libs, PutExecution(s.executions, e), e.jobName) == []
    case ExecutionDoneMsg(e) => e.jobName in s.jobs
    case _ => false
  }

  ghost predicate RunWritesAtMost(libs: Libs, s: State, log: seq<Entry>)
    decreases |log|
  {
    log != [] ==>
      && WritesAtMost(libs, s, log[0].command)
      && RunWritesAtMost(libs, Step(libs, s, log[0].command, log[0].clock), log[1..])
  }

  function WriteOf(c: Command): seq<Execution> {
    if c.SetExecutionMsg? || c.ExecutionDoneMsg? then [c.execution] else []
  }

  function WritesOf(log: seq<Entry>): seq<Execution>
    decreases |log|
  {
    if log == [] then [] else WriteOf(log[0].command) + WritesOf(log[1..])
  }

  lemma StepWrites(libs: Libs, s: State, c: Command, clock: Clock)
    requires WritesAtMost(libs, s, c)
    ensures Step(libs, s, c, clock).executions == Writes(s.executions, WriteOf(c))
  {
    hide SetJob, SetExecutionDone, Overflow, ExecKey, PutExecution;
    match c {
      case SetJobMsg(job) => SetJobKeepsExecutions(libs, s, job, true, clock);
      case SetExecutionMsg(e) =>
        var executions := PutExecution(s.executions, e);
        assert (set x | x in Overflow(libs, executions, e.jobName) :: ExecKey(x)) == {};
      case ExecutionDoneMsg(e) => DoneExecutions(libs, s, e);
    }
  }

  lemma {:induction false} RunWrites(libs: Libs, s: State, log: seq<Entry>)
    requires RunWritesAtMost(libs, s, log)
    ensures Run(libs, s, log).executions == Writes(s.executions, WritesOf(log))
    decreases |log|
  {
    hide Step, ExecKey, PutExecution, WritesAtMost;
    if log != [] {
      StepWrites(libs, s, log[0].command, log[0].clock);
      RunWrites(libs, Step(libs, s, log[0].command, log[0].clock), log[1..]);
      var w := WriteOf(log[0].command);
      assert w == [] ==> w + WritesOf(log[1..]) == WritesOf(log[1..]);
      assert w != [] ==> (w + WritesOf(log[1..]))[1..] == WritesOf(log[1..]);
    }
  }

  /** Two logs that deliver the same start and end records, in any order and with any repetition, leave the same
      executions, as long as nothing is deleted or evicted on the way. */
  lemma DeliveryOrderIsIrrelevant(libs: Libs, s: State, log: seq<Entry>, other: seq<Entry>)
    requires RunWritesAtMost(libs, s, log) && RunWritesAtMost(libs, s, other)
    requires DistinctFinishTimes(WritesOf(log)) && forall x :: x in WritesOf(log) <==> x in WritesOf(other)
    ensures Run(libs, s, log).executions == Run(libs, s, other).executions
  {
    hide Run, Writes, WritesOf, RunWritesAtMost, DistinctFinishTimes;
    RunWrites(libs, s, log);
    RunWrites(libs, s, other);
    WritesConverge(s.executions, WritesOf(log), WritesOf(other));
  }
}
