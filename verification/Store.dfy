/** The store over one flat, ordered map from string keys to records, as the embedded database keeps it. Every method is
    proved to compute the function of Commands.dfy with its name on the view of the database as jobs, executions and
    statistics. */
module FlatStore {
  import opened Wrappers
  import opened Types
  import opened Keys
  import opened Commands
  import opened Fsm
  import Executions

  datatype Record =
    | JobRecord(job: Job)
    | ExecutionRecord(execution: Execution)
    | StatRecord(day: string, stat: Stat)

  type Database = map<string, Record>

  // ---- Keys of the three kinds ----

  // What a key starts with tells what is stored under it.
  function Initial(key: string): char {
    if key == [] then ' ' else key[0]
  }

  lemma InitialOfJobKey(name: string)
    ensures Initial(JobKey(name)) == 'j'
  {
  }

  lemma InitialOfExecKey(e: Execution)
    ensures Initial(ExecKey(e)) == 'e'
  {
  }

  lemma InitialOfStatKey(day: string)
    ensures Initial(StatKey(day)) == 's'
  {
  }

  lemma InitialOfPrefix(jobName: string, key: string)
    ensures DeletePrefix(jobName) <= key ==> Initial(key) == 'e'
    ensures ListPrefix(jobName) <= key ==> Initial(key) == 'e'
  {
    assert DeletePrefix(jobName)[0] == 'e' && ListPrefix(jobName)[0] == 'e';
  }

  lemma KeysInjective(a: string, b: string)
    ensures JobKey(a) == JobKey(b) <==> a == b
    ensures StatKey(a) == StatKey(b) <==> a == b
  {
    CommonPrefix(JOBS, a, b);
    CommonPrefix(STATS, a, b);
  }

  // ---- Representation ----

  /** Is the record under the key a part of the state? */
  predicate Accounted(s: State, key: string, r: Record) {
    match r
    case JobRecord(job) => key == JobKey(job.name) && job.name in s.jobs
    case ExecutionRecord(e) => key == ExecKey(e) && key in s.executions
    case StatRecord(day, _) => key == StatKey(day) && day in s.stats
  }

  predicate HoldsJob(db: Database, s: State, n: string)
    requires n in s.jobs
  {
    JobKey(n) in db && db[JobKey(n)] == JobRecord(s.jobs[n])
  }

  predicate HoldsExecution(db: Database, s: State, k: string)
    requires k in s.executions
  {
    k in db && db[k] == ExecutionRecord(s.executions[k])
  }

  predicate HoldsStat(db: Database, s: State, d: string)
    requires d in s.stats
  {
    StatKey(d) in db && db[StatKey(d)] == StatRecord(d, s.stats[d])
  }

  /** The database holds the state, and nothing else. */
  ghost predicate Represents(db: Database, s: State) {
    && (forall n {:trigger HoldsJob(db, s, n)} | n in s.jobs :: HoldsJob(db, s, n))
    && (forall k {:trigger HoldsExecution(db, s, k)} | k in s.executions :: HoldsExecution(db, s, k))
    && (forall d {:trigger HoldsStat(db, s, d)} | d in s.stats :: HoldsStat(db, s, d))
    && (forall k {:trigger Accounted(s, k, db[k])} | k in db :: Accounted(s, k, db[k]))
  }

  /** A database represents one state. */
  lemma OneState(db: Database, s: State, t: State)
    requires Represents(db, s) && Represents(db, t)
    ensures s == t
  {
    hide ExecKey, JobKey, StatKey;
    forall n ensures n in s.jobs ==> n in t.jobs && t.jobs[n] == s.jobs[n]
             ensures n in t.jobs ==> n in s.jobs
    {
      if n in s.jobs { assert HoldsJob(db, s, n) && Accounted(t, JobKey(n), db[JobKey(n)]) && HoldsJob(db, t, n); }
      if n in t.jobs { assert HoldsJob(db, t, n) && Accounted(s, JobKey(n), db[JobKey(n)]); }
    }
    forall k ensures k in s.executions ==> k in t.executions && t.executions[k] == s.executions[k]
             ensures k in t.executions ==> k in s.executions
    {
      if k in s.executions { assert HoldsExecution(db, s, k) && Accounted(t, k, db[k]) && HoldsExecution(db, t, k); }
      if k in t.executions { assert HoldsExecution(db, t, k) && Accounted(s, k, db[k]); }
    }
    forall d ensures d in s.stats ==> d in t.stats && t.stats[d] == s.stats[d]
             ensures d in t.stats ==> d in s.stats
    {
      if d in s.stats { assert HoldsStat(db, s, d) && Accounted(t, StatKey(d), db[StatKey(d)]) && HoldsStat(db, t, d); }
      if d in t.stats { assert HoldsStat(db, t, d) && Accounted(s, StatKey(d), db[StatKey(d)]); }
    }
  }

  /** A state is represented by one database, so that the flat keyspace loses and confuses nothing. */
  lemma OneDatabase(db: Database, other: Database, s: State)
    requires Represents(db, s) && Represents(other, s)
    ensures db == other
  {
    forall k ensures k in db ==> k in other && other[k] == db[k] {
      if k in db { FoundInOther(db, other, s, k); }
    }
    forall k ensures k in other ==> k in db {
      if k in other { FoundInOther(other, db, s, k); }
    }
  }

  lemma FoundInOther(db: Database, other: Database, s: State, k: string)
    requires Represents(db, s) && Represents(other, s) && k in db
    ensures k in other && other[k] == db[k]
  {
    hide ExecKey, JobKey, StatKey;
    assert Accounted(s, k, db[k]);
    match db[k] {
      case JobRecord(job) => assert HoldsJob(db, s, job.name) && HoldsJob(other, s, job.name);
      case ExecutionRecord(e) => assert HoldsExecution(db, s, k) && HoldsExecution(other, s, k);
      case StatRecord(day, _) => assert HoldsStat(db, s, day) && HoldsStat(other, s, day);
    }
  }

  // ---- Single changes ----

  /** The keys of two databases outside a set of keys hold the same. */
  ghost predicate SameOutside(db: Database, after: Database, keys: set<string>) {
    forall k | k !in keys :: (k in after <==> k in db) && (k in db ==> after[k] == db[k])
  }

  lemma JobsUnchanged(db: Database, after: Database, s: State, t: State, keys: set<string>)
    requires Represents(db, s) && SameOutside(db, after, keys) && s.jobs == t.jobs
    requires forall k | k in keys :: Initial(k) != 'j'
    ensures forall n | n in t.jobs :: HoldsJob(after, t, n)
  {
    hide ExecKey, JobKey, StatKey, Initial;
    forall n | n in t.jobs ensures HoldsJob(after, t, n) {
      InitialOfJobKey(n);
      assert HoldsJob(db, s, n);
    }
  }

  lemma ExecutionsUnchanged(db: Database, after: Database, s: State, t: State, keys: set<string>)
    requires Represents(db, s) && SameOutside(db, after, keys) && s.executions == t.executions
    requires forall k | k in keys :: Initial(k) != 'e'
    ensures forall k | k in t.executions :: HoldsExecution(after, t, k)
  {
    hide ExecKey, JobKey, StatKey, Initial;
    forall k | k in t.executions ensures HoldsExecution(after, t, k) {
      InitialOfExecKey(s.executions[k]);
      assert HoldsExecution(db, s, k);
    }
  }

  lemma StatsUnchanged(db: Database, after: Database, s: State, t: State, keys: set<string>)
    requires Represents(db, s) && SameOutside(db, after, keys) && s.stats == t.stats
    requires forall k | k in keys :: Initial(k) != 's'
    ensures forall d | d in t.stats :: HoldsStat(after, t, d)
  {
    hide ExecKey, JobKey, StatKey, Initial;
    forall d | d in t.stats ensures HoldsStat(after, t, d) {
      InitialOfStatKey(d);
      assert HoldsStat(db, s, d);
    }
  }

  lemma JobStored(db: Database, s: State, job: Job)
    requires Represents(db, s)
    ensures Represents(db[JobKey(job.name) := JobRecord(job)], PutJob(s, job))
  {
    hide ExecKey, JobKey, StatKey, Initial;
    var key := JobKey(job.name);
    var after, t := db[key := JobRecord(job)], PutJob(s, job);
    InitialOfJobKey(job.name);
    ExecutionsUnchanged(db, after, s, t, {key});
    StatsUnchanged(db, after, s, t, {key});
    forall n | n in t.jobs ensures HoldsJob(after, t, n) {
      KeysInjective(n, job.name);
      assert n in s.jobs ==> HoldsJob(db, s, n);
    }
    forall k | k in after ensures Accounted(t, k, after[k]) {
      assert k in db ==> Accounted(s, k, db[k]);
    }
  }

  lemma JobDeleted(db: Database, s: State, name: string)
    requires Represents(db, s)
    ensures Represents(db - {JobKey(name)}, s.(jobs := s.jobs - {name}))
  {
    hide ExecKey, JobKey, StatKey, Initial;
    var key := JobKey(name);
    var after, t := db - {key}, s.(jobs := s.jobs - {name});
    InitialOfJobKey(name);
    ExecutionsUnchanged(db, after, s, t, {key});
    StatsUnchanged(db, after, s, t, {key});
    forall n | n in t.jobs ensures HoldsJob(after, t, n) {
      KeysInjective(n, name);
      assert HoldsJob(db, s, n);
    }
    forall k | k in after ensures Accounted(t, k, after[k]) {
      assert Accounted(s, k, db[k]);
    }
  }

  lemma ExecutionStored(db: Database, s: State, e: Execution)
    requires Represents(db, s)
    ensures Represents(db[ExecKey(e) := ExecutionRecord(e)], s.(executions := s.executions[ExecKey(e) := e]))
  {
    hide ExecKey, JobKey, StatKey, Initial;
    var key := ExecKey(e);
    var after, t := db[key := ExecutionRecord(e)], s.(executions := s.executions[key := e]);
    InitialOfExecKey(e);
    JobsUnchanged(db, after, s, t, {key});
    StatsUnchanged(db, after, s, t, {key});
    forall k | k in t.executions ensures HoldsExecution(after, t, k) {
      assert k in s.executions ==> HoldsExecution(db, s, k);
    }
    forall k | k in after ensures Accounted(t, k, after[k]) {
      assert k in db ==> Accounted(s, k, db[k]);
    }
  }

  lemma ExecutionsDeleted(db: Database, s: State, keys: set<string>)
    requires Represents(db, s) && forall k | k in keys :: Initial(k) == 'e'
    ensures Represents(db - keys, s.(executions := s.executions - keys))
  {
    hide ExecKey, JobKey, StatKey, Initial;
    var after, t := db - keys, s.(executions := s.executions - keys);
    JobsUnchanged(db, after, s, t, keys);
    StatsUnchanged(db, after, s, t, keys);
    forall k | k in t.executions ensures HoldsExecution(after, t, k) {
      assert HoldsExecution(db, s, k);
    }
    forall k | k in after ensures Accounted(t, k, after[k]) {
      assert Accounted(s, k, db[k]);
    }
  }

  lemma StatStored(db: Database, s: State, day: string, stat: Stat)
    requires Represents(db, s)
    ensures Represents(db[StatKey(day) := StatRecord(day, stat)], s.(stats := s.stats[day := stat]))
  {
    hide ExecKey, JobKey, StatKey, Initial;
    var key := StatKey(day);
    var after, t := db[key := StatRecord(day, stat)], s.(stats := s.stats[day := stat]);
    InitialOfStatKey(day);
    JobsUnchanged(db, after, s, t, {key});
    ExecutionsUnchanged(db, after, s, t, {key});
    forall d | d in t.stats ensures HoldsStat(after, t, d) {
      KeysInjective(d, day);
      assert d in s.stats ==> HoldsStat(db, s, d);
    }
    forall k | k in after ensures Accounted(t, k, after[k]) {
      assert k in db ==> Accounted(s, k, db[k]);
    }
  }

  // ---- Lookups ----

  lemma LookupJob(db: Database, s: State, name: string)
    requires Represents(db, s)
    ensures JobKey(name) in db <==> name in s.jobs
    ensures name in s.jobs ==> db[JobKey(name)] == JobRecord(s.jobs[name])
  {
    hide ExecKey, JobKey, StatKey, Initial;
    if name in s.jobs { assert HoldsJob(db, s, name); }
    if JobKey(name) in db {
      var r := db[JobKey(name)];
      assert Accounted(s, JobKey(name), r);
      InitialOfJobKey(name);
      match r {
        case JobRecord(job) => KeysInjective(name, job.name);
        case ExecutionRecord(e) => InitialOfExecKey(e);
        case StatRecord(day, _) => InitialOfStatKey(day);
      }
    }
  }

  lemma LookupExecution(db: Database, s: State, key: string)
    requires Represents(db, s) && Initial(key) == 'e'
    ensures key in db <==> key in s.executions
    ensures key in s.executions ==> db[key] == ExecutionRecord(s.executions[key])
  {
    hide ExecKey, JobKey, StatKey, Initial;
    if key in s.executions { assert HoldsExecution(db, s, key); }
    if key in db {
      assert Accounted(s, key, db[key]);
      match db[key] {
        case JobRecord(job) => InitialOfJobKey(job.name);
        case ExecutionRecord(e) =>
        case StatRecord(day, _) => InitialOfStatKey(day);
      }
    }
  }

  lemma LookupStat(db: Database, s: State, day: string)
    requires Represents(db, s)
    ensures StatKey(day) in db <==> day in s.stats
    ensures day in s.stats ==> db[StatKey(day)] == StatRecord(day, s.stats[day])
  {
    hide ExecKey, JobKey, StatKey, Initial;
    if day in s.stats { assert HoldsStat(db, s, day); }
    if StatKey(day) in db {
      var r := db[StatKey(day)];
      assert Accounted(s, StatKey(day), r);
      InitialOfStatKey(day);
      match r {
        case JobRecord(job) => InitialOfJobKey(job.name);
        case ExecutionRecord(e) => InitialOfExecKey(e);
        case StatRecord(d, _) => KeysInjective(day, d);
      }
    }
  }

  lemma {:induction false} RestrictAppend(l: seq<string>, x: string, keep: set<string>)
    ensures Restrict(l + [x], keep) == Restrict(l, keep) + if x in keep then [x] else []
  {
    if l == [] {
      assert [x][1..] == [];
    } else {
      assert (l + [x])[1..] == l[1..] + [x];
      RestrictAppend(l[1..], x, keep);
    }
  }

  lemma {:induction false} RecordsAppend(executions: ExecMap, l: seq<string>, k: string)
    requires k in executions
    ensures Records(executions, l + [k]) == Records(executions, l) + [executions[k]]
  {
    hide ExecKey;
    if l == [] {
      assert [k][1..] == [];
    } else {
      assert (l + [k])[1..] == l[1..] + [k];
      RecordsAppend(executions, l[1..], k);
    }
  }

  lemma {:induction false} CountAppend(l: seq<Execution>, x: Execution, group: int, success: bool)
    ensures CountSuccess(l + [x], group, success) ==
            CountSuccess(l, group, success) + if x.group == group && x.success == success then 1 else 0
  {
    if l == [] {
      assert [x][1..] == [];
    } else {
      assert (l + [x])[1..] == l[1..] + [x];
      CountAppend(l[1..], x, group, success);
    }
  }

  lemma ListedInDatabase(db: Database, s: State, jobName: string)
    requires Represents(db, s)
    ensures forall k | k in db :: Lists(ListPrefix(jobName), k) <==> k in Executions.Listed(s.executions, jobName)
    ensures Executions.Listed(s.executions, jobName) <= db.Keys
  {
    hide ExecKey, Initial, TrimDirectoryKey, ListPrefix;
    forall k | k in db ensures Lists(ListPrefix(jobName), k) <==> k in Executions.Listed(s.executions, jobName) {
      InitialOfPrefix(jobName, k);
      if Lists(ListPrefix(jobName), k) { LookupExecution(db, s, k); }
    }
    forall k | k in Executions.Listed(s.executions, jobName) ensures k in db {
      assert HoldsExecution(db, s, k);
    }
  }

  lemma {:induction false} RemoveAppend(l: seq<string>, x: string, name: string)
    ensures Remove(l + [x], name) == Remove(l, name) + if x != name then [x] else []
  {
    if l == [] {
      assert [x][1..] == [];
    } else {
      assert (l + [x])[1..] == l[1..] + [x];
      RemoveAppend(l[1..], x, name);
    }
  }

  /** The job store of one node. */
  class Store {
    const libs: Libs
    var db: Database
    // The state that the database represents.
    ghost var view: State

    ghost predicate Valid()
      reads this
    {
      libs.Lawful() && Represents(db, view)
    }

    constructor (libs: Libs)
      requires libs.Lawful()
      ensures Valid() && this.libs == libs && view == EMPTY_STATE
    {
      this.libs := libs;
      db := map[];
      view := EMPTY_STATE;
    }

    method GetJob(name: string) returns (job: Option<Job>)
      requires Valid()
      ensures job == if name in view.jobs then Some(view.jobs[name]) else None
    {
      LookupJob(db, view, name);
      job := if JobKey(name) in db then Some(db[JobKey(name)].job) else None;
    }

    method SetJob(given: Job, copyDependentJobs: bool, clock: Clock) returns (error: Option<Error>)
      requires Valid()
      modifies this
      ensures Valid() && Outcome(view, error) == Commands.SetJob(libs, old(view), given, copyDependentJobs, clock)
      decreases if given.parentJob != Stored(view, given.name).parentJob then 3 else 0
    {
      hide Represents, ExecKey, JobKey, Validate, GetNext, Merge, Libs.Lawful, Commands.RemoveFromParent,
           Commands.AddToParent;
      error := Validate(libs, given);
      if error.Some? {
        return;
      }
      if given.parentJob != "" {
        var parent := GetJob(given.parentJob);
        if parent.None? {
          return Some(ParentJobNotFound);
        }
      }

      var existing := GetJob(given.name);
      var ej := if existing.Some? then existing.value else EMPTY_JOB;
      var job := MergeStored(given, ej, copyDependentJobs);
      if job.schedule != ej.schedule {
        var next := GetNext(libs, job, clock);
        if next.Err? {
          return Some(next.error);
        }
        job := job.(next := next.value);
      } else if job.next < ej.next {
        job := job.(next := ej.next);
      }
      PutJob(job);

      if job.parentJob != ej.parentJob {
        error := UpdateParents(ej, given, clock);
      }
    }

    // Takes a job off its old parent's list, and puts it on the list of its new one.
    method UpdateParents(ej: Job, given: Job, clock: Clock) returns (error: Option<Error>)
      requires Valid()
      modifies this
      ensures Valid()
      ensures var removed := Commands.RemoveFromParent(libs, old(view), ej, clock);
              Outcome(view, error) ==
                if removed.error.Some? then removed else Commands.AddToParent(libs, removed.state, given, clock)
      decreases 2
    {
      hide Represents, ExecKey, JobKey, Libs.Lawful, Commands.RemoveFromParent, Commands.AddToParent;
      error := RemoveFromParent(ej, clock);
      if error.None? {
        error := AddToParent(given, clock);
      }
    }

    // Keeps the stored values of the fields that a run updates when those are later or larger.
    method MergeStored(given: Job, ej: Job, copyDependentJobs: bool) returns (job: Job)
      ensures job == Merge(given, ej, copyDependentJobs)
      ensures job.name == given.name && job.parentJob == given.parentJob
    {
      job := given;
      if ej.name != "" {
        if After(ej.lastError, job.lastError) {
          job := job.(lastError := ej.lastError);
        }
        if After(ej.lastSuccess, job.lastSuccess) {
          job := job.(lastSuccess := ej.lastSuccess);
        }
        if ej.successCount > job.successCount {
          job := job.(successCount := ej.successCount);
        }
        if ej.errorCount > job.errorCount {
          job := job.(errorCount := ej.errorCount);
        }
        if ej.dependentJobs != [] && copyDependentJobs {
          job := job.(dependentJobs := ej.dependentJobs);
        }
        if ej.status != STATUS_NOT_SET {
          job := job.(status := ej.status);
        }
      }
    }

    // Writes one job record.
    method PutJob(job: Job)
      requires Valid()
      modifies this
      ensures Valid() && view == Commands.PutJob(old(view), job)
    {
      JobStored(db, view, job);
      db := db[JobKey(job.name) := JobRecord(job)];
      view := Commands.PutJob(view, job);
    }

    method GetParent(child: Job) returns (parent: Result<Job, Error>)
      requires Valid()
      ensures parent == Commands.GetParent(view, child)
      ensures parent == if child.parentJob == child.name then Err(SameParent)
                        else if child.parentJob == "" then Err(NoParent)
                        else if child.parentJob !in view.jobs then Err(ParentJobNotFound)
                        else Ok(view.jobs[child.parentJob])
    {
      if child.name == child.parentJob {
        return Err(SameParent);
      }
      if child.parentJob == "" {
        return Err(NoParent);
      }
      var job := GetJob(child.parentJob);
      parent := if job.Some? then Ok(job.value) else Err(ParentJobNotFound);
    }

    // Drops all occurrences of a name, not just one.
    method WithoutName(names: seq<string>, name: string) returns (djs: seq<string>)
      ensures djs == Remove(names, name)
    {
      djs := [];
      for i := 0 to |names|
        invariant djs == Remove(names[..i], name)
      {
        RemoveAppend(names[..i], names[i], name);
        assert names[..i + 1] == names[..i] + [names[i]];
        if names[i] != name {
          djs := djs + [names[i]];
        }
      }
      assert names[..|names|] == names;
    }

    method RemoveFromParent(child: Job, clock: Clock) returns (error: Option<Error>)
      requires Valid()
      modifies this
      ensures Valid() && Outcome(view, error) == Commands.RemoveFromParent(libs, old(view), child, clock)
      decreases 1
    {
      hide Represents, ExecKey, JobKey, Validate, Commands.SetJob, Libs.Lawful;
      if child.parentJob == "" {
        return None;
      }
      var found := GetParent(child);
      if found.Err? {
        return Some(found.error);
      }
      var parent := found.value;
      var djs := WithoutName(parent.dependentJobs, child.name);
      error := SetJob(parent.(dependentJobs := djs), false, clock);
    }

    method AddToParent(child: Job, clock: Clock) returns (error: Option<Error>)
      requires Valid()
      modifies this
      ensures Valid() && Outcome(view, error) == Commands.AddToParent(libs, old(view), child, clock)
      decreases 1
    {
      hide Represents, ExecKey, JobKey, Validate, Commands.SetJob, Libs.Lawful;
      if child.parentJob == "" {
        return None;
      }
      var found := GetParent(child);
      if found.Err? {
        return Some(found.error);
      }
      var parent := found.value;
      error := SetJob(parent.(dependentJobs := parent.dependentJobs + [child.name]), false, clock);
    }

    // Collects the keys of a database that start with a prefix.
    method CollectKeys(tx: Database, prefix: string) returns (delkeys: seq<string>)
      requires libs.AscendLaw()
      ensures forall k :: k in delkeys <==> k in tx && HasPrefix(k, prefix)
    {
      hide HasPrefix, Prefixed, Libs.AscendLaw;
      var keys := libs.ascend(tx.Keys);
      delkeys := [];
      PrefixedNothing(prefix);
      for i := 0 to |keys|
        invariant delkeys == Prefixed(keys[..i], prefix)
      {
        PrefixedNext(keys, i, prefix);
        if HasPrefix(keys[i], prefix) {
          delkeys := delkeys + [keys[i]];
        }
      }
      assert keys[..|keys|] == keys;
      PrefixedKeys(libs, tx.Keys, prefix);
    }

    method DeleteKeys(given: Database, delkeys: seq<string>) returns (tx: Database)
      ensures tx == given - set k | k in delkeys
    {
      tx := given;
      for i := 0 to |delkeys|
        invariant tx == given - set k | k in delkeys[..i]
      {
        tx := tx - {delkeys[i]};
      }
      assert delkeys[..|delkeys|] == delkeys;
    }

    // Deletes every record whose key starts with the delete prefix of the job, from the database of a transaction.
    method DeleteExecutionsTx(given: Database, jobName: string, ghost s: State) returns (tx: Database)
      requires libs.AscendLaw() && Represents(given, s)
      ensures Represents(tx, s.(executions := DeleteScan(s.executions, DeletePrefix(jobName))))
    {
      hide ExecKey, JobKey, StatKey, Initial, DeletePrefix, Represents, Libs.AscendLaw;
      var delkeys := CollectKeys(given, DeletePrefix(jobName));
      tx := DeleteKeys(given, delkeys);
      ghost var gone := set k | k in delkeys;
      forall k | k in gone ensures Initial(k) == 'e' {
        InitialOfPrefix(jobName, k);
      }
      ExecutionsDeleted(given, s, gone);
      DeletedScan(given, s, jobName, gone);
    }

    method DeleteJob(name: string, clock: Clock) returns (error: Option<Error>, deleted: Option<Job>)
      requires Valid()
      modifies this
      ensures Valid() && Outcome(view, error) == Commands.DeleteJob(libs, old(view), name, clock)
      ensures deleted == if error.None? then Some(old(view).jobs[name]) else None
    {
      hide Represents, ExecKey, JobKey, DeletePrefix, Libs.AscendLaw, Commands.RemoveFromParent;
      error, deleted := None, None;
      var found := GetJob(name);
      if found.None? {
        return Some(NotFound), None;
      }
      var job := found.value;
      if job.dependentJobs != [] {
        return Some(DependentJobs), None;
      }
      var tx := DeleteExecutionsTx(db, name, view);
      ghost var s := view.(executions := DeleteScan(view.executions, DeletePrefix(name)));
      JobDeleted(tx, s, name);
      db := tx - {JobKey(name)};
      view := s.(jobs := s.jobs - {name});
      if job.parentJob != "" {
        error := RemoveFromParent(job, clock);
        if error.Some? {
          return;
        }
      } else {
        NoParentToLeave(libs, view, job, clock);
      }
      deleted := Some(job);
    }

    method DeleteExecutions(name: string) returns (error: Option<Error>)
      requires Valid()
      modifies this
      ensures Valid() && Outcome(view, error) == Commands.DeleteExecutions(old(view), name)
    {
      hide Represents, ExecKey, JobKey, DeletePrefix, Libs.AscendLaw;
      var tx := DeleteExecutionsTx(db, name, view);
      ghost var s := view.(executions := DeleteScan(view.executions, DeletePrefix(name)));
      LookupJob(tx, s, name);
      // Without the job the transaction is rolled back.
      if JobKey(name) !in tx {
        return Some(NotFound);
      }
      var job := tx[JobKey(name)].job.(successCount := 0, errorCount := 0, lastSuccess := None, lastError := None);
      JobStored(tx, s, job);
      db := tx[JobKey(name) := JobRecord(job)];
      view := Commands.PutJob(s, job);
      error := None;
    }

    // The executions of a job in the database of a transaction, in the order of their keys.
    method ListTx(tx: Database, jobName: string, ghost s: State) returns (l: seq<Execution>)
      requires libs.AscendLaw() && Represents(tx, s)
      ensures l == Commands.GetExecutions(libs, s.executions, jobName)
    {
      hide Represents, Libs.AscendLaw;
      var prefix := ListPrefix(jobName);
      var keys := libs.ascend(tx.Keys);
      ghost var listed := Executions.Listed(s.executions, jobName);
      Executions.AscendsOnce(libs, tx.Keys);
      ListedInDatabase(tx, s, jobName);
      RestrictedKeys(libs, tx.Keys, listed);
      Executions.ListedAreStored(s.executions, jobName);
      ListingOf(libs, s.executions, jobName);
      hide Commands.GetExecutions, Executions.Listed, ExecKey, JobKey, StatKey, Initial, Lists, ListPrefix, Restrict,
           Records;
      l := [];
      NothingRestricted(s.executions, listed);
      for i := 0 to |keys|
        invariant l == Records(s.executions, Restrict(keys[..i], listed))
      {
        var key := keys[i];
        assert key in keys;
        RecordsNext(s.executions, keys, i, listed);
        if Lists(prefix, key) {
          ListedIsHeld(tx, s, key);
          l := l + [tx[key].execution];
        }
      }
      assert keys[..|keys|] == keys;
    }

    method GetExecutions(jobName: string) returns (l: seq<Execution>)
      requires Valid()
      ensures l == Commands.GetExecutions(libs, view.executions, jobName)
    {
      l := ListTx(db, jobName, view);
    }

    /** The executions of a job that have started and not finished. */
    method GetRunningExecutions(jobName: string) returns (l: seq<Execution>)
      requires Valid()
      ensures l == Executions.RunningIn(Commands.GetExecutions(libs, view.executions, jobName))
    {
      hide Represents, ExecKey, Commands.GetExecutions;
      var execs := GetExecutions(jobName);
      l := [];
      for i := 0 to |execs|
        invariant l == Executions.RunningIn(execs[..i])
      {
        assert execs[..i + 1] == execs[..i] + [execs[i]];
        Executions.RunningAppend(execs[..i], execs[i]);
        if Executions.Running(execs[i]) {
          l := l + [execs[i]];
        }
      }
      assert execs[..|execs|] == execs;
    }

    // Writes the execution unless a more recent one is stored.
    method SetExecutionTx(given: Database, e: Execution, ghost s: State) returns (tx: Database)
      requires Represents(given, s)
      ensures Represents(tx, s.(executions := PutExecution(s.executions, e)))
    {
      hide ExecKey, JobKey, StatKey, Initial, Represents;
      InitialOfExecKey(e);
      LookupExecution(given, s, ExecKey(e));
      tx := given;
      if ExecKey(e) in given && given[ExecKey(e)].execution.finishedAt > e.finishedAt {
        return;
      }
      ExecutionStored(given, s, e);
      tx := given[ExecKey(e) := ExecutionRecord(e)];
    }

    // Deletes the records one by one.
    method DeleteEach(execs: seq<Execution>)
      requires Valid()
      modifies this
      ensures Valid() && view == old(view).(executions := old(view).executions - set x | x in execs :: ExecKey(x))
    {
      hide ExecKey, JobKey, StatKey, Initial, Represents, Libs.Lawful;
      ghost var before := view.executions;
      for i := 0 to |execs|
        invariant Valid()
        invariant view == old(view).(executions := before - set x | x in execs[..i] :: ExecKey(x))
      {
        var k := ExecKey(execs[i]);
        InitialOfExecKey(execs[i]);
        ExecutionsDeleted(db, view, {k});
        db := db - {k};
        view := view.(executions := view.executions - {k});
        assert execs[..i + 1] == execs[..i] + [execs[i]];
        assert (set x | x in execs[..i + 1] :: ExecKey(x)) == (set x | x in execs[..i] :: ExecKey(x)) + {k};
      }
      assert execs[..|execs|] == execs;
    }

    method SetExecution(e: Execution) returns (key: string)
      requires Valid()
      modifies this
      ensures Valid() && view == Commands.SetExecution(libs, old(view), e) && key == ExecKey(e)
    {
      hide ExecKey, JobKey, StatKey, Initial, Represents, Commands.GetExecutions, PutExecution, Overflow, Libs.Lawful;
      key := ExecKey(e);
      db := SetExecutionTx(db, e, view);
      view := view.(executions := PutExecution(view.executions, e));
      var execs := GetExecutions(e.jobName);
      OverflowOfListing(libs, view.executions, e.jobName);
      // Delete all records over the limit, starting from the oldest.
      if |execs| > MAX_EXECUTIONS {
        var byStart := libs.sortByStart(execs);
        DeleteEach(byStart[..|execs| - MAX_EXECUTIONS]);
      }
    }

    method ComputeStatus(tx: Database, jobName: string, group: int, ghost s: State) returns (status: string)
      requires libs.AscendLaw() && Represents(tx, s)
      ensures status == Commands.ComputeStatus(libs, s.executions, jobName, group)
    {
      hide ExecKey, Represents, Commands.GetExecutions;
      var execs := ListTx(tx, jobName, s);
      var success, failed := 0, 0;
      for i := 0 to |execs|
        invariant success == CountSuccess(execs[..i], group, true)
        invariant failed == CountSuccess(execs[..i], group, false)
      {
        var ex := execs[i];
        assert execs[..i + 1] == execs[..i] + [ex];
        CountAppend(execs[..i], ex, group, true);
        CountAppend(execs[..i], ex, group, false);
        if ex.group == group {
          if ex.success { success := success + 1; } else { failed := failed + 1; }
        }
      }
      assert execs[..|execs|] == execs;
      status := if failed == 0 then STATUS_SUCCESS else if success == 0 then STATUS_FAILED else STATUS_PARTIALLY_FAILED;
    }

    method IncrementStatTx(given: Database, day: string, success: bool, ghost s: State) returns (tx: Database)
      requires Represents(given, s)
      ensures Represents(tx, s.(stats := IncrementStat(s.stats, day, success)))
    {
      hide Represents, ExecKey, StatKey;
      LookupStat(given, s, day);
      var stat := if StatKey(day) in given then given[StatKey(day)].stat else Stat(0, 0);
      if success {
        stat := stat.(success := Wrap64(stat.success + 1));
      } else {
        stat := stat.(failed := Wrap64(stat.failed + 1));
      }
      StatStored(given, s, day, stat);
      tx := given[StatKey(day) := StatRecord(day, stat)];
    }

    // Counts the execution in its job and in the statistics of its day.
    method CountTx(given: Database, stored: Job, e: Execution, ghost s: State) returns (tx: Database)
      requires libs.AscendLaw() && Represents(given, s)
      requires e.jobName in s.jobs && stored == s.jobs[e.jobName]
      ensures Represents(tx, Recorded(libs, s, e))
    {
      hide Represents, ExecKey, JobKey, StatKey, Initial, IncrementStat, Wrap32, Commands.ComputeStatus, Libs.AscendLaw;
      var job := stored;
      if e.success {
        job := job.(lastSuccess := Some(e.finishedAt), successCount := Wrap32(job.successCount + 1));
      } else {
        job := job.(lastError := Some(e.finishedAt), errorCount := Wrap32(job.errorCount + 1));
      }
      var status := ComputeStatus(given, job.name, e.group, s);
      job := job.(status := status);
      JobStored(given, s, job);
      tx := given[JobKey(job.name) := JobRecord(job)];
      tx := IncrementStatTx(tx, libs.day(e.finishedAt), e.success, Commands.PutJob(s, job));
    }

    method SetExecutionDone(e: Execution) returns (counted: bool, error: Option<Error>)
      requires Valid()
      modifies this
      ensures Valid() && DoneOutcome(view, counted, error) == Commands.SetExecutionDone(libs, old(view), e)
    {
      hide Represents, ExecKey, JobKey, StatKey, Initial, IncrementStat, PutExecution, CountedJob,
           Commands.ComputeStatus, Libs.AscendLaw, Libs.SortLaw;
      counted, error := false, None;
      LookupJob(db, view, e.jobName);
      if JobKey(e.jobName) !in db {
        return false, Some(ExecutionDoneForDeletedJob);
      }
      var job := db[JobKey(e.jobName)].job;
      var key := ExecKey(e);
      InitialOfExecKey(e);
      LookupExecution(db, view, key);
      var shouldCount := true;
      if key in db {
        var previous := db[key].execution;
        if previous.finishedAt > e.finishedAt {
          return;
        }
        if previous.finishedAt == e.finishedAt && previous.success == e.success {
          shouldCount := (if e.success then job.lastSuccess else job.lastError) != Some(e.finishedAt);
        }
      }
      var tx := SetExecutionTx(db, e, view);
      ghost var s := view.(executions := PutExecution(view.executions, e));
      if !shouldCount {
        db, view := tx, s;
        return;
      }
      counted := true;
      db := CountTx(tx, job, e, s);
      view := Recorded(libs, s, e);
    }

    /** The state machine applies one committed command. */
    method Apply(c: Command, clock: Clock) returns (r: Response)
      requires Valid()
      modifies this
      ensures Valid() && view == Step(libs, old(view), c, clock) && r == Fsm.Apply(libs, old(view), c, clock)
    {
      hide Represents, ExecKey, JobKey, Libs.Lawful, Commands.SetJob, Commands.DeleteJob, Commands.SetExecution,
           Commands.DeleteExecutions, Commands.SetExecutionDone;
      match c {
        case SetJobMsg(job) =>
          var error := SetJob(job, true, clock);
          r := Respond(error, Nil);
        case DeleteJobMsg(name) =>
          DeleteJobFindsJob(libs, view, name, clock);
          var error, deleted := DeleteJob(name, clock);
          r := if deleted.Some? then JobResponse(deleted.value) else Failed(error.value);
        case SetExecutionMsg(e) =>
          var key := SetExecution(e);
          r := KeyResponse(key);
        case DeleteExecutionsMsg(name) =>
          DeleteExecutionsFindsJob(view, name);
          var error := DeleteExecutions(name);
          if error.Some? {
            return Failed(error.value);
          }
          var job := GetJob(name);
          r := JobResponse(job.value);
        case ExecutionDoneMsg(e) =>
          var _, error := SetExecutionDone(e);
          r := Respond(error, Nil);
      }
    }
  }

  lemma DeleteJobFindsJob(libs: Libs, s: State, name: string, clock: Clock)
    ensures Commands.DeleteJob(libs, s, name, clock).error.None? ==> name in s.jobs
  {
    hide RemoveFromParent, ExecKey;
  }

  lemma DeleteExecutionsFindsJob(s: State, name: string)
    ensures var r := Commands.DeleteExecutions(s, name); r.error.None? ==> name in r.state.jobs
  {
    hide ExecKey;
  }

  lemma NoParentToLeave(libs: Libs, s: State, child: Job, clock: Clock)
    requires child.parentJob == ""
    ensures RemoveFromParent(libs, s, child, clock) == Outcome(s, None)
  {
    hide SetJob, ExecKey;
  }

  lemma DeletedScan(db: Database, s: State, jobName: string, gone: set<string>)
    requires Represents(db, s)
    requires forall k :: k in gone <==> k in db && HasPrefix(k, DeletePrefix(jobName))
    ensures s.executions - gone == DeleteScan(s.executions, DeletePrefix(jobName))
  {
    hide ExecKey, JobKey, StatKey, DeletePrefix;
    forall k | k in s.executions ensures k in db {
      assert HoldsExecution(db, s, k);
    }
  }

  // The keys of the list with the prefix.
  ghost function Prefixed(keys: seq<string>, prefix: string): seq<string> {
    if keys == [] then []
    else
      var last := keys[|keys| - 1];
      Prefixed(keys[..|keys| - 1], prefix) + if HasPrefix(last, prefix) then [last] else []
  }

  lemma PrefixedNothing(prefix: string)
    ensures Prefixed([], prefix) == []
  {
  }

  lemma PrefixedNext(keys: seq<string>, i: nat, prefix: string)
    requires i < |keys|
    ensures Prefixed(keys[..i + 1], prefix) ==
            Prefixed(keys[..i], prefix) + if HasPrefix(keys[i], prefix) then [keys[i]] else []
  {
    hide HasPrefix;
    assert keys[..i + 1][..i] == keys[..i];
  }

  lemma PrefixedKeys(libs: Libs, keys: set<string>, prefix: string)
    requires libs.AscendLaw()
    ensures forall k :: k in Prefixed(libs.ascend(keys), prefix) <==> k in keys && HasPrefix(k, prefix)
  {
    hide HasPrefix, Prefixed, Libs.AscendLaw;
    Executions.AscendsOnce(libs, keys);
    forall k ensures k in Prefixed(libs.ascend(keys), prefix) <==> k in keys && HasPrefix(k, prefix) {
      InPrefixed(libs.ascend(keys), prefix, k);
    }
  }

  lemma {:induction false} InPrefixed(keys: seq<string>, prefix: string, k: string)
    ensures k in Prefixed(keys, prefix) <==> k in keys && HasPrefix(k, prefix)
  {
    hide HasPrefix;
    if keys != [] {
      InPrefixed(keys[..|keys| - 1], prefix, k);
      assert keys == keys[..|keys| - 1] + [keys[|keys| - 1]];
    }
  }

  lemma ListingOf(libs: Libs, executions: ExecMap, jobName: string)
    ensures Commands.GetExecutions(libs, executions, jobName) ==
            Records(executions, libs.ascend(Executions.Listed(executions, jobName)))
  {
  }

  // The records over the limit are the first of the sorted listing.
  lemma OverflowOfListing(libs: Libs, executions: ExecMap, jobName: string)
    requires libs.Lawful()
    ensures var l := Commands.GetExecutions(libs, executions, jobName);
            if |l| > MAX_EXECUTIONS then
              && |libs.sortByStart(l)| == |l|
              && Overflow(libs, executions, jobName) == libs.sortByStart(l)[..|l| - MAX_EXECUTIONS]
            else
              executions - (set x | x in Overflow(libs, executions, jobName) :: ExecKey(x)) == executions
  {
    hide ExecKey, Commands.GetExecutions;
    var sorted := Executions.SortedListing(libs, executions, jobName);
  }

  lemma RecordsNext(executions: ExecMap, keys: seq<string>, i: nat, listed: set<string>)
    requires i < |keys| && listed <= executions.Keys
    ensures Records(executions, Restrict(keys[..i + 1], listed)) ==
            Records(executions, Restrict(keys[..i], listed)) + if keys[i] in listed then [executions[keys[i]]] else []
  {
    hide ExecKey;
    assert keys[..i + 1] == keys[..i] + [keys[i]];
    RestrictAppend(keys[..i], keys[i], listed);
    if keys[i] in listed {
      RecordsAppend(executions, Restrict(keys[..i], listed), keys[i]);
    } else {
      assert Restrict(keys[..i], listed) + [] == Restrict(keys[..i], listed);
    }
  }

  // The state after a stored execution is counted.
  ghost function Recorded(libs: Libs, s: State, e: Execution): State
    requires e.jobName in s.jobs
  {
    var job := CountedJob(s.jobs[e.jobName], e, Commands.ComputeStatus(libs, s.executions, e.jobName, e.group));
    State(s.jobs[e.jobName := job], s.executions, IncrementStat(s.stats, libs.day(e.finishedAt), e.success))
  }

  lemma RestrictedKeys(libs: Libs, keys: set<string>, some: set<string>)
    requires libs.AscendLaw() && some <= keys
    ensures libs.ascend(some) == Restrict(libs.ascend(keys), some)
  {
  }

  lemma NothingRestricted(executions: ExecMap, listed: set<string>)
    ensures Records(executions, Restrict([], listed)) == []
  {
  }

  lemma ListedIsHeld(db: Database, s: State, k: string)
    requires Represents(db, s) && k in s.executions
    ensures k in db && db[k] == ExecutionRecord(s.executions[k])
  {
    assert HoldsExecution(db, s, k);
  }
}
