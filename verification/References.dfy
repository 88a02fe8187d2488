/** References between jobs: what every reachable store keeps, and why no command is ever half applied. */
module References {
  import opened Wrappers
  import opened Types
  import opened Keys
  import opened Commands
  import opened Fsm

  /** A job with a parent names another stored job, which lists it. */
  predicate Linked(jobs: JobMap, n: string)
    requires n in jobs
  {
    var p := jobs[n].parentJob;
    p != "" ==> p != n && p in jobs && n in jobs[p].dependentJobs
  }

  ghost predicate AllLinked(jobs: JobMap) {
    forall n {:trigger Linked(jobs, n)} | n in jobs :: n != "" && Linked(jobs, n)
  }

  ghost predicate AllValid(libs: Libs, jobs: JobMap) {
    forall n {:trigger Validate(libs, jobs[n])} | n in jobs :: Validate(libs, jobs[n]).None?
  }

  ghost predicate Consistent(libs: Libs, s: State) {
    AllValid(libs, s.jobs) && AllLinked(s.jobs)
  }

  // The job's new version as the store keeps it.
  function NewVersion(libs: Libs, s: State, job: Job, copyDependentJobs: bool, clock: Clock): Job {
    var stored := Stored(s, job.name);
    var merged := Merge(job, stored, copyDependentJobs);
    var next := NextRun(libs, merged, stored, clock);
    if next.Ok? then merged.(next := next.value) else merged
  }

  function WithDependents(jobs: JobMap, parent: string, dependents: seq<string>): JobMap
    requires parent in jobs
  {
    jobs[parent := jobs[parent].(dependentJobs := dependents)]
  }

  function Unlink(jobs: JobMap, parent: string, child: string): JobMap {
    if parent in jobs then WithDependents(jobs, parent, Remove(jobs[parent].dependentJobs, child)) else jobs
  }

  function Link(jobs: JobMap, parent: string, child: string): JobMap {
    if parent in jobs then WithDependents(jobs, parent, jobs[parent].dependentJobs + [child]) else jobs
  }

  /** A validated job never fails to get its next run, whatever the clock says. */
  lemma ValidatedHasNext(libs: Libs, job: Job, stored: Job, clock: Clock)
    requires Validate(libs, job).None?
    ensures NextRun(libs, job, stored, clock).Ok?
  {
  }

  predicate ParentExists(jobs: JobMap, n: string)
    requires n in jobs
  {
    jobs[n].parentJob != "" ==> jobs[n].parentJob in jobs
  }

  ghost predicate ParentsExist(jobs: JobMap) {
    forall n {:trigger ParentExists(jobs, n)} | n in jobs :: ParentExists(jobs, n)
  }

  /** A stored job that is set again with another list of dependents changes in nothing else. */
  lemma UpdateDependents(libs: Libs, s: State, parent: string, dependents: seq<string>, clock: Clock)
    requires parent in s.jobs && Validate(libs, s.jobs[parent]).None?
    requires ParentExists(s.jobs, parent)
    ensures SetJob(libs, s, s.jobs[parent].(dependentJobs := dependents), false, clock) ==
            Outcome(s.(jobs := WithDependents(s.jobs, parent, dependents)), None)
  {
    var stored := s.jobs[parent];
    var job := stored.(dependentJobs := dependents);
    assert Validate(libs, job) == Validate(libs, stored);
    assert Merge(job, stored, false) == job;
    assert NextRun(libs, job, stored, clock) == Ok(stored.next);
  }

  lemma RemoveFromParentEffect(libs: Libs, s: State, child: Job, clock: Clock)
    requires AllValid(libs, s.jobs) && ParentsExist(s.jobs)
    requires child.parentJob != "" ==> child.parentJob in s.jobs && child.parentJob != child.name
    ensures RemoveFromParent(libs, s, child, clock) ==
            Outcome(if child.parentJob == "" then s else s.(jobs := Unlink(s.jobs, child.parentJob, child.name)), None)
  {
    if child.parentJob != "" {
      UpdateDependents(libs, s, child.parentJob, Remove(s.jobs[child.parentJob].dependentJobs, child.name), clock);
    }
  }

  lemma AddToParentEffect(libs: Libs, s: State, child: Job, clock: Clock)
    requires AllValid(libs, s.jobs) && ParentsExist(s.jobs)
    requires child.parentJob != "" ==> child.parentJob in s.jobs && child.parentJob != child.name
    ensures AddToParent(libs, s, child, clock) ==
            Outcome(if child.parentJob == "" then s else s.(jobs := Link(s.jobs, child.parentJob, child.name)), None)
  {
    if child.parentJob != "" {
      UpdateDependents(libs, s, child.parentJob, s.jobs[child.parentJob].dependentJobs + [child.name], clock);
    }
  }

  /** Is the job accepted: does it validate, and is its parent stored? */
  predicate Accepted(libs: Libs, s: State, job: Job) {
    Validate(libs, job).None? && (job.parentJob != "" ==> job.parentJob in s.jobs)
  }

  /** What SetJob does with an accepted job: it stores the new version, then updates the two parents. */
  lemma SetJobStores(libs: Libs, s: State, job: Job, copyDependentJobs: bool, clock: Clock)
    requires Accepted(libs, s, job)
    ensures var s1 := PutJob(s, NewVersion(libs, s, job, copyDependentJobs, clock));
            var removed := RemoveFromParent(libs, s1, Stored(s, job.name), clock);
            SetJob(libs, s, job, copyDependentJobs, clock) ==
              if job.parentJob == Stored(s, job.name).parentJob then Outcome(s1, None)
              else if removed.error.Some? then removed
              else AddToParent(libs, removed.state, job, clock)
  {
    var merged := Merge(job, Stored(s, job.name), copyDependentJobs);
    assert Validate(libs, merged) == Validate(libs, job);
    ValidatedHasNext(libs, merged, Stored(s, job.name), clock);
  }

  lemma VersionKeeps(libs: Libs, s: State, job: Job, copyDependentJobs: bool, clock: Clock)
    ensures var version := NewVersion(libs, s, job, copyDependentJobs, clock);
            && version.name == job.name && version.parentJob == job.parentJob
            && version.schedule == job.schedule && version.spec == job.spec
            && Validate(libs, version) == Validate(libs, job)
  {
  }

  // The later of two times, where no time comes before every time.
  ghost predicate IsLater(t: Option<Time>, a: Option<Time>, b: Option<Time>) {
    && (t == a || t == b)
    && (a.Some? ==> t.Some? && a.value <= t.value) && (b.Some? ==> t.Some? && b.value <= t.value)
  }

  /** A version of a job that takes nothing back of what earlier runs have left: the last results are the later ones,
      the counters the larger ones, the status stays once there is one, and without a new schedule the next run does
      not move back. */
  ghost predicate KeepsResults(was: Job, given: Job, is_: Job) {
    && IsLater(is_.lastSuccess, given.lastSuccess, was.lastSuccess)
    && IsLater(is_.lastError, given.lastError, was.lastError)
    && is_.successCount >= was.successCount && is_.successCount >= given.successCount
    && is_.errorCount >= was.errorCount && is_.errorCount >= given.errorCount
    && is_.successCount in {was.successCount, given.successCount}
    && is_.errorCount in {was.errorCount, given.errorCount}
    && is_.status == (if was.status != STATUS_NOT_SET then was.status else given.status)
    && (given.schedule == was.schedule ==>
          is_.next >= was.next && is_.next >= given.next && is_.next in {was.next, given.next})
    && is_.schedule == given.schedule && is_.parentJob == given.parentJob && is_.spec == given.spec
  }

  lemma VersionKeepsResults(libs: Libs, s: State, job: Job, clock: Clock)
    requires job.name in s.jobs && job.name != ""
    ensures KeepsResults(s.jobs[job.name], job, NewVersion(libs, s, job, true, clock))
  {
    hide GetNext, ExecKey;
  }

  /** Setting a stored job never takes back what its runs have left. */
  lemma SetJobKeepsResults(libs: Libs, s: State, job: Job, clock: Clock)
    requires Consistent(libs, s) && Accepted(libs, s, job) && job.name in s.jobs
    ensures var after := SetJob(libs, s, job, true, clock).state.jobs;
            job.name in after && KeepsResults(s.jobs[job.name], job, after[job.name])
  {
    hide SetJob, AllValid, Accepted, Replaced, NewVersion, ExecKey;
    var version, oldParent := NewVersion(libs, s, job, true, clock), s.jobs[job.name].parentJob;
    assert Linked(s.jobs, job.name);
    VersionKeeps(libs, s, job, true, clock);
    VersionKeepsResults(libs, s, job, clock);
    SetJobEffect(libs, s, job, true, clock);
    ReplacedKeepsRest(s.jobs, version, oldParent);
    var after := Replaced(s.jobs, version, oldParent);
    assert after[job.name] == version.(dependentJobs := after[job.name].dependentJobs);
  }

  /** What SetJob stores of an accepted job, besides the results it keeps: a new job just as it is given, and for any
      job, the list of dependents that was stored unless it was empty. */
  lemma SetJobStoresFields(libs: Libs, s: State, job: Job, clock: Clock)
    requires Consistent(libs, s) && Accepted(libs, s, job)
    ensures var after := SetJob(libs, s, job, true, clock).state.jobs;
            && after.Keys == s.jobs.Keys + {job.name}
            && (job.name !in s.jobs ==> after[job.name] == job.(next := after[job.name].next))
            && (job.name !in s.jobs && job.schedule == "" ==>
                  after[job.name].next == if job.next < EPOCH then EPOCH else job.next)
            && (job.name in s.jobs ==>
                  var was := s.jobs[job.name];
                  after[job.name].dependentJobs ==
                    if was.dependentJobs != [] then was.dependentJobs else job.dependentJobs)
  {
    hide SetJob, AllValid, Accepted, NewVersion, ExecKey, Unlink, Link;
    var version, oldParent := NewVersion(libs, s, job, true, clock), Stored(s, job.name).parentJob;
    VersionKeeps(libs, s, job, true, clock);
    VersionFields(libs, s, job, clock);
    SetJobEffect(libs, s, job, true, clock);
    assert job.name in s.jobs ==> Linked(s.jobs, job.name);
    AcceptedIsNotItsParent(libs, s, job);
    OwnListStays(s.jobs, version, oldParent);
  }

  lemma AcceptedIsNotItsParent(libs: Libs, s: State, job: Job)
    requires Accepted(libs, s, job)
    ensures job.parentJob != job.name
  {
    hide IsSlug, ExecKey;
  }

  lemma VersionFields(libs: Libs, s: State, job: Job, clock: Clock)
    requires AllLinked(s.jobs)
    ensures var version := NewVersion(libs, s, job, true, clock);
            && (job.name !in s.jobs ==> version == job.(next := version.next))
            && (job.name !in s.jobs && job.schedule == "" ==>
                  version.next == if job.next < EPOCH then EPOCH else job.next)
            && (job.name in s.jobs ==>
                  var was := s.jobs[job.name];
                  version.dependentJobs == if was.dependentJobs != [] then was.dependentJobs else job.dependentJobs)
  {
    hide GetNext, ExecKey;
    assert job.name in s.jobs ==> Linked(s.jobs, job.name);
  }

  // A job's own list is not changed by the updates of its parents.
  lemma OwnListStays(jobs: JobMap, job: Job, oldParent: string)
    requires job.parentJob != job.name && (oldParent == job.name ==> oldParent == "")
    ensures job.name in Replaced(jobs, job, oldParent) && Replaced(jobs, job, oldParent)[job.name] == job
    ensures Replaced(jobs, job, oldParent).Keys == jobs.Keys + {job.name}
  {
  }

  /** The next run that SetJob stores for a job whose schedule is new: not before the job starts, and from then on the
      next activation of the hashed schedule after the second reading of the clock. */
  lemma SetJobStoresNextRun(libs: Libs, s: State, job: Job, clock: Clock)
    requires Consistent(libs, s) && Accepted(libs, s, job)
    requires job.schedule != if job.name in s.jobs then s.jobs[job.name].schedule else ""
    ensures var after := SetJob(libs, s, job, true, clock).state.jobs;
            && job.name in after
            && after[job.name].next ==
                 if job.spec.startsAt.Some? && clock.first < job.spec.startsAt.value then job.spec.startsAt.value
                 else if job.schedule == "" then ZERO_TIME
                 else libs.next(libs.scheduleHash(job.name, job.schedule), clock.second)
  {
    hide SetJob, AllValid, NewVersion, Replaced, ExecKey;
    var version, oldParent := NewVersion(libs, s, job, true, clock), Stored(s, job.name).parentJob;
    NextOfVersion(libs, s, job, clock);
    VersionKeeps(libs, s, job, true, clock);
    SetJobEffect(libs, s, job, true, clock);
    hide Accepted, Validate;
    ReplacedKeepsRest(s.jobs, version, oldParent);
    var after := Replaced(s.jobs, version, oldParent);
    assert after[job.name] == version.(dependentJobs := after[job.name].dependentJobs);
  }

  lemma NextOfVersion(libs: Libs, s: State, job: Job, clock: Clock)
    requires Validate(libs, job).None? && job.schedule != Stored(s, job.name).schedule
    ensures NewVersion(libs, s, job, true, clock).next ==
            if job.spec.startsAt.Some? && clock.first < job.spec.startsAt.value then job.spec.startsAt.value
            else if job.schedule == "" then ZERO_TIME
            else libs.next(libs.scheduleHash(job.name, job.schedule), clock.second)
  {
    hide IsSlug, ExecKey;
  }

  // ---- Which jobs are refused ----

  // The checks of a job in their order, each with the error that names its failure.
  const CHECKS: seq<Error> :=
    [EmptyName, IllegalName, SameParent, ScheduleParse, WrongConcurrency, BadTimezone, BadTimeout, BadMemoryLimit,
     ParentJobNotFound]

  // Is a setting of the shell executor given and refused?
  predicate BadSetting(job: Job, key: string, accepts: string -> bool) {
    && job.spec.executor == "shell" && key in job.spec.executorConfig
    && job.spec.executorConfig[key] != "" && !accepts(job.spec.executorConfig[key])
  }

  /** Does the job fail the check? */
  ghost predicate Fails(libs: Libs, s: State, job: Job, check: Error) {
    match check
    case EmptyName => job.name == ""
    case IllegalName =>
      exists c :: c in job.name && !('a' <= c <= 'z') && !('0' <= c <= '9') && c != '_' && c != '-'
                  && !(c > '\U{7F}' && libs.lowerCase(c))
    case SameParent => job.parentJob == job.name
    case ScheduleParse =>
      !libs.parses(libs.scheduleHash(job.name, job.schedule)) && !(job.schedule == "" && job.parentJob != "")
    case WrongConcurrency =>
      job.spec.concurrency != "allow" && job.spec.concurrency != "forbid" && job.spec.concurrency != ""
    case BadTimezone => !libs.zoneLoads(job.spec.timezone)
    case BadTimeout => BadSetting(job, "timeout", libs.durationParses)
    case BadMemoryLimit => BadSetting(job, "mem_limit", libs.memoryLimitOk)
    case ParentJobNotFound => job.parentJob != "" && job.parentJob !in s.jobs
    case _ => false
  }

  /** SetJob refuses a job exactly when it fails a check, and reports the first check that it fails. */
  lemma SetJobReportsFirstFailure(libs: Libs, s: State, job: Job, clock: Clock)
    requires Consistent(libs, s)
    ensures var error := SetJob(libs, s, job, true, clock).error;
            && (error.None? <==> forall i | 0 <= i < |CHECKS| :: !Fails(libs, s, job, CHECKS[i]))
            && (forall i | 0 <= i < |CHECKS| :: error == Some(CHECKS[i]) <==>
                  Fails(libs, s, job, CHECKS[i]) && forall k | 0 <= k < i :: !Fails(libs, s, job, CHECKS[k]))
  {
    hide SetJob, AllValid, AllLinked, NewVersion, Replaced, ExecKey, Validate, Fails;
    SetJobEffect(libs, s, job, true, clock);
    RefusalError(libs, s, job, clock);
    FirstFailure(libs, s, job);
  }

  // The same of the validation and of the search for the parent.
  lemma FirstFailure(libs: Libs, s: State, job: Job)
    ensures var found := if Accepted(libs, s, job) then None
                         else if Validate(libs, job).Some? then Validate(libs, job) else Some(ParentJobNotFound);
            && (found.None? <==> forall i | 0 <= i < |CHECKS| :: !Fails(libs, s, job, CHECKS[i]))
            && (forall i | 0 <= i < |CHECKS| :: found == Some(CHECKS[i]) <==>
                  Fails(libs, s, job, CHECKS[i]) && forall k | 0 <= k < i :: !Fails(libs, s, job, CHECKS[k]))
  {
    ValidationByChecks(libs, s, job);
    hide Validate, Fails;
    var found := if Accepted(libs, s, job) then None
                 else if Validate(libs, job).Some? then Validate(libs, job) else Some(ParentJobNotFound);
    forall i | 0 <= i < |CHECKS| && found == Some(CHECKS[i])
      ensures Fails(libs, s, job, CHECKS[i]) && forall k | 0 <= k < i :: !Fails(libs, s, job, CHECKS[k])
    {
    }
    assert found.Some? ==> exists i :: 0 <= i < |CHECKS| && found == Some(CHECKS[i]) by {
      assert CHECKS[0] == EmptyName && CHECKS[1] == IllegalName && CHECKS[2] == SameParent;
      assert CHECKS[3] == ScheduleParse && CHECKS[4] == WrongConcurrency && CHECKS[5] == BadTimezone;
      assert CHECKS[6] == BadTimeout && CHECKS[7] == BadMemoryLimit && CHECKS[8] == ParentJobNotFound;
    }
  }

  lemma ValidationByChecks(libs: Libs, s: State, job: Job)
    ensures Accepted(libs, s, job) <==> Validate(libs, job).None? && !Fails(libs, s, job, ParentJobNotFound)
    ensures Validate(libs, job) ==
            if Fails(libs, s, job, EmptyName) then Some(EmptyName)
            else if Fails(libs, s, job, IllegalName) then Some(IllegalName)
            else if Fails(libs, s, job, SameParent) then Some(SameParent)
            else if Fails(libs, s, job, ScheduleParse) then Some(ScheduleParse)
            else if Fails(libs, s, job, WrongConcurrency) then Some(WrongConcurrency)
            else if Fails(libs, s, job, BadTimezone) then Some(BadTimezone)
            else if Fails(libs, s, job, BadTimeout) then Some(BadTimeout)
            else if Fails(libs, s, job, BadMemoryLimit) then Some(BadMemoryLimit)
            else None
  {
    SlugIff(libs, job.name);
    hide IsSlug, IsSlugChar, ExecKey;
  }

  lemma SlugIff(libs: Libs, name: string)
    ensures IsSlug(libs, name) <==>
            forall c | c in name ::
              'a' <= c <= 'z' || '0' <= c <= '9' || c == '_' || c == '-' || (c > '\U{7F}' && libs.lowerCase(c))
  {
    forall i | 0 <= i < |name| ensures name[i] in name {
    }
    if IsSlug(libs, name) {
      forall c | c in name ensures IsSlugChar(libs, c) {
        var i :| 0 <= i < |name| && name[i] == c;
      }
    }
  }

  lemma RefusalError(libs: Libs, s: State, job: Job, clock: Clock)
    ensures Validate(libs, job).Some? ==> SetJob(libs, s, job, true, clock).error == Validate(libs, job)
    ensures Validate(libs, job).None? && !Accepted(libs, s, job) ==>
              SetJob(libs, s, job, true, clock).error == Some(ParentJobNotFound)
  {
    hide Validate, Merge, NextRun, RemoveFromParent, AddToParent;
  }

  /** The fields that validation reads. */
  predicate SameDefinition(j: Job, k: Job) {
    j.name == k.name && j.parentJob == k.parentJob && j.schedule == k.schedule && j.spec == k.spec
  }

  lemma SameDefinitionSameVerdict(libs: Libs, j: Job, k: Job)
    requires SameDefinition(j, k)
    ensures Validate(libs, j) == Validate(libs, k)
  {
  }

  ghost predicate AllSameDefinition(jobs: JobMap, after: JobMap) {
    after.Keys <= jobs.Keys && forall n | n in after :: SameDefinition(jobs[n], after[n])
  }

  lemma SameDefinitionsStayValid(libs: Libs, jobs: JobMap, after: JobMap)
    requires AllValid(libs, jobs) && AllSameDefinition(jobs, after)
    ensures AllValid(libs, after)
  {
    forall n | n in after ensures Validate(libs, after[n]).None? {
      SameDefinitionSameVerdict(libs, jobs[n], after[n]);
    }
  }

  lemma {:induction false} RemoveKeepsOthers(names: seq<string>, name: string, n: string)
    ensures n in Remove(names, name) <==> n in names && n != name
  {
    if names != [] {
      RemoveKeepsOthers(names[1..], name, n);
      assert n in names <==> n == names[0] || n in names[1..];
    }
  }

  /** Removing a name takes out every occurrence and leaves the order of the others. */
  lemma {:induction false} RemoveInParts(a: seq<string>, b: seq<string>, name: string)
    ensures Remove(a + b, name) == Remove(a, name) + Remove(b, name)
    ensures name !in a ==> Remove(a, name) == a
    ensures name !in Remove(a, name)
  {
    if a == [] {
      assert a + b == b;
    } else {
      assert (a + b)[1..] == a[1..] + b;
      RemoveInParts(a[1..], b, name);
      assert a == [a[0]] + a[1..];
    }
  }

  predicate ListsChild(jobs: JobMap, p: string, c: string) {
    p in jobs && c in jobs[p].dependentJobs
  }

  // Equal but for the lists of dependents.
  ghost predicate SameButDependents(jobs: JobMap, after: JobMap) {
    && after.Keys == jobs.Keys
    && forall n | n in jobs :: after[n] == jobs[n].(dependentJobs := after[n].dependentJobs)
  }

  lemma UnlinkEffect(jobs: JobMap, parent: string, child: string)
    ensures SameButDependents(jobs, Unlink(jobs, parent, child))
    ensures forall p, n :: ListsChild(Unlink(jobs, parent, child), p, n) <==>
            ListsChild(jobs, p, n) && !(p == parent && n == child)
  {
    forall p, n
      ensures ListsChild(Unlink(jobs, parent, child), p, n) <==> ListsChild(jobs, p, n) && !(p == parent && n == child)
    {
      if parent in jobs { RemoveKeepsOthers(jobs[parent].dependentJobs, child, n); }
    }
  }

  lemma LinkEffect(jobs: JobMap, parent: string, child: string)
    ensures SameButDependents(jobs, Link(jobs, parent, child))
    ensures forall p, n :: ListsChild(Link(jobs, parent, child), p, n) <==>
            ListsChild(jobs, p, n) || (p == parent && p in jobs && n == child)
  {
  }

  // The jobs after storing `job` and taking it off its old parent's list.
  function Unlinked(jobs: JobMap, job: Job, oldParent: string): JobMap {
    if oldParent == "" then jobs[job.name := job] else Unlink(jobs[job.name := job], oldParent, job.name)
  }

  /** The jobs after storing `job`, which replaces a job whose parent was `oldParent`. */
  function Replaced(jobs: JobMap, job: Job, oldParent: string): JobMap {
    if job.parentJob == oldParent then jobs[job.name := job]
    else if job.parentJob == "" then Unlinked(jobs, job, oldParent)
    else Link(Unlinked(jobs, job, oldParent), job.parentJob, job.name)
  }

  lemma UnlinkedStaysValid(libs: Libs, jobs: JobMap, job: Job, oldParent: string)
    requires AllValid(libs, jobs) && Validate(libs, job).None?
    ensures AllValid(libs, jobs[job.name := job])
    ensures AllValid(libs, Unlinked(jobs, job, oldParent))
  {
    var stored: JobMap := jobs[job.name := job];
    UnlinkEffect(stored, oldParent, job.name);
    SameDefinitionsStayValid(libs, stored, Unlink(stored, oldParent, job.name));
  }

  lemma ReplacedStaysValid(libs: Libs, jobs: JobMap, job: Job, oldParent: string)
    requires AllValid(libs, jobs) && Validate(libs, job).None?
    ensures AllValid(libs, Replaced(jobs, job, oldParent))
  {
    var unlinked := Unlinked(jobs, job, oldParent);
    UnlinkedStaysValid(libs, jobs, job, oldParent);
    LinkEffect(unlinked, job.parentJob, job.name);
    SameDefinitionsStayValid(libs, unlinked, Link(unlinked, job.parentJob, job.name));
  }

  /** Setting a job in a consistent store: a job that is not accepted changes nothing, and for an accepted one no nested
      update fails, so that the whole command is applied. */
  lemma SetJobEffect(libs: Libs, s: State, job: Job, copyDependentJobs: bool, clock: Clock)
    requires Consistent(libs, s)
    ensures var r := SetJob(libs, s, job, copyDependentJobs, clock);
            if Accepted(libs, s, job) then
              r == Outcome(s.(jobs := Replaced(s.jobs, NewVersion(libs, s, job, copyDependentJobs, clock),
                                               Stored(s, job.name).parentJob)), None)
            else
              r.error.Some? && r.state == s
  {
    if Accepted(libs, s, job) {
      AcceptedJobEffect(libs, s, job, copyDependentJobs, clock);
    }
  }

  lemma AcceptedJobEffect(libs: Libs, s: State, job: Job, copyDependentJobs: bool, clock: Clock)
    requires Consistent(libs, s) && Accepted(libs, s, job)
    ensures SetJob(libs, s, job, copyDependentJobs, clock) ==
            Outcome(
              s.(jobs :=
                Replaced(s.jobs, NewVersion(libs, s, job, copyDependentJobs, clock), Stored(s, job.name).parentJob)),
              None)
  {
    var stored := Stored(s, job.name);
    var version := NewVersion(libs, s, job, copyDependentJobs, clock);
    SetJobStores(libs, s, job, copyDependentJobs, clock);
    VersionKeeps(libs, s, job, copyDependentJobs, clock);
    ParentUpdatesEffect(libs, s, job, version, stored, clock);
  }

  /** The two nested updates after a new version is stored. */
  lemma ParentUpdatesEffect(libs: Libs, s: State, job: Job, version: Job, stored: Job, clock: Clock)
    requires Consistent(libs, s) && Accepted(libs, s, job) && stored == Stored(s, job.name)
    requires version.name == job.name && version.parentJob == job.parentJob && Validate(libs, version).None?
    ensures var s1 := PutJob(s, version);
            var removed := RemoveFromParent(libs, s1, stored, clock);
            job.parentJob != stored.parentJob ==>
              && removed.error.None?
              && AddToParent(libs, removed.state, job, clock)
                 == Outcome(s.(jobs := Replaced(s.jobs, version, stored.parentJob)), None)
  {
    var s1 := PutJob(s, version);
    if job.parentJob != stored.parentJob {
      assert stored.parentJob != "" ==> Linked(s.jobs, job.name);
      UnlinkedStaysValid(libs, s.jobs, version, stored.parentJob);
      StoringKeepsParents(s.jobs, version);
      RemoveFromParentEffect(libs, s1, stored, clock);
      UnlinkedKeepsParents(s.jobs, version, stored.parentJob);
      AddToParentEffect(libs, s1.(jobs := Unlinked(s.jobs, version, stored.parentJob)), job, clock);
    }
  }

  lemma UnlinkedKeepsParents(jobs: JobMap, job: Job, oldParent: string)
    requires ParentsExist(jobs[job.name := job])
    ensures ParentsExist(Unlinked(jobs, job, oldParent))
    ensures Unlinked(jobs, job, oldParent).Keys == jobs.Keys + {job.name}
  {
    var stored: JobMap := jobs[job.name := job];
    var after := Unlinked(jobs, job, oldParent);
    UnlinkEffect(stored, oldParent, job.name);
    forall n | n in after ensures ParentExists(after, n) {
      assert ParentExists(stored, n);
    }
  }

  lemma StoringKeepsParents(jobs: JobMap, job: Job)
    requires AllLinked(jobs) && (job.parentJob != "" ==> job.parentJob in jobs)
    ensures ParentsExist(jobs[job.name := job])
  {
    forall n | n in jobs ensures ParentExists(jobs[job.name := job], n) {
      assert Linked(jobs, n);
    }
    assert ParentExists(jobs[job.name := job], job.name);
  }

  predicate Deletable(s: State, name: string) {
    name in s.jobs && s.jobs[name].dependentJobs == []
  }

  /** The jobs after deleting one. */
  function Deleted(jobs: JobMap, name: string): JobMap
    requires name in jobs
  {
    if jobs[name].parentJob == "" then jobs - {name} else Unlink(jobs - {name}, jobs[name].parentJob, name)
  }

  lemma DeleteJobEffect(libs: Libs, s: State, name: string, clock: Clock)
    requires Consistent(libs, s)
    ensures var r := DeleteJob(libs, s, name, clock);
            if Deletable(s, name) then
              r == Outcome(State(Deleted(s.jobs, name), DeleteScan(s.executions, DeletePrefix(name)), s.stats), None)
            else
              r.error.Some? && r.state == s
  {
    if Deletable(s, name) {
      var s1 := State(s.jobs - {name}, DeleteScan(s.executions, DeletePrefix(name)), s.stats);
      assert Linked(s.jobs, name);
      forall n | n in s1.jobs ensures ParentExists(s1.jobs, n) && Validate(libs, s1.jobs[n]).None? {
        assert Linked(s.jobs, n) && Validate(libs, s.jobs[n]).None?;
      }
      RemoveFromParentEffect(libs, s1, s.jobs[name], clock);
    }
  }

  // Who is listed by `p` after `job` replaces a job with the parent `oldParent`.
  predicate ListedAfter(jobs: JobMap, job: Job, oldParent: string, p: string, n: string) {
    if n == job.name && job.parentJob != oldParent && p != "" && (p == job.parentJob || p == oldParent)
        then p == job.parentJob
    else if p == job.name then n in job.dependentJobs
    else p in jobs && n in jobs[p].dependentJobs
  }

  /** What the jobs are after `job` replaces a job with the parent `oldParent`, up to the order of dependents. */
  ghost predicate Relinked(jobs: JobMap, job: Job, oldParent: string, after: JobMap) {
    && SameButDependents(jobs[job.name := job], after)
    && (forall p, n | p in after :: ListsChild(after, p, n) <==> ListedAfter(jobs, job, oldParent, p, n))
  }

  lemma SameButDependentsTwice(a: JobMap, b: JobMap, c: JobMap)
    requires SameButDependents(a, b) && SameButDependents(b, c)
    ensures SameButDependents(a, c)
  {
    forall n | n in a ensures c[n] == a[n].(dependentJobs := c[n].dependentJobs) {
      assert b[n] == a[n].(dependentJobs := b[n].dependentJobs);
    }
  }

  lemma ReplacedLists(jobs: JobMap, job: Job, oldParent: string, p: string, n: string)
    requires p in Replaced(jobs, job, oldParent)
    requires job.parentJob != job.name && (oldParent == job.name ==> oldParent == "")
    ensures ListsChild(Replaced(jobs, job, oldParent), p, n) <==> ListedAfter(jobs, job, oldParent, p, n)
  {
    StoredLists(jobs, job, p, n);
    UnlinkedLists(jobs, job, oldParent, p, n);
    LinkLists(Unlinked(jobs, job, oldParent), job.parentJob, job.name, p, n);
    hide ListsChild, Unlinked, Link;
    ListsOnlyStored(jobs, p, n);
  }

  lemma ListsOnlyStored(jobs: JobMap, p: string, n: string)
    ensures ListsChild(jobs, p, n) <==> p in jobs && n in jobs[p].dependentJobs
  {
  }

  lemma StoredLists(jobs: JobMap, job: Job, p: string, n: string)
    ensures ListsChild(jobs[job.name := job], p, n) <==>
            if p == job.name then n in job.dependentJobs else ListsChild(jobs, p, n)
  {
  }

  lemma UnlinkedLists(jobs: JobMap, job: Job, oldParent: string, p: string, n: string)
    ensures Unlinked(jobs, job, oldParent).Keys == jobs.Keys + {job.name}
    ensures ListsChild(Unlinked(jobs, job, oldParent), p, n) <==>
            ListsChild(jobs[job.name := job], p, n) && !(oldParent != "" && p == oldParent && n == job.name)
  {
    hide Unlink, ListsChild;
    UnlinkEffect(jobs[job.name := job], oldParent, job.name);
  }

  lemma LinkLists(jobs: JobMap, parent: string, child: string, p: string, n: string)
    ensures Link(jobs, parent, child).Keys == jobs.Keys
    ensures ListsChild(Link(jobs, parent, child), p, n) <==>
            ListsChild(jobs, p, n) || (p == parent && p in jobs && n == child)
  {
    hide Link, ListsChild;
    LinkEffect(jobs, parent, child);
  }

  lemma ReplacedKeepsRest(jobs: JobMap, job: Job, oldParent: string)
    ensures SameButDependents(jobs[job.name := job], Replaced(jobs, job, oldParent))
  {
    hide Unlink, Link, ListsChild;
    var stored: JobMap := jobs[job.name := job];
    UnlinkEffect(stored, oldParent, job.name);
    if job.parentJob != oldParent && job.parentJob != "" {
      LinkEffect(Unlinked(jobs, job, oldParent), job.parentJob, job.name);
      if oldParent != "" {
        SameButDependentsTwice(stored, Unlinked(jobs, job, oldParent), Replaced(jobs, job, oldParent));
      }
    }
  }

  lemma ReplacedIsRelinked(jobs: JobMap, job: Job, oldParent: string)
    requires job.parentJob != job.name && (oldParent == job.name ==> oldParent == "")
    ensures Relinked(jobs, job, oldParent, Replaced(jobs, job, oldParent))
  {
    hide Replaced, ListsChild, ListedAfter;
    ReplacedKeepsRest(jobs, job, oldParent);
    forall p, n | p in Replaced(jobs, job, oldParent)
      ensures ListsChild(Replaced(jobs, job, oldParent), p, n) <==> ListedAfter(jobs, job, oldParent, p, n)
    {
      ReplacedLists(jobs, job, oldParent, p, n);
    }
  }
}
