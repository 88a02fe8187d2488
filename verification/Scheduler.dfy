/** The cron table: which jobs the leader's scheduler holds, and under which schedule. */
module CronTable {
  import opened Wrappers
  import opened Types
  import opened Keys
  import opened ScheduleHash

  // An entry of the cron library. Its job is the copy that was handed to the scheduler.
  datatype CronEntry = CronEntry(id: nat, schedule: string, job: Job)

  // Descriptors do not take a time zone, and other schedules may name one themselves.
  predicate TakesZone(schedule: string) {
    !HasPrefix(schedule, DESCRIPTOR) && !HasPrefix(schedule, ZONE) && !HasPrefix(schedule, CRON_ZONE)
  }

  function EffectiveSchedule(libs: Libs, job: Job): string {
    var schedule := libs.scheduleHash(job.name, job.schedule);
    if job.spec.timezone != "" && TakesZone(schedule) then CRON_ZONE + job.spec.timezone + " " + schedule else schedule
  }

  predicate Schedulable(job: Job) {
    !job.spec.disabled && job.parentJob == ""
  }

  /** The cron parser's promise: a schedule stays a schedule when a zone that loads is put in front of it. */
  ghost predicate ZoneLaw(libs: Libs) {
    forall zone: string, schedule: string {:trigger libs.zoneLoads(zone), libs.parses(schedule)} ::
      libs.zoneLoads(zone) && libs.parses(schedule) && zone != "" && TakesZone(schedule) ==>
        libs.parses(CRON_ZONE + zone + " " + schedule)
  }

  /** What the program puts in place of `~`. */
  ghost predicate HashLaw(libs: Libs) {
    forall name: string, spec: string {:trigger libs.scheduleHash(name, spec)} ::
        libs.scheduleHash(name, spec) == Hashed(name, spec)
  }

  /** A job whose schedule is replaced by the hashed one is the same job to the parser and to the cron table. */
  lemma HashedJobIsTheSame(libs: Libs, job: Job)
    requires HashLaw(libs)
    ensures var hashed := libs.scheduleHash(job.name, job.schedule);
            var j := job.(schedule := hashed);
            libs.scheduleHash(j.name, j.schedule) == hashed
            && EffectiveSchedule(libs, j) == EffectiveSchedule(libs, job)
  {
    hide Hashed;
    HashedTwice(job.name, job.schedule);
  }

  lemma ValidIsParsed(libs: Libs, job: Job)
    requires ZoneLaw(libs) && Validate(libs, job).None? && Schedulable(job)
    ensures libs.parses(EffectiveSchedule(libs, job))
  {
    assert libs.zoneLoads(job.spec.timezone) && libs.parses(libs.scheduleHash(job.name, job.schedule));
  }

  // ---- The table as a list ----

  /** The first entry of a job. */
  function Find(entries: seq<CronEntry>, name: string): Option<CronEntry> {
    if entries == [] then None
    else if entries[0].job.name == name then Some(entries[0])
    else Find(entries[1..], name)
  }

  function RemoveId(entries: seq<CronEntry>, id: nat): seq<CronEntry> {
    if entries == [] then []
    else if entries[0].id == id then RemoveId(entries[1..], id)
    else [entries[0]] + RemoveId(entries[1..], id)
  }

  function Drop(entries: seq<CronEntry>, name: string): seq<CronEntry> {
    match Find(entries, name)
    case None => entries
    case Some(e) => RemoveId(entries, e.id)
  }

  datatype Added = Added(entries: seq<CronEntry>, nextId: nat, error: Option<Error>)

  /** Replaces the job's entry, unless the job is disabled or has a parent: such a job has none. */
  function Add(libs: Libs, entries: seq<CronEntry>, nextId: nat, job: Job): Added {
    var rest := Drop(entries, job.name);
    if !Schedulable(job) then Added(rest, nextId, None)
    else
      var schedule := EffectiveSchedule(libs, job);
      if !libs.parses(schedule) then Added(rest, nextId, Some(ScheduleParse))
      else Added(rest + [CronEntry(nextId, schedule, job)], nextId + 1, None)
  }

  /** Adds job after job until one fails. */
  function AddAll(libs: Libs, entries: seq<CronEntry>, nextId: nat, jobs: seq<Job>): Added
    decreases |jobs|
  {
    if jobs == [] then Added(entries, nextId, None)
    else
      var added := Add(libs, entries, nextId, jobs[0]);
      if added.error.Some? then added else AddAll(libs, added.entries, added.nextId, jobs[1..])
  }

  // ---- What the table holds for a job ----

  /** The schedules under which the table holds a job. */
  function Schedules(entries: seq<CronEntry>, name: string): seq<string> {
    if entries == [] then []
    else if entries[0].job.name == name then [entries[0].schedule] + Schedules(entries[1..], name)
    else Schedules(entries[1..], name)
  }

  // The library hands out its ids in order and does not use one twice.
  ghost predicate UniqueIds(entries: seq<CronEntry>, nextId: nat) {
    && (forall i | 0 <= i < |entries| :: entries[i].id < nextId)
    && (forall i, j | 0 <= i < j < |entries| :: entries[i].id != entries[j].id)
  }

  /** The one entry that a job should have, if any. */
  function Wanted(libs: Libs, job: Job): seq<string> {
    if Schedulable(job) then [EffectiveSchedule(libs, job)] else []
  }

  lemma {:induction false} SchedulesConcat(a: seq<CronEntry>, b: seq<CronEntry>, name: string)
    ensures Schedules(a + b, name) == Schedules(a, name) + Schedules(b, name)
  {
    if a == [] {
      assert a + b == b;
    } else {
      assert (a + b)[1..] == a[1..] + b;
      SchedulesConcat(a[1..], b, name);
    }
  }

  lemma {:induction false} RemoveIdOfNone(entries: seq<CronEntry>, id: nat)
    requires forall i | 0 <= i < |entries| :: entries[i].id != id
    ensures RemoveId(entries, id) == entries
  {
    if entries != [] {
      forall i | 0 <= i < |entries[1..]| ensures entries[1..][i].id != id {
        assert entries[1..][i] == entries[i + 1];
      }
      RemoveIdOfNone(entries[1..], id);
    }
  }

  lemma UniqueIdsTail(entries: seq<CronEntry>, nextId: nat)
    requires UniqueIds(entries, nextId) && entries != []
    ensures UniqueIds(entries[1..], nextId)
    ensures forall i | 0 <= i < |entries[1..]| :: entries[1..][i].id != entries[0].id
  {
    forall i | 0 <= i < |entries[1..]| ensures entries[1..][i] == entries[i + 1] {
    }
  }

  /** The entry that is found is in the list, and leaves the list with nothing else. */
  lemma {:induction false} DropFirst(entries: seq<CronEntry>, nextId: nat, name: string)
    requires UniqueIds(entries, nextId)
    ensures UniqueIds(Drop(entries, name), nextId) && multiset(Drop(entries, name)) <= multiset(entries)
    ensures Find(entries, name).Some? <==> Schedules(entries, name) != []
    ensures Find(entries, name).Some? ==> Find(entries, name).value in entries
    ensures forall n :: Schedules(Drop(entries, name), n) ==
              if n == name && Schedules(entries, n) != [] then Schedules(entries, n)[1..] else Schedules(entries, n)
  {
    if entries != [] {
      var first, rest := entries[0], entries[1..];
      assert entries == [first] + rest;
      UniqueIdsTail(entries, nextId);
      if first.job.name == name {
        RemoveIdOfNone(rest, first.id);
      } else {
        DropFirst(rest, nextId, name);
        if Find(rest, name).Some? {
          var e := Find(rest, name).value;
          assert e in rest && e.id != first.id;
          assert Drop(entries, name) == [first] + Drop(rest, name);
          ConsUnique(first, Drop(rest, name), rest, nextId);
          forall n
            ensures Schedules([first] + Drop(rest, name), n) ==
                    Schedules([first], n) + Schedules(Drop(rest, name), n)
          {
            SchedulesConcat([first], Drop(rest, name), n);
          }
          forall n ensures Schedules(entries, n) == Schedules([first], n) + Schedules(rest, n) {
            SchedulesConcat([first], rest, n);
          }
        }
      }
    }
  }

  lemma ConsUnique(first: CronEntry, some: seq<CronEntry>, rest: seq<CronEntry>, nextId: nat)
    requires UniqueIds(some, nextId) && multiset(some) <= multiset(rest) && first.id < nextId
    requires forall i | 0 <= i < |rest| :: rest[i].id != first.id
    ensures UniqueIds([first] + some, nextId)
    ensures multiset([first] + some) <= multiset([first] + rest)
  {
    forall i | 0 <= i < |some| ensures some[i].id != first.id {
      assert some[i] in multiset(some) && some[i] in multiset(rest) && some[i] in rest;
    }
  }

  /** Adding a job leaves it with the entry it should have, when it had at most one, and leaves the other jobs alone. */
  lemma AddHolds(libs: Libs, entries: seq<CronEntry>, nextId: nat, job: Job)
    requires UniqueIds(entries, nextId) && |Schedules(entries, job.name)| <= 1
    ensures var r := Add(libs, entries, nextId, job);
            && UniqueIds(r.entries, r.nextId)
            && (r.error.Some? <==> Schedulable(job) && !libs.parses(EffectiveSchedule(libs, job)))
            && (forall n :: Schedules(r.entries, n) ==
                  if n != job.name then Schedules(entries, n) else if r.error.None? then Wanted(libs, job) else [])
  {
    hide Schedulable, EffectiveSchedule, Drop, UniqueIds, Schedules, Find;
    DropFirst(entries, nextId, job.name);
    var rest, r := Drop(entries, job.name), Add(libs, entries, nextId, job);
    forall n ensures Schedules(rest, n) == if n == job.name then [] else Schedules(entries, n) {
      if n == job.name {
        assert Schedules(entries, n) != [] ==> Schedules(entries, n)[1..] == [];
      }
    }
    if Schedulable(job) && r.error.None? {
      AppendHolds(rest, CronEntry(nextId, EffectiveSchedule(libs, job), job));
    }
  }

  /** The schedule under which a job is held: the hashed one, with the job's zone in front of it when it has one and
      neither the schedule is a descriptor nor it names a zone itself. */
  lemma HeldSchedule(libs: Libs, job: Job)
    ensures var schedule := libs.scheduleHash(job.name, job.schedule);
            EffectiveSchedule(libs, job) ==
              if job.spec.timezone == "" || "@" <= schedule || "TZ=" <= schedule || "CRON_TZ=" <= schedule
              then schedule
              else "CRON_TZ=" + job.spec.timezone + " " + schedule
  {
  }

  /** The table after a job is added: a job that is disabled or has a parent has no entry, and any other one has a
      single entry, for itself, under the schedule of its zone, unless that does not parse. */
  lemma AddedEntry(libs: Libs, entries: seq<CronEntry>, nextId: nat, job: Job)
    requires UniqueIds(entries, nextId) && |Schedules(entries, job.name)| <= 1
    ensures var r := Add(libs, entries, nextId, job);
            var hashed := libs.scheduleHash(job.name, job.schedule);
            var schedule :=
              if job.spec.timezone == "" || "@" <= hashed || "TZ=" <= hashed || "CRON_TZ=" <= hashed then hashed
              else "CRON_TZ=" + job.spec.timezone + " " + hashed;
            var held := !job.spec.disabled && job.parentJob == "";
            && r.error == (if held && !libs.parses(schedule) then Some(ScheduleParse) else None)
            && Schedules(r.entries, job.name) == (if held && libs.parses(schedule) then [schedule] else [])
            && (held && libs.parses(schedule) ==>
                  Find(r.entries, job.name).Some? && Find(r.entries, job.name).value.job == job)
            && (!held || !libs.parses(schedule) ==> Find(r.entries, job.name).None?)
  {
    HeldSchedule(libs, job);
    AddHolds(libs, entries, nextId, job);
    DropFirst(entries, nextId, job.name);
    var rest, r := Drop(entries, job.name), Add(libs, entries, nextId, job);
    hide EffectiveSchedule, Drop;
    assert Schedules(entries, job.name) != [] ==> Schedules(entries, job.name)[1..] == [];
    DropFirst(rest, nextId, job.name);
    DropFirst(r.entries, r.nextId, job.name);
    if rest != r.entries {
      FindLast(rest, r.entries[|rest|], job.name);
    }
  }

  lemma {:induction false} FindLast(rest: seq<CronEntry>, e: CronEntry, name: string)
    requires Find(rest, name).None? && e.job.name == name
    ensures Find(rest + [e], name) == Some(e)
  {
    if rest != [] {
      assert (rest + [e])[1..] == rest[1..] + [e];
      FindLast(rest[1..], e, name);
    }
  }

  lemma AppendHolds(entries: seq<CronEntry>, e: CronEntry)
    requires UniqueIds(entries, e.id)
    ensures UniqueIds(entries + [e], e.id + 1)
    ensures forall n ::
            Schedules(entries + [e], n) == Schedules(entries, n) + if e.job.name == n then [e.schedule] else []
  {
    forall n
      ensures Schedules(entries + [e], n) == Schedules(entries, n) + if e.job.name == n then [e.schedule] else []
    {
      SchedulesConcat(entries, [e], n);
      assert [e][1..] == [];
    }
  }

  ghost predicate DistinctJobs(jobs: seq<Job>) {
    forall i, j | 0 <= i < j < |jobs| :: jobs[i].name != jobs[j].name
  }

  predicate Parsed(libs: Libs, job: Job) {
    Schedulable(job) ==> libs.parses(EffectiveSchedule(libs, job))
  }

  /** Filling a table succeeds exactly when the effective schedule of every job to be scheduled parses, and then each
      of the jobs has the entry it should have. */
  lemma {:induction false} AddAllHolds(libs: Libs, entries: seq<CronEntry>, nextId: nat, jobs: seq<Job>)
    requires UniqueIds(entries, nextId) && DistinctJobs(jobs)
    requires forall i | 0 <= i < |jobs| :: Schedules(entries, jobs[i].name) == []
    ensures var r := AddAll(libs, entries, nextId, jobs);
            && UniqueIds(r.entries, r.nextId)
            && (r.error.None? <==> forall i | 0 <= i < |jobs| :: Parsed(libs, jobs[i]))
            && (r.error.None? ==>
                  forall i | 0 <= i < |jobs| :: Schedules(r.entries, jobs[i].name) == Wanted(libs, jobs[i]))
            && (r.error.None? ==> forall n | (forall i | 0 <= i < |jobs| :: jobs[i].name != n) ::
                  Schedules(r.entries, n) == Schedules(entries, n))
    decreases |jobs|
  {
    hide Schedules, Wanted, UniqueIds, Schedulable, EffectiveSchedule, Add;
    if jobs != [] {
      var job, rest := jobs[0], jobs[1..];
      AddHolds(libs, entries, nextId, job);
      var added := Add(libs, entries, nextId, job);
      assert forall i | 0 <= i < |rest| :: rest[i] == jobs[i + 1];
      assert added.error.None? <==> Parsed(libs, job);
      if added.error.None? {
        AddAllHolds(libs, added.entries, added.nextId, rest);
        var r := AddAll(libs, added.entries, added.nextId, rest);
        assert forall i | 0 < i < |jobs| :: jobs[i] == rest[i - 1];
      }
    }
  }
}

/** The scheduler of an agent: whether it is started, and its cron table. */
module Scheduling {
  import opened Wrappers
  import opened Types
  import opened ScheduleHash
  import opened CronTable

  // How many entries carry the name?
  function Count(entries: seq<CronEntry>, name: string): nat {
    if entries == [] then 0 else (if entries[0].job.name == name then 1 else 0) + Count(entries[1..], name)
  }

  lemma {:induction false} RemoveIdCounts(entries: seq<CronEntry>, id: nat, name: string)
    ensures Count(RemoveId(entries, id), name) <= Count(entries, name)
  {
    if entries != [] {
      RemoveIdCounts(entries[1..], id, name);
      assert ([entries[0]] + RemoveId(entries[1..], id))[1..] == RemoveId(entries[1..], id);
    }
  }

  /** Dropping a job takes at least one of its entries away, whatever the ids are. */
  lemma {:induction false} DropCounts(entries: seq<CronEntry>, name: string, n: string)
    ensures Count(Drop(entries, name), n) <= Count(entries, n)
    ensures Count(entries, name) > 0 ==> Count(Drop(entries, name), name) < Count(entries, name)
  {
    if entries != [] {
      var first, rest := entries[0], entries[1..];
      if first.job.name == name {
        RemoveIdCounts(rest, first.id, n);
        RemoveIdCounts(rest, first.id, name);
      } else {
        DropCounts(rest, name, n);
        var found := Find(rest, name);
        if found.Some? {
          RemoveIdCounts(rest, found.value.id, n);
          assert ([first] + RemoveId(rest, found.value.id))[1..] == RemoveId(rest, found.value.id);
        }
      }
    }
  }

  lemma EmptyByCount(entries: seq<CronEntry>)
    requires forall n :: Count(entries, n) == 0
    ensures entries == []
  {
    if entries != [] {
      assert Count(entries, entries[0].job.name) > 0;
    }
  }

  lemma {:induction false} FindSkips(entries: seq<CronEntry>, name: string, i: nat)
    requires i <= |entries| && forall k | 0 <= k < i :: entries[k].job.name != name
    ensures Find(entries, name) == Find(entries[i..], name)
  {
    if i > 0 {
      FindSkips(entries[1..], name, i - 1);
      assert entries[1..][i - 1..] == entries[i..];
    } else {
      assert entries[0..] == entries;
    }
  }

  class Scheduler {
    const libs: Libs
    var started: bool
    // The cron library's list of entries, and the next id that it will hand out.
    var entries: seq<CronEntry>
    var nextId: nat

    constructor (libs: Libs)
      ensures this.libs == libs && !started && entries == []
    {
      this.libs := libs;
      started := false;
      entries := [];
      nextId := 1;
    }

    method GetEntryJob(jobName: string) returns (e: Option<CronEntry>)
      ensures e == Find(entries, jobName)
    {
      for i := 0 to |entries|
        invariant forall k | 0 <= k < i :: entries[k].job.name != jobName
      {
        FindSkips(entries, jobName, i);
        if entries[i].job.name == jobName {
          return Some(entries[i]);
        }
      }
      FindSkips(entries, jobName, |entries|);
      return None;
    }

    method RemoveJob(jobName: string)
      modifies this`entries
      ensures entries == Drop(old(entries), jobName)
    {
      var ej := GetEntryJob(jobName);
      if ej.Some? {
        entries := RemoveId(entries, ej.value.id);
      }
    }

    method AddJob(job: Job) returns (error: Option<Error>)
      modifies this`entries, this`nextId
      ensures Added(entries, nextId, error) == Add(libs, old(entries), old(nextId), job)
    {
      var ej := GetEntryJob(job.name);
      if ej.Some? {
        RemoveJob(job.name);
      }
      if job.spec.disabled || job.parentJob != "" {
        return None;
      }
      var schedule := libs.scheduleHash(job.name, job.schedule);
      if job.spec.timezone != "" && TakesZone(schedule) {
        schedule := CRON_ZONE + job.spec.timezone + " " + schedule;
      }
      if !libs.parses(schedule) {
        return Some(ScheduleParse);
      }
      entries := entries + [CronEntry(nextId, schedule, job)];
      nextId := nextId + 1;
      return None;
    }

    /** Empties any table, also one that holds a job twice: every entry of the snapshot takes one entry of its job
        away. */
    method ClearCron()
      modifies this`entries
      ensures entries == []
    {
      var snapshot := entries;
      for i := 0 to |snapshot|
        invariant forall n :: Count(entries, n) <= Count(snapshot[i..], n)
      {
        var name := snapshot[i].job.name;
        forall n
          ensures Count(Drop(entries, name), n) <= Count(entries, n)
          ensures Count(entries, name) > 0 ==> Count(Drop(entries, name), name) < Count(entries, name)
        {
          DropCounts(entries, name, n);
        }
        assert snapshot[i..][1..] == snapshot[i + 1..];
        RemoveJob(name);
      }
      EmptyByCount(entries);
    }

    /** Starts with a table of the given jobs alone. A scheduler that is started already is left as it is, and one that
        cannot add a job does not start. */
    method Start(jobs: seq<Job>) returns (error: Option<Error>)
      modifies this
      ensures old(started) ==>
                error == Some(SchedulerAlreadyStarted) && started && entries == old(entries) && nextId == old(nextId)
      ensures !old(started) ==>
                Added(entries, nextId, error) == AddAll(libs, [], old(nextId), jobs) && started == error.None?
    {
      if started {
        return Some(SchedulerAlreadyStarted);
      }
      ClearCron();
      for i := 0 to |jobs|
        invariant AddAll(libs, [], old(nextId), jobs) == AddAll(libs, entries, nextId, jobs[i..])
        invariant !started
      {
        assert jobs[i..][1..] == jobs[i + 1..];
        var failed := AddJob(jobs[i]);
        if failed.Some? {
          return failed;
        }
      }
      started := true;
      return None;
    }

    /** Stops firing. The table is kept until the next start clears it. */
    method Stop()
      modifies this`started
      ensures !started
    {
      if started {
        started := false;
      }
    }
  }
}
