/** The entities the store keeps, the errors it returns, and the library code it calls. */
module Types {
  import opened Wrappers

  // Nanoseconds since the Unix epoch.
  type Time = int

  const NANOS_PER_SECOND: int := 1_000_000_000

  // Go's zero time.Time: midnight UTC on 1 January of year 1.
  const ZERO_TIME: Time := -62_135_596_800 * NANOS_PER_SECOND

  // What a missing protobuf timestamp decodes to.
  const EPOCH: Time := 0

  const MAX_INT32: int := 0x7FFF_FFFF
  const MAX_INT64: int := 0x7FFF_FFFF_FFFF_FFFF

  // Two's complement truncation.
  function Wrap32(x: int): int {
    (x + 0x8000_0000) % 0x1_0000_0000 - 0x8000_0000
  }

  function Wrap64(x: int): int {
    (x + 0x8000_0000_0000_0000) % 0x1_0000_0000_0000_0000 - 0x8000_0000_0000_0000
  }

  function Min(a: int, b: int): int {
    if a < b then a else b
  }

  datatype Error =
    | EmptyName
    | IllegalName
    | SameParent
    | NoParent
    | ParentJobNotFound
    | ScheduleParse
    | WrongConcurrency
    | BadTimezone
    | BadTimeout
    | BadMemoryLimit
    | NotFound
    | DependentJobs
    | ExecutionDoneForDeletedJob
    | SchedulerAlreadyStarted
    | RaftApply
    | NoTargetNodes

  const STATUS_NOT_SET := ""
  const STATUS_SUCCESS := "success"
  const STATUS_FAILED := "failed"
  const STATUS_PARTIALLY_FAILED := "partially_failed"

  const CONCURRENCY_ALLOW := "allow"
  const CONCURRENCY_FORBID := "forbid"

  const MAX_EXECUTIONS: nat := 100

  // The fields of a job that no command merges with, or derives from, stored data.
  datatype JobSpec = JobSpec(
    timezone: string,
    disabled: bool,
    tags: map<string, string>,
    retries: nat,
    concurrency: string,
    executor: string,
    executorConfig: map<string, string>,
    ephemeral: bool,
    startsAt: Option<Time>,
    expiresAt: Option<Time>
  )

  datatype Job = Job(
    name: string,
    schedule: string,
    parentJob: string,
    dependentJobs: seq<string>,
    successCount: int,
    errorCount: int,
    lastSuccess: Option<Time>,
    lastError: Option<Time>,
    status: string,
    next: Time,
    spec: JobSpec
  )

  const EMPTY_SPEC: JobSpec := JobSpec("", false, map[], 0, "", "", map[], false, None, None)

  // What the store's reader yields for a key that does not exist.
  const EMPTY_JOB: Job := Job("", "", "", [], 0, 0, None, None, STATUS_NOT_SET, EPOCH, EMPTY_SPEC)

  datatype Execution = Execution(
    jobName: string,
    startedAt: Time,
    finishedAt: Time,
    success: bool,
    output: string,
    nodeName: string,
    group: int,
    attempt: nat
  )

  // Counters of one UTC day.
  datatype Stat = Stat(success: int, failed: int)

  /** The order of nullable times: no value is after anything, and any value is after no value. */
  predicate After(t: Option<Time>, u: Option<Time>) {
    t.Some? && (u.None? || t.value > u.value)
  }

  // The readings of the system clock taken while one command is applied.
  datatype Clock = Clock(first: Time, second: Time)

  /** Library code that the server calls and that is not part of this model. */
  datatype Libs = Libs(
    // Does the cron parser accept this specification?
    parses: string -> bool,
    // The next activation of a parsed specification after the given time.
    next: (string, Time) -> Time,
    // The schedule of a job with `~` replaced by a value derived from the job's name.
    scheduleHash: (string, string) -> string,
    zoneLoads: string -> bool,
    durationParses: string -> bool,
    memoryLimitOk: string -> bool,
    // Unicode category Ll outside ASCII.
    lowerCase: char -> bool,
    // The key of the UTC day of a time, as `2006-01-02`.
    day: Time -> string,
    // The database's iteration over keys in ascending order.
    ascend: set<string> -> seq<string>,
    // sort.Slice by start time.
    sortByStart: seq<Execution> -> seq<Execution>
  ) {
    // What the database and the sort promise.
    ghost predicate Lawful() {
      AscendLaw() && SortLaw()
    }

    // Every key comes once, and leaving keys out does not reorder the others.
    ghost predicate AscendLaw() {
      && (forall keys: set<string> :: multiset(ascend(keys)) == multiset(keys))
      && (forall keys: set<string>, some: set<string> {:trigger ascend(keys), ascend(some)} ::
            some <= keys ==> ascend(some) == Restrict(ascend(keys), some))
    }

    ghost predicate SortLaw() {
      && (forall l: seq<Execution> :: multiset(sortByStart(l)) == multiset(l))
      && (forall l: seq<Execution> :: SortedByStart(sortByStart(l)))
    }
  }

  // The elements of `l` that are in `keep`, in order.
  function Restrict(l: seq<string>, keep: set<string>): (r: seq<string>)
  {
    if l == [] then []
    else if l[0] in keep then [l[0]] + Restrict(l[1..], keep)
    else Restrict(l[1..], keep)
  }

  ghost predicate SortedByStart(l: seq<Execution>) {
    forall i, j | 0 <= i < j < |l| :: l[i].startedAt <= l[j].startedAt
  }

  predicate IsSlugChar(libs: Libs, c: char) {
    'a' <= c <= 'z' || '0' <= c <= '9' || c == '_' || c == '-' || (c > '\U{7F}' && libs.lowerCase(c))
  }

  predicate IsSlug(libs: Libs, s: string) {
    forall i | 0 <= i < |s| :: IsSlugChar(libs, s[i])
  }

  function ConfigValue(config: map<string, string>, key: string): string {
    if key in config then config[key] else ""
  }

  /** The first problem that the validation of a job reports, if any. */
  function Validate(libs: Libs, job: Job): Option<Error> {
    var spec := job.spec;
    var timeout := ConfigValue(spec.executorConfig, "timeout");
    var memLimit := ConfigValue(spec.executorConfig, "mem_limit");
    if job.name == "" then Some(EmptyName)
    else if !IsSlug(libs, job.name) then Some(IllegalName)
    else if job.parentJob == job.name then Some(SameParent)
    else if (job.schedule != "" || job.parentJob == "") && !libs.parses(libs.scheduleHash(job.name, job.schedule)) then
      Some(ScheduleParse)
    else if spec.concurrency !in [CONCURRENCY_ALLOW, CONCURRENCY_FORBID, ""] then Some(WrongConcurrency)
    else if !libs.zoneLoads(spec.timezone) then Some(BadTimezone)
    else if spec.executor == "shell" && timeout != "" && !libs.durationParses(timeout) then Some(BadTimeout)
    else if spec.executor == "shell" && memLimit != "" && !libs.memoryLimitOk(memLimit) then Some(BadMemoryLimit)
    else None
  }

  /** When the job runs next, seen from the clock readings given. */
  function GetNext(libs: Libs, job: Job, clock: Clock): Result<Time, Error> {
    if job.spec.startsAt.Some? && clock.first < job.spec.startsAt.value then Ok(job.spec.startsAt.value)
    else if job.schedule != "" then
      var spec := libs.scheduleHash(job.name, job.schedule);
      if libs.parses(spec) then Ok(libs.next(spec, clock.second)) else Err(ScheduleParse)
    else Ok(ZERO_TIME)
  }
}
