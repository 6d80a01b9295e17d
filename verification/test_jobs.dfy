/**
 * The test job registry of the background-worker tests: two parallel
 * fixed-size tables of job names and job functions, pre-filled with four
 * static jobs, a counter of the next free id, and lookups by id and by
 * name. The registry is a value here; the source keeps it in globals.
 */
module TestJobs {
  import opened Wrappers

  /** `TS_MAX_TEST_JOB_TYPE`: the size of both tables. */
  const MaxJobTypes: int := 128
  /** `_MAX_STATIC_JOBS`: the number of built-in jobs and the first id handed out by `add`. */
  const StaticJobs: int := 4

  /** A job function: one of the built-in ones or one registered by a test. */
  datatype JobFn = Job1 | Job2Error | Job3Long | Job4DelayedStart | External(handle: int)

  datatype Registry = Registry(names: seq<Option<string>>, jobs: seq<Option<JobFn>>, nextJobId: int)

  datatype JobError =
    | OutOfJobIds      // "Cannot not add more jobs out of job ids"
    | InvalidJobId(id: int)
    | UnrecognizedJob(id: int)

  /** Both tables have their declared size and the counter stays within them. */
  predicate Sized(reg: Registry) {
    |reg.names| == MaxJobTypes && |reg.jobs| == MaxJobTypes && 0 <= reg.nextJobId <= MaxJobTypes
  }

  /** The shape a registry keeps when ids are handed out correctly: exactly the slots below the counter are filled. */
  predicate Valid(reg: Registry) {
    && Sized(reg)
    && StaticJobs <= reg.nextJobId
    && (forall i :: 0 <= i < MaxJobTypes ==> (reg.names[i].Some? <==> i < reg.nextJobId))
    && (forall i :: 0 <= i < MaxJobTypes ==> (reg.jobs[i].Some? <==> i < reg.nextJobId))
  }

  /** The static tables: the four built-in jobs, every other slot empty. */
  function Initial(): (r: Registry)
    ensures Valid(r) && r.nextJobId == StaticJobs
    ensures r.names[0] == Some("bgw_test_job_1") && r.jobs[0] == Some(Job1)
    ensures r.names[1] == Some("bgw_test_job_2_error") && r.jobs[1] == Some(Job2Error)
    ensures r.names[2] == Some("bgw_test_job_3_long") && r.jobs[2] == Some(Job3Long)
    ensures r.names[3] == Some("bgw_test_job_4") && r.jobs[3] == Some(Job4DelayedStart)
  {
    var names := [Some("bgw_test_job_1"), Some("bgw_test_job_2_error"), Some("bgw_test_job_3_long"), Some("bgw_test_job_4")];
    var jobs := [Some(Job1), Some(Job2Error), Some(Job3Long), Some(Job4DelayedStart)];
    Registry(names + seq(MaxJobTypes - StaticJobs, _ => None), jobs + seq(MaxJobTypes - StaticJobs, _ => None), StaticJobs)
  }

  /** What `ts_test_job_add` as written can do, an array write past the end included. */
  datatype AddOutcome = Added(reg: Registry, id: int) | AddFailed(error: JobError) | WritesPastEnd(index: int)

  /**
   * `ts_test_job_add` as written: the counter is advanced first, and the
   * name and function are stored at, and the id returned as, the advanced
   * value rather than the id that was free.
   */
  function AddAsWritten(reg: Registry, name: string, fn: JobFn): (r: AddOutcome)
    requires Sized(reg)
    ensures reg.nextJobId >= MaxJobTypes <==> r == AddFailed(OutOfJobIds)
    ensures reg.nextJobId == MaxJobTypes - 1 <==> r == WritesPastEnd(MaxJobTypes)
    ensures r.Added? ==> r.id == reg.nextJobId + 1 == r.reg.nextJobId
  {
    if reg.nextJobId >= MaxJobTypes then AddFailed(OutOfJobIds)
    else
      var next := reg.nextJobId + 1;
      if next >= MaxJobTypes then WritesPastEnd(next)
      else Added(Registry(reg.names[next := Some(name)], reg.jobs[next := Some(fn)], next), next)
  }

  /**
   * The id `add` returns as written is never one `get` accepts, and the id
   * it used up stays empty, so the name scan, which stops at the first empty
   * slot, cannot reach the job either.
   */
  lemma AddAsWrittenLosesJob(reg: Registry, name: string, fn: JobFn)
    requires Valid(reg) && reg.nextJobId < MaxJobTypes - 1
    ensures var r := AddAsWritten(reg, name, fn);
            && r.Added?
            && Get(r.reg, r.id) == Failure(InvalidJobId(r.id))
            && Get(r.reg, reg.nextJobId) == Failure(UnrecognizedJob(reg.nextJobId))
            && r.reg.names[reg.nextJobId].None? && !FilledWithout(r.reg.names, name, r.id)
  {
  }

  /** From the initial tables: the first job added gets id 5, which `get` rejects, and slot 4 stays empty. */
  lemma FirstAddAsWritten()
    ensures AddAsWritten(Initial(), "job", External(0)).Added?
    ensures AddAsWritten(Initial(), "job", External(0)).id == 5
    ensures Get(AddAsWritten(Initial(), "job", External(0)).reg, 5) == Failure(InvalidJobId(5))
    ensures Get(AddAsWritten(Initial(), "job", External(0)).reg, 4) == Failure(UnrecognizedJob(4))
  {
    AddAsWrittenLosesJob(Initial(), "job", External(0));
  }

  /**
   * `ts_test_job_add` as intended: store at the free id, advance the
   * counter, return the id that was stored.
   */
  function Add(reg: Registry, name: string, fn: JobFn): (r: Result<(Registry, int), JobError>)
    requires Valid(reg)
    ensures reg.nextJobId >= MaxJobTypes <==> r == Failure(OutOfJobIds)
    ensures r.Success? ==> Valid(r.value.0) && r.value.1 == reg.nextJobId && r.value.0.nextJobId == reg.nextJobId + 1
  {
    if reg.nextJobId >= MaxJobTypes then Failure(OutOfJobIds)
    else
      var id := reg.nextJobId;
      Success((Registry(reg.names[id := Some(name)], reg.jobs[id := Some(fn)], id + 1), id))
  }

  /** `ts_test_job_get`: ids outside `[0, next)` and empty slots are errors. */
  function Get(reg: Registry, id: int): (r: Result<JobFn, JobError>)
    requires Sized(reg)
    ensures id < 0 || id >= reg.nextJobId <==> r == Failure(InvalidJobId(id))
    ensures 0 <= id < reg.nextJobId ==> (r.Success? <==> reg.jobs[id].Some?)
    ensures r.Success? ==> reg.jobs[id] == Some(r.value)
    ensures r.Failure? && r.error != InvalidJobId(id) ==> r.error == UnrecognizedJob(id)
  {
    if id < 0 || id >= reg.nextJobId then Failure(InvalidJobId(id))
    else
      match reg.jobs[id]
      case None => Failure(UnrecognizedJob(id))
      case Some(job) => Success(job)
  }

  /** `ts_test_job_get_name`: the same checks against the name table. */
  function GetName(reg: Registry, id: int): (r: Result<string, JobError>)
    requires Sized(reg)
    ensures id < 0 || id >= reg.nextJobId <==> r == Failure(InvalidJobId(id))
    ensures 0 <= id < reg.nextJobId ==> (r.Success? <==> reg.names[id].Some?)
    ensures r.Success? ==> reg.names[id] == Some(r.value)
    ensures r.Failure? && r.error != InvalidJobId(id) ==> r.error == UnrecognizedJob(id)
  {
    if id < 0 || id >= reg.nextJobId then Failure(InvalidJobId(id))
    else
      match reg.names[id]
      case None => Failure(UnrecognizedJob(id))
      case Some(name) => Success(name)
  }

  /** A job added correctly is found again by id and by name lookup, and every earlier job is untouched. */
  lemma {:induction false} AddThenGet(reg: Registry, name: string, fn: JobFn)
    requires Valid(reg) && reg.nextJobId < MaxJobTypes
    ensures var (reg', id) := Add(reg, name, fn).value;
            && Get(reg', id) == Success(fn)
            && GetName(reg', id) == Success(name)
            && (forall j :: 0 <= j < reg.nextJobId ==> Get(reg', j) == Get(reg, j) && GetName(reg', j) == GetName(reg, j))
  {
    var (reg', id) := Add(reg, name, fn).value;
    forall j | 0 <= j < reg.nextJobId
      ensures Get(reg', j) == Get(reg, j) && GetName(reg', j) == GetName(reg, j)
    {
      assert reg'.jobs[j] == reg.jobs[j] && reg'.names[j] == reg.names[j];
    }
  }

  /** No filled slot before `i` holds `name`, and none before `i` is empty. */
  predicate FilledWithout(names: seq<Option<string>>, name: string, i: int)
    requires 0 <= i <= |names|
  {
    forall j :: 0 <= j < i ==> names[j].Some? && names[j].value != name
  }

  /**
   * `ts_test_job_get_by_name`: scan the name table from the start; an empty
   * slot ends the scan with -1, the first matching name gives its index.
   */
  method GetByName(reg: Registry, name: string) returns (r: int)
    requires Sized(reg)
    ensures -1 <= r < MaxJobTypes
    ensures r >= 0 ==> reg.names[r] == Some(name) && FilledWithout(reg.names, name, r)
    ensures r == -1 <==> forall i :: 0 <= i < MaxJobTypes && FilledWithout(reg.names, name, i) ==>
                                     reg.names[i].None? || reg.names[i].value != name
  {
    var i := 0;
    while i < MaxJobTypes
      invariant 0 <= i <= MaxJobTypes
      invariant FilledWithout(reg.names, name, i)
    {
      if reg.names[i].None? {
        return -1;
      }
      if reg.names[i].value == name {
        return i;
      }
      i := i + 1;
    }
    return -1;
  }
}
