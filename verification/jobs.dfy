/**
 * The background job queue: a table of jobs keyed by id, a FIFO of queued
 * work, a worker count and a running flag. Worker threads are replaced by a
 * single sequential worker step; the callable a job runs is represented by an
 * explicit outcome (the value it returns or the exception it raises), and the
 * clock by explicit timestamps.
 */
module Jobs {
  import opened Wrappers

  /** Default worker count used when the queue is started implicitly. */
  const PHOTO_PROCESSING_THREADS := 2

  /** Default timeout of a job, in seconds (stored but never enforced). */
  const DEFAULT_TIMEOUT := 300

  /** Default age, in seconds, after which a finished job may be removed. */
  const DEFAULT_MAX_AGE := 86400

  datatype JobStatus = Pending | Running | Completed | Failed | Cancelled

  /** The string value of a status. */
  function StatusValue(s: JobStatus): string
  {
    match s
    case Pending => "pending"
    case Running => "running"
    case Completed => "completed"
    case Failed => "failed"
    case Cancelled => "cancelled"
  }

  /** `JobStatus(value)`: `None` where the enum raises `ValueError`. */
  function ParseStatus(value: string): (r: Option<JobStatus>)
    ensures r.Some? ==> StatusValue(r.value) == value
    ensures (exists s :: StatusValue(s) == value) ==> r.Some?
  {
    if value == "pending" then Some(Pending)
    else if value == "running" then Some(Running)
    else if value == "completed" then Some(Completed)
    else if value == "failed" then Some(Failed)
    else if value == "cancelled" then Some(Cancelled)
    else None
  }

  /** Every status is recovered from its string value. */
  lemma ParseStatusValue(s: JobStatus)
    ensures ParseStatus(StatusValue(s)) == Some(s)
  {
  }

  /** Ids replace the random UUIDs: the queue hands out fresh naturals. */
  type JobId = nat

  /** The function a job calls and its arguments, kept as data. */
  datatype Call = Call(funcName: string, args: seq<string>, kwargs: map<string, string>)

  /** The error record of a failed job. */
  datatype JobError = JobError(errorType: string, message: string, traceback: string)

  /** What calling the job's function did: returned a value or raised. */
  datatype Outcome<R> = Returned(value: R) | Raised(error: JobError)

  datatype Job<R> = Job(
    id: JobId,
    name: string,
    call: Call,
    timeout: int,
    status: JobStatus,
    result: Option<R>,
    error: Option<JobError>,
    createdAt: int,
    startedAt: Option<int>,
    completedAt: Option<int>)

  /** The fields that hold together in each status. */
  predicate WellFormed<R>(j: Job<R>)
  {
    match j.status
    case Pending => j.startedAt.None? && j.completedAt.None? && j.result.None? && j.error.None?
    case Cancelled => j.startedAt.None? && j.completedAt.None? && j.result.None? && j.error.None?
    case Running => j.startedAt.Some? && j.completedAt.None? && j.error.None?
    case Completed => j.startedAt.Some? && j.completedAt.Some? && j.error.None?
    case Failed => j.startedAt.Some? && j.completedAt.Some? && j.error.Some? && j.result.None?
  }

  /** `name or func.__name__` */
  function JobName(name: Option<string>, call: Call): (r: string)
    ensures name.Some? && name.value != "" ==> r == name.value
    ensures name.None? || name.value == "" ==> r == call.funcName
  {
    if name.Some? && name.value != "" then name.value else call.funcName
  }

  /** A job as built by its constructor: pending, created at `now`, nothing run yet. */
  function NewJob<R>(id: JobId, call: Call, name: Option<string>, timeout: int, now: int): (j: Job<R>)
    ensures WellFormed(j) && j.status == Pending && j.id == id && j.createdAt == now
    ensures j.name == JobName(name, call) && j.call == call && j.timeout == timeout
  {
    Job(id, JobName(name, call), call, timeout, Pending, None, None, now, None, None)
  }

  /**
   * The job after `run` started at `t0` and finished at `t1` with `outcome`:
   * completed with the returned value, or failed with the error record; both
   * timestamps are always set.
   */
  function Ran<R>(j: Job<R>, outcome: Outcome<R>, t0: int, t1: int): (r: Job<R>)
    requires j.status == Pending && WellFormed(j)
    ensures WellFormed(r)
    ensures r.status == Completed <==> outcome.Returned?
    ensures r.status == Failed <==> outcome.Raised?
    ensures outcome.Returned? ==> r.result == Some(outcome.value) && r.error == j.error
    ensures outcome.Raised? ==> r.error == Some(outcome.error) && r.result == j.result
    ensures r.startedAt == Some(t0) && r.completedAt == Some(t1)
    ensures r.id == j.id && r.name == j.name && r.call == j.call && r.createdAt == j.createdAt
    ensures r.timeout == j.timeout
  {
    var started := j.(startedAt := Some(t0), status := Running);
    var finished :=
      match outcome
      case Returned(v) => started.(result := Some(v), status := Completed)
      case Raised(e) => started.(error := Some(e), status := Failed);
    finished.(completedAt := Some(t1))
  }

  /** The dictionary a job reports. */
  datatype JobView = JobView(
    id: JobId,
    name: string,
    status: string,
    createdAt: int,
    startedAt: Option<int>,
    completedAt: Option<int>,
    duration: Option<int>,
    error: Option<JobError>)

  /** `to_dict`: the duration is reported only when `completed_at` is set and non-zero. */
  function ToDict<R>(j: Job<R>): (v: JobView)
    requires j.completedAt.Some? ==> j.startedAt.Some?
    ensures v.id == j.id && v.name == j.name && v.status == StatusValue(j.status)
    ensures v.createdAt == j.createdAt && v.startedAt == j.startedAt && v.completedAt == j.completedAt
    ensures v.error == j.error
    ensures v.duration.Some? <==> j.completedAt.Some? && j.completedAt.value != 0
    ensures v.duration.Some? ==> v.duration.value == j.completedAt.value - j.startedAt.value
  {
    var duration :=
      if j.completedAt.Some? && j.completedAt.value != 0 then Some(j.completedAt.value - j.startedAt.value)
      else None;
    JobView(j.id, j.name, StatusValue(j.status), j.createdAt, j.startedAt, j.completedAt, duration, j.error)
  }

  /** A job that ran reports the time it took. */
  lemma RanDuration<R>(j: Job<R>, outcome: Outcome<R>, t0: int, t1: int)
    requires j.status == Pending && WellFormed(j) && t1 != 0
    ensures ToDict(Ran(j, outcome, t0, t1)).duration == Some(t1 - t0)
  {
  }

  predicate Terminal(s: JobStatus)
  {
    s == Completed || s == Failed || s == Cancelled
  }

  /** The test `cleanup_jobs` applies to each job. */
  predicate Removable<R>(j: Job<R>, now: int, maxAge: int)
  {
    Terminal(j.status) && j.completedAt.Some? && j.completedAt.value != 0 && now - j.completedAt.value > maxAge
  }

  /**
   * Cleanup never removes a job that has not finished, nor a cancelled one:
   * cancelling never sets `completed_at`.
   */
  lemma NeverRemoved<R>(j: Job<R>, now: int, maxAge: int)
    requires WellFormed(j)
    requires j.status in {Pending, Running, Cancelled}
    ensures !Removable(j, now, maxAge)
  {
  }

  /** A queued entry: a job or the sentinel that tells one worker to exit. */
  datatype QueueItem = JobRef(id: JobId) | Sentinel

  function Sentinels(n: nat): (s: seq<QueueItem>)
    ensures |s| == n && forall k :: 0 <= k < n ==> s[k] == Sentinel
  {
    if n == 0 then [] else Sentinels(n - 1) + [Sentinel]
  }

  /** What one iteration of a worker's loop did. */
  datatype StepResult = Idle | Exited | Skipped(id: JobId) | RanJob(id: JobId)

  predicate Matches<R>(j: Job<R>, filter: Option<JobStatus>)
  {
    filter.None? || j.status == filter.value
  }

  class JobQueue<R> {
    var jobs: map<JobId, Job<R>>
    var queue: seq<QueueItem>
    var workers: nat
    var running: bool
    var nextId: JobId

    /**
     * The table invariant: ids are below the next fresh id and well formed;
     * every queued job is in the table, pending or cancelled, and queued once;
     * a stopped queue has no workers.
     */
    ghost predicate Valid()
      reads this
    {
      && (forall id :: id in jobs ==> id < nextId && jobs[id].id == id && WellFormed(jobs[id]))
      && (forall k :: 0 <= k < |queue| && queue[k].JobRef? ==>
            queue[k].id in jobs && jobs[queue[k].id].status in {Pending, Cancelled})
      && (forall k, l :: 0 <= k < l < |queue| && queue[k].JobRef? && queue[l].JobRef? ==>
            queue[k].id != queue[l].id)
      && (!running ==> workers == 0)
    }

    /** An empty, stopped queue. */
    constructor ()
      ensures Valid()
      ensures jobs == map[] && queue == [] && workers == 0 && !running && nextId == 0
    {
      jobs := map[];
      queue := [];
      workers := 0;
      running := false;
      nextId := 0;
    }

    /** Starts `numWorkers` workers unless the queue is already running. */
    method Start(numWorkers: nat)
      requires Valid()
      modifies this
      ensures Valid()
      ensures old(running) ==> workers == old(workers)
      ensures !old(running) ==> workers == numWorkers
      ensures running
      ensures jobs == old(jobs) && queue == old(queue) && nextId == old(nextId)
    {
      if running {
        return;
      }
      running := true;
      var i := 0;
      while i < numWorkers
        invariant 0 <= i <= numWorkers
        invariant workers == old(workers) + i
        invariant running && jobs == old(jobs) && queue == old(queue) && nextId == old(nextId)
      {
        workers := workers + 1;
        i := i + 1;
      }
    }

    /** Stops a running queue: one sentinel per worker is queued and the worker list is emptied. */
    method Stop(wait: bool)
      requires Valid()
      modifies this
      ensures Valid()
      ensures !running && workers == 0
      ensures old(running) ==> queue == old(queue) + Sentinels(old(workers))
      ensures !old(running) ==> queue == old(queue)
      ensures jobs == old(jobs) && nextId == old(nextId)
    {
      if !running {
        return;
      }
      running := false;
      var i := 0;
      while i < workers
        invariant 0 <= i <= workers
        invariant queue == old(queue) + Sentinels(i)
        invariant !running && workers == old(workers) && jobs == old(jobs) && nextId == old(nextId)
      {
        queue := queue + [Sentinel];
        i := i + 1;
      }
      workers := 0;
    }

    /** Stores a new pending job under a fresh id and queues it; returns the id. */
    method AddJob(call: Call, name: Option<string>, timeout: int, now: int) returns (id: JobId)
      requires Valid()
      modifies this
      ensures Valid()
      ensures id !in old(jobs) && id == old(nextId) && nextId == old(nextId) + 1
      ensures jobs == old(jobs)[id := NewJob(id, call, name, timeout, now)]
      ensures queue == old(queue) + [JobRef(id)]
      ensures running == old(running) && workers == old(workers)
      ensures GetJob(id).Some? && GetJob(id).value.status == "pending"
      ensures GetJob(id).value.name == JobName(name, call)
    {
      id := nextId;
      nextId := nextId + 1;
      jobs := jobs[id := NewJob(id, call, name, timeout, now)];
      queue := queue + [JobRef(id)];
    }

    /**
     * The report of one job, or `None` for an unknown id. The queue's
     * invariant guarantees that a completed job has a start time, so
     * `to_dict` never subtracts from a missing one.
     */
    function GetJob(id: JobId): (r: Option<JobView>)
      reads this
      requires Valid()
      ensures r.Some? <==> id in jobs
      ensures r.Some? ==> r.value == ToDict(jobs[id])
    {
      if id in jobs then Some(ToDict(jobs[id])) else None
    }

    /** The reports of the jobs with id below `n` that pass the filter, in id order. */
    function SelectBelow(n: nat, filter: Option<JobStatus>): (r: seq<JobView>)
      reads this
      requires Valid()
      ensures forall i, j :: 0 <= i < j < |r| ==> r[i].id < r[j].id
      ensures forall i :: 0 <= i < |r| ==>
                r[i].id < n && r[i].id in jobs && r[i] == ToDict(jobs[r[i].id]) && Matches(jobs[r[i].id], filter)
      ensures forall id :: id in jobs && id < n && Matches(jobs[id], filter) ==> ToDict(jobs[id]) in r
      decreases n
    {
      if n == 0 then []
      else
        SelectBelow(n - 1, filter)
        + (if n - 1 in jobs && Matches(jobs[n - 1], filter) then [ToDict(jobs[n - 1])] else [])
    }

    /**
     * `get_jobs`: every job when the filter is missing or empty, the jobs in
     * that status for a known status, and nothing for an unknown one; reports
     * come in the order the jobs were added.
     */
    function GetJobs(status: Option<string>): (r: seq<JobView>)
      reads this
      requires Valid()
      ensures forall i, j :: 0 <= i < j < |r| ==> r[i].id < r[j].id
      ensures forall i :: 0 <= i < |r| ==> r[i].id in jobs && r[i] == ToDict(jobs[r[i].id])
      ensures status.None? || status.value == "" ==> forall id :: id in jobs ==> ToDict(jobs[id]) in r
      ensures status.Some? && status.value != "" && ParseStatus(status.value).None? ==> r == []
      ensures status.Some? && status.value != "" && ParseStatus(status.value).Some? ==>
                (forall i :: 0 <= i < |r| ==> r[i].status == status.value)
                && (forall id :: id in jobs && StatusValue(jobs[id].status) == status.value ==> ToDict(jobs[id]) in r)
    {
      if status.Some? && status.value != "" then
        match ParseStatus(status.value)
        case None => []
        case Some(st) => SelectBelow(nextId, Some(st))
      else SelectBelow(nextId, None)
    }

    /** Cancels a pending job; any other job, or an unknown id, is left alone. */
    method CancelJob(id: JobId) returns (cancelled: bool)
      requires Valid()
      modifies this
      ensures Valid()
      ensures cancelled <==> id in old(jobs) && old(jobs)[id].status == Pending
      ensures cancelled ==> jobs == old(jobs)[id := old(jobs)[id].(status := Cancelled)]
      ensures !cancelled ==> jobs == old(jobs)
      ensures queue == old(queue) && running == old(running) && workers == old(workers) && nextId == old(nextId)
    {
      if id in jobs && jobs[id].status == Pending {
        jobs := jobs[id := jobs[id].(status := Cancelled)];
        return true;
      }
      return false;
    }

    /** The first loop of `cleanup_jobs`: the ids of exactly the jobs to remove. */
    method RemovableIds(now: int, maxAge: int) returns (toRemove: seq<JobId>)
      ensures forall id :: id in toRemove ==> id in jobs
      ensures forall id :: id in jobs ==> (id in toRemove <==> Removable(jobs[id], now, maxAge))
    {
      toRemove := [];
      var todo := jobs.Keys;
      while todo != {}
        invariant todo <= jobs.Keys
        invariant forall id :: id in toRemove ==> id in jobs && Removable(jobs[id], now, maxAge)
        invariant forall id :: id in jobs && id !in todo && Removable(jobs[id], now, maxAge) ==> id in toRemove
        decreases todo
      {
        var id :| id in todo;
        if Removable(jobs[id], now, maxAge) {
          toRemove := toRemove + [id];
        }
        todo := todo - {id};
      }
    }

    /** Removes the finished jobs older than `maxAge` at time `now`: first collects their ids, then deletes them. */
    method CleanupJobs(now: int, maxAge: int)
      requires Valid()
      modifies this
      ensures Valid()
      ensures jobs == map id | id in old(jobs) && !Removable(old(jobs)[id], now, maxAge) :: old(jobs)[id]
      ensures queue == old(queue) && running == old(running) && workers == old(workers) && nextId == old(nextId)
    {
      var toRemove := RemovableIds(now, maxAge);
      var i := 0;
      while i < |toRemove|
        invariant 0 <= i <= |toRemove|
        invariant jobs == map id | id in old(jobs) && id !in toRemove[..i] :: old(jobs)[id]
        invariant queue == old(queue) && running == old(running) && workers == old(workers) && nextId == old(nextId)
      {
        jobs := jobs - {toRemove[i]};
        i := i + 1;
        assert toRemove[..i] == toRemove[..i - 1] + [toRemove[i - 1]];
      }
      assert toRemove[..i] == toRemove;
      forall k | 0 <= k < |queue| && queue[k].JobRef?
        ensures queue[k].id in jobs
      {
        NeverRemoved(old(jobs)[queue[k].id], now, maxAge);
      }
    }

    /**
     * One iteration of a worker's loop. A stopped queue ends the loop; an
     * empty queue is polled again; a sentinel ends the worker; a cancelled job
     * is dropped without running; any other job runs from `t0` to `t1` and its
     * result or error is recorded.
     */
    method WorkerStep(outcome: Outcome<R>, t0: int, t1: int) returns (r: StepResult)
      requires Valid()
      modifies this
      ensures Valid()
      ensures !old(running) ==> r == Exited && queue == old(queue) && jobs == old(jobs)
      ensures old(running) && old(queue) == [] ==> r == Idle && queue == old(queue) && jobs == old(jobs)
      ensures old(running) && old(queue) != [] ==> queue == old(queue)[1..]
      ensures old(running) && old(queue) != [] && old(queue)[0].Sentinel? ==> r == Exited && jobs == old(jobs)
      ensures old(running) && old(queue) != [] && old(queue)[0].JobRef? ==>
                var id := old(queue)[0].id;
                && id in old(jobs)
                && (old(jobs)[id].status == Cancelled ==> r == Skipped(id) && jobs == old(jobs))
                && (old(jobs)[id].status == Pending ==>
                      r == RanJob(id) && jobs == old(jobs)[id := Ran(old(jobs)[id], outcome, t0, t1)])
      ensures running == old(running) && workers == old(workers) && nextId == old(nextId)
    {
      if !running {
        return Exited;
      }
      if queue == [] {
        return Idle;
      }
      var item := queue[0];
      queue := queue[1..];
      if item.Sentinel? {
        return Exited;
      }
      var id := item.id;
      if jobs[id].status == Cancelled {
        return Skipped(id);
      }
      // run(): start, record the result or the error, then the completion time
      var job := jobs[id].(startedAt := Some(t0), status := Running);
      match outcome {
        case Returned(v) =>
          job := job.(result := Some(v), status := Completed);
        case Raised(e) =>
          job := job.(error := Some(e), status := Failed);
      }
      job := job.(completedAt := Some(t1));
      assert job == Ran(old(jobs)[id], outcome, t0, t1);
      assert forall k :: 0 <= k < |queue| ==> queue[k] == old(queue)[k + 1];
      assert forall k :: 0 <= k < |queue| && queue[k].JobRef? ==> queue[k].id != id;
      jobs := jobs[id := job];
      return RanJob(id);
    }
  }

  /**
   * Calling a function decorated as a background task: the queue is started
   * with the default worker count if it is not running, then the call is
   * submitted and the new job's id is returned instead of the function's result.
   */
  method BackgroundTask<R>(q: JobQueue<R>, call: Call, name: Option<string>, timeout: int, now: int)
      returns (id: JobId)
    requires q.Valid()
    modifies q
    ensures q.Valid() && q.running
    ensures old(q.running) ==> q.workers == old(q.workers)
    ensures !old(q.running) ==> q.workers == PHOTO_PROCESSING_THREADS
    ensures id !in old(q.jobs) && q.jobs == old(q.jobs)[id := NewJob(id, call, name, timeout, now)]
    ensures q.queue == old(q.queue) + [JobRef(id)]
    ensures q.nextId == old(q.nextId) + 1
  {
    if !q.running {
      q.Start(PHOTO_PROCESSING_THREADS);
    }
    id := q.AddJob(call, name, timeout, now);
  }
}
