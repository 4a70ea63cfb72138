/** The queue manager of backend/src/queue/manager.js: input validation and
    defaults on top of the store. `generateJobId` reads the clock and a random
    number, so its result is the parameter `freshId`. */
module QueueManager {
  import opened Wrappers
  import opened Jobs
  import opened Database

  /** The `jobData` object handed to `enqueue`. Absent properties are `None`. */
  datatype EnqueueData = EnqueueData(command: Option<string>, id: Option<string>, max_retries: Option<int>)

  /** The errors the manager throws or lets through from the store. */
  datatype ManagerError =
    | MissingCommand
    | StoreFailure(cause: StoreError)
    | JobNotFound(id: string)
    | NotInDLQ(id: string, state: JobState)

  /** The manager's view of the queue returned by `getStatus`. */
  datatype Status = Status(stats: map<string, nat>, activeWorkers: nat)

  /** JavaScript's `v || fallback` for a string: absent and `""` are falsy. */
  function StringOr(v: Option<string>, fallback: string): (r: string)
    ensures v.Some? && v.value != "" ==> r == v.value
    ensures v.None? || v.value == "" ==> r == fallback
    ensures fallback != "" ==> r != ""
  {
    if v.Some? && v.value != "" then v.value else fallback
  }

  /** `enqueue`: a falsy command is rejected before the store is touched.
      Otherwise a new `pending` row with 0 attempts is inserted, under the
      caller's id when it is truthy and `freshId` otherwise, with the
      caller's `max_retries` unless it is falsy (absent or 0), in which case
      3. An id already in use makes the insert, and so the enqueue, fail. */
  function Enqueue(s: Store, data: EnqueueData, freshId: string, now: Timestamp): (r: Result<(Store, Job), ManagerError>)
    ensures data.command.None? || data.command.value == "" ==> r == Err(MissingCommand)
    ensures data.command.Some? && data.command.value != "" ==>
      var id := StringOr(data.id, freshId);
      && (r.Err? <==> id in s.jobs)
      && (r.Err? ==> r.error == StoreFailure(DuplicateId(id)))
    ensures r.Ok? ==>
      var (s', job) := r.value;
      && data.command.Some? && job.command == data.command.value
      && (data.id.Some? && data.id.value != "" ==> job.id == data.id.value)
      && (data.id.None? || data.id.value == "" ==> job.id == freshId)
      && job.state == Pending && job.attempts == 0
      && (data.max_retries.None? || data.max_retries.value == 0 ==> job.max_retries == 3)
      && (data.max_retries.Some? && data.max_retries.value != 0 ==> job.max_retries == data.max_retries.value)
      && job.created_at == now && job.updated_at == now
      && job.next_retry_at.None? && job.worker_id.None? && job.started_at.None?
      && job.completed_at.None? && job.exit_code.None? && job.output.None? && job.error.None?
      && job.id !in s.jobs
      && GetJob(s', job.id) == Some(job)
      && (forall id :: id != job.id ==> GetJob(s', id) == GetJob(s, id))
      && s'.config == s.config
    ensures Valid(s) && r.Ok? ==> Valid(r.value.0)
  {
    if data.command.None? || data.command.value == "" then
      Err(MissingCommand)
    else
      var job := NewJob(StringOr(data.id, freshId), data.command.value, Some(Pending), Some(0),
                        Some(NumberOr(data.max_retries, 3)));
      match InsertJob(s, job, now)
      case Ok(inserted) => Ok(inserted)
      case Err(e) => Err(StoreFailure(e))
  }

  /** Enqueueing and then reading the job back gives a pending row with no
      attempts and the default retry budget. */
  lemma EnqueueThenGet(s: Store, command: string, freshId: string, now: Timestamp)
    requires command != "" && freshId !in s.jobs
    ensures var r := Enqueue(s, EnqueueData(Some(command), None, None), freshId, now);
      && r.Ok?
      && var j := GetJob(r.value.0, freshId);
      && j.Some? && j.value.command == command
      && j.value.state == Pending && j.value.attempts == 0 && j.value.max_retries == 3
  {
  }

  /** A freshly enqueued job is eligible, so the next claim, by any worker
      at any time, returns a job, and one created no later than it. */
  lemma EnqueuedJobIsClaimable(s: Store, data: EnqueueData, freshId: string, now: Timestamp,
                               workerId: string, at: Timestamp, s': Store, claimed: Option<Job>)
    requires Enqueue(s, data, freshId, now).Ok?
    requires IsClaim(Enqueue(s, data, freshId, now).value.0, workerId, at, s', claimed)
    ensures claimed.Some? && claimed.value.created_at <= now
  {
  }

  /** `list`: the rows in the given state, or every row when the state is
      falsy, newest first. */
  method List(s: Store, state: Option<string>) returns (r: seq<Job>)
    requires Valid(s)
    ensures IsListing(s.jobs, state, None, r)
    ensures state.None? || state.value == "" ==> forall id :: id in s.jobs ==> s.jobs[id] in r
    ensures state.Some? && state.value != "" ==>
      && (forall i :: 0 <= i < |r| ==> StateName(r[i].state) == state.value)
      && (forall id :: id in s.jobs && StateName(s.jobs[id].state) == state.value ==> s.jobs[id] in r)
  {
    var filter := if state.Some? && state.value != "" then state else None;
    r := ListJobs(s, filter, None);
  }

  /** `getStatus`: the store's per-state counts, all five present, summing
      to the number of jobs, and an active-worker count that is always 0. */
  function GetStatus(s: Store): (st: Status)
    ensures st.stats.Keys == StateNames
    ensures forall state :: st.stats[StateName(state)] == CountState(s.jobs, state)
    ensures st.stats["pending"] + st.stats["processing"] + st.stats["completed"]
            + st.stats["failed"] + st.stats["dead"] == |s.jobs|
    ensures st.activeWorkers == 0
  {
    StatsSumToTotal(s);
    Status(GetStats(s), 0)
  }

  /** `listDLQ`: exactly the `dead` rows, newest first. */
  method ListDLQ(s: Store) returns (r: seq<Job>)
    requires Valid(s)
    ensures IsListing(s.jobs, Some("dead"), None, r)
    ensures forall i :: 0 <= i < |r| ==> r[i].state == Dead
    ensures forall id :: id in s.jobs && s.jobs[id].state == Dead ==> s.jobs[id] in r
  {
    r := ListJobs(s, Some("dead"), None);
    forall i | 0 <= i < |r|
      ensures r[i].state == Dead
    {
      assert StateName(r[i].state) == "dead";
    }
  }

  /** `retryFromDLQ`: an unknown id, or a job that is not `dead`, is refused
      with nothing changed. A dead job goes back to `pending` with its
      attempts reset to 0 and its retry time and error cleared; the rest of
      the row, including the worker that last held it, is kept. */
  function RetryFromDLQ(s: Store, id: string, now: Timestamp): (r: Result<(Store, Job), ManagerError>)
    ensures id !in s.jobs ==> r == Err(JobNotFound(id))
    ensures id in s.jobs && s.jobs[id].state != Dead ==> r == Err(NotInDLQ(id, s.jobs[id].state))
    ensures r.Ok? <==> id in s.jobs && s.jobs[id].state == Dead
    ensures r.Ok? ==>
      var (s', job) := r.value;
      var before := s.jobs[id];
      && s' == s.(jobs := s.jobs[id := job])
      && job.id == before.id && job.state == Pending && job.attempts == 0
      && job.next_retry_at.None? && job.error.None? && job.updated_at == now
      && job.command == before.command && job.max_retries == before.max_retries
      && job.created_at == before.created_at && job.worker_id == before.worker_id
      && job.started_at == before.started_at && job.completed_at == before.completed_at
      && job.exit_code == before.exit_code && job.output == before.output
    ensures Valid(s) && r.Ok? ==> Valid(r.value.0)
  {
    match GetJob(s, id)
    case None => Err(JobNotFound(id))
    case Some(job) =>
      if job.state != Dead then
        Err(NotInDLQ(id, job.state))
      else
        var (s', _) := UpdateJobState(s, id, Pending,
                                      Meta(attempts := Some(0), next_retry_at := Some(None), error := Some(None)), now);
        Ok((s', s'.jobs[id]))
  }

  /** A job taken out of the dead-letter queue is eligible again, so the
      next claim returns a job, and one created no later than it. */
  lemma RetriedJobIsClaimable(s: Store, id: string, now: Timestamp,
                              workerId: string, at: Timestamp, s': Store, claimed: Option<Job>)
    requires RetryFromDLQ(s, id, now).Ok?
    requires IsClaim(RetryFromDLQ(s, id, now).value.0, workerId, at, s', claimed)
    ensures claimed.Some? && claimed.value.created_at <= s.jobs[id].created_at
  {
  }

  /** Retrying the same job a second time is refused: it is `pending` now,
      no longer in the dead-letter queue. */
  lemma RetryFromDLQOnlyOnce(s: Store, id: string, now: Timestamp, later: Timestamp)
    requires RetryFromDLQ(s, id, now).Ok?
    ensures RetryFromDLQ(RetryFromDLQ(s, id, now).value.0, id, later) == Err(NotInDLQ(id, Pending))
  {
  }
}
