/** One worker of backend/src/worker/worker.js. Running the command through
    `exec` is replaced by its outcome, an input; `sleep` changes nothing the
    model can see; a store call that throws is an input flag. */
module Worker {
  import opened Wrappers
  import opened Jobs
  import opened Database
  import opened JsText

  /** The error `exec` rejects with: its `code` (absent for a timeout kill)
      and its `message`. */
  datatype ExecError = ExecError(code: Option<int>, message: string)

  /** How running a job's command ended. */
  datatype ExecOutcome = Success(stdout: string, stderr: string) | Failure(err: ExecError)

  /** Which store writes inside `executeJob` throw: `completion` is the error
      raised by the `completed` write, if it raises one, and `failure` says
      whether the `failed` write raises. */
  datatype WriteFaults = WriteFaults(completion: Option<ExecError>, failure: bool)

  /** The exit code stored for a failure, `error.code || 1`: never 0. */
  function ExitCode(e: ExecError): (c: int)
    ensures c != 0
    ensures e.code.Some? && e.code.value != 0 ==> c == e.code.value
    ensures e.code.None? || e.code.value == 0 ==> c == 1
  {
    NumberOr(e.code, 1)
  }

  /** The error that sends `executeJob` into its catch block, if any: the
      command's own failure, or else a throw from the `completed` write. */
  function CaughtError(outcome: ExecOutcome, faults: WriteFaults): Option<ExecError> {
    match outcome
    case Failure(e) => Some(e)
    case Success(_, _) => faults.completion
  }

  /** The metadata of the `completed` write. */
  function CompletionMeta(stdout: string, stderr: string, at: Timestamp): Meta {
    Meta(completed_at := Some(Some(at)), exit_code := Some(Some(0)),
         output := Some(Some(Trim(stdout))), error := Some(Some(Trim(stderr))))
  }

  /** The metadata of the `failed` write, computed from the claimed row. */
  function FailureMeta(job: Job, e: ExecError): Meta {
    Meta(exit_code := Some(Some(ExitCode(e))), error := Some(Some(e.message)),
         attempts := Some(job.attempts + 1))
  }

  /** `executeJob(job)` once the command has ended with `outcome` at time
      `at`: success records `completed` with exit code 0 and the trimmed
      output; a failure, or a throw from that write, records `failed` with
      one more attempt than the claimed row had. Only the row with the job's
      id changes. The boolean is true when the `failed` write throws, which
      leaves the store as it was and reaches the loop's catch. */
  function ExecuteJob(s: Store, job: Job, outcome: ExecOutcome, faults: WriteFaults, at: Timestamp): (r: (Store, bool))
    ensures r.0.config == s.config
    ensures r.0.jobs.Keys == s.jobs.Keys
    ensures forall id :: id in s.jobs && id != job.id ==> r.0.jobs[id] == s.jobs[id]
    ensures job.id !in s.jobs ==> r.0 == s
    ensures r.1 <==> CaughtError(outcome, faults).Some? && faults.failure
    ensures r.1 ==> r.0 == s
    ensures job.id in s.jobs && CaughtError(outcome, faults).None? ==>
      var row := r.0.jobs[job.id];
      var before := s.jobs[job.id];
      && row.state == Completed && row.exit_code == Some(0)
      && row.output == Some(Trim(outcome.stdout)) && row.error == Some(Trim(outcome.stderr))
      && row.completed_at == Some(at) && row.updated_at == at
      && row.attempts == before.attempts && row.worker_id == before.worker_id
      && KeepsUnnamed(before, row, CompletionMeta(outcome.stdout, outcome.stderr, at))
    ensures job.id in s.jobs && CaughtError(outcome, faults).Some? && !faults.failure ==>
      var row := r.0.jobs[job.id];
      var before := s.jobs[job.id];
      var e := CaughtError(outcome, faults).value;
      && row.state == Failed && row.attempts == job.attempts + 1
      && row.exit_code == Some(ExitCode(e)) && row.error == Some(e.message)
      && row.updated_at == at
      && row.output == before.output && row.completed_at == before.completed_at
      && row.next_retry_at == before.next_retry_at && row.worker_id == before.worker_id
      && KeepsUnnamed(before, row, FailureMeta(job, e))
    ensures Valid(s) ==> Valid(r.0)
  {
    match CaughtError(outcome, faults)
    case None =>
      (UpdateJobState(s, job.id, Completed, CompletionMeta(outcome.stdout, outcome.stderr, at), at).0, false)
    case Some(e) =>
      if faults.failure then (s, true)
      else (UpdateJobState(s, job.id, Failed, FailureMeta(job, e), at).0, false)
  }

  /** A row recorded as `failed` is not `pending`, so no later claim picks it
      and it stays as recorded: this code has no path back to the queue for it. */
  lemma FailedJobIsNeverClaimedAgain(s: Store, job: Job, e: ExecError, at: Timestamp,
                                     workerId: string, now: Timestamp, s': Store, claimed: Option<Job>)
    requires job.id in s.jobs
    requires IsClaim(ExecuteJob(s, job, Failure(e), WriteFaults(None, false), at).0, workerId, now, s', claimed)
    ensures claimed.None? || claimed.value.id != job.id
    ensures job.id in s'.jobs && s'.jobs[job.id].state == Failed
  {
  }

  /** What one pass of the `start` loop sees from the outside world. */
  datatype IterationInput = IterationInput(
    claimAt: Timestamp,      // the clock inside `claimJob`
    claimThrows: bool,       // the claim statement raised an error
    outcome: ExecOutcome,    // how the claimed job's command ended
    finishAt: Timestamp,     // the clock when the outcome is written
    faults: WriteFaults,     // store writes in `executeJob` that raise
    stopRequested: bool      // `stop()` was called during this pass
  )

  /** What one pass of the loop did. */
  datatype Report =
    | ClaimFailed                       // the claim threw; the catch slept
    | Idle                              // nothing to claim; slept
    | Ran(claimed: Job, caught: bool)   // executed the claimed row; `caught`: an error reached the catch

  /** If the pass executed a job and no error reached the catch, the job's
      row holds the outcome: `completed` on success, `failed` otherwise. */
  ghost predicate OutcomeRecorded(s: Store, report: Report, input: IterationInput) {
    report.Ran? && !report.caught ==>
      && report.claimed.id in s.jobs
      && s.jobs[report.claimed.id].state
         == (if CaughtError(input.outcome, input.faults).None? then Completed else Failed)
  }

  /** One pass of the `start` loop took the store from `s` to `s'` and
      reported `report`: a throw from the claim is caught and changes
      nothing; otherwise a claim, and then either nothing to do or the
      claimed job executed with the pass's outcome. */
  ghost predicate IsPass(s: Store, workerId: string, input: IterationInput, s': Store, report: Report) {
    && (report.ClaimFailed? <==> input.claimThrows)
    && (report.ClaimFailed? ==> s' == s)
    && (report.Idle? ==> s' == s && IsClaim(s, workerId, input.claimAt, s, None))
    && (report.Ran? ==>
          && IsClaim(s, workerId, input.claimAt, PutRow(s, report.claimed), Some(report.claimed))
          && (s', report.caught) == ExecuteJob(PutRow(s, report.claimed), report.claimed,
                                               input.outcome, input.faults, input.finishAt))
    && OutcomeRecorded(s', report, input)
  }

  /** The body of the `start` loop: claim; then execute the claimed job, or
      sleep if there was none. A throw from the claim is caught, the worker
      sleeps, and the store is unchanged. */
  method Iterate(s: Store, workerId: string, input: IterationInput) returns (s': Store, report: Report)
    requires Valid(s)
    ensures Valid(s')
    ensures IsPass(s, workerId, input, s', report)
  {
    if input.claimThrows {
      return s, ClaimFailed;
    }
    var mid, claimed := ClaimJob(s, workerId, input.claimAt);
    match claimed
    case None =>
      s', report := s, Idle;
    case Some(row) =>
      var (after, caught) := ExecuteJob(mid, row, input.outcome, input.faults, input.finishAt);
      s', report := after, Ran(row, caught);
  }

  /** A pass whose claim does not throw, over a store holding an eligible
      row, executes a job, and unless an error reaches the catch that job
      leaves the pass `completed` or `failed`, no longer `pending`. */
  lemma PassWithEligibleJobRunsIt(s: Store, workerId: string, input: IterationInput,
                                  s': Store, report: Report, id: string)
    requires IsPass(s, workerId, input, s', report)
    requires !input.claimThrows
    requires id in s.jobs && Eligible(s.jobs[id], input.claimAt)
    ensures report.Ran?
    ensures !report.caught ==> report.claimed.id in s'.jobs && s'.jobs[report.claimed.id].state in {Completed, Failed}
  {
  }

  /** A row that is `failed` before a run of passes is left exactly as it
      is by every pass, and no pass of the run claims it: this code has no
      path back to the queue for it. */
  lemma {:induction false} FailedStaysFailedInRun(stores: seq<Store>, workerId: string, inputs: seq<IterationInput>,
                                                  trace: seq<Report>, id: string, k: nat)
    requires |stores| == |trace| + 1 && |trace| <= |inputs|
    requires forall i :: 0 <= i < |trace| ==> IsPass(stores[i], workerId, inputs[i], stores[i + 1], trace[i])
    requires id in stores[0].jobs && stores[0].jobs[id].state == Failed
    requires k <= |trace|
    ensures id in stores[k].jobs && stores[k].jobs[id] == stores[0].jobs[id]
    ensures forall i :: 0 <= i < k && trace[i].Ran? ==> trace[i].claimed.id != id
  {
    if k > 0 {
      FailedStaysFailedInRun(stores, workerId, inputs, trace, id, k - 1);
      var s, input, report := stores[k - 1], inputs[k - 1], trace[k - 1];
      assert IsPass(s, workerId, input, stores[k], report);
      if report.Ran? {
        var c := report.claimed;
        NonPendingNeverClaimed(s, workerId, input.claimAt, PutRow(s, c), Some(c), id);
      }
    }
  }

  /** The worker object: its id and the `isRunning` flag. */
  datatype WorkerState = WorkerState(workerId: string, isRunning: bool)

  /** `stop()`: clears the flag and nothing else. */
  function Stop(w: WorkerState): (w': WorkerState)
    ensures !w'.isRunning && w'.workerId == w.workerId
  {
    w.(isRunning := false)
  }

  /** The index of the first pass during which `stop()` is called, or
      `|inputs|` if it never is. */
  function StopIndex(inputs: seq<IterationInput>): (k: nat)
    ensures k <= |inputs|
    ensures forall i :: 0 <= i < k ==> !inputs[i].stopRequested
    ensures k < |inputs| ==> inputs[k].stopRequested
  {
    if |inputs| == 0 then 0
    else if inputs[0].stopRequested then 0
    else 1 + StopIndex(inputs[1..])
  }

  /** How many passes the loop makes over `inputs`: up to and including the
      one during which `stop()` is called. */
  function Passes(inputs: seq<IterationInput>): nat {
    if StopIndex(inputs) < |inputs| then StopIndex(inputs) + 1 else |inputs|
  }

  /** `start()` driven by a finite sequence of passes. The flag is tested
      only at the head of the loop, so the pass during which `stop()` is
      called runs to the end and records its job's outcome before the loop
      exits; errors caught inside a pass never end the loop. `stores` holds
      the store before each pass and after the last one. */
  method Run(s: Store, workerId: string, inputs: seq<IterationInput>)
    returns (s': Store, stopped: WorkerState, trace: seq<Report>, ghost stores: seq<Store>)
    requires Valid(s)
    ensures Valid(s')
    ensures stopped.workerId == workerId
    ensures !stopped.isRunning <==> StopIndex(inputs) < |inputs|
    ensures |trace| == Passes(inputs)
    ensures |stores| == |trace| + 1 && stores[0] == s && stores[|trace|] == s'
    ensures forall i :: 0 <= i < |trace| && i < |inputs| ==>
      IsPass(stores[i], workerId, inputs[i], stores[i + 1], trace[i])
    ensures StopIndex(inputs) < |inputs| && |trace| > 0 ==>
      OutcomeRecorded(s', trace[|trace| - 1], inputs[StopIndex(inputs)])
  {
    stopped := WorkerState(workerId, true);
    s' := s;
    trace := [];
    stores := [s];
    var i := 0;
    while stopped.isRunning && i < |inputs|
      invariant 0 <= i <= |inputs| && |trace| == i
      invariant |stores| == i + 1 && stores[0] == s && stores[i] == s'
      invariant Valid(s')
      invariant stopped.workerId == workerId
      invariant i <= StopIndex(inputs) + 1
      invariant stopped.isRunning <==> i <= StopIndex(inputs)
      invariant forall j :: 0 <= j < i ==> IsPass(stores[j], workerId, inputs[j], stores[j + 1], trace[j])
      decreases |inputs| - i
    {
      var report;
      s', report := Iterate(s', workerId, inputs[i]);
      trace := trace + [report];
      stores := stores + [s'];
      if inputs[i].stopRequested {
        stopped := Stop(stopped);
      }
      i := i + 1;
    }
  }
}
