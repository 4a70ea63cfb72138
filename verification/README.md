# QueueCTL job lifecycle, modelled in Dafny

QueueCTL is a background job queue. Clients enqueue shell commands as jobs.
Workers claim pending jobs from a shared SQLite table, run them and record
the outcome. This project models the backend's job lifecycle as an in-memory
state machine and proves properties of it:

- `jobs.dfy`, module `Jobs`: the data model. It holds the five job states,
  the job row, the config row and the `Store` (both tables as maps keyed by
  their primary keys).
- `database.dfy`, module `Database`: the job store `QueueDatabase`. Each method's
  statements are applied as one step from a store to a store. This covers
  insert with defaults, lookup, the filtered and ordered listing, the
  patch-style state update, the atomic claim, the zero-filled per-state
  counts, and the config upsert.
  - The claim and the listing may break `created_at` ties in any order.
    Each one is therefore specified by a relation (`IsClaim`, `IsListing`).
    A method with a loop over the key set implements that relation.
- `manager.dfy`, module `QueueManager`: `QueueManager`. It covers enqueue
  validation and defaults, listing, status, the dead-letter listing, and
  retry from the dead-letter queue.
- `worker.dfy`, module `Worker`: one worker. It covers applying an execution
  outcome (`executeJob`), one pass of the `start` loop, `stop`, and a whole
  run driven by a finite sequence of passes.
- `jstext.dfy`, module `JsText`: JavaScript's `String.prototype.trim`. The
  worker applies it to the captured output.
- `display.dfy`, module `Display`: the pure helpers of the console display.
  These are `truncate`, the zero-filled `stateCounts` of `statsTable`, and
  `colorState`.
- `wrappers.dfy`, module `Wrappers`: `Option` and `Result`.

Inputs the code reads from its environment are parameters:
- the clock (`new Date()`) is `now`, `at` or `claimAt`/`finishAt`, as a `nat`;
- the generated job id is `freshId`;
- a command's result is an `ExecOutcome`;
- a store call that throws is a flag of `IterationInput`.

The model follows the code as written. In particular, the code does not
have the exponential backoff, dead-letter escalation or stuck-job recovery
that a job queue of this kind usually has:
- A failed execution is recorded as state `failed` with one more attempt,
  and nothing ever moves it further. The code has no backoff, no
  `next_retry_at` scheduling, no escalation to `dead` and no stuck-job
  recovery. `max_retries` is stored and displayed, but no decision reads it.
- `retryFromDLQ` resets `state`, `attempts`, `next_retry_at` and `error`,
  and stamps `updated_at` with the current time, and does nothing else. `worker_id`, `started_at`, `completed_at`, `exit_code` and `output`
  keep their old values.
- `insertJob` takes `state` and `attempts` from its caller and uses the
  defaults only for falsy values.
- An unknown id passed to `updateJobState` is not an error. No row changes
  and nothing is returned.
- The claim stamps `worker_id` and `started_at`. There are no
  `claimed_by`/`claimed_at` columns.

## Model

| member | source | states |
|---|---|---|
| Jobs.EmptyStore | backend/src/storage/database.js:29-58 | Freshly created tables are empty, and the empty store satisfies the primary-key invariant |
| Database.GetJob | backend/src/storage/database.js:101-104 | A row comes back exactly when one is stored under that id, and it is that stored row |
| Database.InsertJob | backend/src/storage/database.js:73-98 | A duplicate id fails the PRIMARY KEY and writes nothing. Otherwise the new row holds the given id and command. State, attempts and max_retries default to pending, 0 and 3 when the value is falsy. Both timestamps are `now` and every other column is NULL. `getJob` reads the row back, other rows are unchanged, and the key invariant is kept |
| Database.FirstBy | backend/src/storage/database.js:169-174 | `ORDER BY created_at ASC/DESC LIMIT 1` over a candidate set returns a candidate that no other candidate precedes |
| Database.ListJobs | backend/src/storage/database.js:107-130 | The result holds only stored rows that match the filter, each at most once, ordered newest `created_at` first. It is never longer than a positive limit. Every matching row is included unless the limit was reached, and no omitted matching row is newer than a listed one. The result is empty when nothing matches |
| Database.UpdateJobState | backend/src/storage/database.js:133-155 | Writes `state` and `updated_at = now`, then the metadata entries, which win. Columns the metadata does not name keep their values. Only the row with that id changes. An unknown id changes nothing and returns no row |
| Database.ClaimJob | backend/src/storage/database.js:158-181 | One atomic claim. With no pending row whose retry time is absent or at most `now`, it returns nothing and changes nothing. Otherwise it picks an eligible row with minimal `created_at`, sets it to processing with `worker_id`, `started_at` and `updated_at` stamped, leaves all other rows alone, and returns the updated row |
| Database.ClaimChangesOnlyClaimColumns | backend/src/storage/database.js:162-180 | A successful claim takes a pending row and changes only the four claim columns. All other columns, all other rows and the config table are unchanged |
| Database.NonPendingNeverClaimed | backend/src/storage/database.js:169-175 | A row that is not pending (failed, completed, processing or dead) is never chosen by a claim and stays exactly as it was |
| Database.ClaimedStaysProcessing | backend/src/storage/database.js:162-180 | Once a claim has taken a row, the row stays processing through any number of later claims |
| Database.NoJobClaimedTwice | backend/src/storage/database.js:157-180 | In any serialised run of claims by any workers, no two claims return the same job |
| Database.OnePendingOneWinner | backend/src/storage/database.js:162-180 | With exactly one pending row, eligible at the first claim's time, the first of N claims wins it and the other N-1 return nothing |
| Database.NoPendingAfterFirst | backend/src/storage/database.js:162-180 | After the first claim of such a run, no row is pending, at every later point of the run |
| Database.CountState | backend/src/storage/database.js:186-191 | A state's `COUNT(*)` is 0 exactly when no row is in that state |
| Database.GetStats | backend/src/storage/database.js:184-210 | The result has exactly the five state keys. Each value is the number of rows in that state, and 0 exactly when no row is in it |
| Database.StatsSumToTotal | backend/src/storage/database.js:185-209 | The five counts add up to the number of stored jobs |
| Database.CountsPartition | backend/src/storage/database.js:186-191 | Every row is in exactly one state group, so the group counts partition the table |
| Database.GetConfig | backend/src/storage/database.js:213-217 | A value is returned exactly when the key is stored, and it is the stored value. An absent key gives null |
| Database.SetConfig | backend/src/storage/database.js:220-232 | After the upsert the key reads back the value, stamped `now`. Every other key and the jobs table are unchanged |
| QueueManager.Enqueue | backend/src/queue/manager.js:9-29 | A missing or empty command throws and nothing is inserted. Otherwise the new row has state pending and 0 attempts. It uses the caller's id when truthy and the fresh id otherwise. Its max_retries is the caller's value unless that is falsy (absent or 0), in which case 3. An id already in use makes the enqueue fail |
| QueueManager.EnqueueThenGet | backend/src/queue/manager.js:9-29 | Enqueueing a command and reading it back gives a pending job with 0 attempts and max_retries 3 |
| QueueManager.EnqueuedJobIsClaimable | backend/src/queue/manager.js:16-25 | An enqueued job is pending with no retry time, so the next claim returns a job created no later than it |
| QueueManager.List | backend/src/queue/manager.js:32-40 | With a falsy state every job is listed. With a state given, exactly the jobs in that state are listed, newest first |
| QueueManager.GetStatus | backend/src/queue/manager.js:43-53 | The result has the five per-state counts of the store, which sum to the number of jobs, and `activeWorkers` is always 0 |
| QueueManager.ListDLQ | backend/src/queue/manager.js:56-58 | The result is exactly the dead jobs, newest first |
| QueueManager.RetryFromDLQ | backend/src/queue/manager.js:61-84 | An unknown id, or a job that is not dead, throws and nothing changes. A dead job becomes pending with attempts 0 and `next_retry_at` and `error` cleared. `updated_at` is stamped `now`. Command, max_retries, created_at, worker_id and the other columns are untouched |
| QueueManager.RetriedJobIsClaimable | backend/src/queue/manager.js:77-81 | A job reset from the dead-letter queue is pending with no retry time, so the next claim returns a job created no later than it |
| QueueManager.RetryFromDLQOnlyOnce | backend/src/queue/manager.js:70-83 | A second retry of the same job throws, because the job is now pending and no longer dead |
| JsText.Trim | backend/src/worker/worker.js:60-61 | `trim()` returns a contiguous piece of the string. Everything cut off is whitespace, and the result neither starts nor ends with whitespace |
| JsText.TrimIdempotent | backend/src/worker/worker.js:60-61 | Trimming a trimmed string changes nothing |
| Worker.ExitCode | backend/src/worker/worker.js:67 | The stored exit code of a failure is the error's code when it is present and non-zero, otherwise 1. It is never 0 |
| Worker.ExecuteJob | backend/src/worker/worker.js:47-72 | Success records completed with exit code 0, trimmed stdout and stderr, and the completion time. A failure, or a throw from the completion write, records failed with attempts one more than the claimed row's, the error's exit code and its message. Every column these writes do not name, such as command, max_retries, created_at and started_at, keeps its value. Only the job's own row changes. A throw from the failed write changes nothing and propagates |
| Worker.FailedJobIsNeverClaimedAgain | backend/src/worker/worker.js:66-70 | A job recorded as failed is not selected by the next claim, by any worker at any time, and stays failed |
| Worker.FailedStaysFailedInRun | backend/src/worker/worker.js:14-35 | A row that is failed before a run of worker passes is left exactly as it is by every pass, and no pass of the run claims it. The code has no path that returns a failed job to the queue |
| Worker.Iterate | backend/src/worker/worker.js:20-31 | A throwing claim is caught and the store is unchanged. A claim that finds nothing sleeps and the store is unchanged. Otherwise the claimed job's outcome is applied and its row ends completed or failed, unless the failed write throws |
| Worker.PassWithEligibleJobRunsIt | backend/src/worker/worker.js:20-27 | A pass whose claim does not throw, over a store with an eligible pending row, executes a job. Unless an error reaches the catch, that job ends the pass completed or failed |
| Worker.Stop | backend/src/worker/worker.js:78-81 | `stop()` clears `isRunning` and nothing else |
| Worker.Run | backend/src/worker/worker.js:14-35 | The loop runs one pass per input until the pass during which `stop()` was called, and that pass still completes. Errors caught inside a pass never end the loop. The stores before and after each pass are related by that pass's claim and execution, the final store is the one after the last pass, and the job of the final pass has its outcome recorded before the loop exits, unless an error reached the catch |
| Display.Truncate | backend/src/cli/utils/display.js:93-96 | A string that fits is unchanged. Otherwise the result is the first `length-3` characters (none if negative) followed by "...". For `length >= 3` the result is at most `length` long, and exactly `length` when cut |
| Display.TruncateIdempotent | backend/src/cli/utils/display.js:93-96 | Truncating a truncated string changes nothing |
| Display.TruncateKeepsPrefix | backend/src/cli/utils/display.js:93-96 | The result is the string itself, or a prefix of it followed by "..." |
| Display.StateCounts | backend/src/cli/utils/display.js:63-70 | The result holds all five state keys plus the keys of `stats`. A count in `stats` overrides the 0 default, and a missing state shows 0 |
| Display.StatusTableShowsStoreCounts | backend/src/cli/utils/display.js:63-70 | Zero-filling the store's own stats changes nothing, so the status table shows the store's counts |
| Display.StateColor | backend/src/cli/utils/display.js:80-90 | Each of the five states maps to its own colour, and every other string maps to the white fallback |
| Display.StoredStatesAreColored | backend/src/cli/utils/display.js:80-90 | Every state a job can be in gets a non-fallback colour, and different states get different colours |

## Left out

- SQLite itself is not modelled: the better-sqlite3 connection, WAL mode, directory and file creation, indexes, and `close`. Each method's statements are applied to the two tables as one step.
- Concurrency between workers is not modelled as interleavings. The storage engine runs each claim as one indivisible statement, so several workers are modelled as a serialised run of claims (`IsClaimRun`).
- Subprocess execution is not modelled: `exec`, its 30-second timeout and `sleep`. A command's result is an input. A sleep changes nothing in the store.
- `generateJobId` reads the clock and `Math.random`. Its result is the caller-supplied `freshId`.
- The dead-letter store methods that backend/src/cli/commands/dlq.js calls do not exist in database.js, so they have no behaviour to model: `getDeadJobs`, `getDeadJob`, `retryDeadJob`, `deleteDeadJob`, `retryAllDeadJobs`, `clearDeadLetterQueue` and `getDeadJobStats`.
- Process supervision is not modelled: backend/src/worker/manager.js, backend/src/worker/process.js and the CLI and frontend files. Note that process.js exits one second after `stop()`. A job still running then never reaches the outcome write that `Run` models.
- Database.InsertJob, Database.UpdateJobState, QueueManager.RetryFromDLQ: a write and its read-back are separate statements. `insertJob` and `updateJobState` re-read the row with `getJob`, and `retryFromDLQ` reads, updates and re-reads. The model applies them as one step, so a claim or retry by another worker in between is not represented. In the source, such a claim can make `enqueue` or `retryFromDLQ` return a `processing` row, and two concurrent retries of one dead job can both succeed. `RetryFromDLQOnlyOnce` holds for serial calls only.
- `Run` takes a finite sequence of loop passes. The real loop runs until stopped.
- Console rendering is not modelled: `success`, `error`, `info`, `jobsTable`, `formatDate`, chalk styling, cli-table3, and the row order `Object.entries` gives `statsTable`. `StateCounts` is a map, so it carries no order.
- Display.StateColor: a state string naming an inherited `Object.prototype` property (such as "constructor") is looked up on the prototype chain in JavaScript. The model gives it the white fallback. Only the five stored state names reach `colorState` from the store.
- String lengths are counted in Dafny characters, not UTF-16 code units. `truncate` can differ from JavaScript on text outside the Basic Multilingual Plane.
- Worker.ExitCode: models numeric error codes only. A string code is truthy and would be stored as text. Examples are a spawn error's `ENOENT`, and the SQLite error code (such as `SQLITE_BUSY`) carried by a throw from the `completed` write that reaches the catch. On that path the modelled `exit_code` is never the stored one, because `WriteFaults.completion` carries only a number or no code.
- Worker.ExecuteJob: uses one clock reading `at` for both `completed_at` and `updated_at`. The source takes two readings microseconds apart.
- Database.UpdateJobState: the metadata is a typed record with one optional entry per column. An `id` key, an unknown column (an SQL error in the source) and NULL written to a NOT NULL column cannot be expressed.
- Database.InsertJob: the id and command are always strings. A missing id or command, which SQLite would store as NULL or reject, is not represented.
- Job states are the five-constructor `JobState`. The source's TEXT column could hold any string written through `updateJobState`, but every caller writes one of the five.
