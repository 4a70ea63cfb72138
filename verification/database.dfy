/** The job store of backend/src/storage/database.js. Each method's
    statements (a write and, for `insertJob` and `updateJobState`, the
    `getJob` that re-reads the row) are applied as one step from a `Store`
    to a `Store`. The clock reading `new Date()` is
    the parameter `now`. */
module Database {
  import opened Wrappers
  import opened Jobs

  /** The constraint failure SQLite raises. */
  datatype StoreError = DuplicateId(id: string)

  /** The object handed to `insertJob`. Properties the caller leaves out are `None`. */
  datatype NewJob = NewJob(
    id: string,
    command: string,
    state: Option<JobState>,
    attempts: Option<int>,
    max_retries: Option<int>
  )

  /** JavaScript's `v || fallback` for a number: `undefined`, `null` and `0`
      are falsy and give the fallback. */
  function NumberOr(v: Option<int>, fallback: int): (r: int)
    ensures v.Some? && v.value != 0 ==> r == v.value
    ensures v.None? || v.value == 0 ==> r == fallback
    ensures fallback != 0 ==> r != 0
  {
    if v.Some? && v.value != 0 then v.value else fallback
  }

  /** `getJob`: the row with that primary key, if any. */
  function GetJob(s: Store, id: string): (r: Option<Job>)
    ensures r.Some? <==> id in s.jobs
    ensures r.Some? ==> r.value == s.jobs[id]
  {
    if id in s.jobs then Some(s.jobs[id]) else None
  }

  // ---------------------------------------------------------------- insertJob

  /** `insertJob`: adds one row with the given id and command. `state`,
      `attempts` and `max_retries` fall back to `pending`, 0 and 3 when the
      caller's value is falsy; both timestamps are `now`; every other column
      is NULL. An id already present violates the PRIMARY KEY and nothing is
      written. The returned row is what `getJob` then reads back. */
  function InsertJob(s: Store, job: NewJob, now: Timestamp): (r: Result<(Store, Job), StoreError>)
    ensures r.Err? <==> job.id in s.jobs
    ensures r.Err? ==> r.error == DuplicateId(job.id)
    ensures r.Ok? ==>
      var (s', row) := r.value;
      && GetJob(s', job.id) == Some(row)
      && (forall id :: id != job.id ==> GetJob(s', id) == GetJob(s, id))
      && s'.config == s.config
      && row.id == job.id && row.command == job.command
      && row.state == job.state.GetOr(Pending)
      && row.attempts == job.attempts.GetOr(0)
      && (job.max_retries.None? || job.max_retries.value == 0 ==> row.max_retries == 3)
      && (job.max_retries.Some? && job.max_retries.value != 0 ==> row.max_retries == job.max_retries.value)
      && row.created_at == now && row.updated_at == now
      && row.next_retry_at.None? && row.worker_id.None? && row.started_at.None?
      && row.completed_at.None? && row.exit_code.None? && row.output.None? && row.error.None?
    ensures Valid(s) && r.Ok? ==> Valid(r.value.0)
  {
    if job.id in s.jobs then
      Err(DuplicateId(job.id))
    else
      var row := Job(job.id, job.command, job.state.GetOr(Pending),
                     NumberOr(job.attempts, 0), NumberOr(job.max_retries, 3),
                     now, now, None, None, None, None, None, None, None);
      Ok((s.(jobs := s.jobs[job.id := row]), row))
  }

  // ----------------------------------------------------------------- listJobs

  /** The sort direction of an `ORDER BY created_at` clause. */
  datatype Order = Ascending | Descending

  /** `a` may be listed before `b` under the given direction. */
  predicate ComesFirst(a: Job, b: Job, order: Order) {
    match order
    case Ascending => a.created_at <= b.created_at
    case Descending => a.created_at >= b.created_at
  }

  /** The state filter the query actually applies: an absent or empty
      `filters.state` is falsy and adds no WHERE clause. */
  function StateFilter(filter: Option<string>): Option<string> {
    if filter.Some? && filter.value != "" then filter else None
  }

  /** The row passes the WHERE clause, if there is one. */
  predicate Matches(j: Job, filter: Option<string>) {
    StateFilter(filter).None? || StateName(j.state) == filter.value
  }

  /** The bound the query actually applies: `filters.limit` adds a LIMIT
      clause only when truthy, and SQLite reads a negative LIMIT as no bound,
      so only a positive limit cuts the result. */
  function RowLimit(limit: Option<int>): Option<nat> {
    if limit.Some? && limit.value > 0 then Some(limit.value) else None
  }

  /** `r` is a possible answer to `SELECT * FROM jobs [WHERE state = ?] ORDER
      BY created_at DESC [LIMIT ?]`: stored matching rows, each once, newest
      first, no more than the bound, all matching rows when the bound is not
      reached, and no left-out matching row newer than a listed one. Rows
      with equal `created_at` may come in any order. */
  ghost predicate IsListing(jobs: map<string, Job>, filter: Option<string>, limit: Option<int>, r: seq<Job>) {
    && (forall i :: 0 <= i < |r| ==> r[i].id in jobs && jobs[r[i].id] == r[i] && Matches(r[i], filter))
    && (forall i, j :: 0 <= i < j < |r| ==> r[i].id != r[j].id)
    && (forall i, j :: 0 <= i < j < |r| ==> ComesFirst(r[i], r[j], Descending))
    && (RowLimit(limit).Some? ==> |r| <= RowLimit(limit).value)
    && (RowLimit(limit).None? || |r| < RowLimit(limit).value ==>
          forall id :: id in jobs && Matches(jobs[id], filter) ==> jobs[id] in r)
    && (forall id, i :: id in jobs && Matches(jobs[id], filter) && jobs[id] !in r && 0 <= i < |r| ==>
          ComesFirst(r[i], jobs[id], Descending))
  }

  /** `ORDER BY created_at <order> LIMIT 1` over the candidate rows `cands`:
      some candidate that no other candidate precedes. */
  method FirstBy(jobs: map<string, Job>, cands: set<string>, order: Order) returns (id: string)
    requires cands != {} && cands <= jobs.Keys
    ensures id in cands
    ensures forall k :: k in cands ==> ComesFirst(jobs[id], jobs[k], order)
  {
    id :| id in cands;
    var rest := cands - {id};
    while rest != {}
      invariant rest <= cands && id in cands
      invariant forall k :: k in cands && k !in rest ==> ComesFirst(jobs[id], jobs[k], order)
      decreases rest
    {
      var k :| k in rest;
      if !ComesFirst(jobs[id], jobs[k], order) {
        id := k;
      }
      rest := rest - {k};
    }
  }

  /** `listJobs`: the matching rows, newest first, cut at a positive limit.
      Nothing matching gives the empty sequence, not an error. */
  method ListJobs(s: Store, filter: Option<string>, limit: Option<int>) returns (r: seq<Job>)
    requires Valid(s)
    ensures IsListing(s.jobs, filter, limit, r)
    ensures (forall id :: id in s.jobs ==> !Matches(s.jobs[id], filter)) ==> r == []
  {
    var cands := set id | id in s.jobs && Matches(s.jobs[id], filter);
    r := [];
    while cands != {} && (RowLimit(limit).None? || |r| < RowLimit(limit).value)
      invariant forall id :: id in cands ==> id in s.jobs && Matches(s.jobs[id], filter)
      invariant forall i :: 0 <= i < |r| ==>
        r[i].id in s.jobs && s.jobs[r[i].id] == r[i] && Matches(r[i], filter) && r[i].id !in cands
      invariant forall i, j :: 0 <= i < j < |r| ==> r[i].id != r[j].id
      invariant forall i, j :: 0 <= i < j < |r| ==> ComesFirst(r[i], r[j], Descending)
      invariant RowLimit(limit).Some? ==> |r| <= RowLimit(limit).value
      invariant forall id :: id in s.jobs && Matches(s.jobs[id], filter) && id !in cands ==> s.jobs[id] in r
      invariant forall id, i :: id in cands && 0 <= i < |r| ==> ComesFirst(r[i], s.jobs[id], Descending)
      decreases cands
    {
      var id := FirstBy(s.jobs, cands, Descending);
      r := r + [s.jobs[id]];
      cands := cands - {id};
    }
    // Establishes the ensures that the result is empty when nothing matches.
    if |r| > 0 {
      assert r[0].id in s.jobs && Matches(s.jobs[r[0].id], filter);
    }
  }

  // ----------------------------------------------------------- updateJobState

  /** The `metadata` object of `updateJobState`: one optional entry per
      column other than `id`. For a nullable column, `Some(None)` writes NULL. */
  datatype Meta = Meta(
    command: Option<string> := None,
    state: Option<JobState> := None,
    attempts: Option<int> := None,
    max_retries: Option<int> := None,
    created_at: Option<Timestamp> := None,
    updated_at: Option<Timestamp> := None,
    next_retry_at: Option<Option<Timestamp>> := None,
    worker_id: Option<Option<string>> := None,
    started_at: Option<Option<Timestamp>> := None,
    completed_at: Option<Option<Timestamp>> := None,
    exit_code: Option<Option<int>> := None,
    output: Option<Option<string>> := None,
    error: Option<Option<string>> := None
  )

  /** Every column the metadata names holds the metadata's value in `row`. */
  predicate TakesMeta(row: Job, meta: Meta) {
    && (meta.command.Some? ==> row.command == meta.command.value)
    && (meta.state.Some? ==> row.state == meta.state.value)
    && (meta.attempts.Some? ==> row.attempts == meta.attempts.value)
    && (meta.max_retries.Some? ==> row.max_retries == meta.max_retries.value)
    && (meta.created_at.Some? ==> row.created_at == meta.created_at.value)
    && (meta.updated_at.Some? ==> row.updated_at == meta.updated_at.value)
    && (meta.next_retry_at.Some? ==> row.next_retry_at == meta.next_retry_at.value)
    && (meta.worker_id.Some? ==> row.worker_id == meta.worker_id.value)
    && (meta.started_at.Some? ==> row.started_at == meta.started_at.value)
    && (meta.completed_at.Some? ==> row.completed_at == meta.completed_at.value)
    && (meta.exit_code.Some? ==> row.exit_code == meta.exit_code.value)
    && (meta.output.Some? ==> row.output == meta.output.value)
    && (meta.error.Some? ==> row.error == meta.error.value)
  }

  /** Every column other than `state` and `updated_at` that the metadata
      does not name keeps its value from `before`. */
  predicate KeepsUnnamed(before: Job, row: Job, meta: Meta) {
    && row.id == before.id
    && (meta.command.None? ==> row.command == before.command)
    && (meta.attempts.None? ==> row.attempts == before.attempts)
    && (meta.max_retries.None? ==> row.max_retries == before.max_retries)
    && (meta.created_at.None? ==> row.created_at == before.created_at)
    && (meta.next_retry_at.None? ==> row.next_retry_at == before.next_retry_at)
    && (meta.worker_id.None? ==> row.worker_id == before.worker_id)
    && (meta.started_at.None? ==> row.started_at == before.started_at)
    && (meta.completed_at.None? ==> row.completed_at == before.completed_at)
    && (meta.exit_code.None? ==> row.exit_code == before.exit_code)
    && (meta.output.None? ==> row.output == before.output)
    && (meta.error.None? ==> row.error == before.error)
  }

  /** The row after `UPDATE jobs SET state = ?, updated_at = ?, <metadata> WHERE id = ?`. */
  function ApplyMeta(j: Job, state: JobState, meta: Meta, now: Timestamp): Job {
    Job(j.id,
        meta.command.GetOr(j.command),
        meta.state.GetOr(state),
        meta.attempts.GetOr(j.attempts),
        meta.max_retries.GetOr(j.max_retries),
        meta.created_at.GetOr(j.created_at),
        meta.updated_at.GetOr(now),
        meta.next_retry_at.GetOr(j.next_retry_at),
        meta.worker_id.GetOr(j.worker_id),
        meta.started_at.GetOr(j.started_at),
        meta.completed_at.GetOr(j.completed_at),
        meta.exit_code.GetOr(j.exit_code),
        meta.output.GetOr(j.output),
        meta.error.GetOr(j.error))
  }

  /** `updateJobState(id, state, metadata)`: writes `state` and `updated_at =
      now`, then the metadata, whose entries win over those two; touches only
      the row with that id and returns it re-read. An unknown id updates no
      row and reads back nothing. */
  function UpdateJobState(s: Store, id: string, state: JobState, meta: Meta, now: Timestamp): (r: (Store, Option<Job>))
    ensures id !in s.jobs ==> r.0 == s && r.1.None?
    ensures id in s.jobs ==> r.1.Some? && r.0 == s.(jobs := s.jobs[id := r.1.value])
    ensures id in s.jobs ==>
      var row := r.1.value;
      && TakesMeta(row, meta)
      && KeepsUnnamed(s.jobs[id], row, meta)
      && (meta.state.None? ==> row.state == state)
      && (meta.updated_at.None? ==> row.updated_at == now)
    ensures Valid(s) ==> Valid(r.0)
  {
    if id in s.jobs then
      var row := ApplyMeta(s.jobs[id], state, meta, now);
      (s.(jobs := s.jobs[id := row]), Some(row))
    else
      (s, None)
  }

  // ----------------------------------------------------------------- claimJob

  /** A row the claim's inner SELECT may pick: pending, and either never
      scheduled for retry or scheduled no later than `now`. */
  predicate Eligible(j: Job, now: Timestamp) {
    j.state == Pending && (j.next_retry_at.None? || j.next_retry_at.value <= now)
  }

  /** `id` is an eligible row that no eligible row was created before. */
  ghost predicate IsOldestEligible(jobs: map<string, Job>, id: string, now: Timestamp) {
    && id in jobs
    && Eligible(jobs[id], now)
    && forall k :: k in jobs && Eligible(jobs[k], now) ==> jobs[id].created_at <= jobs[k].created_at
  }

  /** The claim's SET clause applied to one row. */
  function Claimed(j: Job, workerId: string, now: Timestamp): Job {
    j.(state := Processing, worker_id := Some(workerId), started_at := Some(now), updated_at := now)
  }

  /** `claimed` and `s'` are a possible outcome of one atomic `claimJob`: with
      no eligible row, nothing changes and no row is returned; otherwise some
      oldest eligible row, and only it, becomes `processing` for `workerId`
      at `now`, and the updated row is returned. Equal `created_at` values
      leave the choice open. */
  ghost predicate IsClaim(s: Store, workerId: string, now: Timestamp, s': Store, claimed: Option<Job>) {
    match claimed
    case None =>
      && s' == s
      && forall id :: id in s.jobs ==> !Eligible(s.jobs[id], now)
    case Some(row) =>
      && IsOldestEligible(s.jobs, row.id, now)
      && row == Claimed(s.jobs[row.id], workerId, now)
      && s' == PutRow(s, row)
  }

  /** The store with `row` written under its own id. */
  function PutRow(s: Store, row: Job): (s': Store)
    ensures s'.jobs.Keys == s.jobs.Keys + {row.id} && s'.jobs[row.id] == row
    ensures forall id :: id in s.jobs && id != row.id ==> s'.jobs[id] == s.jobs[id]
    ensures s'.config == s.config
    ensures Valid(s) ==> Valid(s')
  {
    s.(jobs := s.jobs[row.id := row])
  }

  /** `claimJob`: the single `UPDATE ... WHERE id = (SELECT id ... ORDER BY
      created_at ASC LIMIT 1) RETURNING *`. */
  method ClaimJob(s: Store, workerId: string, now: Timestamp) returns (s': Store, claimed: Option<Job>)
    requires Valid(s)
    ensures IsClaim(s, workerId, now, s', claimed)
    ensures Valid(s')
  {
    var eligible := set id | id in s.jobs && Eligible(s.jobs[id], now);
    if eligible == {} {
      forall id | id in s.jobs
        ensures !Eligible(s.jobs[id], now)
      {
        assert id !in eligible;
      }
      s', claimed := s, None;
    } else {
      var id := FirstBy(s.jobs, eligible, Ascending);
      var row := Claimed(s.jobs[id], workerId, now);
      s', claimed := PutRow(s, row), Some(row);
    }
  }

  /** A claim writes only the four claim columns of the chosen row and
      leaves every other row and the config table alone. */
  lemma ClaimChangesOnlyClaimColumns(s: Store, workerId: string, now: Timestamp, s': Store, row: Job)
    requires IsClaim(s, workerId, now, s', Some(row))
    ensures row.id in s.jobs && s.jobs[row.id].state == Pending
    ensures var before := s.jobs[row.id];
      && row.command == before.command && row.attempts == before.attempts
      && row.max_retries == before.max_retries && row.created_at == before.created_at
      && row.next_retry_at == before.next_retry_at && row.completed_at == before.completed_at
      && row.exit_code == before.exit_code && row.output == before.output && row.error == before.error
    ensures row.state == Processing && row.worker_id == Some(workerId)
    ensures row.started_at == Some(now) && row.updated_at == now
    ensures s'.config == s.config
    ensures forall id :: id in s.jobs && id != row.id ==> id in s'.jobs && s'.jobs[id] == s.jobs[id]
    ensures s'.jobs.Keys == s.jobs.Keys
  {
  }

  /** A row that is not `pending` (for instance one a worker recorded as
      `failed`, `completed` or `processing`) is never chosen by a claim and
      is left exactly as it was. */
  lemma NonPendingNeverClaimed(s: Store, workerId: string, now: Timestamp, s': Store, claimed: Option<Job>, id: string)
    requires IsClaim(s, workerId, now, s', claimed)
    requires id in s.jobs && s.jobs[id].state != Pending
    ensures claimed.None? || claimed.value.id != id
    ensures id in s'.jobs && s'.jobs[id] == s.jobs[id]
  {
  }

  /** A sequence of claims `claims[i] = (workerId, now)` executed one after
      another, as SQLite serialises them: `stores[i]` is the database before
      the i-th claim and `results[i]` what it returned. */
  ghost predicate IsClaimRun(stores: seq<Store>, claims: seq<(string, Timestamp)>, results: seq<Option<Job>>) {
    && |stores| == |claims| + 1
    && |results| == |claims|
    && forall i :: 0 <= i < |claims| ==> IsClaim(stores[i], claims[i].0, claims[i].1, stores[i + 1], results[i])
  }

  /** Once claimed, a row stays `processing` through any number of later claims. */
  lemma {:induction false} ClaimedStaysProcessing(stores: seq<Store>, claims: seq<(string, Timestamp)>, results: seq<Option<Job>>, i: nat, k: nat)
    requires IsClaimRun(stores, claims, results)
    requires i < k <= |claims|
    requires results[i].Some?
    ensures results[i].value.id in stores[k].jobs
    ensures stores[k].jobs[results[i].value.id].state == Processing
    decreases k - i
  {
    var id := results[i].value.id;
    if k == i + 1 {
      assert IsClaim(stores[i], claims[i].0, claims[i].1, stores[i + 1], results[i]);
    } else {
      ClaimedStaysProcessing(stores, claims, results, i, k - 1);
      assert IsClaim(stores[k - 1], claims[k - 1].0, claims[k - 1].1, stores[k], results[k - 1]);
      NonPendingNeverClaimed(stores[k - 1], claims[k - 1].0, claims[k - 1].1, stores[k], results[k - 1], id);
    }
  }

  /** No two claims in a run return the same row: concurrent workers never
      process one job twice. */
  lemma NoJobClaimedTwice(stores: seq<Store>, claims: seq<(string, Timestamp)>, results: seq<Option<Job>>, i: nat, j: nat)
    requires IsClaimRun(stores, claims, results)
    requires i < j < |claims|
    requires results[i].Some? && results[j].Some?
    ensures results[i].value.id != results[j].value.id
  {
    ClaimedStaysProcessing(stores, claims, results, i, j);
    assert IsClaim(stores[j], claims[j].0, claims[j].1, stores[j + 1], results[j]);
  }

  /** With exactly one pending row, eligible at the first claim's instant, the
      first of any number of claims wins it and every later one returns nothing. */
  lemma {:induction false} OnePendingOneWinner(stores: seq<Store>, claims: seq<(string, Timestamp)>, results: seq<Option<Job>>, id: string)
    requires IsClaimRun(stores, claims, results)
    requires |claims| > 0
    requires IdsIn(stores[0].jobs, Pending) == {id}
    requires Eligible(stores[0].jobs[id], claims[0].1)
    ensures results[0].Some? && results[0].value.id == id
    ensures forall j :: 0 < j < |claims| ==> results[j].None?
  {
    assert IsClaim(stores[0], claims[0].0, claims[0].1, stores[1], results[0]);
    assert id in IdsIn(stores[0].jobs, Pending);
    assert results[0].value.id in IdsIn(stores[0].jobs, Pending);
    forall j | 0 < j < |claims|
      ensures results[j].None?
    {
      NoPendingAfterFirst(stores, claims, results, j);
      var s := stores[j];
      assert IsClaim(s, claims[j].0, claims[j].1, stores[j + 1], results[j]);
      assert results[j].Some? ==> results[j].value.id in IdsIn(s.jobs, Pending);
    }
  }

  /** Helper: after the first claim of such a run no row is pending. */
  lemma {:induction false} NoPendingAfterFirst(stores: seq<Store>, claims: seq<(string, Timestamp)>, results: seq<Option<Job>>, k: nat)
    requires IsClaimRun(stores, claims, results)
    requires 0 < k <= |claims|
    requires exists id :: IdsIn(stores[0].jobs, Pending) == {id} && Eligible(stores[0].jobs[id], claims[0].1)
    ensures IdsIn(stores[k].jobs, Pending) == {}
  {
    var id :| IdsIn(stores[0].jobs, Pending) == {id} && Eligible(stores[0].jobs[id], claims[0].1);
    assert id in IdsIn(stores[0].jobs, Pending);
    assert IsClaim(stores[0], claims[0].0, claims[0].1, stores[1], results[0]);
    if k == 1 {
      var s0, s1 := stores[0], stores[1];
      assert results[0].value.id in IdsIn(s0.jobs, Pending);
      forall x | x in s1.jobs
        ensures s1.jobs[x].state != Pending
      {
        if x != results[0].value.id {
          assert x in IdsIn(s0.jobs, Pending) ==> x == id;
        }
      }
    } else {
      NoPendingAfterFirst(stores, claims, results, k - 1);
      var s := stores[k - 1];
      assert IsClaim(s, claims[k - 1].0, claims[k - 1].1, stores[k], results[k - 1]);
      forall x | x in stores[k].jobs
        ensures stores[k].jobs[x].state != Pending
      {
        assert x !in IdsIn(s.jobs, Pending);
      }
    }
  }

  // ----------------------------------------------------------------- getStats

  /** The number of rows in state `st`, the `COUNT(*)` of its group. */
  function CountState(jobs: map<string, Job>, st: JobState): (n: nat)
    ensures n == 0 <==> forall id :: id in jobs ==> jobs[id].state != st
  {
    var ids := IdsIn(jobs, st);
    assert (forall id :: id in jobs ==> jobs[id].state != st) ==> ids == {};
    assert forall id :: id in jobs && jobs[id].state == st ==> id in ids;
    |ids|
  }

  /** The ids of the rows in state `st`. */
  function IdsIn(jobs: map<string, Job>, st: JobState): (ids: set<string>)
    ensures forall id :: id in ids <==> id in jobs && jobs[id].state == st
    ensures ids <= jobs.Keys && |ids| <= |jobs|
  {
    var ids := set id | id in jobs && jobs[id].state == st;
    SubsetSize(ids, jobs.Keys);
    ids
  }

  /** A subset is no larger than its superset. */
  lemma {:induction false} SubsetSize<T>(a: set<T>, b: set<T>)
    requires a <= b
    ensures |a| <= |b|
    decreases |a|
  {
    if a != {} {
      var x :| x in a;
      SubsetSize(a - {x}, b - {x});
    }
  }

  /** `getStats`: a count for each of the five states, 0 for a state no row
      is in (the zero-filled object, overwritten by the `GROUP BY` rows). */
  function GetStats(s: Store): (stats: map<string, nat>)
    ensures stats.Keys == StateNames
    ensures forall st :: stats[StateName(st)] == CountState(s.jobs, st)
    ensures forall st :: stats[StateName(st)] == 0 <==> forall id :: id in s.jobs ==> s.jobs[id].state != st
  {
    map[StateName(Pending) := CountState(s.jobs, Pending),
        StateName(Processing) := CountState(s.jobs, Processing),
        StateName(Completed) := CountState(s.jobs, Completed),
        StateName(Failed) := CountState(s.jobs, Failed),
        StateName(Dead) := CountState(s.jobs, Dead)]
  }

  /** The five counts add up to the number of rows in the table. */
  lemma StatsSumToTotal(s: Store)
    ensures var stats := GetStats(s);
      stats["pending"] + stats["processing"] + stats["completed"] + stats["failed"] + stats["dead"] == |s.jobs|
  {
    var stats := GetStats(s);
    assert stats["pending"] == CountState(s.jobs, Pending) by { assert "pending" == StateName(Pending); }
    assert stats["processing"] == CountState(s.jobs, Processing) by { assert "processing" == StateName(Processing); }
    assert stats["completed"] == CountState(s.jobs, Completed) by { assert "completed" == StateName(Completed); }
    assert stats["failed"] == CountState(s.jobs, Failed) by { assert "failed" == StateName(Failed); }
    assert stats["dead"] == CountState(s.jobs, Dead) by { assert "dead" == StateName(Dead); }
    CountsPartition(s.jobs);
  }

  /** Helper: every row is in exactly one state, so the per-state counts
      partition the table. */
  lemma CountsPartition(jobs: map<string, Job>)
    ensures CountState(jobs, Pending) + CountState(jobs, Processing) + CountState(jobs, Completed)
            + CountState(jobs, Failed) + CountState(jobs, Dead) == |jobs|
  {
    var p := IdsIn(jobs, Pending);
    var r := IdsIn(jobs, Processing);
    var c := IdsIn(jobs, Completed);
    var f := IdsIn(jobs, Failed);
    var d := IdsIn(jobs, Dead);
    var pr := p + r;
    var prc := pr + c;
    var prcf := prc + f;
    var all := prcf + d;
    assert p !! r;
    DisjointUnion(p, r);
    assert pr !! c;
    DisjointUnion(pr, c);
    assert prc !! f;
    DisjointUnion(prc, f);
    assert prcf !! d;
    DisjointUnion(prcf, d);
    assert all == jobs.Keys by {
      forall id | id in jobs.Keys
        ensures id in all
      {
        match jobs[id].state
        case Pending => assert id in p;
        case Processing => assert id in r;
        case Completed => assert id in c;
        case Failed => assert id in f;
        case Dead => assert id in d;
      }
    }
    assert |jobs.Keys| == |jobs|;
  }

  /** Helper: the size of a union of disjoint sets. */
  lemma DisjointUnion<T>(a: set<T>, b: set<T>)
    requires a !! b
    ensures |a + b| == |a| + |b|
  {
  }

  // ---------------------------------------------------- getConfig / setConfig

  /** `getConfig`: the stored value, or null for an absent key. */
  function GetConfig(s: Store, key: string): (v: Option<string>)
    ensures v.Some? <==> key in s.config
    ensures v.Some? ==> v.value == s.config[key].value
  {
    if key in s.config then Some(s.config[key].value) else None
  }

  /** `setConfig`: an upsert; afterwards the key reads back `value` stamped
      `now`, every other key reads back as before, and the jobs table is untouched. */
  function SetConfig(s: Store, key: string, value: string, now: Timestamp): (s': Store)
    ensures s'.jobs == s.jobs
    ensures GetConfig(s', key) == Some(value)
    ensures key in s'.config && s'.config[key].updated_at == now
    ensures forall k :: k != key ==> GetConfig(s', k) == GetConfig(s, k)
    ensures forall k :: k != key && k in s.config ==> k in s'.config && s'.config[k] == s.config[k]
    ensures s'.config.Keys == s.config.Keys + {key}
  {
    s.(config := s.config[key := ConfigEntry(value, now)])
  }
}
