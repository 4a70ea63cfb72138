/** The persistent data of the queue: the `jobs` and `config` tables of
    backend/src/storage/database.js, one immutable record per row. */
module Jobs {
  import opened Wrappers

  /** Instants. The store keeps ISO-8601 strings of a fixed width, which
      compare lexicographically in the same order as the instants they
      denote, so a natural number stands in for each of them. */
  type Timestamp = nat

  /** The five states a job row can be in. */
  datatype JobState = Pending | Processing | Completed | Failed | Dead

  /** The text stored in the `state` column for each state. */
  function StateName(st: JobState): string {
    match st
    case Pending => "pending"
    case Processing => "processing"
    case Completed => "completed"
    case Failed => "failed"
    case Dead => "dead"
  }

  /** The names of all five states. */
  const StateNames: set<string> := {"pending", "processing", "completed", "failed", "dead"}

  /** One row of the `jobs` table. Nullable columns are `Option`s. */
  datatype Job = Job(
    id: string,
    command: string,
    state: JobState,
    attempts: int,
    max_retries: int,
    created_at: Timestamp,
    updated_at: Timestamp,
    next_retry_at: Option<Timestamp>,
    worker_id: Option<string>,
    started_at: Option<Timestamp>,
    completed_at: Option<Timestamp>,
    exit_code: Option<int>,
    output: Option<string>,
    error: Option<string>
  )

  /** One row of the `config` table. */
  datatype ConfigEntry = ConfigEntry(value: string, updated_at: Timestamp)

  /** The whole database: both tables, keyed by their primary keys. */
  datatype Store = Store(jobs: map<string, Job>, config: map<string, ConfigEntry>)

  /** The primary-key column of every row agrees with the key it is stored under. */
  ghost predicate Valid(s: Store) {
    forall id :: id in s.jobs ==> s.jobs[id].id == id
  }

  /** The database right after the tables are created. */
  function EmptyStore(): (s: Store)
    ensures Valid(s)
    ensures |s.jobs| == 0 && |s.config| == 0
  {
    Store(map[], map[])
  }
}
