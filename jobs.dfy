/**
 * The entities of the job queue: a job as the program sees it (Job), a
 * row of the `jobs` table as the store holds it (Row), the values an INSERT
 * carries, and the errors a statement can end with.
 */
module Jobs {
  import opened Wrappers

  /** The name of the one table of the store. */
  const JobTableName := "jobs"

  /** An opaque point in time: no operation of the queue computes with it. */
  datatype Instant = Instant(unixNanos: int)

  /** A job as the program holds it after scanning a row. */
  datatype Job = Job(id: int, description: string, priority: int, finishedAt: Option<Instant>)

  /** The zero value of a Job: what a Go `var job Job` holds. */
  const ZeroJob := Job(0, "", 0, None)

  /**
   * A row of the `jobs` table. `id` is the INTEGER PRIMARY KEY (the rowid),
   * `priority` is NOT NULL, and `description` and `finished_at` may be NULL.
   */
  datatype Row = Row(id: int, description: Option<string>, priority: int, finishedAt: Option<Instant>)

  /** One VALUES item of the batch INSERT: a description and its priority. */
  datatype Value = Value(description: string, priority: int)

  /**
   * The text that the INSERT builder returns, by its meaning: the empty
   * string it returns on failure, or the INSERT of the listed VALUES items.
   */
  datatype Query = NoQuery | Insert(values: seq<Value>)

  /** How a statement against the store can fail. */
  datatype StoreError =
    | Unavailable(reason: string)       // the medium failed: I/O, a closed handle
    | SyntaxError(near: string)         // the store refused to prepare the statement
    | NullToString(column: string)      // Scan of a NULL column into a Go string
    | MultipleJobs                      // two rows answered a lookup by id

  /** The text of the error that the lookup by id reports. */
  const MultipleJobsMessage := "db: multiple jobs with the same ID"

  /** The job a row reads as once all four columns are scanned (NULL text reads as ""). */
  function JobOf(r: Row): Job
  {
    Job(r.id, if r.description.Some? then r.description.value else "", r.priority, r.finishedAt)
  }

  /** Scanning one row into a Job: a NULL description cannot become a Go string. */
  function Scan(r: Row): (res: Result<Job, StoreError>)
    ensures res.Success? <==> r.description.Some?
    ensures res.Success? ==> res.value.id == r.id && res.value.priority == r.priority
                             && Some(res.value.description) == r.description
                             && res.value.finishedAt == r.finishedAt
    ensures res.Failure? ==> res.error == NullToString("description")
  {
    match r.description
    case None => Failure(NullToString("description"))
    case Some(_) => Success(JobOf(r))
  }
}
