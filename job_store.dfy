/**
 * The data-access layer of the queue: a handle on the store whose `jobs`
 * table is a field that the statements change, and the operations the
 * program runs against it.
 */
module JobStore {
  import opened Wrappers
  import opened Jobs
  import opened Table

  /**
   * Scans a result set row by row, in the order the store returns it,
   * and stops at the first row that does not scan, keeping the jobs read
   * before it.
   */
  method RowsToJobs(cursor: seq<Row>) returns (jobs: seq<Job>, err: Option<StoreError>)
    ensures var k := FirstNull(cursor);
            jobs == Map(JobOf, cursor[..k])
            && err == (if k < |cursor| then Some(NullToString("description")) else None)
  {
    jobs, err := [], None;
    var i := 0;
    while i < |cursor|
      invariant 0 <= i <= |cursor|
      invariant forall j :: 0 <= j < i ==> cursor[j].description.Some?
      invariant jobs == Map(JobOf, cursor[..i])
    {
      var scanned := Scan(cursor[i]);
      if scanned.Failure? {
        err := Some(scanned.error);
        return;
      }
      jobs := jobs + [scanned.value];
      i := i + 1;
    }
    assert cursor[..i] == cursor;
  }

  /**
   * The listing a healthy store gives: the jobs of the table in ascending
   * priority order, cut at the first row that does not scan.
   */
  lemma ListingOrdered(rows: seq<Row>, n: nat)
    requires n <= |rows|
    ensures |ListedRows(rows)| == |rows|
    ensures var listed := Map(JobOf, ListedRows(rows)[..n]);
            forall i, j :: 0 <= i < j < n ==> listed[i].priority <= listed[j].priority
  {
    var order := ListedRows(rows);
    assert |order| == |multiset(order)| == |multiset(rows)| == |rows|;
    var listed := Map(JobOf, order[..n]);
    forall i, j | 0 <= i < j < n ensures listed[i].priority <= listed[j].priority {
      assert ListedBefore(order[i], order[j]);
    }
  }

  /** The whole table scans exactly when no row has a NULL description. */
  lemma ListingComplete(rows: seq<Row>)
    ensures FirstNull(ListedRows(rows)) == |rows| <==> forall r :: r in rows ==> r.description.Some?
    ensures FirstNull(ListedRows(rows)) == |rows| ==>
              multiset(Map(JobOf, ListedRows(rows))) == multiset(Map(JobOf, rows))
  {
    var listed := ListedRows(rows);
    assert |listed| == |multiset(listed)| == |multiset(rows)| == |rows|;
    var k := FirstNull(listed);
    if k == |rows| {
      forall r | r in rows ensures r.description.Some? {
        assert r in multiset(listed);
      }
      MapPermutation(JobOf, listed, rows);
    } else {
      assert listed[k] in multiset(rows);
    }
  }

  /** A handle on the store: the `jobs` table and whether the medium answers. */
  class Db {
    /** The rows of `jobs` in rowid order. */
    var rows: seq<Row>
    /** When Some(reason), the medium is down and every statement fails with it. */
    const outage: Option<string>

    /** The primary key holds: rowids are unique, and the rows are kept in rowid order. */
    ghost predicate Valid()
      reads this
    {
      IdsIncreasing(rows)
    }

    /** Opens a store holding `initial`. */
    constructor (initial: seq<Row>, outage: Option<string>)
      requires IdsIncreasing(initial)
      ensures Valid() && rows == initial && this.outage == outage
    {
      rows := initial;
      this.outage := outage;
    }

    /** The error every statement ends with while the medium is down. */
    function Down(): StoreError
      requires outage.Some?
    {
      Unavailable(outage.value)
    }

    /**
     * getCurrPrio: the highest priority in the table, 0 when the table is
     * empty (the store answers no row, which is not an error).
     */
    function CurrPrio(): (r: Result<int, StoreError>)
      reads this
      ensures outage.Some? ==> r == Failure(Down())
      ensures outage.None? ==> r.Success?
      ensures r.Success? && rows == [] ==> r.value == 0
      ensures r.Success? && rows != [] ==> exists i :: 0 <= i < |rows| && rows[i].priority == r.value
      ensures r.Success? ==> forall i :: 0 <= i < |rows| ==> rows[i].priority <= r.value
    {
      if outage.Some? then Failure(Down()) else Success(MaxPriority(rows))
    }

    /**
     * createJobInsertQuery: one VALUES item per description, in input
     * order, the i-th carrying priority CurrPrio() + 1 + i. When the
     * priority cannot be read, the query is empty and the error is passed on.
     */
    method CreateJobInsertQuery(descriptions: seq<string>) returns (query: Query, err: Option<StoreError>)
      ensures outage.Some? ==> query == NoQuery && err == Some(Down())
      ensures outage.None? ==> err == None && query.Insert? && |query.values| == |descriptions|
      ensures outage.None? ==> forall i :: 0 <= i < |descriptions| ==>
                query.values[i] == Value(descriptions[i], CurrPrio().value + 1 + i)
    {
      var currPrio := CurrPrio();
      if currPrio.Failure? {
        return NoQuery, Some(currPrio.error);
      }
      var first := currPrio.value + 1;
      var items: seq<Value> := [];
      for i := 0 to |descriptions|
        invariant |items| == i
        invariant forall j :: 0 <= j < i ==> items[j] == Value(descriptions[j], first + j)
      {
        items := items + [Value(descriptions[i], first + i)];
      }
      query, err := Insert(items), None;
    }

    /**
     * exec of a built INSERT: the store refuses an empty VALUES list as a
     * syntax error; otherwise it appends one row per item with fresh rowids.
     */
    method ExecInsert(values: seq<Value>) returns (err: Option<StoreError>)
      requires Valid()
      modifies this
      ensures Valid()
      ensures outage.Some? ==> err == Some(Down())
      ensures outage.None? && values == [] ==> err == Some(SyntaxError(";"))
      ensures err.Some? ==> rows == old(rows)
      ensures err.None? <==> outage.None? && values != []
      ensures err.None? ==> rows == old(rows) + Inserted(NextId(old(rows)), values)
    {
      if outage.Some? {
        return Some(Down());
      }
      if values == [] {
        return Some(SyntaxError(";"));
      }
      rows := rows + Inserted(NextId(rows), values);
      err := None;
    }

    /**
     * createJobs: builds the batch INSERT and runs it. It reports no jobs,
     * even on success. An empty batch is refused by the store.
     */
    method CreateJobs(descriptions: seq<string>) returns (jobs: seq<Job>, err: Option<StoreError>)
      requires Valid()
      modifies this
      ensures Valid()
      ensures jobs == []
      ensures outage.Some? ==> err == Some(Down())
      ensures outage.None? && descriptions == [] ==> err == Some(SyntaxError(";"))
      ensures err.None? <==> outage.None? && descriptions != []
      ensures err.Some? ==> rows == old(rows)
      ensures err.None? ==> rows == old(rows) + Enqueued(old(rows), descriptions)
    {
      jobs := [];
      var query;
      query, err := CreateJobInsertQuery(descriptions);
      if err.Some? {
        return;
      }
      assert query.values == Assigned(descriptions, MaxPriority(rows) + 1);
      err := ExecInsert(query.values);
    }

    /**
     * updateJobPriority: sets the priority of the row with that id. An id
     * no row has is not an error: the table is left as it was. The job it
     * returns is always the zero Job.
     */
    method UpdateJobPriority(id: int, priority: int) returns (job: Job, err: Option<StoreError>)
      requires Valid()
      modifies this
      ensures Valid()
      ensures job == ZeroJob
      ensures outage.Some? ==> err == Some(Down())
      ensures outage.None? ==> err == None
      ensures err.Some? ==> rows == old(rows)
      ensures err.None? ==> rows == Reprioritized(old(rows), id, priority)
    {
      job := ZeroJob;
      if outage.Some? {
        return job, Some(Down());
      }
      ReprioritizePreservesKey(rows, id, priority);
      rows := Reprioritized(rows, id, priority);
      err := None;
    }

    /**
     * getJobById: the rows whose id matches, scanned; when more than one
     * job was read it reports the duplicate instead of any job.
     */
    method GetJobById(id: int) returns (jobs: seq<Job>, err: Option<StoreError>)
      ensures |jobs| <= 1
      ensures forall j :: j in jobs ==> j.id == id
      ensures Valid() ==> err != Some(MultipleJobs)
      ensures outage.Some? ==> jobs == [] && err == Some(Down())
      ensures outage.None? ==>
                var found := Matching(rows, id);
                var k := FirstNull(found);
                if k > 1 then jobs == [] && err == Some(MultipleJobs)
                else jobs == Map(JobOf, found[..k])
                     && err == (if k < |found| then Some(NullToString("description")) else None)
    {
      if outage.Some? {
        return [], Some(Down());
      }
      var found := Matching(rows, id);
      if Valid() {
        MatchingAtMostOne(rows, id);
      }
      jobs, err := RowsToJobs(found);
      if |jobs| > 1 {
        return [], Some(MultipleJobs);
      }
      assert forall j :: j in jobs ==> exists i :: 0 <= i < |jobs| && jobs[i] == j;
    }

    /**
     * getAllJobs: every job of the table, by ascending priority. A row that
     * does not scan ends the listing with an error and the jobs read so far.
     */
    method GetAllJobs() returns (jobs: seq<Job>, err: Option<StoreError>)
      ensures outage.Some? ==> jobs == [] && err == Some(Down())
      ensures outage.None? ==>
                var listed := ListedRows(rows);
                var k := FirstNull(listed);
                jobs == Map(JobOf, listed[..k])
                && err == (if k < |listed| then Some(NullToString("description")) else None)
      ensures forall i, j :: 0 <= i < j < |jobs| ==> jobs[i].priority <= jobs[j].priority
      ensures err.None? <==> outage.None? && forall r :: r in rows ==> r.description.Some?
      ensures err.None? ==> multiset(jobs) == multiset(Map(JobOf, rows))
    {
      jobs := [];
      if outage.Some? {
        return jobs, Some(Down());
      }
      var listed := ListedRows(rows);
      jobs, err := RowsToJobs(listed);
      ListingOrdered(rows, FirstNull(listed));
      ListingComplete(rows);
      assert |listed| == |multiset(listed)| == |multiset(rows)| == |rows|;
      if err.None? {
        assert listed[..|listed|] == listed;
      }
    }
  }
}
