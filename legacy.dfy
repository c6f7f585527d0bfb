/**
 * The older copy of the listing in main.go. It reads three columns only and
 * has its own scan loop; it does not check the error of the query before
 * iterating over the result.
 */
module Legacy {
  import opened Wrappers
  import opened Jobs
  import opened Table
  import JobStore

  /** The job a row reads as when only id, description and priority are scanned; finished_at keeps its zero value. */
  function LegacyJobOf(r: Row): Job
  {
    Job(r.id, if r.description.Some? then r.description.value else "", r.priority, None)
  }

  /** What a call can come to: a panic, or the two results it returns. */
  datatype Outcome = NilDereference | Returned(jobs: seq<Job>, err: Option<StoreError>)

  /** The three-column scan loop: stops at the first row that does not scan, returning the jobs read so far. */
  method ScanListing(cursor: seq<Row>) returns (jobs: seq<Job>, err: Option<StoreError>)
    ensures var k := FirstNull(cursor);
            jobs == Map(LegacyJobOf, cursor[..k])
            && err == (if k < |cursor| then Some(NullToString("description")) else None)
  {
    jobs, err := [], None;
    var i := 0;
    while i < |cursor|
      invariant 0 <= i <= |cursor|
      invariant forall j :: 0 <= j < i ==> cursor[j].description.Some?
      invariant jobs == Map(LegacyJobOf, cursor[..i])
    {
      if cursor[i].description.None? {
        return jobs, Some(NullToString("description"));
      }
      jobs := jobs + [LegacyJobOf(cursor[i])];
      i := i + 1;
    }
    assert cursor[..i] == cursor;
  }

  /**
   * getAllJobs as main.go has it: when the query fails, `rows` is nil and
   * the first rows.Next() dereferences it.
   */
  method GetAllJobsAsWritten(db: JobStore.Db) returns (outcome: Outcome)
    ensures db.outage.Some? ==> outcome == NilDereference
    ensures db.outage.None? ==>
              var listed := ListedRows(db.rows);
              var k := FirstNull(listed);
              outcome == Returned(Map(LegacyJobOf, listed[..k]),
                                  if k < |listed| then Some(NullToString("description")) else None)
  {
    if db.outage.Some? {
      return NilDereference;
    }
    var jobs, err := ScanListing(ListedRows(db.rows));
    outcome := Returned(jobs, err);
  }

  /**
   * getAllJobs with the query error checked, as the later copy does: a
   * failed query returns the empty list and the error.
   */
  method GetAllJobs(db: JobStore.Db) returns (jobs: seq<Job>, err: Option<StoreError>)
    ensures db.outage.Some? ==> jobs == [] && err == Some(Unavailable(db.outage.value))
    ensures db.outage.None? ==>
              var listed := ListedRows(db.rows);
              var k := FirstNull(listed);
              jobs == Map(LegacyJobOf, listed[..k])
              && err == (if k < |listed| then Some(NullToString("description")) else None)
    ensures forall i, j :: 0 <= i < j < |jobs| ==> jobs[i].priority <= jobs[j].priority
    ensures forall j :: j in jobs ==> j.finishedAt.None?
    ensures err.None? <==> db.outage.None? && forall r :: r in db.rows ==> r.description.Some?
    ensures err.None? ==> multiset(jobs) == multiset(Map(LegacyJobOf, db.rows))
  {
    jobs := [];
    if db.outage.Some? {
      return jobs, Some(Unavailable(db.outage.value));
    }
    var listed := ListedRows(db.rows);
    jobs, err := ScanListing(listed);
    var k := FirstNull(listed);
    assert |listed| == |multiset(listed)| == |multiset(db.rows)| == |db.rows|;
    forall i, j | 0 <= i < j < |jobs| ensures jobs[i].priority <= jobs[j].priority {
      assert ListedBefore(listed[i], listed[j]);
    }
    JobStore.ListingComplete(db.rows);
    if err.None? {
      assert listed[..|listed|] == listed;
      MapPermutation(LegacyJobOf, listed, db.rows);
    }
  }
}
