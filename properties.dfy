/**
 * Properties of the queue that involve several statements: batches
 * inserted one after another, a lookup after an insert, and a
 * re-prioritization followed by a listing.
 */
module Properties {
  import opened Wrappers
  import opened Jobs
  import opened Table

  /** A later batch is placed after an earlier one: every priority it gets is higher. */
  lemma LaterBatchAfter(rows: seq<Row>, first: seq<string>, second: seq<string>)
    ensures var mid := rows + Enqueued(rows, first);
            forall i, j :: 0 <= i < |first| && 0 <= j < |second| ==>
              Enqueued(rows, first)[i].priority < Enqueued(mid, second)[j].priority
  {
    var added := Enqueued(rows, first);
    var mid := rows + added;
    forall i, j | 0 <= i < |first| && 0 <= j < |second|
      ensures added[i].priority < Enqueued(mid, second)[j].priority
    {
      assert mid[|rows| + i] == added[i];
    }
  }

  /**
   * The job a batch creates is found by its id: the lookup answers exactly
   * the new row, which carries its description and assigned priority.
   */
  lemma EnqueuedFound(rows: seq<Row>, descriptions: seq<string>, i: nat)
    requires i < |descriptions|
    ensures var added := Enqueued(rows, descriptions);
            && added[i].id == NextId(rows) + i
            && added[i].description == Some(descriptions[i])
            && added[i].priority == MaxPriority(rows) + 1 + i
            && Matching(rows + added, added[i].id) == [added[i]]
  {
    var added := Enqueued(rows, descriptions);
    assert IdsIncreasing(added);
    MatchingAfter(rows, added, i);
  }

  /** An id the store has never given out is not found: the lookup answers no row. */
  lemma NeverIssuedNotFound(rows: seq<Row>, id: int)
    requires id >= NextId(rows)
    ensures Matching(rows, id) == []
  {
    MatchingAbsent(rows, id);
  }

  /** From an empty table, the batch ["x", "y"] gets ids 1 and 2 and priorities 1 and 2. */
  lemma ScenarioCreated()
    ensures Enqueued([], ["x", "y"]) == [Row(1, Some("x"), 1, None), Row(2, Some("y"), 2, None)]
  {
    var created := Enqueued([], ["x", "y"]);
    assert created[0] == Row(1, Some("x"), 1, None);
    assert created[1] == Row(2, Some("y"), 2, None);
  }

  /** Moving job 1 to priority 10 changes that row and no other. */
  lemma ScenarioMoved()
    ensures Reprioritized([Row(1, Some("x"), 1, None), Row(2, Some("y"), 2, None)], 1, 10)
              == [Row(1, Some("x"), 10, None), Row(2, Some("y"), 2, None)]
  {
    var moved := Reprioritized([Row(1, Some("x"), 1, None), Row(2, Some("y"), 2, None)], 1, 10);
    assert moved[0] == Row(1, Some("x"), 10, None);
    assert moved[1] == Row(2, Some("y"), 2, None);
  }

  /** After the move the listing shows "y" (priority 2) before "x" (priority 10). */
  lemma ScenarioListed()
    ensures Map(JobOf, ListedRows([Row(1, Some("x"), 10, None), Row(2, Some("y"), 2, None)]))
              == [Job(2, "y", 2, None), Job(1, "x", 10, None)]
  {
    var x, y := Row(1, Some("x"), 10, None), Row(2, Some("y"), 2, None);
    assert [x, y][1..] == [y];
    assert [y][1..] == [];
    assert ListedRows([y]) == [y];
    assert InsertListed(x, [y]) == [y, x];
    assert ListedRows([x, y]) == [y, x];
  }
}
