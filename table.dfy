/**
 * The relational meaning of the statements the queue sends to the store,
 * as functions of the table's rows (kept in rowid order), with the
 * properties the queue relies on.
 */
module Table {
  import opened Wrappers
  import opened Jobs

  /** Element-wise image of a sequence. */
  function Map<A, B>(f: A -> B, s: seq<A>): (r: seq<B>)
    ensures |r| == |s|
    ensures forall i :: 0 <= i < |s| ==> r[i] == f(s[i])
  {
    seq(|s|, i requires 0 <= i < |s| => f(s[i]))
  }

  lemma MapAppend<A, B>(f: A -> B, a: seq<A>, b: seq<A>)
    ensures Map(f, a + b) == Map(f, a) + Map(f, b)
  {
  }

  /** Mapping a permutation yields a permutation. */
  lemma {:induction false} MapPermutation<A, B>(f: A -> B, a: seq<A>, b: seq<A>)
    requires multiset(a) == multiset(b)
    ensures multiset(Map(f, a)) == multiset(Map(f, b))
    decreases |a|
  {
    if a == [] {
      assert |b| == |multiset(b)| == 0;
    } else {
      var x := a[0];
      assert x in multiset(b);
      var k :| 0 <= k < |b| && b[k] == x;
      var rest := b[..k] + b[k + 1..];
      assert b == b[..k] + [x] + b[k + 1..];
      assert a == [x] + a[1..];
      assert multiset(b) == multiset(b[..k]) + multiset{x} + multiset(b[k + 1..]);
      assert multiset(a) == multiset{x} + multiset(a[1..]);
      assert multiset(rest) == multiset(b[..k]) + multiset(b[k + 1..]);
      assert multiset(a[1..]) == multiset(a) - multiset{x};
      assert multiset(rest) == multiset(b) - multiset{x};
      assert multiset(a[1..]) == multiset(rest);
      MapPermutation(f, a[1..], rest);
      MapAppend(f, [x], a[1..]);
      MapAppend(f, b[..k] + [x], b[k + 1..]);
      MapAppend(f, b[..k], [x]);
      MapAppend(f, b[..k], b[k + 1..]);
    }
  }

  /** The largest element, or 0 for the empty sequence. */
  function Largest(s: seq<int>): (m: int)
    ensures s == [] ==> m == 0
    ensures s != [] ==> m in s && forall x :: x in s ==> x <= m
  {
    if s == [] then 0
    else if |s| == 1 then s[0]
    else
      var rest := Largest(s[1..]);
      assert s == [s[0]] + s[1..];
      if s[0] < rest then rest else s[0]
  }

  /** The priority column, in row order. */
  function Priorities(rows: seq<Row>): (ps: seq<int>)
    ensures |ps| == |rows|
    ensures forall i :: 0 <= i < |rows| ==> ps[i] == rows[i].priority
  {
    if rows == [] then [] else [rows[0].priority] + Priorities(rows[1..])
  }

  /** The id column, in row order. */
  function Ids(rows: seq<Row>): (ids: seq<int>)
    ensures |ids| == |rows|
    ensures forall i :: 0 <= i < |rows| ==> ids[i] == rows[i].id
  {
    if rows == [] then [] else [rows[0].id] + Ids(rows[1..])
  }

  /** SELECT priority ... ORDER BY priority DESC LIMIT 1, read as 0 when no row comes back. */
  function MaxPriority(rows: seq<Row>): (m: int)
    ensures rows == [] ==> m == 0
    ensures rows != [] ==> exists i :: 0 <= i < |rows| && rows[i].priority == m
    ensures forall i :: 0 <= i < |rows| ==> rows[i].priority <= m
  {
    var ps := Priorities(rows);
    assert forall i :: 0 <= i < |rows| ==> ps[i] in ps;
    Largest(ps)
  }

  /** The rowid the store gives the next inserted row: one more than the largest, 1 when empty. */
  function NextId(rows: seq<Row>): (n: int)
    ensures rows == [] ==> n == 1
    ensures forall i :: 0 <= i < |rows| ==> rows[i].id < n
  {
    var ids := Ids(rows);
    assert forall i :: 0 <= i < |rows| ==> ids[i] in ids;
    Largest(ids) + 1
  }

  /** Rows are kept in rowid order; the primary key makes the ids strictly increasing. */
  ghost predicate IdsIncreasing(rows: seq<Row>)
  {
    forall i, j :: 0 <= i < j < |rows| ==> rows[i].id < rows[j].id
  }

  /** The VALUES items of one batch: the i-th description gets priority first + i. */
  function Assigned(descriptions: seq<string>, first: int): (vs: seq<Value>)
    ensures |vs| == |descriptions|
    ensures forall i :: 0 <= i < |vs| ==> vs[i] == Value(descriptions[i], first + i)
  {
    if descriptions == [] then []
    else [Value(descriptions[0], first)] + Assigned(descriptions[1..], first + 1)
  }

  /** The rows that an INSERT of `values` adds: consecutive rowids from firstId, NULL finished_at. */
  function Inserted(firstId: int, values: seq<Value>): (added: seq<Row>)
    ensures |added| == |values|
    ensures forall i :: 0 <= i < |values| ==>
      added[i] == Row(firstId + i, Some(values[i].description), values[i].priority, None)
    decreases |values|
  {
    if values == [] then []
    else [Row(firstId, Some(values[0].description), values[0].priority, None)] + Inserted(firstId + 1, values[1..])
  }

  /** The rows one batch of descriptions adds to `rows`, priorities counted up from the old maximum. */
  function Enqueued(rows: seq<Row>, descriptions: seq<string>): (added: seq<Row>)
    ensures |added| == |descriptions|
    ensures forall i :: 0 <= i < |added| ==>
      added[i] == Row(NextId(rows) + i, Some(descriptions[i]), MaxPriority(rows) + 1 + i, None)
  {
    Inserted(NextId(rows), Assigned(descriptions, MaxPriority(rows) + 1))
  }

  /**
   * A batch is placed after the whole table, in input order: its priorities
   * are consecutive and strictly increasing, every one of them exceeds every
   * priority already in the table, and every new row has a fresh id.
   */
  lemma EnqueuedAfterTable(rows: seq<Row>, descriptions: seq<string>)
    ensures var added := Enqueued(rows, descriptions);
            (forall i, j :: 0 <= i <= j < |added| ==> added[j].priority == added[i].priority + (j - i))
            && (forall o, n :: 0 <= o < |rows| && 0 <= n < |added| ==> rows[o].priority < added[n].priority)
            && (forall o, n :: 0 <= o < |rows| && 0 <= n < |added| ==> rows[o].id < added[n].id)
  {
  }

  lemma EnqueuePreservesKey(rows: seq<Row>, descriptions: seq<string>)
    requires IdsIncreasing(rows)
    ensures IdsIncreasing(rows + Enqueued(rows, descriptions))
  {
  }

  /**
   * UPDATE jobs SET priority = p WHERE id = id: every row with that id gets
   * priority p, every other column and every other row is left as it was.
   */
  function Reprioritized(rows: seq<Row>, id: int, p: int): (r: seq<Row>)
    ensures |r| == |rows|
    ensures forall i :: 0 <= i < |rows| ==>
      r[i].id == rows[i].id && r[i].description == rows[i].description
      && r[i].finishedAt == rows[i].finishedAt
      && r[i].priority == (if rows[i].id == id then p else rows[i].priority)
  {
    if rows == [] then []
    else [if rows[0].id == id then rows[0].(priority := p) else rows[0]] + Reprioritized(rows[1..], id, p)
  }

  /** An UPDATE whose WHERE matches no row leaves the table as it was. */
  lemma ReprioritizeAbsent(rows: seq<Row>, id: int, p: int)
    requires forall i :: 0 <= i < |rows| ==> rows[i].id != id
    ensures Reprioritized(rows, id, p) == rows
  {
    var r := Reprioritized(rows, id, p);
    assert forall i :: 0 <= i < |rows| ==> r[i] == rows[i];
  }

  /** With a unique key, the UPDATE changes one field of exactly the matching row. */
  lemma ReprioritizeOne(rows: seq<Row>, k: nat, p: int)
    requires IdsIncreasing(rows) && k < |rows|
    ensures Reprioritized(rows, rows[k].id, p) == rows[k := rows[k].(priority := p)]
  {
    var r := Reprioritized(rows, rows[k].id, p);
    assert forall i :: 0 <= i < |rows| && i != k ==> rows[i].id != rows[k].id;
    assert forall i :: 0 <= i < |rows| ==> r[i] == rows[k := rows[k].(priority := p)][i];
  }

  lemma ReprioritizePreservesKey(rows: seq<Row>, id: int, p: int)
    requires IdsIncreasing(rows)
    ensures IdsIncreasing(Reprioritized(rows, id, p))
  {
  }

  /** SELECT ... WHERE id = id: the rows with that id, in scan order. */
  function Matching(rows: seq<Row>, id: int): (m: seq<Row>)
    ensures forall r :: r in m ==> r.id == id && r in rows
    ensures forall i :: 0 <= i < |rows| && rows[i].id == id ==> rows[i] in m
  {
    if rows == [] then []
    else if rows[0].id == id then [rows[0]] + Matching(rows[1..], id)
    else Matching(rows[1..], id)
  }

  /** With a unique key, a lookup finds the one row with that id. */
  lemma {:induction false} MatchingFound(rows: seq<Row>, k: nat)
    requires IdsIncreasing(rows) && k < |rows|
    ensures Matching(rows, rows[k].id) == [rows[k]]
  {
    if k == 0 {
      MatchingAbsent(rows[1..], rows[0].id);
    } else {
      MatchingFound(rows[1..], k - 1);
    }
  }

  /** Rows that do not carry the id add nothing to a lookup of it. */
  lemma {:induction false} MatchingSkip(front: seq<Row>, back: seq<Row>, id: int)
    requires forall i :: 0 <= i < |front| ==> front[i].id != id
    ensures Matching(front + back, id) == Matching(back, id)
  {
    if front == [] {
      assert front + back == back;
    } else {
      assert (front + back)[1..] == front[1..] + back;
      MatchingSkip(front[1..], back, id);
    }
  }

  /** After rows that all precede `id`, a run with a unique key holding `id` at k: the lookup finds that row. */
  lemma MatchingAfter(front: seq<Row>, back: seq<Row>, k: nat)
    requires k < |back| && IdsIncreasing(back)
    requires forall i :: 0 <= i < |front| ==> front[i].id < back[k].id
    ensures Matching(front + back, back[k].id) == [back[k]]
  {
    MatchingSkip(front, back, back[k].id);
    MatchingFound(back, k);
  }

  /** The same, for a row given by value. */
  lemma MatchingRow(rows: seq<Row>, k: nat, row: Row)
    requires IdsIncreasing(rows) && k < |rows| && rows[k] == row
    ensures Matching(rows, row.id) == [row]
  {
    MatchingFound(rows, k);
  }

  /** A lookup of an id no row carries finds nothing. */
  lemma MatchingAbsent(rows: seq<Row>, id: int)
    requires forall i :: 0 <= i < |rows| ==> rows[i].id != id
    ensures Matching(rows, id) == []
  {
  }

  /** With a unique key, a lookup by id answers at most one row. */
  lemma MatchingAtMostOne(rows: seq<Row>, id: int)
    requires IdsIncreasing(rows)
    ensures |Matching(rows, id)| <= 1
  {
    if k :| 0 <= k < |rows| && rows[k].id == id {
      MatchingFound(rows, k);
    } else {
      MatchingAbsent(rows, id);
    }
  }

  /** The position of the first row whose description is NULL, or |cursor| when there is none. */
  function FirstNull(cursor: seq<Row>): (k: nat)
    ensures k <= |cursor|
    ensures forall i :: 0 <= i < k ==> cursor[i].description.Some?
    ensures k < |cursor| ==> cursor[k].description.None?
  {
    if cursor == [] || cursor[0].description.None? then 0
    else 1 + FirstNull(cursor[1..])
  }

  /**
   * The order of ORDER BY priority ASC. The store leaves the order of equal
   * priorities open; the model breaks ties by rowid, ascending.
   */
  predicate ListedBefore(a: Row, b: Row)
  {
    a.priority < b.priority || (a.priority == b.priority && a.id <= b.id)
  }

  ghost predicate Listed(s: seq<Row>)
  {
    forall i, j :: 0 <= i < j < |s| ==> ListedBefore(s[i], s[j])
  }

  /** Places x before the first row it is listed before. */
  function InsertListed(x: Row, s: seq<Row>): (r: seq<Row>)
    ensures multiset(r) == multiset(s) + multiset{x}
  {
    if s == [] || ListedBefore(x, s[0]) then
      [x] + s
    else
      assert s == [s[0]] + s[1..];
      [s[0]] + InsertListed(x, s[1..])
  }

  /** Inserting into an ordered listing keeps it ordered. */
  lemma {:induction false} InsertListedOrdered(x: Row, s: seq<Row>)
    requires Listed(s)
    ensures Listed(InsertListed(x, s))
  {
    if s != [] && !ListedBefore(x, s[0]) {
      var t := InsertListed(x, s[1..]);
      InsertListedOrdered(x, s[1..]);
      forall j | 0 <= j < |t| ensures ListedBefore(s[0], t[j]) {
        assert t[j] in multiset(t);
        assert t[j] == x || t[j] in s[1..];
      }
    }
  }

  /** The rows in the order ORDER BY priority ASC returns them. */
  function ListedRows(rows: seq<Row>): (r: seq<Row>)
    ensures Listed(r)
    ensures multiset(r) == multiset(rows)
  {
    if rows == [] then []
    else
      assert rows == [rows[0]] + rows[1..];
      var rest := ListedRows(rows[1..]);
      InsertListedOrdered(rows[0], rest);
      InsertListed(rows[0], rest)
  }
}
