# PrioQueue job table, modelled in Dafny

PrioQueue keeps a queue of jobs in one SQLite table, `jobs`. Each row has an
`id`, a `description`, an integer `priority` (a lower value is processed
earlier) and an optional `finished_at`. The data-access functions in `db.go`
do four things. They read the current highest priority. They insert a batch of
descriptions with priorities counted up from that maximum. They overwrite one
job's priority by id. They read jobs back, either by id or as a listing in
ascending priority. `main.go` holds an older copy of three of these
functions.

The model keeps the table as a field of a class and gives each SQL statement
its relational meaning:

- `wrappers.dfy` (`Wrappers`): `Option` and `Result`.
- `jobs.dfy` (`Jobs`): `Job` (the Go struct), `Row` (a table row; `description`
  may be NULL), `Value` (one VALUES item), `Query` (what the INSERT builder
  returns) and `StoreError`. `Scan` turns a row into a job.
- `table.dfy` (`Table`): what each statement means as a function of the rows.
  The rows are kept in rowid order. This module covers the maximum priority,
  the next rowid, the rows a batch adds, the UPDATE, the WHERE filter, the
  ORDER BY order, and where a scan stops.
- `sql_text.dfy` (`SqlText`): the query text. It includes `strconv.Itoa`/`%d`
  with a parser that reads it back, the `("%s", %d)` item, the INSERT text
  and the three fragment builders.
- `job_store.dfy` (`JobStore`): `rowsToJobs`, and a class `Db` for the
  `*sql.DB` handle. `Db` holds the `rows` of `jobs` and an `outage` that makes
  every statement fail while it is set. Each of `getCurrPrio`,
  `createJobInsertQuery`, `createJobs`, `updateJobPriority`, `getJobById` and
  `getAllJobs` is a member of `Db`.
- `legacy.dfy` (`Legacy`): main.go's older `getAllJobs`, as written and
  corrected.
- `properties.dfy` (`Properties`): properties that span several statements.

In main.go, `getCurrPrio` (main.go:90-106) and `createJobInsertQuery`
(main.go:65-88) are the same as db.go:110-126 and db.go:55-78 line for line.
They are modelled by `JobStore.Db.CurrPrio` and
`JobStore.Db.CreateJobInsertQuery`. That includes the error path at
main.go:66-69: the error is passed on and the query is empty.

On these edges the code behaves as follows, and the model follows it:

- `createJobs` with no descriptions sends an INSERT with an empty VALUES list, which the store rejects as a syntax error. It is not a no-op.
- `createJobs` returns no jobs.
- `updateJobPriority` on a missing id succeeds silently. It returns the zero `Job`, not the updated one.
- `getJobById` reports a missing id as an empty result with no error.

## Model

| member | source | states |
|---|---|---|
| `Jobs.Scan` | db.go:167-170 | a row scans exactly when its description is not NULL; the job then carries the row's id, description, priority and finished_at; a NULL description fails with the NULL-to-string error |
| `Table.Largest` | db.go:111-118 | the largest element of a non-empty sequence (one of its elements, no smaller than any); 0 for the empty one |
| `Table.MaxPriority` | db.go:110-125 | `ORDER BY priority DESC LIMIT 1`: a priority some row has and no row exceeds; 0 on an empty table |
| `Table.NextId` | db.go:32 | the rowid the store assigns next exceeds every id in the table, and is 1 on an empty table |
| `Table.Assigned` | db.go:62-66 | one item per description, in input order, item i carrying description i and priority first + i |
| `Table.Enqueued` | db.go:80-88 | the rows a batch adds: one per description, in order; row i has id NextId+i, description i, priority max+1+i and a NULL finished_at |
| `Table.EnqueuedAfterTable` | db.go:60-66 | a batch's priorities are consecutive and strictly increasing; each exceeds every priority already in the table; each new id is fresh |
| `Table.EnqueuePreservesKey` | db.go:80-88 | appending a batch keeps the ids strictly increasing (the primary key holds) |
| `Table.Reprioritized` | db.go:92-100 | the UPDATE keeps length, ids, descriptions and finished_at of every row, and sets the priority of exactly the rows with the given id |
| `Table.ReprioritizeAbsent` | db.go:102-107 | an update of an id no row has leaves the table unchanged |
| `Table.ReprioritizeOne` | db.go:90-107 | with a unique key, the update changes one field of one row: the table equals the old one with that row's priority replaced |
| `Table.ReprioritizePreservesKey` | db.go:90-107 | the update keeps the ids strictly increasing |
| `Table.Matching` | db.go:177-178 | `WHERE id = n` answers only rows of the table with id n, and every such row |
| `Table.MatchingFound` | db.go:176-182 | with a unique key, looking up the id of row k answers exactly that row |
| `Table.MatchingAbsent` | db.go:176-182 | looking up an id no row has answers no row |
| `Table.MatchingAtMostOne` | db.go:183-187 | with a unique key, a lookup answers at most one row |
| `Table.FirstNull` | db.go:165-170 | the index of the first row that does not scan (or the length): every row before it scans, the row at it does not |
| `Table.InsertListed` | db.go:194 | inserting a row into a listing adds exactly that row and removes none |
| `Table.InsertListedOrdered` | db.go:194 | inserting a row into a listing ordered by (priority, id) keeps it ordered |
| `Table.ListedRows` | db.go:194 | `ORDER BY priority ASC` yields a permutation of the table ordered by priority (ties by id) |
| `SqlText.DecimalRoundTrip` | db.go:177 | every integer written by `strconv.Itoa` (and `%d`) reads back as the same integer |
| `SqlText.ItemRoundTrip` | db.go:65 | a `("%s", %d)` item reads back as its description and priority, when the description has no double quote |
| `SqlText.Text` | db.go:55-77 | the builder's string is empty exactly when it returned no INSERT |
| `SqlText.ValuesRoundTrip` | db.go:62-66 | the items joined by "," read back as exactly the values they were built from, in order, when no description has a double quote |
| `SqlText.InsertRoundTrip` | db.go:69-76 | the whole INSERT text reads back as exactly the values it was built from, when no description has a double quote |
| `SqlText.OrderByPriority` | db.go:150-162 | the ORDER BY clause's direction keyword is `ASC` exactly when `asc`, and is `ASC` or `DESC` |
| `SqlText.ByIdQueryNamesId` | db.go:128-143 | the lookup text is the projection plus `WHERE id = ` and a literal that reads back as exactly the id |
| `JobStore.RowsToJobs` | db.go:164-174 | scans rows in order and stops at the first row that fails; returns the jobs of the rows before it (all of them if none fails) and that row's error |
| `JobStore.ListingOrdered` | db.go:191-202 | every prefix of the listing is ordered by non-decreasing priority |
| `JobStore.ListingComplete` | db.go:191-202 | the listing scans in full exactly when no row has a NULL description, and then it is a permutation of the table's jobs |
| `JobStore.Db.constructor` | db.go:31-36 | a handle on a table whose primary key holds, with the given rows and outage |
| `JobStore.Db.CurrPrio` | db.go:110-125 | `getCurrPrio`: the largest priority in the table, 0 with no error when the table is empty, the store's error when it is down |
| `JobStore.Db.CreateJobInsertQuery` | db.go:55-78 | one VALUES item per description, in input order, item i with priority `getCurrPrio()+1+i`; on a failed read, an empty query and that error |
| `JobStore.Db.ExecInsert` | db.go:204-211 | `exec` of the INSERT: refused on an empty VALUES list or when the store is down, with the table unchanged; otherwise appends one row per item with fresh ids |
| `JobStore.Db.CreateJobs` | db.go:80-88 | returns no jobs; succeeds exactly when the store is up and the batch is non-empty; on success the old rows are unchanged and one row per description follows them, with its description and assigned priority; on failure the table is unchanged |
| `JobStore.Db.UpdateJobPriority` | db.go:90-108 | returns the zero job; when the store is up, there is no error and only the priority of the matching rows changes (none for a missing id); otherwise the table is unchanged |
| `JobStore.Db.GetJobById` | db.go:176-189 | at most one job, always with the requested id; more than one scanned job gives no job and the duplicate-id error, which cannot happen while the primary key holds; otherwise the scanned prefix and any scan error |
| `JobStore.Db.GetAllJobs` | db.go:191-202 | jobs ordered by non-decreasing priority; no error exactly when the store is up and every row scans, and then a permutation of the table; otherwise the jobs read so far and the error |
| `Legacy.ScanListing` | main.go:119-125 | the three-column scan loop: the jobs of the rows before the first one that fails, then that row's error |
| `Legacy.GetAllJobsAsWritten` | main.go:108-127 | the older listing as written: when the query fails, it dereferences the nil result set; otherwise the scanned listing |
| `Legacy.GetAllJobs` | main.go:108-127 | the older listing with the query error checked: sorted by priority; every finished_at is left unset; on success a permutation of the table read through id, description and priority |
| `Properties.LaterBatchAfter` | db.go:55-88 | every priority of a later batch exceeds every priority of an earlier one |
| `Properties.EnqueuedFound` | db.go:176-189 | after a batch, looking up a new id answers exactly the row with that description and assigned priority |
| `Properties.NeverIssuedNotFound` | db.go:176-182 | an id the store has not yet given out is not found (empty result, not an error) |
| `Properties.ScenarioCreated` | db.go:55-88 | on an empty table, the batch ["x","y"] gets ids 1, 2 and priorities 1, 2 |
| `Properties.ScenarioMoved` | db.go:90-107 | moving job 1 to priority 10 changes that row's priority and leaves job 2 as it was |
| `Properties.ScenarioListed` | db.go:194 | after the move the listing answers job 2 ("y") before job 1 ("x") |

`SqlText.SelectJobQuery`, `SqlText.WhereSelectJobQuery` and
`SqlText.ListingQuery` render db.go:128-143 and the queries at db.go:177 and
db.go:194 as text. Their properties are stated by `SqlText.ByIdQueryNamesId`
and `SqlText.OrderByPriority`.

## Left out

- routes.go (the gin handlers), and main.go's HTTP handlers, routing, server start-up and logging: transport glue with no queue logic.
- `createDb`, `createTables`, `initDb` and the driver side of `exec` (opening SQLite, DDL, prepared statements). `exec` is kept only as the effect of the statement on the table: `JobStore.Db.ExecInsert`, and the assignment in `JobStore.Db.UpdateJobPriority`.
- The race between `getCurrPrio` and the INSERT in `createJobs`: the model is sequential.
- I/O failure is an `outage` fixed for the handle's lifetime. A failure between two statements is not modelled. Neither is an iteration error that `rowsToJobs` would miss because it never calls `rows.Err()`.
- SQL text is not parsed back by a model of SQLite. Each statement is given its meaning directly, and the text builders are separate.
- `SqlText.ItemRoundTrip`: holds only for descriptions without a double quote. The description is spliced raw, so a `"` in it ends the string literal early, and the text is then not the intended item (an injection hazard).
- `SqlText.ValuesRoundTrip` and `SqlText.InsertRoundTrip`: hold only for descriptions without a double quote, for the same reason.
- `JobStore.Db.ExecInsert`: its contract gives the meaning of the INSERT the program intends, one row per value with the description as given. It matches the program only for descriptions without a `"`. With a quote, the text the program sends is not that INSERT: `a"b` makes it a syntax error, and `a", 1), ("b` adds two rows.
- `JobStore.Db.CreateJobs`: "succeeds exactly when the store is up and the batch is non-empty" and the new rows it states hold only for descriptions without a `"`, because it runs the same spliced INSERT as `JobStore.Db.ExecInsert`.
- Integer width: ids and priorities are unbounded. Go's 64-bit `int` and SQLite's 64-bit INTEGER would overflow at `currPrio+1+i` near 2^63. SQLite's random rowid choice after the largest rowid is also not modelled.
- The contents of `finished_at`: an opaque optional instant. main.go's zero `time.Time` is shown as an unset value.
- Scan failures other than a NULL description, such as a value of the wrong type stored in a column.
- The order of equal priorities: SQL leaves it open, and the model fixes it as ascending id.
- The difference between a nil slice and an empty one (db.go:193 is overwritten at db.go:200).

## Findings

| source | as written | input that shows it | evidently intended | confidence | as-written member | corrected member |
|---|---|---|---|---|---|---|
| main.go:118-119 | the error of `db.Query` is not checked, and `rows.Next()` is called on the nil result set a failed query returns | any failing query, e.g. a `Db` whose `outage` is set | return the empty list and the query error, as db.go:195-198 later does | high; not executed | `Legacy.GetAllJobsAsWritten` | `Legacy.GetAllJobs` |
