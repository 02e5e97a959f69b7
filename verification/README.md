# Rolling day partitions: a Dafny model of `src/partitioning.js`

The repository keeps a MySQL table `test` range-partitioned by
`TO_DAYS(created_at)`. It holds one partition per day for the last
`MAX_DATA_RETENTION` days, plus the two fixed partitions `start` (below 0)
and `future` (up to `MAXVALUE`). An hourly job calls `Table.removeExpired`,
which reconciles the table against the window of days it should hold. This
model covers the computation at the centre of that job:

- **the day clock** (`calendar.dfy`, `dates.dfy`). Dates are proleptic
  Gregorian and count days from 0000-01-01, as `Table.getMysqlDay` does. The
  module converts both ways and formats dates as `YYYYMMDD` (partition names)
  or `YYYY-MM-DD` (the argument of `TO_DAYS`), each with a reader.
- **the planner** (`planner.dfy`). This is `Table.getPartitionsThatShouldExist`:
  - it builds the window from lodash `_.range(retention - 2, -2, -1)`;
  - it applies the floor computed by `Math.min` over the current boundaries,
    including JavaScript's `NaN` and `Infinity` cases.
- **the differ** (`differ.dfy`). The two `_.differenceWith` calls match
  partitions by `description` (the boundary) only. `Run` models the effect
  of the statements on the partition list. MySQL accepts
  `REORGANIZE PARTITION future INTO (…)` only when the new bounds ascend
  above every bound the table holds (`Accepted`). When it refuses, the
  query stops at that first statement and the table is unchanged.
- **the DDL text** (`ddl.dfy`):
  - `reorganizeFuturePartition`, `dropOldPartitions`, `getPartitionStrings`
    and the `CREATE TABLE` statement;
  - for each writer, a reader that recovers the partitions, names or dates
    it wrote.
- **the reconciliation** (`reconcile.dfy`). This is `Table.repartition`: the
  plan and the combined statement. It also holds the properties of repeated
  runs: the daily roll, the create side settling, the drop side never
  settling, and sentinel safety. A table without gaps always has its
  statement accepted and keeps having no gaps. A table with a gap can have
  its statement refused.
- **the corrected floor** (`intended.dfy`). The planner with the floor that
  the rest of the code expects:
  - `removeExpired(dataRetention)` should remove only expired data;
  - the table should keep `dataRetention` daily partitions (seven after the
    end-to-end roll);
  - the job runs hourly, as the comment in `reorganizeFuturePartition` says.

  The reconciliation built on it is proved idempotent (see Findings).
- **the repository's tests as lemmas** (`scenarios.dfy`):
  - the day numbers the tests use;
  - the planner's unit test on 2017-04-16;
  - the initial lines on 2011-01-31;
  - the end-to-end roll from 2010-01-07 to 2010-01-08.

`seqs.dfy` and `text.dfy` hold the generic parts:
- lodash-style filtering with its subsequence and multiplicity facts;
- decimal text and `moment`'s zero fill;
- joining and splitting lines;
- searching for a character.

A planned partition is named for the day `d` whose rows it holds and bounded
by the day number of `d + 1`. The window for day `now` and retention `n`
covers the `n` days `now - n + 1` to `now`.

Facts about the code that the model keeps:

- The window has `n` entries, from `now - (n - 1)` to `now`.
- `reorganizeFuturePartition` writes the bound as the integer the planner
  computed. Only the initial lines of `CREATE TABLE` write `TO_DAYS('…')`.
- An empty current list makes `Math.min()` return `Infinity`. The planner
  then plans nothing, so the plan is empty.
- The floor admits an entry only if a current boundary lies strictly below
  the entry's own boundary. It compares the entry's day, not its boundary.
  As a result a same-day re-run is not idempotent: it always drops the
  oldest partition (Findings).
- An empty part of the statement is the empty string. No configuration or
  structural errors are raised. `start` and `future` are removed only when
  `getPartitions` reads the table.

## Model

| member | source | states |
|---|---|---|
| Calendar.MysqlDay | src/partitioning.js:105-107 | the day number of the date of day `d` is `d`: date and day number are converted without loss |
| Calendar.DayCountOfCivilOf | src/partitioning.js:105-107 | for every integer `n`, counting the days of the date of `n` gives back `n` |
| Calendar.CivilOfDayCount | src/partitioning.js:105-107 | for every valid date, the date of its day number is the date itself |
| Calendar.DayCountOrder | src/partitioning.js:105-107 | one date precedes another exactly when its day number is smaller, and two dates are equal exactly when their day numbers are |
| Calendar.DayCountOfNextDay | src/partitioning.js:92-93 | the calendar successor of a valid date is valid, later, and has day number one greater |
| Calendar.CivilOfSuccessor | src/partitioning.js:92-93 | the date of day `n + 1` is the calendar successor of the date of day `n` |
| Calendar.YearOfSpec | src/partitioning.js:105-107 | the year computed for day `n` is the one whose first day is at or before `n` and whose successor's first day is after it |
| Dates.YearText | src/partitioning.js:41-42 | the year as `moment` writes it, zero-filled to four digits with a minus sign before negative years, reads back as that year |
| Dates.ParseFormat | src/partitioning.js:41-42 | every valid date written as `YYYYMMDD` or `YYYY-MM-DD` reads back as that date |
| Dates.FormatInjective | src/partitioning.js:41-42 | two valid dates with the same text are the same date |
| Planner.Offsets | src/partitioning.js:89 | `_.range(retention - 2, -2, -1)` has `max(retention, 0)` offsets and the `i`-th is `retention - 2 - i` |
| Planner.OldestBoundary | src/partitioning.js:90 | `Math.min` over the boundaries is `Infinity` exactly for an empty list, otherwise a boundary of the list at or below all others |
| Planner.WindowShape | src/partitioning.js:89-101 | the window has `retention` entries, strictly ascending, entry `i` bounded by `now - retention + 2 + i` and named for the day before its bound, the last bounded by `now + 1` |
| Planner.WindowMember | src/partitioning.js:98-101 | every window entry is named for the day before its boundary |
| Planner.PlanWindowIsFilteredWindow | src/partitioning.js:90-102 | whatever `Math.min` yields, the planner is the window filtered by the floor, in window order |
| Planner.UnfilteredWindow | src/partitioning.js:90-96 | when the minimum is `NaN` (current entries without a numeric description) the planner returns the whole window |
| Planner.AdmittedAboveSome | src/partitioning.js:90-96 | the floor admits an entry exactly when some current boundary lies strictly below the entry's boundary |
| Planner.PartitionsThatShouldExist | src/partitioning.js:88-103 | an empty current list plans nothing; otherwise the plan holds exactly the window entries above some current boundary, as a subsequence of the window, strictly ascending |
| Planner.PartitionNameNotSentinel | src/partitioning.js:99 | a planned name is never `start` or `future` |
| Planner.PartitionNameInjective | src/partitioning.js:99 | two days with the same partition name are the same day |
| Planner.WindowNamesDistinct | src/partitioning.js:99 | no two window entries share a name |
| Text.ParseIntOfIntText | src/partitioning.js:112 | the decimal text written for an integer bound reads back as that integer |
| Text.SplitJoinLines | src/partitioning.js:113 | a non-empty list of lines joined with newlines splits back into the same lines when none holds a newline |
| Differ.DifferenceWithIsFilter | src/partitioning.js:78 | lodash `differenceWith` with the boundary comparator is the order-keeping filter "boundary absent from the other list" |
| Differ.DifferenceWithSpec | src/partitioning.js:78-79 | the difference is a subsequence of its first list, keeps every occurrence of each unmatched element and nothing matched |
| Differ.NamesIgnored | src/partitioning.js:78-79 | replacing the second list by any list with the same boundaries, whatever its names, leaves the difference unchanged |
| Differ.DifferenceBoundaries | src/partitioning.js:78-79 | the boundaries left are those of the first list minus those of the second |
| Differ.Diff | src/partitioning.js:78-79 | creations are the desired entries whose boundary the table lacks, drops the current entries whose boundary is not desired, each in source order, creations ascending when the desired list is |
| Differ.RunReachesDesired | src/partitioning.js:78-85 | once MySQL accepts the plan's statements, the table carries exactly the desired boundaries |
| Differ.RunKeepsAscending | src/partitioning.js:81-85 | whether MySQL accepts the statements or not, a table in bound order stays in bound order |
| Ddl.ReorganizeFuturePartition | src/partitioning.js:109-121 | the reorganize text is empty exactly when there is nothing to create |
| Ddl.ReorganizeLines | src/partitioning.js:111-120 | the reorganize statement is `ALTER TABLE`, `REORGANIZE PARTITION future INTO (`, one line per created partition, the `future` line and `);` |
| Ddl.ParsePartitionLineRoundTrip | src/partitioning.js:112 | a created partition's line reads back as that name and integer bound, whatever characters the name holds |
| Ddl.ParsePartitionLinesRoundTrip | src/partitioning.js:111-113 | the created lines read back as the created partitions, in order |
| Ddl.ReorganizeRoundTrip | src/partitioning.js:109-121 | the reorganize statement reads back as exactly the list of partitions to create, in order |
| Ddl.DropOldPartitions | src/partitioning.js:123-130 | the drop text is empty exactly when there is nothing to drop |
| Ddl.JoinDropNames | src/partitioning.js:126-129 | names joined with `,\n` and closed by `;` are the lines `name,` ending in `name;` |
| Ddl.DropStatementLines | src/partitioning.js:125-129 | the drop statement is `ALTER TABLE`, `DROP PARTITION`, then one line per name |
| Ddl.DropRoundTrip | src/partitioning.js:123-130 | the drop statement reads back as exactly the names of the partitions to drop, in order |
| Ddl.InitialLineRoundTrip | src/partitioning.js:43 | an initial line reads back as the partition's name and the date of its boundary day inside `TO_DAYS` |
| Ddl.InitialLinesMatchWindow | src/partitioning.js:38-46 | `getPartitionStrings` is one line per window day, each naming the entry and bounding it by a date whose day number is the entry's boundary |
| Ddl.CreateTableLines | src/partitioning.js:22-36 | the create statement is the table definition ending with `start`, one initial line per window day, then `future` |
| Reconcile.Repartition | src/partitioning.js:75-79 | creations are the window entries above some current boundary that the table lacks, ascending; drops are the current entries the plan does not match, in table order |
| Reconcile.Combine | src/partitioning.js:81-83 | the dedented statement is empty exactly when both parts are |
| Reconcile.Statement | src/partitioning.js:81-83 | the statement is empty exactly when the plan creates and drops nothing |
| Reconcile.StatementLines | src/partitioning.js:81-83 | with both parts present the statement is the reorganize lines followed by the drop lines: creation comes first |
| Reconcile.EmptyTablePlansNothing | src/partitioning.js:88-96 | against a table without daily partitions the plan and the statement are empty |
| Reconcile.OldestAlwaysDropped | src/partitioning.js:90-96 | every current partition at the oldest boundary is dropped |
| Reconcile.PlannedNotSentinel | src/partitioning.js:99 | no window entry is named `start` or `future` |
| Reconcile.SentinelsUntouched | src/partitioning.js:68 | when the current list holds no sentinel, neither side of the plan names one |
| Reconcile.CreateSideSettles | src/partitioning.js:75-103 | once MySQL has accepted the plan, a re-run on the same day creates nothing |
| Reconcile.DropSideNeverSettles | src/partitioning.js:88-103 | whether or not MySQL accepted the plan, a re-run on the same day drops something whenever the table still has a daily partition |
| Reconcile.SameDayRerunDropsOldest | src/partitioning.js:94 | on a table holding today's window, the run creates nothing and drops the oldest partition |
| Reconcile.RollPlansToday | src/partitioning.js:88-103 | against yesterday's window the planner keeps the whole of today's window |
| Reconcile.RollCreates | src/partitioning.js:78 | of today's window only the newest entry is missing from yesterday's |
| Reconcile.RollDrops | src/partitioning.js:79 | of yesterday's window only the oldest entry is missing from today's |
| Reconcile.DailyRoll | src/partitioning.js:75-103 | against yesterday's window the run creates today's partition and drops the oldest; MySQL accepts the statement, and it leaves exactly today's window |
| Reconcile.ConsecutiveAccepted | src/partitioning.js:75-103 | on a table whose bounds have no gap, every partition the run creates lies above every bound the table holds, so MySQL accepts the reorganize |
| Reconcile.PlannedInterval | src/partitioning.js:88-103 | on a table without gaps the planned bounds are exactly those from the later of the window's first bound and one above the oldest bound, up to `now + 1` |
| Reconcile.RunKeepsConsecutive | src/partitioning.js:75-85 | a table without gaps has none after the run, for any day and retention |
| Reconcile.WindowConsecutive | src/partitioning.js:38-46 | the window `create` writes has no gaps: each bound is one above the previous |
| Reconcile.RunsKeepConsecutive | src/partitioning.js:59-85 | any sequence of `removeExpired` calls, each with its own day and `dataRetention`, keeps a table without gaps free of gaps |
| Reconcile.CreatedTableStaysAccepted | src/partitioning.js:22-36 | on a table built by `create` with any `MAX_DATA_RETENTION`, after any sequence of calls with any days and `dataRetention` arguments, MySQL accepts the next call's statement, whatever its day and retention |
| Reconcile.GapRejected | src/partitioning.js:75-103 | with partitions at `now - 1` and `now + 1` and retention 3 the run plans a partition at `now` below a kept one, MySQL refuses the statement and the table stays as it was |
| Intended.KeptAtFloorSome | src/partitioning.js:94 | the corrected floor keeps an entry exactly when some current boundary lies at or below its boundary |
| Intended.IntendedPartitions | src/partitioning.js:88-103 | corrected planner: empty for an empty table, otherwise the window entries at or above the oldest boundary, in window order, ascending |
| Intended.IntendedRepartition | src/partitioning.js:75-79 | corrected plan: the same differ applied to the corrected planner |
| Intended.IntendedPlanStable | src/partitioning.js:88-103 | re-planning against the table an accepted corrected plan leaves gives the same planned list |
| Intended.IntendedSettles | src/partitioning.js:110 | with the corrected floor, a same-day re-run after MySQL has accepted the plan creates and drops nothing |
| Intended.IntendedConsecutiveAccepted | src/partitioning.js:88-103 | on a table without gaps MySQL accepts the corrected plan as well |
| Intended.IntendedRerunOnWindow | src/partitioning.js:110 | with the corrected floor a table holding today's window needs no change |
| Intended.IntendedDailyRoll | src/partitioning.js:88-103 | on the daily roll the corrected floor plans exactly what the code plans |
| Scenarios.DayCountVectors | src/partitioning.e2e.spec.js:12-18 | 2010-01-02 and 2010-01-08 have day numbers 734139 and 734145 |
| Scenarios.UnitTestDayCount | src/partitioning.spec.js:41 | 2017-04-13 has day number 736797 |
| Scenarios.UnitTestWindow | src/partitioning.spec.js:27-49 | on 2017-04-16 with retention 5 and a `NaN` minimum the planner returns `from20170412`…`from20170416` bounded by 736797…736801 |
| Scenarios.InitialStringsOn20110131 | src/partitioning.spec.js:8-25 | on 2011-01-31 with retention 7 the initial lines are `from20110125`…`from20110131` bounded by `TO_DAYS('2011-01-26')`…`TO_DAYS('2011-02-01')` |
| Scenarios.FirstInitialLineText | src/partitioning.spec.js:10-12 | the first initial line on 2011-01-31 is, character for character, the line the test expects |
| Scenarios.RollBefore | src/partitioning.e2e.spec.js:10-20 | the window created on 2010-01-07 with retention 7 is `from20100101`…`from20100107` bounded by 734139…734145 |
| Scenarios.RollAfter | src/partitioning.e2e.spec.js:22-32 | the window for 2010-01-08 is `from20100102`…`from20100108` bounded by 734140…734146 |
| Scenarios.RollRepartition | src/partitioning.e2e.spec.js:40-67 | `removeExpired(7)` on 2010-01-08 creates `from20100108` at 734146, drops `from20100101`, and leaves the 2010-01-08 window |
| Scenarios.RollStatement | src/partitioning.js:109-130 | the roll's statements read back as the one partition created with bound 734146 and the one name dropped |
| Scenarios.RerunOn20100108 | src/partitioning.js:88-103 | re-run on 2010-01-08 against that window, the code drops `from20100102` and creates nothing |
| Scenarios.IntendedRerunOn20100108 | src/partitioning.js:110 | with the corrected floor the same re-run plans nothing |

## Left out

- Database I/O is not modelled: `knex`, `knex.raw`, `Table.query`, `Table.drop`, `Table.clear` and the `information_schema` query. The current partition list is an input, and statements are returned as text.
- `Table.getPartitions` is not modelled: its `parseInt` of descriptions and its `'MAX_VALUE'` case. The current list is given as name and integer boundary pairs without `start` and `future`. The planner's unit test passes bare strings, and the `NaN` minimum of the planner models that case.
- `moment()` is not modelled: the clock, time zones and time of day. Every operation takes the current day as a day number `now`. This assumes that every clock read in one run falls on the same day. The code reads `moment()` afresh for each entry (src/partitioning.js:41-42 and 92-93). A run that straddles midnight could therefore name an entry and bound it with different days, and skip one bound of the window. That case is not modelled.
- Calendar.MysqlDay: takes a day number rather than a `moment`. For days on or after 0000-01-01 the time of day never reaches the result, and every `moment()` the code builds is such a day. Before that date `moment#diff(…, 'days')` truncates toward zero, so a non-zero time of day would give `d + 1`. That case is not modelled.
- `dedent`'s indentation handling is not modelled. Statements are their lines joined by `\n`, with no leading whitespace. `Combine` keeps the one effect that matters, the trim that removes the line of an empty part.
- The `consts` module is not part of this model. `MAX_DATA_RETENTION` is the `retention` parameter of `GetPartitionStrings` and `CreateTable`. The `retention` of `Repartition` is the separate `dataRetention` argument of `removeExpired`, and each call may pass its own (`Reconcile.RunCall`). `PARTITION_NAME_DATE_FORMAT` is the `Pattern` parameter; the tests fix it to `YYYYMMDD`.
- The database name read from the environment, and the table name, are not modelled; the table name is the constant `test`.
- The end-to-end test's row inserts and the final row check are not modelled. They exercise MySQL's routing of rows into day partitions, and its discarding of a dropped partition's rows. Both follow from the partition list that `Run` models.
- Ddl.ReorganizeRoundTrip: requires names without a newline. The reader splits on lines, and every name the planner produces satisfies this (`Ddl.PartitionNameNoNewline`).
- Ddl.DropRoundTrip: requires names without a newline, for the same reason.
- Reconcile.CreateSideSettles: states only that the create side settles, and only once MySQL has accepted the statement. The drop side does not settle in the code as written (Findings). A refused statement leaves the table unchanged, so the same refused plan comes back (`Reconcile.GapRejected`). That cannot happen on a table built by `create` (`Reconcile.CreatedTableStaysAccepted`).
- Intended.IntendedPlanStable, Intended.IntendedSettles: hold once MySQL has accepted the corrected statement, which it does on every table without gaps (`Intended.IntendedConsecutiveAccepted`).
- Differ.Accepted: models only MySQL's range check on the new partitions. Other MySQL errors, such as a lock or a permission error, are not modelled. Neither is a created bound at or below `start`'s bound of 0. Every daily partition of a real table lies above `start`.

## Findings

| source | as written | input that shows it | evidently intended | confidence | as-written member | corrected member |
|---|---|---|---|---|---|---|
| src/partitioning.js:94 | The floor skips a window entry when `getMysqlDay(today)` is below the oldest current boundary. That value is the day the entry holds, one less than its boundary. The entry whose boundary equals the oldest boundary is therefore never planned, so it is dropped. | A table holding the 2010-01-08 window (`from20100102`…`from20100108`, bounds 734140…734146), reconciled again on 2010-01-08 with retention 7. The plan creates nothing and drops `from20100102`. Each further same-day run drops the next oldest partition (`Reconcile.DropSideNeverSettles`). Once none is left, nothing is ever planned again (`Reconcile.EmptyTablePlansNothing`). | Compare the boundary, `getMysqlDay(tomorrow)`, with the oldest boundary. Re-runs within the day are then no-ops. The comment at line 110 says the job runs hourly. `removeExpired(dataRetention)` (line 59) should remove only expired data. The table should keep `dataRetention` daily partitions, and the end-to-end test expects seven after its roll (src/partitioning.e2e.spec.js:22-32). Under the code as written, a second run on the same day drops a partition that has not expired. The daily roll the end-to-end test checks is unchanged (`Intended.IntendedDailyRoll`). | high; not executed | Reconcile.SameDayRerunDropsOldest | Intended.IntendedSettles |

The corrected floor is built on the same window, differ and DDL text as the
rest of the model. The reconciliation itself keeps the code as written,
because that is what the tests pin down and the corrected floor agrees with
it on every roll the tests perform.
