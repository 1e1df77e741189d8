# Utilization warehouse: loader, filter endpoint and dashboard sort

This project models the core of a small telemetry warehouse.

- The loader (`etl.py`) cleans a frame of utilization readings. It then
  recreates a SQLite star schema: three dimension tables (`dim_system`,
  `dim_department`, `dim_date`) and one fact table (`fact_utilization`).
  It fills the dimensions with get-or-create calls (INSERT OR IGNORE, then
  SELECT by natural key), assembles one fact row per cleaned reading, and
  inserts the batch with INSERT OR IGNORE.
- The filter endpoint (`server.py`, `filter_data`) turns optional request
  arguments into a SQL text and a parameter list. The sort column and order
  come from a whitelist, the system and department filters are optional
  equality clauses bound to `?` placeholders, and every statement ends with
  a secondary sort on the reading time. `query_db` turns any database error
  into an empty list.
- The dashboard (`dashboard/script.js`) keeps the current sort column and
  order in two page-level variables. A click on one of the five table
  headers flips or resets them, and each reload builds the request URL for
  the filter endpoint.

Files:

- `common.dfy` (module `Common`): `Option` and the string helpers the
  sources use. These are Python's `str.strip`, ASCII `str.lower`, the
  substring test, `unique()`/`drop_duplicates()` and a character count.
- `schema.dfy` (module `Schema`): the four tables as values, each with its
  AUTOINCREMENT counter. The SQL statements are pure functions over them.
  `dim_date` keeps its two independent UNIQUE constraints.
- `loader.dfy` (module `Loader`): cleaning, the utilization-column search,
  and the class `Warehouse`. The class's fields are the four tables and
  its methods are the get-or-create functions, the dimension loops, the
  fact pass, the batch insert and the whole load.
- `query.dfy` (module `Query`): the filter endpoint's statement builder.
  It is a method that builds the text by `+=` and the parameters by
  `append`, proved against a plan function. The module also holds the
  meaning of the statement over an in-memory join, and `query_db`.
- `dashboard.dfy` (module `Dashboard`): the class `SortControl`, the click
  transition, the header mapping and the request URL. It also holds a
  simplified reading of the query string on the server side, which proves
  that the server gets back the sort and the selections the page sent.

The `dim_date` schema makes `usage_date` and `usage_time` unique
independently of each other, and the loader looks a date up by its date
alone. The model keeps this behaviour as written. In the source, a failed
lookup is the `TypeError` raised by `fetchone()[0]`.

- `Schema.SameTimeOnTwoDaysAborts` and `Loader.LoadAbortsOnRepeatedTime`
  cover a file whose only two readings fall on different days at the same
  time of day. Loaded into an empty `dim_date`, they make the date loop fail.
- `Loader.LoadSucceedsWhenTimesAreUnique` gives a sufficient condition for
  getting through: no time of day occurs on two different dates.
- When a time does repeat across days, the outcome depends on the order in
  which the dates first appear in the file.
  `Schema.DateOutcomeDependsOnOrder` and
  `Loader.LoadOutcomeDependsOnRowOrder` exhibit three readings that load
  in one order and abort in another. In the failing order, the first day's
  first reading takes the time that the other day needs.

Three further behaviours of the code are kept as written:

- The endpoint always appends `, f.usage_time DESC`, whatever the primary
  column (`Query.OrderBy`, `Query.QueryText`).
- A new date whose time is already taken makes the lookup return nothing,
  and the loader stops there (`Loader.Warehouse.GetOrCreateDate`). Readings
  are never silently merged into another day's row.
- A system or department whose name is the text `null` is sent by the page
  and read back by the server, but the endpoint does not filter on it
  (`Dashboard.ServerHonoursDashboardSort`).

## Model

| member | source | states |
|---|---|---|
| Common.Strip | etl.py:15 | the stripped header is the slice of the header after its leading whitespace and before its trailing whitespace; it neither starts nor ends with whitespace, and it is empty exactly when the header is all whitespace |
| Common.Distinct | etl.py:114-120 | `unique()` never yields more values than the column has, and every value it yields occurs in the column |
| Common.DistinctFirstAppearance | etl.py:114-120 | `unique()` and `drop_duplicates()` yield values in order of first appearance: a value listed earlier first occurs in the column before any occurrence of a value listed later |
| Common.AppendKeepsEnds | server.py:109 | a string stays a prefix of what is appended to it, and a suffix stays a suffix of anything it is appended to |
| Common.Lower | etl.py:139 | lower-casing keeps the length and maps each character through the ASCII lower-case mapping |
| Common.DistinctIsSetOfValues | etl.py:114-123 | `unique()`/`drop_duplicates()` keep every value that occurs, no other value, and each value once |
| Common.CountCharAppend | server.py:99-109 | the number of `?` in a concatenation is the sum of the counts of its parts |
| Schema.DimInsertOrIgnore | etl.py:49-57 | INSERT OR IGNORE on a dimension: the names afterwards are the old names plus the new one; old ids never change; a present name leaves the table unchanged; a new name gets the AUTOINCREMENT counter's value and the counter advances |
| Schema.DimSelect | etl.py:92 | SELECT by name finds a row exactly when the name is present, and returns that row's id |
| Schema.DimInsertKeepsValid | etl.py:50-51 | insert-or-ignore keeps ids positive, below the counter and pairwise distinct; a newly inserted name's id is used by no existing row |
| Schema.DimGetOrCreate | etl.py:89-99 | get-or-create always finds the name; for a present name it returns the old id and leaves the table unchanged; for a new name it returns a fresh id and adds exactly one row |
| Schema.DimInsertAll | etl.py:114-118 | the dimension loop never drops a name and never moves the AUTOINCREMENT counter back |
| Schema.DimInsertAllValid | etl.py:114-118 | the dimension loop keeps the table well formed and keeps every name's id |
| Schema.DimInsertAllKeys | etl.py:114-118 | after the loop the table's names are the old names plus the loop's names |
| Schema.DimInsertAllContents | etl.py:114-118 | after the dimension loop the table's names are the old names plus the loop's names; old ids are kept and the table stays well formed |
| Schema.DateInsertOrIgnore | etl.py:59-67 | INSERT OR IGNORE into dim_date skips the row when EITHER its date or its time is already present; otherwise it appends the row with the counter's key |
| Schema.DateSelect | etl.py:107-108 | SELECT by date alone finds a row exactly when some row has that date, and returns that row's key |
| Schema.DateInsertKeepsValid | etl.py:60-62 | insert-or-ignore keeps both independent UNIQUE constraints and the key discipline |
| Schema.DateSelectUnique | etl.py:61 | in a valid table the row with a given date is the only one, so the lookup returns its key |
| Schema.DateSelectInjective | etl.py:107-108 | in a valid table two present dates select the same key exactly when they are the same date |
| Schema.DateGetOrCreate | etl.py:101-108 | the lookup fails exactly when the date is new and its time is already taken; a new date and a new time get the counter's key; a known date leaves the table unchanged and returns the key it already had |
| Schema.DateInsertAll | etl.py:120-123 | the date loop never drops a row and adds at most one row per tuple; an empty loop succeeds and changes nothing |
| Schema.DateInsertAllContents | etl.py:120-123 | the date loop keeps the table valid and never drops a row; when it gets through, every date of the loop has a row |
| Schema.DateInsertAllSucceeds | etl.py:120-123 | the date loop gets through whenever no time of day occurs on two different dates |
| Schema.SameTimeOnTwoDaysAborts | etl.py:61-62 | loading into an empty dim_date exactly two readings, on different days at the same time of day, makes the second lookup fail |
| Schema.DateOutcomeDependsOnOrder | etl.py:120-123 | whether the date loop gets through depends on order: with two tuples on one day at different times and a third on another day at the first one's time, the loop from an empty dim_date gets through when the later time comes first and aborts when the shared time comes first |
| Schema.SameDayDifferentTimeSharesKey | etl.py:61-62 | a second reading on the same day at another time is ignored, and its lookup returns the first reading's key, whose row holds the first reading's time |
| Schema.FactInsertOrIgnore | etl.py:78 | INSERT OR IGNORE into the fact table is ignored when the composite key is present; otherwise it appends the row with the next id |
| Schema.FactInsertKeepsValid | etl.py:70-78 | one insert keeps fact ids distinct and below the counter, and keeps the composite key unique |
| Schema.FactInsertAll | etl.py:145-148 | the batch insert only appends, and it adds at most one row per batch row |
| Schema.FactInsertAllContents | etl.py:145-148 | the batch insert keeps the table valid and only appends; it grows by at most the batch size; every appended row comes from the batch; a key is present afterwards exactly when it was present before or is the key of a batch row |
| Schema.SameKeyKeepsFirstReading | etl.py:78 | the fact key is the four UNIQUE columns: a second row that agrees with the first on date key, department, system and time is ignored, whatever its utilization and date text, so the first reading's row is kept |
| Schema.FactHasKeyAfterInsert | etl.py:78 | after one insert, a key is present exactly when it was present before or is the inserted row's key |
| Schema.FactInsertAllPresent | etl.py:145-148 | a batch whose every key is already present changes nothing |
| Schema.FactInsertAllDistinct | etl.py:145-148 | a batch with pairwise distinct keys, none already present, is stored in full |
| Schema.ReinsertIsNoOp | etl.py:78 | inserting the same batch a second time leaves the table unchanged |
| Schema.FactCountBound | etl.py:78 | loading a batch into an empty fact table stores at most one row per batch row, no two rows with the same composite key, and exactly the batch's distinct keys |
| Loader.StripHeaders | etl.py:15 | every header is replaced by its stripped form, in order |
| Loader.KeepParsed | etl.py:20-21 | dropping the rows whose timestamp did not parse never adds a row |
| Loader.Clean | etl.py:15-28 | the cleaned frame's headers are the stripped input headers, in order, followed by the six derived calendar columns; it has no more rows than the input |
| Loader.KeepParsedAppend | etl.py:21 | the timestamp filter distributes over concatenation, so kept rows keep their relative order |
| Loader.KeepParsedExactly | etl.py:20-21 | a row is kept exactly when some input row's timestamp parsed and the kept row is that input row; if every timestamp parsed nothing is dropped, and if none parsed nothing is kept |
| Loader.FirstUtilColumn | etl.py:137-141 | the chosen index is a column whose lower-cased name contains "util" and no earlier column matches; None means no column matches |
| Loader.FindUtilColumn | etl.py:137-141 | the search loop that breaks on the first match returns exactly the specified first matching column |
| Loader.IsUtilColumn | etl.py:139 | a column matches only when its name has at least four characters, and every name containing "util" or "UTIL" matches |
| Loader.NoLetterLIsNotUtil | etl.py:139 | a column name without the letter L never matches "util" |
| Loader.DerivedColumnsNotUtil | etl.py:23-28 | none of the six derived calendar column names matches "util" |
| Loader.DerivedColumnsNeverChosen | etl.py:23-28 | appending the derived columns does not change which column is chosen |
| Loader.UtilValue | etl.py:137-141 | a utilization value is the cell of a column whose lower-cased name contains "util" with no earlier such column; with no such column it is None; when the first matching column has a cell in the row, that cell is the value |
| Loader.FactRowFor | etl.py:133-143 | a fact row carries the row's system id, department id and date-lookup key, its utilization cell, and its date and time |
| Loader.FactRowsUpTo | etl.py:129-143 | the first n rows of the batch are the fact rows of the first n cleaned rows, in order |
| Loader.FactRowsFor | etl.py:129-143 | the assembled batch has one fact row per cleaned row, in row order, each the fact row of its cleaned row |
| Loader.FactRowsReference | etl.py:79-81 | every assembled fact row's date, department and system keys name existing dimension rows |
| Loader.FactKeyIffSameReading | etl.py:133-143 | two cleaned rows get the same composite fact key exactly when they agree on date, department, system and time |
| Loader.FactCountEqualsRows | etl.py:129-148 | when the cleaned readings are pairwise distinct in (date, department, system, time), the fact table gets one row per cleaned row |
| Loader.Warehouse.constructor | etl.py:40-83 | the schema script yields four empty, well-formed tables |
| Loader.Warehouse.Recreate | etl.py:44-82 | DROP and CREATE discard all rows and restart every AUTOINCREMENT counter |
| Loader.Warehouse.GetOrCreateSystem | etl.py:89-93 | dim_system becomes insert-or-ignore of the name and nothing else changes; the returned id is the name's id; a present name keeps its table and id; a new name gets an id no existing row uses |
| Loader.Warehouse.GetOrCreateDepartment | etl.py:95-99 | the same contract as the system lookup, for dim_department |
| Loader.Warehouse.GetOrCreateDate | etl.py:101-108 | dim_date becomes insert-or-ignore of the tuple and nothing else changes; the result is the date-only lookup, which is None exactly when the date is new and its time already taken; a known date changes nothing |
| Loader.Warehouse.InsertSystems | etl.py:114-115 | the system loop leaves dim_system equal to the fold of insert-or-ignore over the names, in order, and changes no other table |
| Loader.Warehouse.InsertDepartments | etl.py:117-118 | the department loop leaves dim_department equal to the fold of insert-or-ignore over the names, in order, and changes no other table |
| Loader.Warehouse.InsertDates | etl.py:120-123 | the date loop leaves dim_date equal to the fold of insert-or-ignore over the tuples up to the first failed lookup, and reports that failure; no other table changes |
| Loader.Warehouse.BuildDimensions | etl.py:114-123 | the three loops leave each dimension equal to the fold of insert-or-ignore over the distinct values in order of first appearance; the date loop stops at the first failed lookup; facts are untouched |
| Loader.Warehouse.RebuildDimensions | etl.py:44-123 | after the schema script and the three loops, each dimension is the fold of insert-or-ignore over the distinct values starting from an empty table, and the fact table is empty |
| Loader.Warehouse.AssembleFacts | etl.py:129-143 | the fact pass leaves all tables unchanged and returns exactly one fact row per cleaned row, each referencing existing dimension rows |
| Loader.Warehouse.AssembleFact | etl.py:133-143 | one iteration returns the fact row built from the row's dimension keys, its chosen utilization cell, date and time, and changes no table |
| Loader.Warehouse.InsertFacts | etl.py:145-148 | the fact table becomes the batch insert-or-ignore of the batch; the dimensions are unchanged; every foreign key stays valid |
| Loader.Warehouse.FactPass | etl.py:129-148 | the fact pass and the batch insert leave the dimensions unchanged, assemble one fact row per cleaned row, and make the fact table the batch insert of that batch |
| Loader.Warehouse.Load | etl.py:15-148 | the cleaned frame is the cleaning of the input; dim_system and dim_department are the folds of insert-or-ignore over the distinct systems and departments, starting empty, and hold exactly the cleaned rows' values; dim_date and the success flag are the date fold over the distinct tuples; on failure no facts are stored; on success every row is covered, the batch is one fact row per cleaned row, the fact table is the batch insert, and it holds at most one row per cleaned row |
| Loader.DateLoopCovers | etl.py:120-123 | when the date loop gets through, every cleaned row's date has a dim_date row |
| Loader.DimensionLoopsCover | etl.py:114-135 | when the date loop gets through, the fact pass finds every system, department and date |
| Loader.DimValuesGrow | etl.py:90 | insert-or-ignore never drops an existing id |
| Loader.SystemsOfValues | etl.py:114 | the distinct system values are exactly the systems of the cleaned rows |
| Loader.DepartmentsOfValues | etl.py:117 | the distinct department values are exactly the departments of the cleaned rows |
| Loader.DimensionsHoldEveryRow | etl.py:114-118 | after the dimension loops on a fresh warehouse, dim_system and dim_department hold exactly the distinct values of the cleaned rows |
| Loader.LoadSucceedsWhenTimesAreUnique | etl.py:120-123 | a sufficient condition: the load gets through the date loop whenever no time of day occurs on two different dates |
| Loader.LoadAbortsOnRepeatedTime | etl.py:101-123 | a file whose only two readings fall on different days at the same time of day makes the load abort |
| Loader.LoadOutcomeDependsOnRowOrder | etl.py:120-123 | the same three readings load in one row order and abort in another, because the date loop runs over the distinct tuples in order of first appearance |
| Query.ArgOr | server.py:67-71 | an absent argument gives the default, a present one its value |
| Query.SortColumn | server.py:73-82 | the sort column is always a whitelisted physical column: the whitelist's column for a known name, and "f.usage_date" for any other name or an absent argument |
| Query.SortOrder | server.py:80-83 | the order is always "ASC" or "DESC"; it equals the argument exactly when the argument is "ASC" or "DESC" (case-sensitive); otherwise it is "DESC" |
| Query.IsActive | server.py:101-107 | a filter takes effect exactly when the argument, read with an empty default, is neither empty nor "null" |
| Query.Clauses | server.py:101-107 | the system clause is present exactly when the system value is present, non-empty and not "null", and likewise for the department; no clause is repeated; the system clause comes first |
| Query.Params | server.py:99-107 | one parameter per clause, each the value its clause compares against, in clause order |
| Query.PlanOf | server.py:67-109 | a plan has as many parameters as clauses, and a whitelisted column and order |
| Query.Filtered | server.py:85-107 | the statement text before ORDER BY starts with the fixed SELECT text and grows by at least one character per clause |
| Query.FilteredSnoc | server.py:101-107 | appending a clause to the statement text appends its text |
| Query.OrderBy | server.py:109 | the ORDER BY fragment names the chosen column right after ` ORDER BY `, then one space and the chosen order, and always ends with `, f.usage_time DESC`, whatever that column is |
| Query.QueryText | server.py:85-109 | every statement starts with the fixed SELECT text and ends with `, f.usage_time DESC` |
| Query.FilterData | server.py:64-109 | the statement built step by step is the plan's text (SELECT text, active clauses in order, ORDER BY of the whitelisted column and order, then `f.usage_time DESC`), and the parameters are the plan's |
| Query.DefaultsSortByDateDescending | server.py:70-83 | with no arguments the plan has no filters and sorts on f.usage_date DESC |
| Query.InactiveValuesAreInterchangeable | server.py:101-107 | absent, empty and "null" filter values give the same plan |
| Query.ClausePlaceholder | server.py:101-107 | each filter clause carries exactly one placeholder |
| Query.FilteredPlaceholders | server.py:99-107 | each appended clause adds exactly one placeholder |
| Query.OrderByHasNoPlaceholder | server.py:109 | the ORDER BY fragment carries no placeholder |
| Query.PlaceholdersMatchParams | server.py:99-109 | the placeholders of the statement are those of the SELECT text plus exactly one per parameter |
| Query.QueryTextIsWhitelisted | server.py:82-109 | whatever the arguments, the statement is one of the fixed texts built from the clause choices and the whitelisted columns and orders, so no request text reaches it |
| Query.TextIgnoresFilterValues | server.py:101-109 | requests that activate the same filters and resolve to the same sort get the same text, whatever filter values they carry |
| Query.Joined | server.py:93-95 | every joined row carries a system name and a department name that exist in their dimension tables |
| Query.MatchesFilters | server.py:101-107 | a row matches exactly when every active clause holds for it; with no active filter every row matches |
| Query.Selected | server.py:96-107 | the statement's WHERE keeps a subset of the joined rows, and all of them when no filter is active |
| Query.JoinKeepsEveryFact | server.py:93-95 | when every fact's keys exist, the join has a row for every fact |
| Query.JoinedOrigin | server.py:93-95 | every joined row comes from one fact and the dimension names whose keys it carries |
| Query.JoinHasOneRowPerFact | server.py:93-95 | with well-formed dimensions and distinct fact ids, the join never gives two rows for one fact |
| Query.FilterSemantics | server.py:96-107 | the statement selects exactly the joined rows that satisfy the active equality filters |
| Query.QueryDb | server.py:22-33 | execution that raises gives the empty list; otherwise the fetched rows |
| Query.ErrorLooksLikeNoMatch | server.py:31-33 | a failed statement is indistinguishable from one that matched nothing |
| Query.EndpointRows | server.py:64-111 | every row the endpoint returns is a joined row matching the active filters, and unless the database raised, every such row is returned |
| Dashboard.Click | dashboard/script.js:90-96 | after a click the column is the clicked one and the order is "ASC" or "DESC"; another column starts "DESC"; the current column flips its order |
| Dashboard.ClickTwice | dashboard/script.js:91-95 | two clicks on the current column restore the state; two clicks on another column leave it ascending |
| Dashboard.HeaderColumn | dashboard/script.js:100-109 | a header has a column exactly when its index is 0 to 4, and that column is one the server whitelists |
| Dashboard.HeadersCoverSortableColumns | dashboard/script.js:100-113 | the five headers name exactly the server's five sortable columns, one each |
| Dashboard.AfterClicks | dashboard/script.js:90-113 | when the last click is on a header with a handler, the current column is that header's column; with no such click at all the page keeps its initial state |
| Dashboard.LastHandledClickSetsColumn | dashboard/script.js:90-113 | after any sequence of header clicks, the current column is that of the last clicked header that has a handler, whatever unhandled clicks follow it |
| Dashboard.ClicksStayWhitelisted | dashboard/script.js:11-113 | after any sequence of header clicks the column is whitelisted and the order is "ASC" or "DESC" |
| Dashboard.Endpoint | dashboard/script.js:38-46 | the request URL starts with the API base, the filter path and the sort arguments, and is exactly that when nothing is selected |
| Dashboard.QueryString | dashboard/script.js:43-46 | the query string starts with the sort arguments, is exactly them when nothing is selected, and ends with `department=` and the department when one is selected |
| Dashboard.SortControl.constructor | dashboard/script.js:11-12 | the page starts sorted on usage_date, DESC |
| Dashboard.SortControl.LoadDataEndpoint | dashboard/script.js:38-46 | the URL built by successive appends is the endpoint of the current state and selections |
| Dashboard.SortControl.HandleSortClick | dashboard/script.js:90-98 | the new state is the click transition of the old one, and the reload's URL carries the new state |
| Dashboard.SplitJoin | server.py:67-71 | splitting the query string on `&` loses nothing |
| Dashboard.LookupIsFirstMatch | server.py:67-71 | an argument read gives the value of the first pair with that key |
| Dashboard.Lookup | server.py:67-71 | an argument read gives the value of some non-empty pair with that key, and None exactly when no non-empty pair has that key |
| Dashboard.ParseArgs | server.py:67-71 | an empty query string carries no argument, and no value read back holds the pair separator `&` |
| Dashboard.ServerReadsDashboardRequest | dashboard/script.js:38-46 | the server reads back the page's sort column and order, and a system or department exactly when one is selected |
| Dashboard.WhitelistIsPlain | server.py:73-80 | the sortable names and both orders travel through a query string unchanged |
| Dashboard.ServerHonoursDashboardSort | dashboard/script.js:90-113 | after any clicks the server sorts on the whitelisted column the page shows, in the order it shows, reads back exactly the selections sent, and filters on a selection exactly when it is neither empty nor the text "null" |

## Left out

- Reading and writing the CSV, and `pd.to_datetime` parsing: a row arrives with its timestamp already parsed (or not), with the date, time and calendar fields already derived.
- The `float` conversion of the utilization cell and the REAL column: the utilization is the text of the chosen cell. A cell that does not convert, which would stop the source, is not modelled.
- Missing (NaN) system or department values: pandas treats them specially in `unique()`, and the model has only strings.
- The SQLite engine: connections, commits, PRAGMA execution, the COUNT summaries and the progress messages. The tables are values, and foreign keys are an invariant of `Loader.Warehouse.Valid`.
- The order of result rows: it depends on SQLite collation, NULL and REAL comparison. The ORDER BY fragment is modelled as text, and `Query.EndpointRows` compares the returned rows as a set.
- Flask routing, CORS, `jsonify`, the `/`, `/systems` and `/departments` endpoints, and `app.run`.
- DOM updates, `fetch`, the table and Chart.js rendering, and `loadFilters`: the page's selections are parameters.
- Common.Lower: lowers ASCII letters only; Python lowers every Unicode letter. This is enough to decide the "util" test for ASCII headers.
- Dashboard.ParseArgs: a simplified reading of a query string, with no percent or `+` decoding and no `#` fragment handling. Because of this, `Dashboard.ServerReadsDashboardRequest` requires values without `&`, `%`, `+` or `#`. Selections holding such characters (which the page does not encode) are not covered.
- Query.PlaceholdersMatchParams: counts the placeholders appended to the fixed SELECT text. That the SELECT text itself holds none is not proved.
- Schema.DimInsertOrIgnore, Schema.DateInsertOrIgnore, Schema.FactInsertOrIgnore: the AUTOINCREMENT counter advances only when a row is stored. SQLite may also use up a value on an ignored insert, so exact id values (and any gaps between them) are not modelled. The properties proved only compare ids with each other.
- The `print("Database Error:", e)` in `query_db` (server.py:32): console output is not modelled; `Query.QueryDb` keeps only the empty list it returns.
- Loader.Clean: always appends the six derived column names. When the input already has a column of one of those names, pandas overwrites it in place instead, so the header list differs in that case.
- Loader.UtilValue: a row's cells are not tied to the number of columns, so the chosen column can lie past a row's last cell, and the value is then None. In pandas every row has a cell in every column.
- Line breaks in the fixed SELECT text are written as `\n`, as Python reads the source file; the file's own CRLF endings are not kept.
