/** The loader: cleans the input frame, recreates the warehouse, builds the
    dimension tables with get-or-create calls, assembles one fact row per
    cleaned row and inserts the batch with INSERT OR IGNORE.

    The input CSV, pandas' timestamp parsing and the float conversion of the
    utilization cell are outside the model: a row arrives with its timestamp
    already parsed (or not), and the utilization is the text of its cell. */
module Loader {
  import opened Common
  import opened Schema

  // ---------------------------------------------------------------------
  // Cleaning
  // ---------------------------------------------------------------------

  /** A parsed timestamp with the calendar fields derived from it
      (usage_date, usage_time, year, month, day, hour). */
  datatype Timestamp = Timestamp(date: string, time: string, year: int, month: int, day: int, hour: int)

  /** One input row: its parsed timestamp (None when parsing coerced it to
      NaT), its system and department cells, and the text of all its cells in
      column order. */
  datatype RawRow = RawRow(parsed: Option<Timestamp>, system: string, department: string, cells: seq<string>)

  datatype RawFrame = RawFrame(columns: seq<string>, rows: seq<RawRow>)

  /** A row that survived the timestamp filter. */
  datatype CleanRow = CleanRow(ts: Timestamp, system: string, department: string, cells: seq<string>)

  datatype CleanFrame = CleanFrame(columns: seq<string>, rows: seq<CleanRow>)

  /** The columns the loader appends after deriving the calendar fields. */
  const DerivedColumns: seq<string> := ["usage_date", "usage_time", "year", "month", "day", "hour"]

  /** `df.columns.str.strip()`: every header without surrounding whitespace. */
  function StripHeaders(columns: seq<string>): (r: seq<string>)
    ensures |r| == |columns|
    ensures forall i :: 0 <= i < |columns| ==> r[i] == Strip(columns[i])
  {
    seq(|columns|, i requires 0 <= i < |columns| => Strip(columns[i]))
  }

  function ToClean(row: RawRow): CleanRow
    requires row.parsed.Some?
  {
    CleanRow(row.parsed.value, row.system, row.department, row.cells)
  }

  /** `dropna(subset=['timestamp'])`: the rows whose timestamp parsed, in their
      original order. */
  function KeepParsed(rows: seq<RawRow>): (r: seq<CleanRow>)
    ensures |r| <= |rows|
  {
    if |rows| == 0 then []
    else (if rows[0].parsed.Some? then [ToClean(rows[0])] else []) + KeepParsed(rows[1..])
  }

  /** The whole cleaning step: stripped headers followed by the derived
      columns, and the parsed rows. */
  function Clean(f: RawFrame): (c: CleanFrame)
    ensures |c.columns| == |f.columns| + |DerivedColumns|
    ensures forall i :: 0 <= i < |f.columns| ==> c.columns[i] == Strip(f.columns[i])
    ensures c.columns[|f.columns|..] == DerivedColumns
    ensures |c.rows| <= |f.rows|
  {
    CleanFrame(StripHeaders(f.columns) + DerivedColumns, KeepParsed(f.rows))
  }

  /** Filtering distributes over concatenation, so the kept rows keep their
      relative order. */
  lemma {:induction false} KeepParsedAppend(a: seq<RawRow>, b: seq<RawRow>)
    ensures KeepParsed(a + b) == KeepParsed(a) + KeepParsed(b)
  {
    if |a| > 0 {
      assert (a + b)[1..] == a[1..] + b;
      KeepParsedAppend(a[1..], b);
    } else {
      assert a + b == b;
    }
  }

  /** A cleaned row is exactly the cleaned form of some input row whose
      timestamp parsed, and no input row with a parsed timestamp is lost. */
  lemma {:induction false} KeepParsedExactly(rows: seq<RawRow>)
    ensures forall c :: c in KeepParsed(rows) <==>
      exists i :: 0 <= i < |rows| && rows[i].parsed.Some? && ToClean(rows[i]) == c
    ensures (forall i :: 0 <= i < |rows| ==> rows[i].parsed.Some?) ==> |KeepParsed(rows)| == |rows|
    ensures (forall i :: 0 <= i < |rows| ==> rows[i].parsed.None?) ==> KeepParsed(rows) == []
  {
    if |rows| > 0 {
      KeepParsedExactly(rows[1..]);
      forall c ensures c in KeepParsed(rows) <==>
        exists i :: 0 <= i < |rows| && rows[i].parsed.Some? && ToClean(rows[i]) == c
      {
        if exists i :: 0 <= i < |rows| && rows[i].parsed.Some? && ToClean(rows[i]) == c {
          var i :| 0 <= i < |rows| && rows[i].parsed.Some? && ToClean(rows[i]) == c;
          if i > 0 { assert rows[1..][i - 1] == rows[i]; }
        }
        if c in KeepParsed(rows[1..]) {
          var i :| 0 <= i < |rows[1..]| && rows[1..][i].parsed.Some? && ToClean(rows[1..][i]) == c;
          assert rows[i + 1] == rows[1..][i];
        }
      }
    }
  }

  // ---------------------------------------------------------------------
  // The utilization column
  // ---------------------------------------------------------------------

  /** `"util" in col.lower()`: any casing of "util" inside the name, so a
      name holding "util" or "UTIL" as written always matches, and a match
      needs at least four characters. */
  function IsUtilColumn(col: string): (matches: bool)
    ensures matches ==> |col| >= 4
    ensures Contains(col, "util") || Contains(col, "UTIL") ==> matches
  {
    UtilAsWrittenMatches(col);
    Contains(Lower(col), "util")
  }

  /** Lower-casing leaves "util" in place and turns "UTIL" into it. */
  lemma UtilAsWrittenMatches(col: string)
    ensures Contains(col, "util") || Contains(col, "UTIL") ==> Contains(Lower(col), "util")
  {
    var low := Lower(col);
    if Contains(col, "util") || Contains(col, "UTIL") {
      var i :| 0 <= i <= |col| - 4 && (OccursAt(col, "util", i) || OccursAt(col, "UTIL", i));
      var w := col[i..i + 4];
      if OccursAt(col, "util", i) {
        assert w == "util";
      } else {
        assert OccursAt(col, "UTIL", i);
        assert w == "UTIL";
      }
      LowerUtil(w);
      forall k | 0 <= k < 4 ensures low[i + k] == Lower(w)[k] {
        assert w[k] == col[i + k];
      }
      assert low[i..i + 4] == Lower(w);
      assert OccursAt(low, "util", i);
    }
  }

  lemma LowerUtil(w: string)
    requires w == "util" || w == "UTIL"
    ensures Lower(w) == "util"
  {
    assert Lower(w) == [LowerChar(w[0]), LowerChar(w[1]), LowerChar(w[2]), LowerChar(w[3])];
  }

  /** The index of the first column, in column order, whose lower-cased name
      contains "util"; None when no column does. */
  function FirstUtilColumn(columns: seq<string>): (r: Option<nat>)
    ensures r.Some? ==> r.value < |columns| && IsUtilColumn(columns[r.value])
    ensures r.Some? ==> forall j :: 0 <= j < r.value ==> !IsUtilColumn(columns[j])
    ensures r.None? ==> forall j :: 0 <= j < |columns| ==> !IsUtilColumn(columns[j])
  {
    if |columns| == 0 then None
    else if IsUtilColumn(columns[0]) then Some(0)
    else
      match FirstUtilColumn(columns[1..])
      case None =>
        assert forall j :: 1 <= j < |columns| ==> columns[j] == columns[1..][j - 1];
        None
      case Some(k) =>
        assert forall j :: 1 <= j <= k + 1 ==> columns[j] == columns[1..][j - 1];
        Some(k + 1)
  }

  /** The search loop of the fact pass: scan the columns in order and stop at
      the first match. */
  method FindUtilColumn(columns: seq<string>) returns (idx: Option<nat>)
    ensures idx == FirstUtilColumn(columns)
  {
    idx := None;
    var i := 0;
    while i < |columns|
      invariant 0 <= i <= |columns|
      invariant forall j :: 0 <= j < i ==> !IsUtilColumn(columns[j])
    {
      if IsUtilColumn(columns[i]) {
        idx := Some(i);
        break;
      }
      i := i + 1;
    }
    var first := FirstUtilColumn(columns);
    if idx.Some? && first.Some? {
      assert !(idx.value < first.value) && !(first.value < idx.value);
    }
  }

  /** A name with no letter L (either case) never counts as a utilization
      column. */
  lemma NoLetterLIsNotUtil(col: string)
    requires 'l' !in col && 'L' !in col
    ensures !IsUtilColumn(col)
  {
    var low := Lower(col);
    forall i | 0 <= i <= |low| - 4 ensures !OccursAt(low, "util", i) {
      assert col[i + 3] in col;
      assert low[i..i + 4][3] == LowerChar(col[i + 3]) != 'l';
    }
  }

  /** None of the derived calendar column names contains "util". */
  lemma DerivedColumnsNotUtil()
    ensures forall j :: 0 <= j < |DerivedColumns| ==> !IsUtilColumn(DerivedColumns[j])
  {
    forall j | 0 <= j < |DerivedColumns| ensures !IsUtilColumn(DerivedColumns[j]) {
      NoLetterLIsNotUtil(DerivedColumns[j]);
    }
  }

  /** The derived calendar columns appended by the loader never match, so the
      column chosen in the cleaned frame is the one chosen among the input
      columns, and its index is a cell of the input row. */
  lemma DerivedColumnsNeverChosen(columns: seq<string>)
    ensures FirstUtilColumn(columns + DerivedColumns) == FirstUtilColumn(columns)
  {
    DerivedColumnsNotUtil();
    var all := columns + DerivedColumns;
    var r := FirstUtilColumn(all);
    var s := FirstUtilColumn(columns);
    forall j | |columns| <= j < |all| ensures !IsUtilColumn(all[j]) {
      assert all[j] == DerivedColumns[j - |columns|];
    }
    forall j | 0 <= j < |columns| ensures all[j] == columns[j] { }
    if r.Some? && s.Some? {
      assert !(r.value < s.value) && !(s.value < r.value);
    }
  }

  /** The utilization value of a row: the text of the chosen column's cell,
      None when no column matched. */
  function UtilValue(columns: seq<string>, row: CleanRow): (r: Option<string>)
    ensures r.Some? ==> exists i :: (0 <= i < |columns| && i < |row.cells| && IsUtilColumn(columns[i])
      && (forall j :: 0 <= j < i ==> !IsUtilColumn(columns[j])) && r.value == row.cells[i])
    ensures (forall j :: 0 <= j < |columns| ==> !IsUtilColumn(columns[j])) ==> r.None?
    ensures forall i :: (0 <= i < |columns| && i < |row.cells| && IsUtilColumn(columns[i])
      && (forall j :: 0 <= j < i ==> !IsUtilColumn(columns[j]))) ==> r == Some(row.cells[i])
  {
    match FirstUtilColumn(columns)
    case None => None
    case Some(i) => if i < |row.cells| then Some(row.cells[i]) else None
  }

  // ---------------------------------------------------------------------
  // What the dimension loops iterate over
  // ---------------------------------------------------------------------

  function SystemsOf(rows: seq<CleanRow>): (r: seq<string>)
    ensures |r| == |rows| && forall i :: 0 <= i < |rows| ==> r[i] == rows[i].system
  {
    seq(|rows|, i requires 0 <= i < |rows| => rows[i].system)
  }

  function DepartmentsOf(rows: seq<CleanRow>): (r: seq<string>)
    ensures |r| == |rows| && forall i :: 0 <= i < |rows| ==> r[i] == rows[i].department
  {
    seq(|rows|, i requires 0 <= i < |rows| => rows[i].department)
  }

  /** The distinct system names and department names of the cleaned rows. */
  function SystemNames(rows: seq<CleanRow>): set<string>
  {
    set r | r in rows :: r.system
  }

  function DepartmentNames(rows: seq<CleanRow>): set<string>
  {
    set r | r in rows :: r.department
  }

  function DateValueOf(row: CleanRow): DateValue
  {
    DateValue(row.ts.date, row.ts.time, row.ts.year, row.ts.month, row.ts.day, row.ts.hour)
  }

  function DateValuesOf(rows: seq<CleanRow>): (r: seq<DateValue>)
    ensures |r| == |rows| && forall i :: 0 <= i < |rows| ==> r[i] == DateValueOf(rows[i])
  {
    seq(|rows|, i requires 0 <= i < |rows| => DateValueOf(rows[i]))
  }

  /** The fact row the loader assembles for one cleaned row, once every
      dimension holds the row's values. */
  function FactRowFor(sys: DimTable, dep: DimTable, dates: DateTable, columns: seq<string>, row: CleanRow): (f: FactRow)
    requires row.system in sys.ids && row.department in dep.ids && HasDate(dates.rows, row.ts.date)
    ensures f.systemId == sys.ids[row.system] && f.deptId == dep.ids[row.department]
    ensures Some(f.dateKey) == DateSelect(dates.rows, row.ts.date)
    ensures f.util == UtilValue(columns, row) && f.usageDate == row.ts.date && f.usageTime == row.ts.time
  {
    FactRow(DateSelect(dates.rows, row.ts.date).value, dep.ids[row.department], sys.ids[row.system],
            UtilValue(columns, row), row.ts.date, row.ts.time)
  }

  /** The first n rows of the batch the fact pass assembles. */
  function FactRowsUpTo(sys: DimTable, dep: DimTable, dates: DateTable, columns: seq<string>, rows: seq<CleanRow>, n: nat): (r: seq<FactRow>)
    requires Covers(sys, dep, dates, rows) && n <= |rows|
    ensures |r| == n
    ensures forall i :: 0 <= i < n ==> r[i] == FactRowFor(sys, dep, dates, columns, rows[i])
  {
    if n == 0 then []
    else FactRowsUpTo(sys, dep, dates, columns, rows, n - 1) + [FactRowFor(sys, dep, dates, columns, rows[n - 1])]
  }

  /** The batch the fact pass assembles: one fact row per cleaned row, in row order. */
  function FactRowsFor(sys: DimTable, dep: DimTable, dates: DateTable, columns: seq<string>, rows: seq<CleanRow>): (r: seq<FactRow>)
    requires Covers(sys, dep, dates, rows)
    ensures |r| == |rows|
    ensures forall i :: 0 <= i < |rows| ==> r[i] == FactRowFor(sys, dep, dates, columns, rows[i])
  {
    FactRowsUpTo(sys, dep, dates, columns, rows, |rows|)
  }

  /** Every assembled fact row points at existing dimension rows. */
  lemma FactRowsReference(sys: DimTable, dep: DimTable, dates: DateTable, columns: seq<string>, rows: seq<CleanRow>)
    requires Covers(sys, dep, dates, rows)
    ensures forall i :: 0 <= i < |rows| ==> References(sys, dep, dates, FactRowsFor(sys, dep, dates, columns, rows)[i])
  {
    var batch := FactRowsFor(sys, dep, dates, columns, rows);
    forall i | 0 <= i < |rows| ensures References(sys, dep, dates, batch[i]) {
      var row := rows[i];
      var j :| 0 <= j < |dates.rows| && dates.rows[j].value.date == row.ts.date && dates.rows[j].key == batch[i].dateKey;
    }
  }

  /** Two cleaned rows get the same composite fact key exactly when they agree
      on date, department, system and time: the dimension keys are injective. */
  lemma FactKeyIffSameReading(sys: DimTable, dep: DimTable, dates: DateTable, columns: seq<string>, a: CleanRow, b: CleanRow)
    requires DimValid(sys) && DimValid(dep) && DateValid(dates)
    requires a.system in sys.ids && a.department in dep.ids && HasDate(dates.rows, a.ts.date)
    requires b.system in sys.ids && b.department in dep.ids && HasDate(dates.rows, b.ts.date)
    ensures KeyOf(FactRowFor(sys, dep, dates, columns, a)) == KeyOf(FactRowFor(sys, dep, dates, columns, b))
      <==> a.ts.date == b.ts.date && a.department == b.department && a.system == b.system && a.ts.time == b.ts.time
  {
    DateSelectInjective(dates, a.ts.date, b.ts.date);
    assert a.system != b.system ==> sys.ids[a.system] != sys.ids[b.system];
    assert a.department != b.department ==> dep.ids[a.department] != dep.ids[b.department];
  }

  /** With every reading distinct in (date, department, system, time), the
      fact table ends up with one row per cleaned row. */
  lemma FactCountEqualsRows(sys: DimTable, dep: DimTable, dates: DateTable, columns: seq<string>,
                            rows: seq<CleanRow>, batch: seq<FactRow>)
    requires DimValid(sys) && DimValid(dep) && DateValid(dates)
    requires forall r :: r in rows ==> r.system in sys.ids && r.department in dep.ids && HasDate(dates.rows, r.ts.date)
    requires |batch| == |rows|
    requires forall i :: 0 <= i < |rows| ==> batch[i] == FactRowFor(sys, dep, dates, columns, rows[i])
    requires forall i, j :: 0 <= i < j < |rows| ==>
      (rows[i].ts.date, rows[i].department, rows[i].system, rows[i].ts.time)
        != (rows[j].ts.date, rows[j].department, rows[j].system, rows[j].ts.time)
    ensures |FactInsertAll(EmptyFacts, batch).rows| == |rows|
  {
    forall i, j | 0 <= i < j < |batch| ensures KeyOf(batch[i]) != KeyOf(batch[j]) {
      FactKeyIffSameReading(sys, dep, dates, columns, rows[i], rows[j]);
    }
    FactInsertAllDistinct(EmptyFacts, batch);
  }

  // ---------------------------------------------------------------------
  // The warehouse and the load
  // ---------------------------------------------------------------------

  /** Every cleaned row's system, department and date already have a
      dimension row. */
  ghost predicate Covers(sys: DimTable, dep: DimTable, dates: DateTable, rows: seq<CleanRow>)
  {
    forall k :: 0 <= k < |rows| ==>
      rows[k].system in sys.ids && rows[k].department in dep.ids && HasDate(dates.rows, rows[k].ts.date)
  }

  /** Every foreign key of a fact row names an existing dimension row
      (PRAGMA foreign_keys = ON). */
  ghost predicate References(sys: DimTable, dep: DimTable, dates: DateTable, f: FactRow)
  {
    && f.systemId in sys.ids.Values
    && f.deptId in dep.ids.Values
    && exists j :: 0 <= j < |dates.rows| && dates.rows[j].key == f.dateKey
  }

  /** The warehouse file's four tables. */
  class Warehouse {
    var dimSystem: DimTable
    var dimDepartment: DimTable
    var dimDate: DateTable
    var facts: FactTable

    ghost predicate Valid()
      reads this
    {
      && DimValid(dimSystem) && DimValid(dimDepartment) && DateValid(dimDate) && FactValid(facts)
      && forall i :: 0 <= i < |facts.rows| ==> References(dimSystem, dimDepartment, dimDate, facts.rows[i].row)
    }

    predicate IsEmpty()
      reads this
    {
      dimSystem == EmptyDim && dimDepartment == EmptyDim && dimDate == EmptyDates && facts == EmptyFacts
    }

    /** The schema script on a new file: four empty tables. */
    constructor ()
      ensures Valid() && IsEmpty()
    {
      dimSystem, dimDepartment, dimDate, facts := EmptyDim, EmptyDim, EmptyDates, EmptyFacts;
    }

    /** DROP TABLE / CREATE TABLE: prior contents and AUTOINCREMENT counters
        are discarded. */
    method Recreate()
      modifies this
      ensures Valid() && IsEmpty()
    {
      dimSystem, dimDepartment, dimDate, facts := EmptyDim, EmptyDim, EmptyDates, EmptyFacts;
    }

    /** get_or_create_system: INSERT OR IGNORE, then SELECT system_id. */
    method GetOrCreateSystem(name: string) returns (id: nat)
      requires Valid()
      modifies this
      ensures Valid()
      ensures dimSystem == DimInsertOrIgnore(old(dimSystem), name)
      ensures dimDepartment == old(dimDepartment) && dimDate == old(dimDate) && facts == old(facts)
      ensures name in dimSystem.ids && id == dimSystem.ids[name]
      ensures name in old(dimSystem.ids) ==> dimSystem == old(dimSystem) && id == old(dimSystem.ids[name])
      ensures name !in old(dimSystem.ids) ==> id !in old(dimSystem.ids.Values)
    {
      DimInsertKeepsValid(dimSystem, name);
      DimValuesGrow(dimSystem, name);
      dimSystem := DimInsertOrIgnore(dimSystem, name);
      var found := DimSelect(dimSystem, name);
      id := found.value;
    }

    /** get_or_create_department: INSERT OR IGNORE, then SELECT dept_id. */
    method GetOrCreateDepartment(name: string) returns (id: nat)
      requires Valid()
      modifies this
      ensures Valid()
      ensures dimDepartment == DimInsertOrIgnore(old(dimDepartment), name)
      ensures dimSystem == old(dimSystem) && dimDate == old(dimDate) && facts == old(facts)
      ensures name in dimDepartment.ids && id == dimDepartment.ids[name]
      ensures name in old(dimDepartment.ids) ==> dimDepartment == old(dimDepartment) && id == old(dimDepartment.ids[name])
      ensures name !in old(dimDepartment.ids) ==> id !in old(dimDepartment.ids.Values)
    {
      DimInsertKeepsValid(dimDepartment, name);
      DimValuesGrow(dimDepartment, name);
      dimDepartment := DimInsertOrIgnore(dimDepartment, name);
      var found := DimSelect(dimDepartment, name);
      id := found.value;
    }

    /** get_or_create_date: INSERT OR IGNORE, then SELECT date_key by date
        alone. None is the `fetchone()` that found nothing, on which the
        loader dies. */
    method GetOrCreateDate(v: DateValue) returns (key: Option<nat>)
      requires Valid()
      modifies this
      ensures Valid()
      ensures dimDate == DateInsertOrIgnore(old(dimDate), v)
      ensures dimSystem == old(dimSystem) && dimDepartment == old(dimDepartment) && facts == old(facts)
      ensures key == DateSelect(dimDate.rows, v.date)
      ensures key.None? <==> !HasDate(old(dimDate).rows, v.date) && HasTime(old(dimDate).rows, v.time)
      ensures HasDate(old(dimDate).rows, v.date) ==> dimDate == old(dimDate)
    {
      DateInsertKeepsValid(dimDate, v);
      DateGetOrCreate(dimDate, v);
      ghost var before := dimDate;
      dimDate := DateInsertOrIgnore(dimDate, v);
      forall i | 0 <= i < |facts.rows| ensures References(dimSystem, dimDepartment, dimDate, facts.rows[i].row) {
        var j :| 0 <= j < |before.rows| && before.rows[j].key == facts.rows[i].row.dateKey;
        assert dimDate.rows[j] == before.rows[j];
      }
      key := DateSelect(dimDate.rows, v.date);
    }

    /** The dimension loop over systems: get_or_create_system for each name. */
    method InsertSystems(names: seq<string>)
      requires Valid()
      modifies this
      ensures Valid()
      ensures dimSystem == DimInsertAll(old(dimSystem), names)
      ensures dimDepartment == old(dimDepartment) && dimDate == old(dimDate) && facts == old(facts)
    {
      var i := 0;
      while i < |names|
        invariant 0 <= i <= |names|
        invariant Valid()
        invariant DimInsertAll(dimSystem, names[i..]) == DimInsertAll(old(dimSystem), names)
        invariant dimDepartment == old(dimDepartment) && dimDate == old(dimDate) && facts == old(facts)
      {
        assert names[i..][1..] == names[i + 1..];
        var _ := GetOrCreateSystem(names[i]);
        i := i + 1;
      }
    }

    /** The dimension loop over departments: get_or_create_department for each name. */
    method InsertDepartments(names: seq<string>)
      requires Valid()
      modifies this
      ensures Valid()
      ensures dimDepartment == DimInsertAll(old(dimDepartment), names)
      ensures dimSystem == old(dimSystem) && dimDate == old(dimDate) && facts == old(facts)
    {
      var i := 0;
      while i < |names|
        invariant 0 <= i <= |names|
        invariant Valid()
        invariant DimInsertAll(dimDepartment, names[i..]) == DimInsertAll(old(dimDepartment), names)
        invariant dimSystem == old(dimSystem) && dimDate == old(dimDate) && facts == old(facts)
      {
        assert names[i..][1..] == names[i + 1..];
        var _ := GetOrCreateDepartment(names[i]);
        i := i + 1;
      }
    }

    /** The dimension loop over date tuples: get_or_create_date for each; `ok`
        is false when a lookup found nothing, where the loader stops. */
    method InsertDates(vs: seq<DateValue>) returns (ok: bool)
      requires Valid()
      modifies this
      ensures Valid()
      ensures DateLoad(dimDate, ok) == DateInsertAll(old(dimDate), vs)
      ensures dimSystem == old(dimSystem) && dimDepartment == old(dimDepartment) && facts == old(facts)
    {
      var i := 0;
      ok := true;
      while i < |vs|
        invariant 0 <= i <= |vs|
        invariant Valid()
        invariant DateInsertAll(dimDate, vs[i..]) == DateInsertAll(old(dimDate), vs)
        invariant dimSystem == old(dimSystem) && dimDepartment == old(dimDepartment) && facts == old(facts)
      {
        assert vs[i..][1..] == vs[i + 1..];
        var key := GetOrCreateDate(vs[i]);
        if key.None? {
          ok := false;
          break;
        }
        i := i + 1;
      }
    }

    /** The three dimension loops: every distinct system, every distinct
        department, then every distinct (date, time, year, month, day, hour)
        tuple, in order of first appearance. `ok` is false when a date lookup
        failed; the loader stops there. */
    method BuildDimensions(rows: seq<CleanRow>) returns (ok: bool)
      requires Valid()
      modifies this
      ensures Valid()
      ensures dimSystem == DimInsertAll(old(dimSystem), Distinct(SystemsOf(rows)))
      ensures dimDepartment == DimInsertAll(old(dimDepartment), Distinct(DepartmentsOf(rows)))
      ensures DateLoad(dimDate, ok) == DateInsertAll(old(dimDate), Distinct(DateValuesOf(rows)))
      ensures facts == old(facts)
    {
      InsertSystems(Distinct(SystemsOf(rows)));
      InsertDepartments(Distinct(DepartmentsOf(rows)));
      ok := InsertDates(Distinct(DateValuesOf(rows)));
    }

    /** The fact pass: for each cleaned row, the three get-or-create calls
        (which find everything already present), the utilization column
        search, and the row appended to the batch. */
    method AssembleFacts(f: CleanFrame) returns (batch: seq<FactRow>)
      requires Valid()
      requires Covers(dimSystem, dimDepartment, dimDate, f.rows)
      modifies this
      ensures Valid()
      ensures dimSystem == old(dimSystem) && dimDepartment == old(dimDepartment)
      ensures dimDate == old(dimDate) && facts == old(facts)
      ensures batch == FactRowsFor(dimSystem, dimDepartment, dimDate, f.columns, f.rows)
      ensures forall i :: 0 <= i < |batch| ==> References(dimSystem, dimDepartment, dimDate, batch[i])
    {
      ghost var sys, dep, dates := dimSystem, dimDepartment, dimDate;
      batch := [];
      var i := 0;
      while i < |f.rows|
        invariant 0 <= i <= |f.rows|
        invariant Valid()
        invariant dimSystem == sys && dimDepartment == dep && dimDate == dates && facts == old(facts)
        invariant batch == FactRowsUpTo(sys, dep, dates, f.columns, f.rows, i)
      {
        var fact := AssembleFact(f.columns, f.rows[i]);
        batch := batch + [fact];
        i := i + 1;
      }
      FactRowsReference(sys, dep, dates, f.columns, f.rows);
    }

    /** One iteration of the fact pass. */
    method AssembleFact(columns: seq<string>, row: CleanRow) returns (fact: FactRow)
      requires Valid()
      requires row.system in dimSystem.ids && row.department in dimDepartment.ids && HasDate(dimDate.rows, row.ts.date)
      modifies this
      ensures Valid()
      ensures dimSystem == old(dimSystem) && dimDepartment == old(dimDepartment)
      ensures dimDate == old(dimDate) && facts == old(facts)
      ensures fact == FactRowFor(dimSystem, dimDepartment, dimDate, columns, row)
    {
      var systemId := GetOrCreateSystem(row.system);
      var deptId := GetOrCreateDepartment(row.department);
      var dateKey := GetOrCreateDate(DateValueOf(row));
      var util: Option<string> := None;
      var col := FindUtilColumn(columns);
      if col.Some? && col.value < |row.cells| {
        util := Some(row.cells[col.value]);
      }
      fact := FactRow(dateKey.value, deptId, systemId, util, row.ts.date, row.ts.time);
    }

    /** executemany(INSERT OR IGNORE INTO fact_utilization ...) over the batch. */
    method InsertFacts(batch: seq<FactRow>)
      requires Valid()
      requires forall i :: 0 <= i < |batch| ==> References(dimSystem, dimDepartment, dimDate, batch[i])
      modifies this
      ensures Valid()
      ensures facts == FactInsertAll(old(facts), batch)
      ensures dimSystem == old(dimSystem) && dimDepartment == old(dimDepartment) && dimDate == old(dimDate)
    {
      FactInsertAllContents(facts, batch);
      ghost var before := facts;
      facts := FactInsertAll(facts, batch);
      forall i | 0 <= i < |facts.rows| ensures References(dimSystem, dimDepartment, dimDate, facts.rows[i].row) {
        if i < |before.rows| {
          assert facts.rows[i] == before.rows[i];
        } else {
          var k :| 0 <= k < |batch| && batch[k] == facts.rows[i].row;
        }
      }
    }

    /** The fact pass and the batch insert that follows it. */
    method FactPass(f: CleanFrame) returns (batch: seq<FactRow>)
      requires Valid()
      requires Covers(dimSystem, dimDepartment, dimDate, f.rows)
      modifies this
      ensures Valid()
      ensures dimSystem == old(dimSystem) && dimDepartment == old(dimDepartment) && dimDate == old(dimDate)
      ensures batch == FactRowsFor(dimSystem, dimDepartment, dimDate, f.columns, f.rows)
      ensures facts == FactInsertAll(old(facts), batch)
    {
      batch := AssembleFacts(f);
      InsertFacts(batch);
    }

    /** The schema script followed by the three dimension loops. */
    method RebuildDimensions(rows: seq<CleanRow>) returns (ok: bool)
      requires Valid()
      modifies this
      ensures Valid()
      ensures dimSystem == DimInsertAll(EmptyDim, Distinct(SystemsOf(rows)))
      ensures dimDepartment == DimInsertAll(EmptyDim, Distinct(DepartmentsOf(rows)))
      ensures DateLoad(dimDate, ok) == DateInsertAll(EmptyDates, Distinct(DateValuesOf(rows)))
      ensures facts == EmptyFacts
    {
      Recreate();
      ok := BuildDimensions(rows);
    }

    /** The whole load: clean, recreate the schema, build the dimensions, and,
        when every date lookup succeeded, assemble and insert the facts. */
    method Load(raw: RawFrame) returns (ok: bool, cleaned: CleanFrame, batch: seq<FactRow>)
      requires Valid()
      modifies this
      ensures Valid()
      ensures cleaned == Clean(raw)
      ensures dimSystem == DimInsertAll(EmptyDim, Distinct(SystemsOf(cleaned.rows)))
      ensures dimDepartment == DimInsertAll(EmptyDim, Distinct(DepartmentsOf(cleaned.rows)))
      ensures DateLoad(dimDate, ok) == DateInsertAll(EmptyDates, Distinct(DateValuesOf(cleaned.rows)))
      ensures dimSystem.ids.Keys == SystemNames(cleaned.rows)
      ensures dimDepartment.ids.Keys == DepartmentNames(cleaned.rows)
      ensures !ok ==> facts == EmptyFacts && batch == []
      ensures ok ==> Covers(dimSystem, dimDepartment, dimDate, cleaned.rows)
      ensures ok ==> batch == FactRowsFor(dimSystem, dimDepartment, dimDate, cleaned.columns, cleaned.rows)
      ensures ok ==> facts == FactInsertAll(EmptyFacts, batch) && |facts.rows| <= |cleaned.rows|
    {
      cleaned := Clean(raw);
      ok := RebuildDimensions(cleaned.rows);
      DimensionsHoldEveryRow(cleaned.rows);
      batch := [];
      if ok {
        DimensionLoopsCover(cleaned.rows);
        batch := FactPass(cleaned);
      }
    }
  }

  /** When the date loop gets through, every cleaned row's date has a
      dim_date row. */
  lemma DateLoopCovers(rows: seq<CleanRow>)
    requires DateInsertAll(EmptyDates, Distinct(DateValuesOf(rows))).ok
    ensures forall k :: 0 <= k < |rows| ==>
      HasDate(DateInsertAll(EmptyDates, Distinct(DateValuesOf(rows))).table.rows, rows[k].ts.date)
  {
    var vs := Distinct(DateValuesOf(rows));
    DateInsertAllContents(EmptyDates, vs);
    DistinctIsSetOfValues(DateValuesOf(rows));
    forall k | 0 <= k < |rows| ensures exists m :: 0 <= m < |vs| && vs[m].date == rows[k].ts.date {
      var v := DateValuesOf(rows)[k];
      assert v in DateValuesOf(rows);
      assert v in vs;
      var m :| 0 <= m < |vs| && vs[m] == v;
    }
  }

  /** When the date loop gets through, every cleaned row's system, department
      and date have a dimension row. */
  lemma DimensionLoopsCover(rows: seq<CleanRow>)
    requires DateInsertAll(EmptyDates, Distinct(DateValuesOf(rows))).ok
    ensures Covers(DimInsertAll(EmptyDim, Distinct(SystemsOf(rows))),
                   DimInsertAll(EmptyDim, Distinct(DepartmentsOf(rows))),
                   DateInsertAll(EmptyDates, Distinct(DateValuesOf(rows))).table, rows)
  {
    DimensionsHoldEveryRow(rows);
    DateLoopCovers(rows);
    forall k | 0 <= k < |rows| ensures rows[k] in rows { }
  }

  /** Each dimension value grows with insert-or-ignore: old keys keep their ids. */
  lemma DimValuesGrow(t: DimTable, name: string)
    ensures t.ids.Values <= DimInsertOrIgnore(t, name).ids.Values
  {
    var r := DimInsertOrIgnore(t, name);
    forall v | v in t.ids.Values ensures v in r.ids.Values {
      var n :| n in t.ids && t.ids[n] == v;
      assert r.ids[n] == v;
    }
  }

  lemma SystemsOfValues(rows: seq<CleanRow>)
    ensures (set n | n in Distinct(SystemsOf(rows))) == SystemNames(rows)
  {
    var s := SystemsOf(rows);
    DistinctIsSetOfValues(s);
    forall n | n in Distinct(s) ensures n in set r | r in rows :: r.system {
      var i :| 0 <= i < |s| && s[i] == n;
      assert rows[i] in rows;
    }
    forall r | r in rows ensures r.system in Distinct(s) {
      var i :| 0 <= i < |rows| && rows[i] == r;
      assert s[i] == r.system;
    }
  }

  lemma DepartmentsOfValues(rows: seq<CleanRow>)
    ensures (set n | n in Distinct(DepartmentsOf(rows))) == DepartmentNames(rows)
  {
    var d := DepartmentsOf(rows);
    DistinctIsSetOfValues(d);
    forall n | n in Distinct(d) ensures n in set r | r in rows :: r.department {
      var i :| 0 <= i < |d| && d[i] == n;
      assert rows[i] in rows;
    }
    forall r | r in rows ensures r.department in Distinct(d) {
      var i :| 0 <= i < |rows| && rows[i] == r;
      assert d[i] == r.department;
    }
  }

  /** After the dimension loops on a fresh warehouse, dim_system and
      dim_department hold exactly the distinct system and department values of
      the cleaned rows. */
  lemma DimensionsHoldEveryRow(rows: seq<CleanRow>)
    ensures DimInsertAll(EmptyDim, Distinct(SystemsOf(rows))).ids.Keys == SystemNames(rows)
    ensures DimInsertAll(EmptyDim, Distinct(DepartmentsOf(rows))).ids.Keys == DepartmentNames(rows)
  {
    DimInsertAllContents(EmptyDim, Distinct(SystemsOf(rows)));
    DimInsertAllContents(EmptyDim, Distinct(DepartmentsOf(rows)));
    SystemsOfValues(rows);
    DepartmentsOfValues(rows);
  }

  /** The load gets through the date loop whenever no time of day occurs on
      two different dates among the cleaned rows. */
  lemma LoadSucceedsWhenTimesAreUnique(rows: seq<CleanRow>)
    requires forall i, j :: 0 <= i < |rows| && 0 <= j < |rows| && rows[i].ts.time == rows[j].ts.time ==>
      rows[i].ts.date == rows[j].ts.date
    ensures DateInsertAll(EmptyDates, Distinct(DateValuesOf(rows))).ok
  {
    var all := DateValuesOf(rows);
    DistinctIsSetOfValues(all);
    DateInsertAllSucceeds(EmptyDates, Distinct(all), all);
  }

  /** Two cleaned readings on different days at the same time of day, and
      nothing else: the load aborts in the date loop. */
  lemma LoadAbortsOnRepeatedTime(a: CleanRow, b: CleanRow)
    requires a.ts.date != b.ts.date && a.ts.time == b.ts.time
    ensures !DateInsertAll(EmptyDates, Distinct(DateValuesOf([a, b]))).ok
  {
    var vs := DateValuesOf([a, b]);
    assert vs == [DateValueOf(a), DateValueOf(b)];
    assert vs[..1] == [DateValueOf(a)];
    assert Distinct(vs[..1]) == [DateValueOf(a)];
    assert Distinct(vs) == [DateValueOf(a), DateValueOf(b)];
    SameTimeOnTwoDaysAborts(DateValueOf(a), DateValueOf(b));
  }

  /** The order of the rows in the file decides whether the load gets
      through, not only which readings it holds: the same three readings
      load in one order and abort in another. */
  lemma LoadOutcomeDependsOnRowOrder(a: CleanRow, b: CleanRow, c: CleanRow)
    requires a.ts.date == b.ts.date && a.ts.date != c.ts.date
    requires a.ts.time == c.ts.time && a.ts.time != b.ts.time
    ensures DateInsertAll(EmptyDates, Distinct(DateValuesOf([b, a, c]))).ok
    ensures !DateInsertAll(EmptyDates, Distinct(DateValuesOf([a, b, c]))).ok
  {
    var x, y, z := DateValueOf(a), DateValueOf(b), DateValueOf(c);
    assert DateValuesOf([b, a, c]) == [y, x, z];
    assert DateValuesOf([a, b, c]) == [x, y, z];
    DistinctOfThree(y, x, z);
    DistinctOfThree(x, y, z);
    DateOutcomeDependsOnOrder(x, y, z);
  }
}
