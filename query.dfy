/** The read side of the warehouse: the `/utilization/filter` endpoint turns
    optional request arguments into a parameterised SQL text over the star
    join, with a whitelisted sort column and order, optional equality
    filters bound to `?` placeholders, and a fixed secondary sort on the
    reading time. `query_db` turns any database error into an empty list. */
module Query {
  import opened Common
  import opened Schema

  /** The four request arguments the endpoint reads; None when the argument
      is absent from the query string. */
  datatype Args = Args(system: Option<string>, department: Option<string>,
                       sortBy: Option<string>, sortOrder: Option<string>)

  /** Public sort names and the physical column each one sorts on. */
  const ValidCols: map<string, string> := map[
    "system_name" := "s.system_name",
    "department_name" := "d.department_name",
    "utilization_pct" := "f.utilization_pct",
    "usage_date" := "f.usage_date",
    "usage_time" := "f.usage_time"]

  const ValidOrder: seq<string> := ["ASC", "DESC"]

  const DefaultSortBy := "usage_date"
  const DefaultSortOrder := "DESC"
  const FallbackColumn := "f.usage_date"

  /** `request.args.get(name, default)`. */
  function ArgOr(v: Option<string>, default: string): (r: string)
    ensures v.None? ==> r == default
    ensures v.Some? ==> r == v.value
  {
    if v.Some? then v.value else default
  }

  /** The sort column: the whitelist's physical column for a known public
      name, the reading date for anything else, and the reading date when
      the argument is absent. */
  function SortColumn(sortBy: Option<string>): (col: string)
    ensures col in ValidCols.Values
    ensures var key := ArgOr(sortBy, DefaultSortBy);
      (key in ValidCols ==> col == ValidCols[key]) && (key !in ValidCols ==> col == FallbackColumn)
  {
    var key := ArgOr(sortBy, DefaultSortBy);
    assert ValidCols["usage_date"] == FallbackColumn;
    if key in ValidCols then ValidCols[key] else FallbackColumn
  }

  /** The sort order: the argument itself exactly when it is "ASC" or "DESC"
      (case-sensitive), "DESC" otherwise and when it is absent. */
  function SortOrder(sortOrder: Option<string>): (ord: string)
    ensures ord in ValidOrder
    ensures ord == ArgOr(sortOrder, DefaultSortOrder) <==> ArgOr(sortOrder, DefaultSortOrder) in ValidOrder
    ensures ord != ArgOr(sortOrder, DefaultSortOrder) ==> ord == "DESC"
  {
    var o := ArgOr(sortOrder, DefaultSortOrder);
    if o in ValidOrder then o else "DESC"
  }

  /** A filter argument takes effect when it is present, non-empty (Python
      truthiness) and not the literal text "null". */
  function IsActive(v: Option<string>): (active: bool)
    ensures active <==> ArgOr(v, "") != "" && ArgOr(v, "") != "null"
  {
    v.Some? && v.value != "" && v.value != "null"
  }

  datatype Clause = SystemEquals | DepartmentEquals

  function ClauseText(c: Clause): string
  {
    match c
    case SystemEquals => " AND s.system_name = ?"
    case DepartmentEquals => " AND d.department_name = ?"
  }

  /** The equality filters the request activates, system before department. */
  function Clauses(args: Args): (cs: seq<Clause>)
    ensures SystemEquals in cs <==> IsActive(args.system)
    ensures DepartmentEquals in cs <==> IsActive(args.department)
    ensures NoDuplicates(cs)
    ensures forall i, j :: 0 <= i < j < |cs| ==> cs[i] == SystemEquals && cs[j] == DepartmentEquals
  {
    (if IsActive(args.system) then [SystemEquals] else [])
    + (if IsActive(args.department) then [DepartmentEquals] else [])
  }

  /** The request value a clause compares against. */
  function Bound(args: Args, c: Clause): string
    requires c == SystemEquals ==> args.system.Some?
    requires c == DepartmentEquals ==> args.department.Some?
  {
    match c
    case SystemEquals => args.system.value
    case DepartmentEquals => args.department.value
  }

  /** The parameter list: one value per active clause, in clause order. */
  function Params(args: Args): (ps: seq<string>)
    ensures |ps| == |Clauses(args)|
    ensures forall i :: 0 <= i < |ps| ==> ps[i] == Bound(args, Clauses(args)[i])
  {
    (if IsActive(args.system) then [args.system.value] else [])
    + (if IsActive(args.department) then [args.department.value] else [])
  }

  /** Everything the request decides about the statement. */
  datatype Plan = Plan(clauses: seq<Clause>, params: seq<string>, column: string, order: string)

  function PlanOf(args: Args): (p: Plan)
    ensures |p.clauses| == |p.params|
    ensures p.column in ValidCols.Values && p.order in ValidOrder
  {
    Plan(Clauses(args), Params(args), SortColumn(args.sortBy), SortOrder(args.sortOrder))
  }

  /** The fixed start of the statement: the star join of the fact table with
      the system and department dimensions and an always-true WHERE. */
  const BaseQuery: string :=
    "\n        SELECT \n            f.id,\n            s.system_name,\n            d.department_name,\n"
    + "            f.utilization_pct,\n            f.usage_date,\n            f.usage_time\n"
    + "        FROM fact_utilization f\n"
    + "        JOIN dim_system s ON f.system_id = s.system_id\n"
    + "        JOIN dim_department d ON f.dept_id = d.dept_id\n"
    + "        WHERE 1=1\n    "

  /** The statement text before its ORDER BY: the SELECT text followed by
      the clauses in the order they were appended. */
  function Filtered(cs: seq<Clause>): (text: string)
    ensures BaseQuery <= text
    ensures |text| >= |BaseQuery| + |cs|
  {
    if |cs| == 0 then BaseQuery else Filtered(cs[..|cs| - 1]) + ClauseText(cs[|cs| - 1])
  }

  lemma FilteredSnoc(cs: seq<Clause>, c: Clause)
    ensures Filtered(cs + [c]) == Filtered(cs) + ClauseText(c)
  {
    assert (cs + [c])[..|cs|] == cs;
  }

  /** The secondary sort every statement ends with. */
  const TieBreak := ", f.usage_time DESC"

  /** The f-string appended last: the chosen column and order, then the
      reading time, newest first, whatever the chosen column. */
  function OrderBy(column: string, order: string): (text: string)
    ensures |text| == |" ORDER BY "| + |column| + 1 + |order| + |TieBreak|
    ensures text[..|" ORDER BY "|] == " ORDER BY "
    ensures text[|" ORDER BY "|..|" ORDER BY "| + |column|] == column
    ensures text[|" ORDER BY "| + |column|] == ' '
    ensures text[|" ORDER BY "| + |column| + 1..|" ORDER BY "| + |column| + 1 + |order|] == order
    ensures EndsWith(text, TieBreak)
  {
    " ORDER BY " + column + " " + order + TieBreak
  }

  /** The whole statement: the SELECT text and its filters, then ORDER BY. */
  function QueryText(p: Plan): (text: string)
    ensures BaseQuery <= text
    ensures EndsWith(text, TieBreak)
  {
    AppendKeepsEnds(Filtered(p.clauses), OrderBy(p.column, p.order), TieBreak);
    Filtered(p.clauses) + OrderBy(p.column, p.order)
  }

  /** The endpoint's statement builder: the query text grows by `+=` and the
      parameters by `append`, one active filter at a time. */
  method FilterData(args: Args) returns (query: string, params: seq<string>)
    ensures query == QueryText(PlanOf(args))
    ensures params == PlanOf(args).params
  {
    var systemName := args.system;
    var deptName := args.department;
    var sortCol := SortColumn(args.sortBy);
    var sortOrd := SortOrder(args.sortOrder);

    query := BaseQuery;
    params := [];
    ghost var cs: seq<Clause> := [];

    if IsActive(systemName) {
      FilteredSnoc(cs, SystemEquals);
      query := query + " AND s.system_name = ?";
      params := params + [systemName.value];
      cs := cs + [SystemEquals];
    }
    assert query == Filtered(cs);

    if IsActive(deptName) {
      FilteredSnoc(cs, DepartmentEquals);
      query := query + " AND d.department_name = ?";
      params := params + [deptName.value];
      cs := cs + [DepartmentEquals];
    }
    assert cs == Clauses(args);

    query := query + (" ORDER BY " + sortCol + " " + sortOrd + ", f.usage_time DESC");
  }

  // ---------------------------------------------------------------------
  // Properties of the statement text
  // ---------------------------------------------------------------------

  /** With no arguments at all the endpoint sorts on the reading date,
      newest first, and filters nothing. */
  lemma DefaultsSortByDateDescending()
    ensures PlanOf(Args(None, None, None, None)) == Plan([], [], "f.usage_date", "DESC")
  {
    assert "usage_date" in ValidCols;
  }

  /** Absent, empty and "null" filter values all leave the filter off: two
      requests that agree on which filters are active, on the values of the
      active ones, and on the sort arguments get the same plan. */
  lemma InactiveValuesAreInterchangeable(a: Args, b: Args)
    requires IsActive(a.system) == IsActive(b.system)
    requires IsActive(a.system) ==> a.system == b.system
    requires IsActive(a.department) == IsActive(b.department)
    requires IsActive(a.department) ==> a.department == b.department
    requires a.sortBy == b.sortBy && a.sortOrder == b.sortOrder
    ensures PlanOf(a) == PlanOf(b)
  {
  }

  /** Each filter clause carries exactly one placeholder, at its end. */
  lemma ClausePlaceholder(c: Clause)
    ensures CountChar(ClauseText(c), '?') == 1
  {
    var prefix := if c == SystemEquals then " AND s.system_name = " else " AND d.department_name = ";
    assert ClauseText(c) == prefix + "?";
    assert '?' !in prefix;
    CountCharAppend(prefix, "?", '?');
  }

  /** Each appended clause adds exactly one placeholder to the SELECT text. */
  lemma {:induction false} FilteredPlaceholders(cs: seq<Clause>)
    ensures CountChar(Filtered(cs), '?') == CountChar(BaseQuery, '?') + |cs|
  {
    if |cs| > 0 {
      FilteredPlaceholders(cs[..|cs| - 1]);
      ClausePlaceholder(cs[|cs| - 1]);
      CountCharAppend(Filtered(cs[..|cs| - 1]), ClauseText(cs[|cs| - 1]), '?');
    }
  }

  /** The ORDER BY fragment carries no placeholder. */
  lemma OrderByHasNoPlaceholder(column: string, order: string)
    requires column in ValidCols.Values && order in ValidOrder
    ensures CountChar(OrderBy(column, order), '?') == 0
  {
    assert '?' !in column by {
      assert forall c :: c in ValidCols.Values ==> '?' !in c;
    }
    assert '?' !in order;
    assert '?' !in " ORDER BY " && '?' !in " " && '?' !in ", f.usage_time DESC";
  }

  /** Every placeholder the endpoint appends to the fixed SELECT text belongs
      to a filter clause with its own parameter: the placeholders of the
      statement are those of the SELECT text plus exactly one per parameter,
      so the binding lines up. */
  lemma PlaceholdersMatchParams(args: Args)
    ensures CountChar(QueryText(PlanOf(args)), '?') == CountChar(BaseQuery, '?') + |PlanOf(args).params|
  {
    var p := PlanOf(args);
    FilteredPlaceholders(p.clauses);
    OrderByHasNoPlaceholder(p.column, p.order);
    CountCharAppend(Filtered(p.clauses), OrderBy(p.column, p.order), '?');
  }

  /** The statements the endpoint can produce: one per choice of filter
      clauses, whitelisted column and order. */
  const ClauseChoices: set<seq<Clause>> := {[], [SystemEquals], [DepartmentEquals], [SystemEquals, DepartmentEquals]}

  function PossibleQueries(): (qs: set<string>)
  {
    set cs, c, o | cs in ClauseChoices && c in ValidCols.Values && o in ValidOrder
      :: Filtered(cs) + OrderBy(c, o)
  }

  /** No request text ever reaches the statement: whatever the arguments,
      the text is one of the fixed statements, and its ORDER BY fragment is
      built from whitelisted names only. */
  lemma QueryTextIsWhitelisted(args: Args)
    ensures QueryText(PlanOf(args)) in PossibleQueries()
  {
    var p := PlanOf(args);
    assert p.clauses in ClauseChoices by {
      if IsActive(args.system) && IsActive(args.department) {
        assert p.clauses == [SystemEquals, DepartmentEquals];
      } else if IsActive(args.system) {
        assert p.clauses == [SystemEquals];
      } else if IsActive(args.department) {
        assert p.clauses == [DepartmentEquals];
      } else {
        assert p.clauses == [];
      }
    }
  }

  /** Two requests that activate the same filters and resolve to the same
      sort get the same text, whatever filter values they carry. */
  lemma TextIgnoresFilterValues(a: Args, b: Args)
    requires IsActive(a.system) == IsActive(b.system)
    requires IsActive(a.department) == IsActive(b.department)
    requires SortColumn(a.sortBy) == SortColumn(b.sortBy)
    requires SortOrder(a.sortOrder) == SortOrder(b.sortOrder)
    ensures QueryText(PlanOf(a)) == QueryText(PlanOf(b))
  {
  }

  // ---------------------------------------------------------------------
  // What the statement selects
  // ---------------------------------------------------------------------

  /** One row of the result: the fact's id, the joined system and department
      names, and the fact's own columns. */
  datatype ResultRow = ResultRow(id: nat, systemName: string, departmentName: string,
                                 utilization: Option<string>, usageDate: string, usageTime: string)

  /** The inner join fact ⋈ dim_system ⋈ dim_department on the surrogate keys. */
  function Joined(sys: DimTable, dep: DimTable, facts: FactTable): (joined: set<ResultRow>)
    ensures forall x :: x in joined ==> x.systemName in sys.ids && x.departmentName in dep.ids
  {
    set f, n, m | f in facts.rows && n in sys.ids && m in dep.ids
                  && sys.ids[n] == f.row.systemId && dep.ids[m] == f.row.deptId
      :: ResultRow(f.id, n, m, f.row.util, f.row.usageDate, f.row.usageTime)
  }

  predicate HasRowFor(rows: set<ResultRow>, id: nat)
  {
    exists r :: r in rows && r.id == id
  }

  /** When every fact's system and department keys exist (as the loader
      guarantees), the join keeps every fact. */
  lemma JoinKeepsEveryFact(sys: DimTable, dep: DimTable, facts: FactTable)
    requires forall i :: 0 <= i < |facts.rows| ==>
      facts.rows[i].row.systemId in sys.ids.Values && facts.rows[i].row.deptId in dep.ids.Values
    ensures forall i :: 0 <= i < |facts.rows| ==> HasRowFor(Joined(sys, dep, facts), facts.rows[i].id)
  {
    forall i | 0 <= i < |facts.rows| ensures HasRowFor(Joined(sys, dep, facts), facts.rows[i].id) {
      var f := facts.rows[i];
      var n :| n in sys.ids && sys.ids[n] == f.row.systemId;
      var m :| m in dep.ids && dep.ids[m] == f.row.deptId;
      var r := ResultRow(f.id, n, m, f.row.util, f.row.usageDate, f.row.usageTime);
      assert r in Joined(sys, dep, facts);
    }
  }

  /** Where a joined row comes from: a fact and the dimension names whose
      keys it carries. */
  lemma JoinedOrigin(sys: DimTable, dep: DimTable, facts: FactTable, r: ResultRow) returns (i: nat, n: string, m: string)
    requires r in Joined(sys, dep, facts)
    ensures i < |facts.rows| && n in sys.ids && m in dep.ids
    ensures sys.ids[n] == facts.rows[i].row.systemId && dep.ids[m] == facts.rows[i].row.deptId
    ensures var f := facts.rows[i]; r == ResultRow(f.id, n, m, f.row.util, f.row.usageDate, f.row.usageTime)
  {
    var f: Fact;
    f, n, m :| f in facts.rows && n in sys.ids && m in dep.ids
      && sys.ids[n] == f.row.systemId && dep.ids[m] == f.row.deptId
      && r == ResultRow(f.id, n, m, f.row.util, f.row.usageDate, f.row.usageTime);
    i :| 0 <= i < |facts.rows| && facts.rows[i] == f;
  }

  /** With well-formed dimensions and distinct fact ids, the join never
      yields two rows for one fact. */
  lemma JoinHasOneRowPerFact(sys: DimTable, dep: DimTable, facts: FactTable)
    requires DimValid(sys) && DimValid(dep) && FactValid(facts)
    ensures forall r1, r2 :: r1 in Joined(sys, dep, facts) && r2 in Joined(sys, dep, facts) && r1.id == r2.id ==> r1 == r2
  {
    forall r1, r2 | r1 in Joined(sys, dep, facts) && r2 in Joined(sys, dep, facts) && r1.id == r2.id
      ensures r1 == r2
    {
      var i1, n1, m1 := JoinedOrigin(sys, dep, facts, r1);
      var i2, n2, m2 := JoinedOrigin(sys, dep, facts, r2);
      assert !(i1 < i2) && !(i2 < i1);
      assert n1 == n2 && m1 == m2;
    }
  }

  predicate ClauseHolds(r: ResultRow, c: Clause, value: string)
  {
    match c
    case SystemEquals => r.systemName == value
    case DepartmentEquals => r.departmentName == value
  }

  /** The rows of `rows` that satisfy every clause with its positionally
      bound parameter (what the WHERE part of the statement selects). */
  function Selected(rows: set<ResultRow>, p: Plan): (selected: set<ResultRow>)
    requires |p.clauses| == |p.params|
    ensures selected <= rows
    ensures |p.clauses| == 0 ==> selected == rows
  {
    set r | r in rows && forall i :: 0 <= i < |p.clauses| ==> ClauseHolds(r, p.clauses[i], p.params[i])
  }

  /** The reference meaning of the filter arguments: inactive filters match
      everything, and a row matches exactly when it satisfies every clause
      the request activates, compared against that clause's value. */
  function MatchesFilters(args: Args, r: ResultRow): (matches: bool)
    ensures !IsActive(args.system) && !IsActive(args.department) ==> matches
    ensures matches <==> forall c :: c in Clauses(args) ==> ClauseHolds(r, c, Bound(args, c))
  {
    ActiveClausesHold(args, r);
    && (IsActive(args.system) ==> r.systemName == args.system.value)
    && (IsActive(args.department) ==> r.departmentName == args.department.value)
  }

  lemma ActiveClausesHold(args: Args, r: ResultRow)
    ensures (forall c :: c in Clauses(args) ==> ClauseHolds(r, c, Bound(args, c)))
      <==> (IsActive(args.system) ==> r.systemName == args.system.value)
           && (IsActive(args.department) ==> r.departmentName == args.department.value)
  {
    if (IsActive(args.system) ==> r.systemName == args.system.value)
       && (IsActive(args.department) ==> r.departmentName == args.department.value)
    {
      forall c | c in Clauses(args) ensures ClauseHolds(r, c, Bound(args, c)) {
        match c
        case SystemEquals =>
        case DepartmentEquals =>
      }
    }
    if forall c :: c in Clauses(args) ==> ClauseHolds(r, c, Bound(args, c)) {
      if IsActive(args.system) {
        assert ClauseHolds(r, SystemEquals, Bound(args, SystemEquals));
      }
      if IsActive(args.department) {
        assert ClauseHolds(r, DepartmentEquals, Bound(args, DepartmentEquals));
      }
    }
  }

  /** The statement selects exactly the joined rows that satisfy the active
      equality filters; inactive filters select everything. */
  lemma FilterSemantics(args: Args, rows: set<ResultRow>)
    ensures Selected(rows, PlanOf(args)) == set r | r in rows && MatchesFilters(args, r)
  {
    var p := PlanOf(args);
    forall r | r in rows
      ensures (forall i :: 0 <= i < |p.clauses| ==> ClauseHolds(r, p.clauses[i], p.params[i]))
              <==> MatchesFilters(args, r)
    {
      if IsActive(args.system) {
        assert p.clauses[0] == SystemEquals && p.params[0] == args.system.value;
      }
      if IsActive(args.department) {
        var k := |p.clauses| - 1;
        assert p.clauses[k] == DepartmentEquals && p.params[k] == args.department.value;
      }
    }
  }

  // ---------------------------------------------------------------------
  // query_db
  // ---------------------------------------------------------------------

  /** The outcome of running a statement: the fetched rows, or the error the
      driver raised (connection, SQL or binding error). */
  datatype Execution = Fetched(rows: seq<ResultRow>) | Raised(message: string)

  /** `query_db`: the fetched rows, or the empty list when execution raised. */
  function QueryDb(e: Execution): (rows: seq<ResultRow>)
    ensures e.Raised? ==> rows == []
    ensures e.Fetched? ==> rows == e.rows
  {
    match e
    case Fetched(rs) => rs
    case Raised(_) => []
  }

  /** A failed statement is indistinguishable from one that matched nothing. */
  lemma ErrorLooksLikeNoMatch(message: string)
    ensures QueryDb(Raised(message)) == QueryDb(Fetched([]))
  {
  }

  /** The database answers a plan when, if it does not raise, it returns
      exactly the selected rows (in some order). */
  ghost predicate Answers(e: Execution, rows: set<ResultRow>, p: Plan)
    requires |p.clauses| == |p.params|
  {
    e.Fetched? ==> (set x | x in e.rows) == Selected(rows, p)
  }

  /** What the endpoint returns: every returned row is a joined row matching
      the active filters, and unless the database raised, every such row is
      returned. */
  lemma EndpointRows(args: Args, sys: DimTable, dep: DimTable, facts: FactTable, e: Execution)
    requires Answers(e, Joined(sys, dep, facts), PlanOf(args))
    ensures forall x :: x in QueryDb(e) ==> x in Joined(sys, dep, facts) && MatchesFilters(args, x)
    ensures e.Fetched? ==> forall x :: x in Joined(sys, dep, facts) && MatchesFilters(args, x) ==> x in QueryDb(e)
  {
    FilterSemantics(args, Joined(sys, dep, facts));
    if e.Fetched? {
      var fetched := set y | y in e.rows;
      assert fetched == set r | r in Joined(sys, dep, facts) && MatchesFilters(args, r);
      forall x | x in Joined(sys, dep, facts) && MatchesFilters(args, x) ensures x in QueryDb(e) {
        assert x in fetched;
      }
      forall x | x in QueryDb(e) ensures x in Joined(sys, dep, facts) && MatchesFilters(args, x) {
        assert x in fetched;
      }
    }
  }
}
