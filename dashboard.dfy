/** The dashboard's sort controls: two page-level variables hold the current
    sort column and order, a click on one of the five table headers toggles
    or resets them, and every reload asks the filter endpoint for the
    current sort and the selected system and department. */
module Dashboard {
  import opened Common
  import Query

  const ApiBase := "http://127.0.0.1:5000"
  const FilterPath := "/utilization/filter?"

  /** The current sort column and order. */
  datatype SortState = SortState(column: string, order: string)

  /** The state the page starts in: newest readings first. */
  const InitialState := SortState("usage_date", "DESC")

  /** One header click: the clicked column becomes (or stays) the current
      column; clicking the current column flips the order, clicking another
      one starts it descending. */
  function Click(s: SortState, column: string): (t: SortState)
    ensures t.column == column
    ensures t.order == "ASC" || t.order == "DESC"
    ensures column != s.column ==> t.order == "DESC"
    ensures column == s.column && (s.order == "ASC" || s.order == "DESC") ==> t.order != s.order
  {
    if column == s.column then SortState(s.column, if s.order == "ASC" then "DESC" else "ASC")
    else SortState(column, "DESC")
  }

  /** Clicking the current column twice gives back the state before the
      clicks; clicking another column twice leaves it ascending. */
  lemma ClickTwice(s: SortState, column: string)
    requires s.order == "ASC" || s.order == "DESC"
    ensures column == s.column ==> Click(Click(s, column), column) == s
    ensures column != s.column ==> Click(Click(s, column), column) == SortState(column, "ASC")
  {
  }

  /** The column a header click sorts on, by the header's position; headers
      past the fifth get no click handler. */
  function HeaderColumn(index: int): (c: Option<string>)
    ensures c.Some? <==> 0 <= index < 5
    ensures c.Some? ==> c.value in Query.ValidCols
  {
    match index
    case 0 => Some("system_name")
    case 1 => Some("department_name")
    case 2 => Some("utilization_pct")
    case 3 => Some("usage_date")
    case 4 => Some("usage_time")
    case _ => None
  }

  /** The five clickable headers name exactly the server's five sortable
      columns, one each. */
  lemma HeadersCoverSortableColumns()
    ensures (set i | 0 <= i < 5 :: HeaderColumn(i).value) == Query.ValidCols.Keys
    ensures forall i, j :: 0 <= i < j < 5 ==> HeaderColumn(i) != HeaderColumn(j)
  {
    assert HeaderColumn(0).value == "system_name";
    assert HeaderColumn(1).value == "department_name";
    assert HeaderColumn(2).value == "utilization_pct";
    assert HeaderColumn(3).value == "usage_date";
    assert HeaderColumn(4).value == "usage_time";
  }

  /** The state after clicks on the headers at the given positions, in order;
      a click on a header without a handler changes nothing. The current
      column is the last clicked header that has a handler, and the page
      keeps its initial state until one is clicked. */
  function AfterClicks(indices: seq<int>): (s: SortState)
    ensures |indices| > 0 && HeaderColumn(indices[|indices| - 1]).Some? ==>
      s.column == HeaderColumn(indices[|indices| - 1]).value
    ensures (forall k :: 0 <= k < |indices| ==> HeaderColumn(indices[k]).None?) ==> s == InitialState
  {
    if |indices| == 0 then InitialState
    else
      var s := AfterClicks(indices[..|indices| - 1]);
      match HeaderColumn(indices[|indices| - 1])
      case None => s
      case Some(c) => Click(s, c)
  }

  /** The current column is that of the last clicked header that has a
      handler, whatever unhandled clicks follow it. */
  lemma {:induction false} LastHandledClickSetsColumn(indices: seq<int>, k: nat)
    requires k < |indices| && HeaderColumn(indices[k]).Some?
    requires forall j :: k < j < |indices| ==> HeaderColumn(indices[j]).None?
    ensures AfterClicks(indices).column == HeaderColumn(indices[k]).value
    decreases |indices|
  {
    if k < |indices| - 1 {
      var init := indices[..|indices| - 1];
      assert init[k] == indices[k];
      forall j | k < j < |init| ensures HeaderColumn(init[j]).None? {
        assert init[j] == indices[j];
      }
      LastHandledClickSetsColumn(init, k);
    }
  }

  /** Whatever headers are clicked, the current column is one the server
      whitelists and the order is "ASC" or "DESC". */
  lemma {:induction false} ClicksStayWhitelisted(indices: seq<int>)
    ensures AfterClicks(indices).column in Query.ValidCols
    ensures AfterClicks(indices).order in Query.ValidOrder
  {
    if |indices| > 0 {
      ClicksStayWhitelisted(indices[..|indices| - 1]);
    } else {
      assert "usage_date" in Query.ValidCols;
    }
  }

  // ---------------------------------------------------------------------
  // The request URL
  // ---------------------------------------------------------------------

  /** The fixed part of the sort arguments, as the reload's template
      writes it. */
  function SortArgs(column: string, order: string): string
  {
    "sort_by=" + column + "&sort_order=" + order + "&"
  }

  /** The query string a reload sends: the sort always, then the selected
      system and the selected department when they are not empty. */
  function QueryString(s: SortState, sys: string, dep: string): (q: string)
    ensures SortArgs(s.column, s.order) <= q
    ensures sys == "" && dep == "" ==> q == SortArgs(s.column, s.order)
    ensures dep != "" ==> |q| >= |"department=" + dep| && q[|q| - |"department=" + dep|..] == "department=" + dep
  {
    var withSort := SortArgs(s.column, s.order);
    var withSystem := if sys != "" then withSort + ("system=" + sys + "&") else withSort;
    if dep != "" then withSystem + ("department=" + dep) else withSystem
  }

  /** The request URL: the endpoint's address, then the query string. */
  function Endpoint(s: SortState, sys: string, dep: string): (url: string)
    ensures ApiBase + FilterPath + SortArgs(s.column, s.order) <= url
    ensures sys == "" && dep == "" ==> url == ApiBase + FilterPath + SortArgs(s.column, s.order)
  {
    ApiBase + FilterPath + QueryString(s, sys, dep)
  }

  /** The page's two sort variables, updated in place by header clicks. */
  class SortControl {
    var currentSortColumn: string
    var currentSortOrder: string

    function State(): SortState
      reads this
    {
      SortState(currentSortColumn, currentSortOrder)
    }

    constructor()
      ensures State() == InitialState
    {
      currentSortColumn := "usage_date";
      currentSortOrder := "DESC";
    }

    /** The reload's URL, built by successive appends from the current sort
        and the two selections. */
    method LoadDataEndpoint(sys: string, dep: string) returns (endpoint: string)
      ensures endpoint == Endpoint(State(), sys, dep)
    {
      endpoint := ApiBase + FilterPath;
      endpoint := endpoint + ("sort_by=" + currentSortColumn + "&sort_order=" + currentSortOrder + "&");
      if sys != "" {
        endpoint := endpoint + ("system=" + sys + "&");
      }
      if dep != "" {
        endpoint := endpoint + ("department=" + dep);
      }
    }

    /** A header click: update the two variables, then reload. */
    method HandleSortClick(column: string, sys: string, dep: string) returns (endpoint: string)
      modifies this
      ensures State() == Click(old(State()), column)
      ensures endpoint == Endpoint(State(), sys, dep)
    {
      if column == currentSortColumn {
        currentSortOrder := if currentSortOrder == "ASC" then "DESC" else "ASC";
      } else {
        currentSortColumn := column;
        currentSortOrder := "DESC";
      }
      endpoint := LoadDataEndpoint(sys, dep);
    }
  }

  // ---------------------------------------------------------------------
  // How the server reads the query string
  // ---------------------------------------------------------------------

  /** Position of the first `c` in `s`. */
  function IndexOf(s: string, c: char): (i: nat)
    requires c in s
    ensures i < |s| && s[i] == c && c !in s[..i]
  {
    if s[0] == c then 0 else IndexOf(s[1..], c) + 1
  }

  /** Splitting on a separator character, as `str.split(sep)`. */
  function Split(s: string, sep: char): (parts: seq<string>)
    ensures |parts| >= 1
    ensures forall k :: 0 <= k < |parts| ==> sep !in parts[k]
    decreases |s|
  {
    if sep !in s then [s]
    else
      var i := IndexOf(s, sep);
      [s[..i]] + Split(s[i + 1..], sep)
  }

  /** The parts joined back with the separator. */
  function Join(parts: seq<string>, sep: char): string
  {
    if |parts| == 0 then "" else if |parts| == 1 then parts[0] else parts[0] + [sep] + Join(parts[1..], sep)
  }

  /** Splitting loses nothing: joining the parts gives the string back. */
  lemma {:induction false} SplitJoin(s: string, sep: char)
    ensures Join(Split(s, sep), sep) == s
    decreases |s|
  {
    if sep in s {
      var i := IndexOf(s, sep);
      var rest := Split(s[i + 1..], sep);
      SplitJoin(s[i + 1..], sep);
      var parts := [s[..i]] + rest;
      assert parts[0] == s[..i] && parts[1..] == rest;
      assert Join(parts, sep) == s[..i] + [sep] + Join(rest, sep);
      assert s == s[..i] + [sep] + s[i + 1..];
    }
  }

  /** IndexOf finds the first occurrence and no other. */
  lemma IndexOfFirst(s: string, c: char, j: nat)
    requires j < |s| && s[j] == c && c !in s[..j]
    ensures IndexOf(s, c) == j
  {
    var i := IndexOf(s, c);
    forall k | 0 <= k < j ensures s[k] != c {
      assert s[k] == s[..j][k];
    }
    forall k | 0 <= k < i ensures s[k] != c {
      assert s[k] == s[..i][k];
    }
  }

  /** A first part without the separator splits off as its own part. */
  lemma SplitFirst(a: string, b: string, sep: char)
    requires sep !in a
    ensures Split(a + [sep] + b, sep) == [a] + Split(b, sep)
  {
    var s := a + [sep] + b;
    assert s[..|a|] == a;
    IndexOfFirst(s, sep, |a|);
    assert s[|a| + 1..] == b;
  }

  /** The key of a `key=value` pair: the text before the first `=`, or the
      whole pair when it has none. */
  function PairKey(p: string): string
  {
    if '=' in p then p[..IndexOf(p, '=')] else p
  }

  /** The value of a pair: the text after the first `=`, or empty. */
  function PairValue(p: string): (v: string)
    ensures forall c :: c in v ==> c in p
  {
    if '=' in p then p[IndexOf(p, '=') + 1..] else ""
  }

  lemma PairParts(k: string, v: string)
    requires '=' !in k
    ensures PairKey(k + "=" + v) == k && PairValue(k + "=" + v) == v
  {
    var p := k + "=" + v;
    assert p[..|k|] == k;
    IndexOfFirst(p, '=', |k|);
    assert p[|k| + 1..] == v;
  }

  /** The first value given for `key`; empty parts are skipped (the server's
      `request.args.get`, which takes the first occurrence). */
  function Lookup(parts: seq<string>, key: string): (r: Option<string>)
    ensures r.Some? ==> exists k :: (0 <= k < |parts| && parts[k] != "" && PairKey(parts[k]) == key
      && r.value == PairValue(parts[k]))
    ensures r.None? <==> forall k :: 0 <= k < |parts| ==> parts[k] == "" || PairKey(parts[k]) != key
  {
    if |parts| == 0 then None
    else if parts[0] != "" && PairKey(parts[0]) == key then Some(PairValue(parts[0]))
    else Lookup(parts[1..], key)
  }

  /** Lookup gives the value of the first non-empty pair with the key. */
  lemma {:induction false} LookupIsFirstMatch(parts: seq<string>, key: string, k: nat)
    requires k < |parts| && parts[k] != "" && PairKey(parts[k]) == key
    requires forall j :: 0 <= j < k ==> parts[j] == "" || PairKey(parts[j]) != key
    ensures Lookup(parts, key) == Some(PairValue(parts[k]))
  {
    if k > 0 {
      assert parts[1..][k - 1] == parts[k];
      forall j | 0 <= j < k - 1 ensures parts[1..][j] == "" || PairKey(parts[1..][j]) != key {
        assert parts[1..][j] == parts[j + 1];
      }
      LookupIsFirstMatch(parts[1..], key, k - 1);
    }
  }

  /** The four arguments the filter endpoint reads from a query string. An
      empty query string carries none, and no value read back holds the pair
      separator. */
  function ParseArgs(qs: string): (a: Query.Args)
    ensures qs == "" ==> a == Query.Args(None, None, None, None)
    ensures a.system.Some? ==> '&' !in a.system.value
    ensures a.department.Some? ==> '&' !in a.department.value
    ensures a.sortBy.Some? ==> '&' !in a.sortBy.value
    ensures a.sortOrder.Some? ==> '&' !in a.sortOrder.value
  {
    var parts := Split(qs, '&');
    Query.Args(Lookup(parts, "system"), Lookup(parts, "department"),
               Lookup(parts, "sort_by"), Lookup(parts, "sort_order"))
  }

  /** A value travels through the query string unchanged when it holds no
      pair separator and nothing the server would decode. */
  predicate PlainValue(v: string)
  {
    '&' !in v && '%' !in v && '+' !in v && '#' !in v
  }

  function NonEmpty(v: string): Option<string>
  {
    if v == "" then None else Some(v)
  }

  function Pair(key: string, value: string): string
  {
    key + "=" + value
  }

  /** The pairs of the query string a reload sends, in order. An empty
      last part remains when the string ends with `&`. */
  function SentParts(s: SortState, sys: string, dep: string): seq<string>
  {
    [Pair("sort_by", s.column), Pair("sort_order", s.order)]
    + (if sys != "" then [Pair("system", sys)] else [])
    + (if dep != "" then [Pair("department", dep)] else [""])
  }

  /** Two leading parts without the separator split off in order. */
  lemma SplitTwo(a: string, b: string, rest: string, sep: char)
    requires sep !in a && sep !in b
    ensures Split(a + [sep] + b + [sep] + rest, sep) == [a, b] + Split(rest, sep)
  {
    assert a + [sep] + b + [sep] + rest == a + [sep] + (b + [sep] + rest);
    SplitFirst(a, b + [sep] + rest, sep);
    SplitFirst(b, rest, sep);
  }

  /** The optional filter pieces split into their pairs, with a trailing
      empty part unless the department closes the string. */
  lemma SplitFilterPart(p3: string, p4: string, hasSys: bool, hasDep: bool)
    requires '&' !in p3 && '&' !in p4
    ensures Split((if hasSys then p3 + "&" else "") + (if hasDep then p4 else ""), '&')
            == (if hasSys then [p3] else []) + (if hasDep then [p4] else [""])
  {
    var depPart := if hasDep then p4 else "";
    var tail := if hasDep then [p4] else [""];
    assert Split(depPart, '&') == tail;
    if hasSys {
      assert (p3 + "&") + depPart == p3 + ['&'] + depPart;
      SplitFirst(p3, depPart, '&');
    } else {
      assert "" + depPart == depPart;
    }
  }

  /** The shape of the query string, with its pieces left abstract. */
  lemma SplitShape(p1: string, p2: string, p3: string, p4: string, hasSys: bool, hasDep: bool)
    requires '&' !in p1 && '&' !in p2 && '&' !in p3 && '&' !in p4
    ensures var withSystem := if hasSys then p1 + "&" + p2 + "&" + (p3 + "&") else p1 + "&" + p2 + "&";
      var q := if hasDep then withSystem + p4 else withSystem;
      Split(q, '&') == [p1, p2] + (if hasSys then [p3] else []) + (if hasDep then [p4] else [""])
  {
    var filters := (if hasSys then p3 + "&" else "") + (if hasDep then p4 else "");
    var withSystem := if hasSys then p1 + "&" + p2 + "&" + (p3 + "&") else p1 + "&" + p2 + "&";
    var q := if hasDep then withSystem + p4 else withSystem;
    assert q == p1 + ['&'] + p2 + ['&'] + filters;
    SplitTwo(p1, p2, filters, '&');
    SplitFilterPart(p3, p4, hasSys, hasDep);
  }

  lemma SplitQueryString(s: SortState, sys: string, dep: string)
    requires PlainValue(s.column) && PlainValue(s.order) && PlainValue(sys) && PlainValue(dep)
    ensures Split(QueryString(s, sys, dep), '&') == SentParts(s, sys, dep)
  {
    var p1 := Pair("sort_by", s.column);
    var p2 := Pair("sort_order", s.order);
    var p3 := Pair("system", sys);
    var p4 := Pair("department", dep);
    assert SortArgs(s.column, s.order) == p1 + "&" + p2 + "&";
    assert "system=" + sys + "&" == p3 + "&";
    assert "department=" + dep == p4;
    assert '&' !in p1 && '&' !in p2 && '&' !in p3 && '&' !in p4;
    SplitShape(p1, p2, p3, p4, sys != "", dep != "");
  }

  /** Lookup past a pair with another key, or at a pair with the key. */
  lemma LookupCons(p: string, rest: seq<string>, key: string)
    ensures Lookup([p] + rest, key) == if p != "" && PairKey(p) == key then Some(PairValue(p)) else Lookup(rest, key)
  {
    assert ([p] + rest)[1..] == rest;
  }

  /** The two sort pairs come first, so their keys are found there, and any
      other key is looked up in what follows. */
  lemma LookupSortPairs(k1: string, k2: string, v1: string, v2: string, mid: seq<string>, key: string)
    requires '=' !in k1 && '=' !in k2 && k1 != k2
    ensures Lookup([Pair(k1, v1), Pair(k2, v2)] + mid, k1) == Some(v1)
    ensures Lookup([Pair(k1, v1), Pair(k2, v2)] + mid, k2) == Some(v2)
    ensures key != k1 && key != k2 ==> Lookup([Pair(k1, v1), Pair(k2, v2)] + mid, key) == Lookup(mid, key)
  {
    PairParts(k1, v1);
    PairParts(k2, v2);
    var parts := [Pair(k1, v1), Pair(k2, v2)] + mid;
    assert parts == [Pair(k1, v1)] + ([Pair(k2, v2)] + mid);
    LookupCons(Pair(k1, v1), [Pair(k2, v2)] + mid, k1);
    LookupCons(Pair(k1, v1), [Pair(k2, v2)] + mid, k2);
    LookupCons(Pair(k1, v1), [Pair(k2, v2)] + mid, key);
    LookupCons(Pair(k2, v2), mid, k2);
    LookupCons(Pair(k2, v2), mid, key);
  }

  /** The optional filter pairs: each key is found exactly when its pair was
      sent; the empty trailing part matches no key. */
  lemma LookupFilterPairs(k3: string, k4: string, v3: string, v4: string, hasSys: bool, hasDep: bool)
    requires '=' !in k3 && '=' !in k4 && k3 != k4 && k3 != "" && k4 != ""
    ensures var mid := (if hasSys then [Pair(k3, v3)] else []) + (if hasDep then [Pair(k4, v4)] else [""]);
      && Lookup(mid, k3) == (if hasSys then Some(v3) else None)
      && Lookup(mid, k4) == (if hasDep then Some(v4) else None)
  {
    PairParts(k3, v3);
    PairParts(k4, v4);
    var last := if hasDep then [Pair(k4, v4)] else [""];
    assert last == [last[0]] + [];
    assert PairKey("") == "";
    LookupCons(last[0], [], k3);
    LookupCons(last[0], [], k4);
    if hasSys {
      LookupCons(Pair(k3, v3), last, k3);
      LookupCons(Pair(k3, v3), last, k4);
    } else {
      assert [] + last == last;
    }
  }

  /** The server reads back exactly what the dashboard sent: the current
      sort, and a system or department exactly when one is selected. */
  lemma ServerReadsDashboardRequest(s: SortState, sys: string, dep: string)
    requires PlainValue(s.column) && PlainValue(s.order) && PlainValue(sys) && PlainValue(dep)
    ensures ParseArgs(QueryString(s, sys, dep)) == Query.Args(NonEmpty(sys), NonEmpty(dep), Some(s.column), Some(s.order))
  {
    SplitQueryString(s, sys, dep);
    assert '=' !in "sort_by" && '=' !in "sort_order" && '=' !in "system" && '=' !in "department";
    var mid := (if sys != "" then [Pair("system", sys)] else []) + (if dep != "" then [Pair("department", dep)] else [""]);
    assert SentParts(s, sys, dep) == [Pair("sort_by", s.column), Pair("sort_order", s.order)] + mid;
    LookupSortPairs("sort_by", "sort_order", s.column, s.order, mid, "system");
    LookupSortPairs("sort_by", "sort_order", s.column, s.order, mid, "department");
    LookupFilterPairs("system", "department", sys, dep, sys != "", dep != "");
  }

  /** The sortable names and both orders travel through the query string
      unchanged. */
  lemma WhitelistIsPlain()
    ensures forall c :: c in Query.ValidCols ==> PlainValue(c)
    ensures forall o :: o in Query.ValidOrder ==> PlainValue(o)
  {
    assert PlainValue("system_name");
    assert PlainValue("department_name");
    assert PlainValue("utilization_pct");
    assert PlainValue("usage_date");
    assert PlainValue("usage_time");
    assert Query.ValidCols.Keys == {"system_name", "department_name", "utilization_pct", "usage_date", "usage_time"};
    assert PlainValue("ASC") && PlainValue("DESC");
  }

  /** End to end: after any sequence of header clicks, the server sorts on
      the whitelisted column the dashboard shows as current, in the order
      it shows, reads back exactly the selections it sent, and filters on a
      selection exactly when it is neither empty nor the text "null". */
  lemma ServerHonoursDashboardSort(indices: seq<int>, sys: string, dep: string)
    requires PlainValue(sys) && PlainValue(dep)
    ensures var s := AfterClicks(indices);
      var a := ParseArgs(QueryString(s, sys, dep));
      && s.column in Query.ValidCols
      && Query.SortColumn(a.sortBy) == Query.ValidCols[s.column]
      && Query.SortOrder(a.sortOrder) == s.order
      && a.system == NonEmpty(sys) && a.department == NonEmpty(dep)
      && (Query.SystemEquals in Query.Clauses(a) <==> sys != "" && sys != "null")
      && (Query.DepartmentEquals in Query.Clauses(a) <==> dep != "" && dep != "null")
  {
    var s := AfterClicks(indices);
    ClicksStayWhitelisted(indices);
    WhitelistIsPlain();
    ServerReadsDashboardRequest(s, sys, dep);
  }
}
