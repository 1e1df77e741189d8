/** The four warehouse tables as values, and the SQL statements the loader
    runs against them (INSERT OR IGNORE, SELECT by natural key). Each table
    keeps an AUTOINCREMENT counter: the next surrogate key it will hand out.
    A freshly created table starts that counter at 1. */
module Schema {
  import opened Common

  // ---------------------------------------------------------------------
  // dim_system and dim_department: an AUTOINCREMENT key and a UNIQUE name
  // ---------------------------------------------------------------------

  /** A dimension table: natural key (the UNIQUE name) to surrogate key. */
  datatype DimTable = DimTable(ids: map<string, nat>, next: nat)

  const EmptyDim := DimTable(map[], 1)

  /** Keys are below the AUTOINCREMENT counter, at least 1, and no two names
      share a key (the key is the PRIMARY KEY). */
  ghost predicate DimValid(t: DimTable)
  {
    && t.next >= 1
    && (forall n :: n in t.ids ==> 1 <= t.ids[n] < t.next)
    && (forall n, m :: n in t.ids && m in t.ids && n != m ==> t.ids[n] != t.ids[m])
  }

  /** INSERT OR IGNORE INTO dim_x(name) VALUES (?): a present name is ignored,
      a new one gets the next AUTOINCREMENT key; existing rows never change. */
  function DimInsertOrIgnore(t: DimTable, name: string): (r: DimTable)
    ensures r.ids.Keys == t.ids.Keys + {name}
    ensures forall n :: n in t.ids ==> r.ids[n] == t.ids[n]
    ensures name in t.ids ==> r == t
    ensures name !in t.ids ==> r.ids[name] == t.next && r.next == t.next + 1
  {
    if name in t.ids then t else DimTable(t.ids[name := t.next], t.next + 1)
  }

  /** SELECT x_id FROM dim_x WHERE name = ?, then fetchone(). */
  function DimSelect(t: DimTable, name: string): (r: Option<nat>)
    ensures r.Some? <==> name in t.ids
    ensures r.Some? ==> r.value == t.ids[name]
  {
    if name in t.ids then Some(t.ids[name]) else None
  }

  /** Insert-or-ignore keeps the table well formed, and a newly inserted row's
      key is fresh: no existing row has it. */
  lemma DimInsertKeepsValid(t: DimTable, name: string)
    requires DimValid(t)
    ensures DimValid(DimInsertOrIgnore(t, name))
    ensures name !in t.ids ==> DimInsertOrIgnore(t, name).ids[name] !in t.ids.Values
  {
    var r := DimInsertOrIgnore(t, name);
    if name !in t.ids {
      forall n | n in t.ids ensures r.ids[n] != r.ids[name] {
        assert t.ids[n] < t.next;
      }
    }
  }

  /** get-or-create as the loader runs it: insert-or-ignore, then select. The
      select always finds the name, the key it finds is the one the name
      already had if it was present (and then the table is unchanged),
      otherwise a key no existing row uses. */
  lemma DimGetOrCreate(t: DimTable, name: string)
    requires DimValid(t)
    ensures var r := DimInsertOrIgnore(t, name);
      && DimSelect(r, name).Some?
      && (name in t.ids ==> r == t && DimSelect(r, name).value == t.ids[name])
      && (name !in t.ids ==> DimSelect(r, name).value !in t.ids.Values && |r.ids| == |t.ids| + 1)
  {
    DimInsertKeepsValid(t, name);
  }

  /** The dimension-building loop `for s in names: get_or_create(s)`, as a fold. */
  function DimInsertAll(t: DimTable, names: seq<string>): (r: DimTable)
    ensures t.ids.Keys <= r.ids.Keys
    ensures r.next >= t.next
    decreases |names|
  {
    if |names| == 0 then t else DimInsertAll(DimInsertOrIgnore(t, names[0]), names[1..])
  }

  /** The loop keeps the table well formed and keeps every old key. */
  lemma {:induction false} DimInsertAllValid(t: DimTable, names: seq<string>)
    requires DimValid(t)
    ensures DimValid(DimInsertAll(t, names))
    ensures t.ids.Keys <= DimInsertAll(t, names).ids.Keys
    ensures forall n :: n in t.ids ==> DimInsertAll(t, names).ids[n] == t.ids[n]
    decreases |names|
  {
    if |names| > 0 {
      DimInsertKeepsValid(t, names[0]);
      DimInsertAllValid(DimInsertOrIgnore(t, names[0]), names[1..]);
    }
  }

  /** After the loop the table holds exactly the names it held before plus
      the names of the loop. */
  lemma {:induction false} DimInsertAllKeys(t: DimTable, names: seq<string>)
    ensures DimInsertAll(t, names).ids.Keys == t.ids.Keys + (set n | n in names)
    decreases |names|
  {
    if |names| > 0 {
      DimInsertAllKeys(DimInsertOrIgnore(t, names[0]), names[1..]);
      assert (set n | n in names) == {names[0]} + set n | n in names[1..] by {
        assert names == [names[0]] + names[1..];
      }
    }
  }

  /** After the loop the table holds exactly the names it held before plus
      the names of the loop, keeps every old key, and stays well formed. */
  lemma DimInsertAllContents(t: DimTable, names: seq<string>)
    requires DimValid(t)
    ensures var r := DimInsertAll(t, names);
      && DimValid(r)
      && r.ids.Keys == t.ids.Keys + (set n | n in names)
      && (forall n :: n in t.ids ==> r.ids[n] == t.ids[n])
  {
    DimInsertAllValid(t, names);
    DimInsertAllKeys(t, names);
  }

  // ---------------------------------------------------------------------
  // dim_date: AUTOINCREMENT key, usage_date UNIQUE, usage_time UNIQUE
  // ---------------------------------------------------------------------

  /** The values one dim_date insert carries. */
  datatype DateValue = DateValue(date: string, time: string, year: int, month: int, day: int, hour: int)

  datatype DateRow = DateRow(key: nat, value: DateValue)

  datatype DateTable = DateTable(rows: seq<DateRow>, next: nat)

  const EmptyDates := DateTable([], 1)

  /** The two UNIQUE constraints are independent: no two rows share a date,
      and no two rows share a time, whatever their dates. */
  ghost predicate DateValid(t: DateTable)
  {
    && t.next >= 1
    && (forall i :: 0 <= i < |t.rows| ==> 1 <= t.rows[i].key < t.next)
    && (forall i, j :: 0 <= i < j < |t.rows| ==> t.rows[i].key != t.rows[j].key)
    && (forall i, j :: 0 <= i < j < |t.rows| ==> t.rows[i].value.date != t.rows[j].value.date)
    && (forall i, j :: 0 <= i < j < |t.rows| ==> t.rows[i].value.time != t.rows[j].value.time)
  }

  predicate HasDate(rows: seq<DateRow>, d: string)
  {
    exists i :: 0 <= i < |rows| && rows[i].value.date == d
  }

  predicate HasTime(rows: seq<DateRow>, tm: string)
  {
    exists i :: 0 <= i < |rows| && rows[i].value.time == tm
  }

  /** INSERT OR IGNORE INTO dim_date: the row is ignored when EITHER its date
      or its time is already present, otherwise it is appended with the next
      key. */
  function DateInsertOrIgnore(t: DateTable, v: DateValue): (r: DateTable)
    ensures HasDate(t.rows, v.date) || HasTime(t.rows, v.time) ==> r == t
    ensures !HasDate(t.rows, v.date) && !HasTime(t.rows, v.time) ==>
      r.rows == t.rows + [DateRow(t.next, v)] && r.next == t.next + 1
  {
    if HasDate(t.rows, v.date) || HasTime(t.rows, v.time) then t
    else DateTable(t.rows + [DateRow(t.next, v)], t.next + 1)
  }

  /** SELECT date_key FROM dim_date WHERE usage_date = ?, then fetchone():
      the key of the first row with that date, if any. */
  function DateSelect(rows: seq<DateRow>, d: string): (r: Option<nat>)
    ensures r.Some? <==> HasDate(rows, d)
    ensures r.Some? ==> exists i :: 0 <= i < |rows| && rows[i].value.date == d && rows[i].key == r.value
  {
    if |rows| == 0 then None
    else if rows[0].value.date == d then Some(rows[0].key)
    else
      var r := DateSelect(rows[1..], d);
      assert HasDate(rows[1..], d) ==> HasDate(rows, d) by {
        if HasDate(rows[1..], d) {
          var i :| 0 <= i < |rows[1..]| && rows[1..][i].value.date == d;
          assert rows[i + 1].value.date == d;
        }
      }
      assert HasDate(rows, d) ==> HasDate(rows[1..], d) by {
        if HasDate(rows, d) {
          var i :| 0 <= i < |rows| && rows[i].value.date == d;
          assert rows[1..][i - 1].value.date == d;
        }
      }
      if r.Some? then
        assert exists i :: 0 <= i < |rows| && rows[i].value.date == d && rows[i].key == r.value by {
          var i :| 0 <= i < |rows[1..]| && rows[1..][i].value.date == d && rows[1..][i].key == r.value;
          assert rows[i + 1] == rows[1..][i];
        }
        r
      else r
  }

  /** Insert-or-ignore keeps both UNIQUE constraints and the key discipline. */
  lemma DateInsertKeepsValid(t: DateTable, v: DateValue)
    requires DateValid(t)
    ensures DateValid(DateInsertOrIgnore(t, v))
  {
    var r := DateInsertOrIgnore(t, v);
    if !HasDate(t.rows, v.date) && !HasTime(t.rows, v.time) {
      var n := |t.rows|;
      forall i | 0 <= i < n ensures r.rows[i].value.date != r.rows[n].value.date
        && r.rows[i].value.time != r.rows[n].value.time && r.rows[i].key != r.rows[n].key
      {
        assert r.rows[i] == t.rows[i];
      }
    }
  }

  /** In a valid table the first row with a date is the only one. */
  lemma DateSelectUnique(t: DateTable, d: string, i: int)
    requires DateValid(t)
    requires 0 <= i < |t.rows| && t.rows[i].value.date == d
    ensures DateSelect(t.rows, d) == Some(t.rows[i].key)
  {
    var k :| 0 <= k < |t.rows| && t.rows[k].value.date == d && t.rows[k].key == DateSelect(t.rows, d).value;
    assert !(k < i) && !(i < k);
  }

  /** In a valid table two present dates select the same key exactly when
      they are the same date. */
  lemma DateSelectInjective(t: DateTable, d1: string, d2: string)
    requires DateValid(t) && HasDate(t.rows, d1) && HasDate(t.rows, d2)
    ensures DateSelect(t.rows, d1) == DateSelect(t.rows, d2) <==> d1 == d2
  {
    var i :| 0 <= i < |t.rows| && t.rows[i].value.date == d1;
    var j :| 0 <= j < |t.rows| && t.rows[j].value.date == d2;
    DateSelectUnique(t, d1, i);
    DateSelectUnique(t, d2, j);
    assert i != j ==> t.rows[i].key != t.rows[j].key;
  }

  /** get_or_create_date: insert-or-ignore, then select by date alone. The
      lookup fails exactly when the date is new but its time is already
      taken by another date; when it succeeds it returns the key of the one
      row with that date, which holds the caller's time only if that row was
      just created or already held it. */
  lemma DateGetOrCreate(t: DateTable, v: DateValue)
    requires DateValid(t)
    ensures var r := DateInsertOrIgnore(t, v);
      && (DateSelect(r.rows, v.date).None? <==> !HasDate(t.rows, v.date) && HasTime(t.rows, v.time))
      && (!HasDate(t.rows, v.date) && !HasTime(t.rows, v.time) ==> DateSelect(r.rows, v.date) == Some(t.next))
      && (HasDate(t.rows, v.date) ==> r == t && DateSelect(r.rows, v.date) == DateSelect(t.rows, v.date))
  {
    var r := DateInsertOrIgnore(t, v);
    DateInsertKeepsValid(t, v);
    if !HasDate(t.rows, v.date) && !HasTime(t.rows, v.time) {
      DateSelectUnique(r, v.date, |t.rows|);
    }
  }

  /** The date-dimension loop over the distinct (date, time, year, month, day,
      hour) tuples. It stops at the first tuple whose lookup fails (the loader
      then dies with a TypeError on `fetchone()[0]`); the flag says whether it
      got through, and the table is the state at that point. */
  datatype DateLoad = DateLoad(table: DateTable, ok: bool)

  function DateInsertAll(t: DateTable, vs: seq<DateValue>): (r: DateLoad)
    ensures t.rows <= r.table.rows
    ensures |r.table.rows| - |t.rows| <= |vs|
    ensures vs == [] ==> r.ok && r.table == t
    decreases |vs|
  {
    if |vs| == 0 then DateLoad(t, true)
    else
      var t' := DateInsertOrIgnore(t, vs[0]);
      if DateSelect(t'.rows, vs[0].date).None? then DateLoad(t', false)
      else DateInsertAll(t', vs[1..])
  }

  /** The loop keeps the table valid, never drops a row, and when it gets
      through, every date of the loop has a row. */
  lemma {:induction false} DateInsertAllContents(t: DateTable, vs: seq<DateValue>)
    requires DateValid(t)
    ensures var r := DateInsertAll(t, vs);
      && DateValid(r.table)
      && t.rows <= r.table.rows
      && (r.ok ==> forall k :: 0 <= k < |vs| ==> HasDate(r.table.rows, vs[k].date))
    decreases |vs|
  {
    if |vs| > 0 {
      var t' := DateInsertOrIgnore(t, vs[0]);
      DateInsertKeepsValid(t, vs[0]);
      if DateSelect(t'.rows, vs[0].date).Some? {
        DateInsertAllContents(t', vs[1..]);
        var r := DateInsertAll(t', vs[1..]);
        if r.ok {
          forall k | 0 <= k < |vs| ensures HasDate(r.table.rows, vs[k].date) {
            if k == 0 {
              var i :| 0 <= i < |t'.rows| && t'.rows[i].value.date == vs[0].date;
              assert r.table.rows[i] == t'.rows[i];
            } else {
              assert vs[k] == vs[1..][k - 1];
            }
          }
        }
      }
    }
  }

  /** Every time-of-day value belongs to a single date among `vs`. */
  ghost predicate TimeDeterminesDate(vs: seq<DateValue>)
  {
    forall i, j :: 0 <= i < |vs| && 0 <= j < |vs| && vs[i].time == vs[j].time ==> vs[i].date == vs[j].date
  }

  /** The date loop gets through whenever no time of day occurs on two dates,
      provided every row already in the table also comes from `vs`. */
  lemma {:induction false} DateInsertAllSucceeds(t: DateTable, vs: seq<DateValue>, all: seq<DateValue>)
    requires TimeDeterminesDate(all)
    requires forall i :: 0 <= i < |t.rows| ==> t.rows[i].value in all
    requires forall k :: 0 <= k < |vs| ==> vs[k] in all
    ensures DateInsertAll(t, vs).ok
    decreases |vs|
  {
    if |vs| > 0 {
      var v := vs[0];
      var t' := DateInsertOrIgnore(t, v);
      if HasTime(t.rows, v.time) {
        var i :| 0 <= i < |t.rows| && t.rows[i].value.time == v.time;
        var a :| 0 <= a < |all| && all[a] == t.rows[i].value;
        var b :| 0 <= b < |all| && all[b] == v;
        assert t.rows[i].value.date == v.date;
      }
      assert HasDate(t'.rows, v.date) by {
        if !HasDate(t.rows, v.date) && !HasTime(t.rows, v.time) {
          assert t'.rows[|t.rows|].value == v;
        }
      }
      forall i | 0 <= i < |t'.rows| ensures t'.rows[i].value in all {
        if i < |t.rows| { assert t'.rows[i] == t.rows[i]; }
      }
      forall k | 0 <= k < |vs[1..]| ensures vs[1..][k] in all {
        assert vs[1..][k] == vs[k + 1];
      }
      DateInsertAllSucceeds(t', vs[1..], all);
    }
  }

  /** The independent UNIQUE constraints make the loader abort on ordinary
      data: two readings on different days at the same time of day. */
  lemma SameTimeOnTwoDaysAborts(a: DateValue, b: DateValue)
    requires a.date != b.date && a.time == b.time
    ensures !DateInsertAll(EmptyDates, [a, b]).ok
  {
    var t1 := DateInsertOrIgnore(EmptyDates, a);
    assert t1.rows == [DateRow(1, a)];
    assert DateSelect(t1.rows, a.date) == Some(1);
    assert HasTime(t1.rows, b.time);
    assert !HasDate(t1.rows, b.date);
    DateGetOrCreate(t1, b);
    assert [a, b][1..] == [b];
  }

  /** A day first seen at another time, then that day and a second day at
      the shared time: the loop gets through. */
  lemma LaterTimeFirstSucceeds(x: DateValue, y: DateValue, z: DateValue)
    requires x.date == y.date && x.date != z.date
    requires x.time == z.time && x.time != y.time
    ensures DateInsertAll(EmptyDates, [y, x, z]).ok
  {
    var t1 := DateInsertOrIgnore(EmptyDates, y);
    assert t1.rows == [DateRow(1, y)];
    assert t1.rows[0].value.date == x.date;
    assert DateSelect(t1.rows, x.date).Some?;
    assert DateInsertOrIgnore(t1, x) == t1;
    assert !HasDate(t1.rows, z.date) && !HasTime(t1.rows, z.time);
    var t2 := DateInsertOrIgnore(t1, z);
    assert t2.rows == [DateRow(1, y), DateRow(2, z)];
    assert t2.rows[1].value.date == z.date;
    assert DateSelect(t2.rows, z.date).Some?;
    assert [y, x, z][1..] == [x, z] && [x, z][1..] == [z] && [z][1..] == [];
    assert DateInsertAll(t1, [z]) == DateInsertAll(t2, []);
    assert DateInsertAll(t1, [x, z]) == DateInsertAll(t1, [z]);
  }

  /** The shared time first: the second day's lookup fails. */
  lemma SharedTimeFirstAborts(x: DateValue, y: DateValue, z: DateValue)
    requires x.date == y.date && x.date != z.date
    requires x.time == z.time && x.time != y.time
    ensures !DateInsertAll(EmptyDates, [x, y, z]).ok
  {
    var u1 := DateInsertOrIgnore(EmptyDates, x);
    assert u1.rows == [DateRow(1, x)];
    assert DateSelect(u1.rows, x.date) == Some(1);
    assert u1.rows[0].value.date == y.date;
    assert DateSelect(u1.rows, y.date).Some?;
    assert DateInsertOrIgnore(u1, y) == u1;
    assert u1.rows[0].value.time == z.time;
    assert HasTime(u1.rows, z.time) && !HasDate(u1.rows, z.date);
    DateGetOrCreate(u1, z);
    assert [x, y, z][1..] == [y, z] && [y, z][1..] == [z];
    assert DateInsertAll(u1, [y, z]) == DateInsertAll(u1, [z]);
  }

  /** Whether the date loop gets through depends on the order of its tuples,
      not only on which tuples there are: the same three tuples, one time of
      day on two dates, succeed in one order and abort in another. */
  lemma DateOutcomeDependsOnOrder(x: DateValue, y: DateValue, z: DateValue)
    requires x.date == y.date && x.date != z.date
    requires x.time == z.time && x.time != y.time
    ensures DateInsertAll(EmptyDates, [y, x, z]).ok
    ensures !DateInsertAll(EmptyDates, [x, y, z]).ok
  {
    LaterTimeFirstSucceeds(x, y, z);
    SharedTimeFirstAborts(x, y, z);
  }

  /** Two readings on the same day at different times share one dim_date row:
      the second reading's lookup returns the first reading's key, whose row
      holds the first reading's time. */
  lemma SameDayDifferentTimeSharesKey(a: DateValue, b: DateValue)
    requires a.date == b.date && a.time != b.time
    ensures var t1 := DateInsertOrIgnore(EmptyDates, a);
      && DateInsertOrIgnore(t1, b) == t1
      && DateSelect(t1.rows, b.date) == Some(1)
      && t1.rows[0].value.time == a.time
  {
    var t1 := DateInsertOrIgnore(EmptyDates, a);
    assert t1.rows == [DateRow(1, a)];
    assert t1.rows[0].value.date == b.date;
  }

  // ---------------------------------------------------------------------
  // fact_utilization: UNIQUE (date_key, dept_id, system_id, usage_time)
  // ---------------------------------------------------------------------

  /** The values one fact insert carries; the utilization is the text of the
      chosen column, or None when no column matched. */
  datatype FactRow = FactRow(dateKey: nat, deptId: nat, systemId: nat, util: Option<string>,
                             usageDate: string, usageTime: string)

  datatype Fact = Fact(id: nat, row: FactRow)

  datatype FactKey = FactKey(dateKey: nat, deptId: nat, systemId: nat, usageTime: string)

  function KeyOf(r: FactRow): FactKey
  {
    FactKey(r.dateKey, r.deptId, r.systemId, r.usageTime)
  }

  datatype FactTable = FactTable(rows: seq<Fact>, next: nat)

  const EmptyFacts := FactTable([], 1)

  /** AUTOINCREMENT ids below the counter, distinct, and the composite key
      unique. */
  ghost predicate FactValid(t: FactTable)
  {
    && t.next >= 1
    && (forall i :: 0 <= i < |t.rows| ==> 1 <= t.rows[i].id < t.next)
    && (forall i, j :: 0 <= i < j < |t.rows| ==> t.rows[i].id != t.rows[j].id)
    && (forall i, j :: 0 <= i < j < |t.rows| ==> KeyOf(t.rows[i].row) != KeyOf(t.rows[j].row))
  }

  predicate HasKey(rows: seq<Fact>, k: FactKey)
  {
    exists i :: 0 <= i < |rows| && KeyOf(rows[i].row) == k
  }

  /** INSERT OR IGNORE INTO fact_utilization: ignored when a row with the same
      composite key exists, otherwise appended with the next id. */
  function FactInsertOrIgnore(t: FactTable, f: FactRow): (r: FactTable)
    ensures HasKey(t.rows, KeyOf(f)) ==> r == t
    ensures !HasKey(t.rows, KeyOf(f)) ==> r.rows == t.rows + [Fact(t.next, f)] && r.next == t.next + 1
  {
    if HasKey(t.rows, KeyOf(f)) then t else FactTable(t.rows + [Fact(t.next, f)], t.next + 1)
  }

  /** executemany over the batch, in order. */
  function FactInsertAll(t: FactTable, batch: seq<FactRow>): (r: FactTable)
    ensures t.rows <= r.rows
    ensures |r.rows| <= |t.rows| + |batch|
    decreases |batch|
  {
    if |batch| == 0 then t else FactInsertAll(FactInsertOrIgnore(t, batch[0]), batch[1..])
  }

  lemma FactInsertKeepsValid(t: FactTable, f: FactRow)
    requires FactValid(t)
    ensures FactValid(FactInsertOrIgnore(t, f))
  {
    var r := FactInsertOrIgnore(t, f);
    if !HasKey(t.rows, KeyOf(f)) {
      var n := |t.rows|;
      forall i | 0 <= i < n ensures r.rows[i].id != r.rows[n].id && KeyOf(r.rows[i].row) != KeyOf(r.rows[n].row) {
        assert r.rows[i] == t.rows[i];
      }
    }
  }

  /** The batch insert keeps the table valid, only appends, grows by at most
      the batch size, and afterwards a composite key is present exactly when
      it was present before or is the key of some batch row. */
  lemma {:induction false} FactInsertAllContents(t: FactTable, batch: seq<FactRow>)
    requires FactValid(t)
    ensures var r := FactInsertAll(t, batch);
      && FactValid(r)
      && t.rows <= r.rows
      && |r.rows| <= |t.rows| + |batch|
      && (forall i :: |t.rows| <= i < |r.rows| ==> r.rows[i].row in batch)
      && (forall k :: HasKey(r.rows, k) <==> HasKey(t.rows, k) || exists j :: 0 <= j < |batch| && KeyOf(batch[j]) == k)
    decreases |batch|
  {
    if |batch| > 0 {
      var t' := FactInsertOrIgnore(t, batch[0]);
      FactInsertKeepsValid(t, batch[0]);
      FactInsertAllContents(t', batch[1..]);
      var r := FactInsertAll(t', batch[1..]);
      forall i | |t.rows| <= i < |r.rows| ensures r.rows[i].row in batch {
        if i >= |t'.rows| {
          assert r.rows[i].row in batch[1..];
        } else {
          assert r.rows[i] == t'.rows[i];
        }
      }
      forall k ensures HasKey(r.rows, k) <==> HasKey(t.rows, k) || exists j :: 0 <= j < |batch| && KeyOf(batch[j]) == k {
        FactHasKeyAfterInsert(t, batch[0], k);
        if exists j :: 0 <= j < |batch[1..]| && KeyOf(batch[1..][j]) == k {
          var j :| 0 <= j < |batch[1..]| && KeyOf(batch[1..][j]) == k;
          assert KeyOf(batch[j + 1]) == k;
        }
        if exists j :: 0 <= j < |batch| && KeyOf(batch[j]) == k {
          var j :| 0 <= j < |batch| && KeyOf(batch[j]) == k;
          if j > 0 { assert KeyOf(batch[1..][j - 1]) == k; }
        }
      }
    }
  }

  lemma FactHasKeyAfterInsert(t: FactTable, f: FactRow, k: FactKey)
    ensures HasKey(FactInsertOrIgnore(t, f).rows, k) <==> HasKey(t.rows, k) || KeyOf(f) == k
  {
    var r := FactInsertOrIgnore(t, f);
    if !HasKey(t.rows, KeyOf(f)) {
      if HasKey(r.rows, k) {
        var i :| 0 <= i < |r.rows| && KeyOf(r.rows[i].row) == k;
        if i < |t.rows| { assert t.rows[i] == r.rows[i]; }
      }
      if HasKey(t.rows, k) {
        var i :| 0 <= i < |t.rows| && KeyOf(t.rows[i].row) == k;
        assert r.rows[i] == t.rows[i];
      }
      assert r.rows[|t.rows|].row == f;
    }
  }

  /** The composite key is (date_key, dept_id, system_id, usage_time): a
      later reading that agrees with an earlier one on those four columns is
      dropped, whatever its utilization and date text, and the earlier
      reading's row stays as it was. */
  lemma SameKeyKeepsFirstReading(t: FactTable, a: FactRow, b: FactRow)
    requires a.dateKey == b.dateKey && a.deptId == b.deptId && a.systemId == b.systemId && a.usageTime == b.usageTime
    ensures FactInsertAll(t, [a, b]) == FactInsertAll(t, [a])
  {
    var t1 := FactInsertOrIgnore(t, a);
    FactHasKeyAfterInsert(t, a, KeyOf(b));
    assert [a, b][1..] == [b] && [b][1..] == [] && [a][1..] == [];
  }

  /** A batch whose every key is already present changes nothing. */
  lemma {:induction false} FactInsertAllPresent(t: FactTable, batch: seq<FactRow>)
    requires forall j :: 0 <= j < |batch| ==> HasKey(t.rows, KeyOf(batch[j]))
    ensures FactInsertAll(t, batch) == t
    decreases |batch|
  {
    if |batch| > 0 {
      assert HasKey(t.rows, KeyOf(batch[0]));
      forall j | 0 <= j < |batch[1..]| ensures HasKey(t.rows, KeyOf(batch[1..][j])) {
        assert batch[1..][j] == batch[j + 1];
      }
      FactInsertAllPresent(t, batch[1..]);
    }
  }

  /** A batch whose composite keys are pairwise distinct and new to the table
      is stored in full: one row per batch row. */
  lemma {:induction false} FactInsertAllDistinct(t: FactTable, batch: seq<FactRow>)
    requires forall i, j :: 0 <= i < j < |batch| ==> KeyOf(batch[i]) != KeyOf(batch[j])
    requires forall j :: 0 <= j < |batch| ==> !HasKey(t.rows, KeyOf(batch[j]))
    ensures |FactInsertAll(t, batch).rows| == |t.rows| + |batch|
    decreases |batch|
  {
    if |batch| > 0 {
      var t' := FactInsertOrIgnore(t, batch[0]);
      assert !HasKey(t.rows, KeyOf(batch[0]));
      forall j | 0 <= j < |batch[1..]| ensures !HasKey(t'.rows, KeyOf(batch[1..][j])) {
        assert batch[1..][j] == batch[j + 1];
        FactHasKeyAfterInsert(t, batch[0], KeyOf(batch[j + 1]));
      }
      forall i, j | 0 <= i < j < |batch[1..]| ensures KeyOf(batch[1..][i]) != KeyOf(batch[1..][j]) {
        assert batch[1..][i] == batch[i + 1] && batch[1..][j] == batch[j + 1];
      }
      FactInsertAllDistinct(t', batch[1..]);
    }
  }

  /** Re-running the same batch is a no-op (idempotent reload). */
  lemma ReinsertIsNoOp(t: FactTable, batch: seq<FactRow>)
    requires FactValid(t)
    ensures FactInsertAll(FactInsertAll(t, batch), batch) == FactInsertAll(t, batch)
  {
    var r := FactInsertAll(t, batch);
    FactInsertAllContents(t, batch);
    forall j | 0 <= j < |batch| ensures HasKey(r.rows, KeyOf(batch[j])) {
    }
    FactInsertAllPresent(r, batch);
  }

  /** Loading a batch into an empty fact table stores at most one row per batch
      row, and exactly one row per distinct composite key of the batch. */
  lemma FactCountBound(batch: seq<FactRow>)
    ensures var r := FactInsertAll(EmptyFacts, batch);
      && |r.rows| <= |batch|
      && (forall i, j :: 0 <= i < j < |r.rows| ==> KeyOf(r.rows[i].row) != KeyOf(r.rows[j].row))
      && (forall k :: HasKey(r.rows, k) <==> exists j :: 0 <= j < |batch| && KeyOf(batch[j]) == k)
  {
    FactInsertAllContents(EmptyFacts, batch);
  }
}
