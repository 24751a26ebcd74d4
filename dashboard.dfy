/**
 * The read-only part of the dashboard script: which column holds the
 * capacity, the site options offered for filtering, the site filter, the
 * three headline figures and the students-per-site breakdown.
 */
module Dashboard {
  import opened PyStr
  import opened Tables
  import opened Frames

  const MaxCapacityColumn := "Cupo máximo"
  const CapacityAlias := "Cupo"
  const StudentsColumn := "Estudiantes"

  /**
   * Line 40: the capacity column is "Cupo máximo" whenever the frame has it,
   * "Cupo" only when "Cupo máximo" is missing, and none when both are missing.
   */
  function CapacityColumn(cols: seq<string>): (r: Option<string>)
    ensures r.Some? <==> MaxCapacityColumn in cols || CapacityAlias in cols
    ensures r.Some? ==> r.value in cols
    ensures r == Some(MaxCapacityColumn) <==> MaxCapacityColumn in cols
    ensures r == Some(CapacityAlias) <==> CapacityAlias in cols && MaxCapacityColumn !in cols
  {
    if MaxCapacityColumn in cols then Some(MaxCapacityColumn)
    else if CapacityAlias in cols then Some(CapacityAlias)
    else None
  }

  // ---------------------------------------------------------------- site options

  /** The derived site column only ever holds text or NaN. */
  predicate SiteCells(sites: seq<Cell>) {
    forall i :: 0 <= i < |sites| ==> sites[i].Text? || sites[i].Blank?
  }

  predicate AllText(sites: seq<Cell>) {
    forall i :: 0 <= i < |sites| ==> sites[i].Text?
  }

  predicate AllBlank(sites: seq<Cell>) {
    forall i :: 0 <= i < |sites| ==> sites[i].Blank?
  }

  /** The order `sorted` puts the options in: only text is comparable. */
  predicate CellLess(a: Cell, b: Cell) {
    a.Text? && b.Text? && StrLess(a.s, b.s)
  }

  /** Raised by `sorted` when the sites mix text with NaN (a `TypeError`). */
  datatype Error = UnorderableSites

  datatype Result<T> = Ok(value: T) | Err(error: Error)

  function Strings(sites: seq<Cell>): (r: seq<string>)
    requires AllText(sites)
    ensures |r| == |sites| && forall i :: 0 <= i < |r| ==> sites[i] == Text(r[i])
  {
    seq(|sites|, i requires 0 <= i < |sites| => sites[i].s)
  }

  function TextCells(xs: seq<string>): (r: seq<Cell>)
    ensures |r| == |xs| && forall i :: 0 <= i < |r| ==> r[i] == Text(xs[i])
  {
    seq(|xs|, i requires 0 <= i < |xs| => Text(xs[i]))
  }

  /**
   * Line 44, `sorted(df['SEDE_EXTRAIDA'].unique())`: every distinct site once,
   * in strictly increasing order, and nothing that is not a site; `sorted`
   * fails when text sites and NaN sites are mixed.
   */
  function SiteOptions(sites: seq<Cell>): (r: Result<seq<Cell>>)
    requires SiteCells(sites)
    ensures r.Ok? <==> AllText(sites) || AllBlank(sites)
    ensures r.Ok? ==> forall c :: c in r.value <==> c in sites
    ensures r.Ok? ==> forall i, j :: 0 <= i < j < |r.value| ==> CellLess(r.value[i], r.value[j])
  {
    if AllText(sites) then
      var names := Strings(sites);
      var sorted := SortedDistinct(names);
      var opts := TextCells(sorted);
      assert forall c :: c in opts <==> c in sites by {
        forall c ensures c in opts <==> c in sites {
          if c in opts {
            var i :| 0 <= i < |opts| && opts[i] == c;
            assert sorted[i] in names;
            var j :| 0 <= j < |names| && names[j] == sorted[i];
            assert sites[j] == c;
          }
          if c in sites {
            var j :| 0 <= j < |sites| && sites[j] == c;
            assert names[j] in sorted;
            var i :| 0 <= i < |sorted| && sorted[i] == names[j];
            assert opts[i] == c;
          }
        }
      }
      Ok(opts)
    else if AllBlank(sites) then
      assert sites != [] && sites[0] == Blank;
      Ok([Blank])
    else
      Err(UnorderableSites)
  }

  /** No option is offered twice. */
  lemma SiteOptionsDistinct(sites: seq<Cell>, i: nat, j: nat)
    requires SiteCells(sites) && SiteOptions(sites).Ok?
    requires i < j < |SiteOptions(sites).value|
    ensures SiteOptions(sites).value[i] != SiteOptions(sites).value[j]
  {
    var opts := SiteOptions(sites).value;
    StrLessIrreflexive(opts[i].s);
  }

  /** The options are the only strictly sorted list of the distinct text sites. */
  lemma SiteOptionsUnique(sites: seq<Cell>, names: seq<string>)
    requires SiteCells(sites) && AllText(sites)
    requires StrictlySorted(names) && forall s :: s in names <==> Text(s) in sites
    ensures SiteOptions(sites) == Ok(TextCells(names))
  {
    var opts := SiteOptions(sites).value;
    var sorted := SortedDistinct(Strings(sites));
    assert opts == TextCells(sorted);
    forall s ensures s in sorted <==> s in names {
      if s in sorted {
        var i :| 0 <= i < |sorted| && sorted[i] == s;
        assert opts[i] == Text(s);
      }
      if s in names {
        assert Text(s) in opts;
        var i :| 0 <= i < |opts| && opts[i] == Text(s);
        assert sorted[i] == s;
      }
    }
    StrictlySortedUnique(sorted, names);
  }

  // ---------------------------------------------------------------- site filter

  predicate HasCell(rows: seq<Row>, k: nat) {
    forall i :: 0 <= i < |rows| ==> k < |rows[i]|
  }

  /** The rows whose cell at position `k` is selected, in their original order. */
  function KeepRows(rows: seq<Row>, k: nat, sel: set<Cell>): (r: seq<Row>)
    requires HasCell(rows, k)
    ensures |r| <= |rows| && HasCell(r, k)
    ensures forall row :: row in r <==> row in rows && row[k] in sel
    ensures sel == {} ==> r == []
  {
    if rows == [] then []
    else
      var rest := KeepRows(rows[1..], k, sel);
      assert forall row :: row in rows <==> row == rows[0] || row in rows[1..] by {
        assert rows == [rows[0]] + rows[1..];
      }
      (if rows[0][k] in sel then [rows[0]] else []) + rest
  }

  /** Filtering distributes over concatenation: the filter is stable. */
  lemma {:induction false} KeepRowsAppend(a: seq<Row>, b: seq<Row>, k: nat, sel: set<Cell>)
    requires HasCell(a, k) && HasCell(b, k)
    ensures HasCell(a + b, k)
    ensures KeepRows(a + b, k, sel) == KeepRows(a, k, sel) + KeepRows(b, k, sel)
  {
    if a == [] {
      assert a + b == b;
    } else {
      assert (a + b)[0] == a[0] && (a + b)[1..] == a[1..] + b;
      KeepRowsAppend(a[1..], b, k, sel);
    }
  }

  /** A selection that holds every row's cell keeps every row. */
  lemma {:induction false} KeepRowsAll(rows: seq<Row>, k: nat, sel: set<Cell>)
    requires HasCell(rows, k) && forall i :: 0 <= i < |rows| ==> rows[i][k] in sel
    ensures KeepRows(rows, k, sel) == rows
  {
    if rows != [] {
      KeepRowsAll(rows[1..], k, sel);
      assert rows == [rows[0]] + rows[1..];
    }
  }

  /** Line 47, `df[df['SEDE_EXTRAIDA'].isin(sedes_sel)]`. */
  function FilterBySite(t: Table, sel: set<Cell>): (r: Table)
    requires WellFormed(t) && SiteColumn in t.columns
    ensures WellFormed(r) && r.columns == t.columns && |r.rows| <= |t.rows|
    ensures var k := IndexOf(t.columns, SiteColumn);
      forall row :: row in r.rows <==> row in t.rows && row[k] in sel
    ensures sel == {} ==> r.rows == []
  {
    var k := IndexOf(t.columns, SiteColumn);
    var rows := KeepRows(t.rows, k, sel);
    assert forall i :: 0 <= i < |rows| ==> |rows[i]| == |t.columns| by {
      forall i | 0 <= i < |rows| ensures |rows[i]| == |t.columns| {
        assert rows[i] in t.rows;
      }
    }
    Table(t.columns, rows)
  }

  /**
   * The filter keeps exactly the selected rows, in their original order: on
   * a table whose rows are `a + b` it gives the kept rows of `a` followed by
   * the kept rows of `b`.
   */
  lemma FilterIsStable(t: Table, a: seq<Row>, b: seq<Row>, sel: set<Cell>)
    requires WellFormed(t) && SiteColumn in t.columns && t.rows == a + b
    ensures WellFormed(Table(t.columns, a)) && WellFormed(Table(t.columns, b))
    ensures FilterBySite(t, sel).rows ==
      FilterBySite(Table(t.columns, a), sel).rows + FilterBySite(Table(t.columns, b), sel).rows
  {
    var k := IndexOf(t.columns, SiteColumn);
    assert forall i :: 0 <= i < |a| ==> a[i] == t.rows[i];
    assert forall i :: 0 <= i < |b| ==> b[i] == t.rows[|a| + i];
    KeepRowsAppend(a, b, k, sel);
  }

  /** A selection that holds the site of every row keeps the whole table. */
  lemma FilterSelectingEverySite(t: Table, sel: set<Cell>)
    requires WellFormed(t) && SiteColumn in t.columns
    requires forall c :: c in Column(t, SiteColumn) ==> c in sel
    ensures FilterBySite(t, sel) == t
  {
    var k := IndexOf(t.columns, SiteColumn);
    var sites := Column(t, SiteColumn);
    forall i | 0 <= i < |t.rows| ensures t.rows[i][k] in sel {
      assert sites[i] == t.rows[i][k];
    }
    KeepRowsAll(t.rows, k, sel);
  }

  // ---------------------------------------------------------------- headline figures

  /** Total students, total capacity and number of courses (lines 51-53). */
  datatype Kpis = Kpis(students: int, capacity: int, courses: nat)

  /**
   * Lines 51-53: the students and the capacity are column sums, 0 when the
   * column is missing; the number of courses is the number of rows.
   */
  function Metrics(t: Table): (m: Kpis)
    requires WellFormed(t)
    ensures StudentsColumn !in t.columns ==> m.students == 0
    ensures CapacityColumn(t.columns).None? ==> m.capacity == 0
    ensures CapacityColumn(t.columns).Some? ==> m.capacity == Sum(Column(t, CapacityColumn(t.columns).value))
    ensures StudentsColumn in t.columns ==> m.students == Sum(Column(t, StudentsColumn))
    ensures m.courses == |t.rows|
  {
    var students := if StudentsColumn in t.columns then Sum(Column(t, StudentsColumn)) else 0;
    var col := CapacityColumn(t.columns);
    var capacity := if col.Some? then Sum(Column(t, col.value)) else 0;
    Kpis(students, capacity, |t.rows|)
  }

  lemma ColumnAppend(t: Table, a: seq<Row>, b: seq<Row>, name: string)
    requires WellFormed(t) && name in t.columns && t.rows == a + b
    ensures WellFormed(Table(t.columns, a)) && WellFormed(Table(t.columns, b))
    ensures Column(t, name) == Column(Table(t.columns, a), name) + Column(Table(t.columns, b), name)
  {
    assert forall i :: 0 <= i < |a| ==> a[i] == t.rows[i];
    assert forall i :: 0 <= i < |b| ==> b[i] == t.rows[|a| + i];
    var c, ca, cb := Column(t, name), Column(Table(t.columns, a), name), Column(Table(t.columns, b), name);
    forall i | 0 <= i < |c| ensures c[i] == (ca + cb)[i] {
      if i >= |a| { assert c[i] == cb[i - |a|]; }
    }
  }

  /**
   * The figures are additive over the rows: for a table whose rows are
   * `a + b`, each figure is the one for `a` plus the one for `b`.
   */
  lemma MetricsAdditive(t: Table, a: seq<Row>, b: seq<Row>)
    requires WellFormed(t) && t.rows == a + b
    ensures WellFormed(Table(t.columns, a)) && WellFormed(Table(t.columns, b))
    ensures var m, ma, mb := Metrics(t), Metrics(Table(t.columns, a)), Metrics(Table(t.columns, b));
      && m.students == ma.students + mb.students
      && m.capacity == ma.capacity + mb.capacity
      && m.courses == ma.courses + mb.courses
  {
    assert forall i :: 0 <= i < |a| ==> a[i] == t.rows[i];
    assert forall i :: 0 <= i < |b| ==> b[i] == t.rows[|a| + i];
    if StudentsColumn in t.columns {
      ColumnAppend(t, a, b, StudentsColumn);
      SumAppend(Column(Table(t.columns, a), StudentsColumn), Column(Table(t.columns, b), StudentsColumn));
    }
    var col := CapacityColumn(t.columns);
    if col.Some? {
      ColumnAppend(t, a, b, col.value);
      SumAppend(Column(Table(t.columns, a), col.value), Column(Table(t.columns, b), col.value));
    }
  }

  // ---------------------------------------------------------------- students per site

  /** Students of the rows whose site is the text `s`: none when no row has that site. */
  function SumFor(sites: seq<Cell>, vals: seq<Cell>, s: string): (r: int)
    requires |sites| == |vals|
    ensures Text(s) !in sites ==> r == 0
  {
    if sites == [] then 0
    else (if sites[0] == Text(s) then NumValue(vals[0]) else 0) + SumFor(sites[1..], vals[1..], s)
  }

  /**
   * Students of the rows whose site is NaN: `groupby` leaves them out, so
   * there are none when every site is text.
   */
  function SumUngrouped(sites: seq<Cell>, vals: seq<Cell>): (r: int)
    requires |sites| == |vals|
    ensures AllText(sites) ==> r == 0
  {
    if sites == [] then 0
    else
      assert AllText(sites) ==> AllText(sites[1..]) by {
        if AllText(sites) {
          forall i | 0 <= i < |sites| - 1 ensures sites[1..][i].Text? { assert sites[1..][i] == sites[i + 1]; }
        }
      }
      (if sites[0].Text? then 0 else NumValue(vals[0])) + SumUngrouped(sites[1..], vals[1..])
  }

  /** The distinct text sites, in increasing order: the groups `groupby` forms. */
  function GroupKeys(sites: seq<Cell>): (keys: seq<string>)
    ensures StrictlySorted(keys)
    ensures forall s :: s in keys <==> Text(s) in sites
  {
    var names := TextsOf(sites);
    SortedDistinct(names)
  }

  /** The text of every text cell, in order. */
  function TextsOf(sites: seq<Cell>): (r: seq<string>)
    ensures forall s :: s in r <==> Text(s) in sites
  {
    if sites == [] then []
    else
      var rest := TextsOf(sites[1..]);
      assert forall c :: c in sites <==> c == sites[0] || c in sites[1..] by {
        assert sites == [sites[0]] + sites[1..];
      }
      (if sites[0].Text? then [sites[0].s] else []) + rest
  }

  function Totals(keys: seq<string>, sites: seq<Cell>, vals: seq<Cell>): seq<(string, int)>
    requires |sites| == |vals|
  {
    seq(|keys|, i requires 0 <= i < |keys| => (keys[i], SumFor(sites, vals, keys[i])))
  }

  function KeysOf(groups: seq<(string, int)>): seq<string> {
    seq(|groups|, i requires 0 <= i < |groups| => groups[i].0)
  }

  /** The students of all groups together. */
  function GroupTotal(groups: seq<(string, int)>): int {
    if groups == [] then 0 else groups[0].1 + GroupTotal(groups[1..])
  }

  /**
   * Line 67, `df.groupby('SEDE_EXTRAIDA')['Estudiantes'].sum()`: computed
   * only when there is a students column; one entry per distinct text site,
   * in increasing order of site, holding the students of that site's rows.
   */
  function StudentsBySite(t: Table): (r: Option<seq<(string, int)>>)
    requires WellFormed(t) && SiteColumn in t.columns
    ensures r.None? <==> StudentsColumn !in t.columns
    ensures r.Some? ==> StrictlySorted(KeysOf(r.value))
    ensures r.Some? ==> forall s :: s in KeysOf(r.value) <==> Text(s) in Column(t, SiteColumn)
    ensures r.Some? ==> forall i :: 0 <= i < |r.value| ==>
      r.value[i].1 == SumFor(Column(t, SiteColumn), Column(t, StudentsColumn), r.value[i].0)
  {
    if StudentsColumn in t.columns then
      var sites := Column(t, SiteColumn);
      var keys := GroupKeys(sites);
      var groups := Totals(keys, sites, Column(t, StudentsColumn));
      assert KeysOf(groups) == keys;
      Some(groups)
    else None
  }

  /** Sum over distinct `keys` of "the value, if this cell is the text key". */
  function Hits(keys: seq<string>, c: Cell, x: int): int {
    if keys == [] then 0 else (if c == Text(keys[0]) then x else 0) + Hits(keys[1..], c, x)
  }

  predicate Distinct(keys: seq<string>) {
    forall i, j :: 0 <= i < j < |keys| ==> keys[i] != keys[j]
  }

  lemma {:induction false} HitsOnce(keys: seq<string>, c: Cell, x: int)
    requires Distinct(keys)
    ensures Hits(keys, c, x) == if c.Text? && c.s in keys then x else 0
  {
    if keys != [] {
      HitsOnce(keys[1..], c, x);
      assert keys == [keys[0]] + keys[1..];
    }
  }

  /** Adding one row in front adds its students to the total of its own group only. */
  lemma {:induction false} GroupTotalCons(keys: seq<string>, sites: seq<Cell>, vals: seq<Cell>)
    requires |sites| == |vals| && sites != []
    ensures GroupTotal(Totals(keys, sites, vals)) ==
      Hits(keys, sites[0], NumValue(vals[0])) + GroupTotal(Totals(keys, sites[1..], vals[1..]))
  {
    if keys != [] {
      GroupTotalCons(keys[1..], sites, vals);
      assert Totals(keys, sites, vals)[1..] == Totals(keys[1..], sites, vals);
      assert Totals(keys, sites[1..], vals[1..])[1..] == Totals(keys[1..], sites[1..], vals[1..]);
    }
  }

  /**
   * With one group per distinct text site, the group totals and the students
   * of the NaN-site rows add up to all students.
   */
  lemma {:induction false} GroupsPartitionStudents(keys: seq<string>, sites: seq<Cell>, vals: seq<Cell>)
    requires |sites| == |vals| && Distinct(keys)
    requires forall i :: 0 <= i < |sites| && sites[i].Text? ==> sites[i].s in keys
    ensures GroupTotal(Totals(keys, sites, vals)) + SumUngrouped(sites, vals) == Sum(vals)
    decreases |sites|, |keys|
  {
    if sites == [] {
      if keys != [] {
        GroupsPartitionStudents(keys[1..], sites, vals);
        assert Totals(keys, sites, vals)[1..] == Totals(keys[1..], sites, vals);
      }
    } else {
      GroupTotalCons(keys, sites, vals);
      HitsOnce(keys, sites[0], NumValue(vals[0]));
      GroupsPartitionStudents(keys, sites[1..], vals[1..]);
    }
  }

  /**
   * Lines 51 and 67: the per-site student sums, added over every site of the
   * table, plus the students of the rows whose site is NaN (which `groupby`
   * drops), equal the total students.
   */
  lemma PerSiteSumsAddUp(t: Table)
    requires WellFormed(t) && SiteColumn in t.columns && StudentsColumn in t.columns
    ensures GroupTotal(StudentsBySite(t).value)
      + SumUngrouped(Column(t, SiteColumn), Column(t, StudentsColumn)) == Metrics(t).students
  {
    var sites := Column(t, SiteColumn);
    var keys := GroupKeys(sites);
    forall i, j | 0 <= i < j < |keys| ensures keys[i] != keys[j] {
      StrictlySortedDistinct(keys, i, j);
    }
    forall i | 0 <= i < |sites| && sites[i].Text? ensures sites[i].s in keys {
      assert Text(sites[i].s) in sites;
    }
    GroupsPartitionStudents(keys, sites, Column(t, StudentsColumn));
  }

  /** When every site is text, the per-site sums add up to the total students exactly. */
  lemma PerSiteSumsEqualTotal(t: Table)
    requires WellFormed(t) && SiteColumn in t.columns && StudentsColumn in t.columns
    requires AllText(Column(t, SiteColumn))
    ensures GroupTotal(StudentsBySite(t).value) == Metrics(t).students
  {
    PerSiteSumsAddUp(t);
  }

  /**
   * On the filtered table of lines 47 and 67, when only text sites are
   * selected, the bars of the per-site chart add up to the total students.
   */
  lemma FilteredPerSiteSumsEqualTotal(t: Table, sel: set<Cell>)
    requires WellFormed(t) && SiteColumn in t.columns && StudentsColumn in t.columns
    requires forall c :: c in sel ==> c.Text?
    ensures var f := FilterBySite(t, sel);
      GroupTotal(StudentsBySite(f).value) == Metrics(f).students
  {
    var f := FilterBySite(t, sel);
    var k := IndexOf(t.columns, SiteColumn);
    var sites := Column(f, SiteColumn);
    forall i | 0 <= i < |sites| ensures sites[i].Text? {
      assert f.rows[i] in f.rows;
    }
    PerSiteSumsEqualTotal(f);
  }

  // ---------------------------------------------------------------- the pipeline

  /** After the in-place steps the frame has both derived columns and the site column holds only text or NaN. */
  lemma PreparedShape(raw: Table)
    requires WellFormed(raw)
    ensures var t := Prepared(raw);
      && WellFormed(t) && |t.rows| == |raw.rows|
      && SiteColumn in t.columns && ShiftColumn in t.columns
      && SiteCells(Column(t, SiteColumn))
  {
    var t1 := StripColumns(raw);
    var t2 := WithSite(t1);
    WithColumnKeepsOther(t2, ShiftColumn, ShiftValues(t2), SiteColumn);
  }

  /** Assigning one column leaves every other column as it was. */
  lemma WithColumnKeepsOther(t: Table, name: string, values: seq<Cell>, other: string)
    requires WellFormed(t) && |values| == |t.rows| && other in t.columns && other != name
    ensures other in WithColumn(t, name, values).columns
    ensures Column(WithColumn(t, name, values), other) == Column(t, other)
  {
    var r := WithColumn(t, name, values);
    var k := IndexOf(t.columns, other);
    if name in t.columns {
      assert r.columns == t.columns;
    } else {
      assert t.columns == r.columns[..|t.columns|];
      assert IndexOf(r.columns, other) == k;
    }
  }

  /**
   * Lines 44-47 with the default selection: selecting every option keeps the
   * whole prepared table, so every course is counted.
   */
  lemma DefaultSelectionKeepsEverything(raw: Table)
    requires WellFormed(raw)
    ensures var t := Prepared(raw);
      WellFormed(t) && SiteColumn in t.columns && SiteCells(Column(t, SiteColumn))
    ensures var t := Prepared(raw);
      var opts := SiteOptions(Column(t, SiteColumn));
      opts.Ok? ==> (var everything := set c | c in opts.value;
        FilterBySite(t, everything) == t && Metrics(FilterBySite(t, everything)).courses == |raw.rows|)
  {
    PreparedShape(raw);
    var t := Prepared(raw);
    var opts := SiteOptions(Column(t, SiteColumn));
    if opts.Ok? {
      FilterSelectingEverySite(t, set c | c in opts.value);
    }
  }
}
