/**
 * The steps of the dashboard script that change the uploaded data frame in
 * place: the column names are trimmed, then the site and the shift of every
 * course are derived into two new columns.
 */
module Frames {
  import opened PyStr
  import opened Tables

  const PeriodColumn := "Período"
  const SiteShiftColumn := "Sede - turno"
  const SiteColumn := "SEDE_EXTRAIDA"
  const ShiftColumn := "TURNO_EXTRAIDO"
  const NoSite := "Sin Sede"
  const NoShift := "Sin Turno"
  const Separator := " - "

  /**
   * `.str.split(' - ').str[0]` on one cell: a text cell gives a separator-free
   * prefix of its text, any other cell NaN.
   */
  function SiteOf(c: Cell): (r: Cell)
    ensures r.Text? <==> c.Text?
    ensures !c.Text? ==> r == Blank
    ensures c.Text? ==> |r.s| <= |c.s| && c.s[..|r.s|] == r.s && Free(r.s, Separator)
  {
    match c
    case Text(s) => Text(FirstPiece(s, Separator))
    case _ => Blank
  }

  /**
   * `.str.split(' - ').str[-1]` on one cell: a text cell gives a separator-free
   * suffix of its text, any other cell NaN.
   */
  function ShiftOf(c: Cell): (r: Cell)
    ensures r.Text? <==> c.Text?
    ensures !c.Text? ==> r == Blank
    ensures c.Text? ==> |r.s| <= |c.s| && c.s[|c.s| - |r.s|..] == r.s && Free(r.s, Separator)
  {
    match c
    case Text(s) => Text(LastPiece(s, Separator))
    case _ => Blank
  }

  /**
   * Every column name trimmed, the rows untouched; `StripColumnsSpec` shows
   * that no name keeps whitespace at either end.
   */
  function StripColumns(t: Table): (r: Table)
    ensures |r.columns| == |t.columns| && r.rows == t.rows
  {
    Table(seq(|t.columns|, k requires 0 <= k < |t.columns| => Strip(t.columns[k])), t.rows)
  }

  /**
   * The new site column: one cell per row, each text or NaN; every cell is
   * "Sin Sede" when there is no period column.
   */
  function SiteValues(t: Table): (r: seq<Cell>)
    requires WellFormed(t)
    ensures |r| == |t.rows|
    ensures forall i :: 0 <= i < |r| ==> r[i].Text? || r[i].Blank?
    ensures PeriodColumn !in t.columns ==> forall i :: 0 <= i < |r| ==> r[i] == Text(NoSite)
  {
    if PeriodColumn in t.columns then
      var period := Column(t, PeriodColumn);
      seq(|t.rows|, i requires 0 <= i < |t.rows| => SiteOf(period[i]))
    else
      seq(|t.rows|, i => Text(NoSite))
  }

  /**
   * The new shift column: one cell per row, each text or NaN; every cell is
   * "Sin Turno" when there is no site-and-shift column.
   */
  function ShiftValues(t: Table): (r: seq<Cell>)
    requires WellFormed(t)
    ensures |r| == |t.rows|
    ensures forall i :: 0 <= i < |r| ==> r[i].Text? || r[i].Blank?
    ensures SiteShiftColumn !in t.columns ==> forall i :: 0 <= i < |r| ==> r[i] == Text(NoShift)
  {
    if SiteShiftColumn in t.columns then
      var combined := Column(t, SiteShiftColumn);
      seq(|t.rows|, i requires 0 <= i < |t.rows| => ShiftOf(combined[i]))
    else
      seq(|t.rows|, i => Text(NoShift))
  }

  function WithSite(t: Table): Table
    requires WellFormed(t)
  {
    WithColumn(t, SiteColumn, SiteValues(t))
  }

  function WithShift(t: Table): Table
    requires WellFormed(t)
  {
    WithColumn(t, ShiftColumn, ShiftValues(t))
  }

  /**
   * The frame after the three in-place steps, as a value: every row kept and
   * both derived columns present.
   */
  function Prepared(raw: Table): (r: Table)
    requires WellFormed(raw)
    ensures WellFormed(r) && |r.rows| == |raw.rows|
    ensures SiteColumn in r.columns && ShiftColumn in r.columns
  {
    var stripped := StripColumns(raw);
    var sited := WithSite(stripped);
    WithShift(sited)
  }

  /** The uploaded data frame, changed step by step. */
  class Frame {
    var columns: seq<string>
    var rows: seq<Row>

    function Value(): Table
      reads this
    {
      Table(columns, rows)
    }

    predicate Valid()
      reads this
    {
      WellFormed(Value())
    }

    constructor (t: Table)
      requires WellFormed(t)
      ensures Valid() && Value() == t
    {
      columns := t.columns;
      rows := t.rows;
    }

    /** `df.columns = [c.strip() for c in df.columns]`. */
    method StripColumnNames()
      requires Valid()
      modifies this
      ensures Valid() && Value() == StripColumns(old(Value()))
    {
      var names: seq<string> := [];
      var i := 0;
      while i < |columns|
        invariant 0 <= i <= |columns| && columns == old(columns) && rows == old(rows)
        invariant |names| == i
        invariant forall k :: 0 <= k < i ==> names[k] == Strip(columns[k])
      {
        names := names + [Strip(columns[i])];
        i := i + 1;
      }
      assert names == StripColumns(old(Value())).columns;
      columns := names;
    }

    /** `df[name] = values`: overwrite the column if it exists, else append it. */
    method Assign(name: string, values: seq<Cell>)
      requires Valid() && |values| == |rows|
      modifies this
      ensures Valid() && Value() == WithColumn(old(Value()), name, values)
    {
      var i := 0;
      if name in columns {
        var k := IndexOf(columns, name);
        while i < |rows|
          invariant 0 <= i <= |rows| == |old(rows)| && columns == old(columns)
          invariant forall j :: 0 <= j < i ==> rows[j] == old(rows)[j][k := values[j]]
          invariant forall j :: i <= j < |rows| ==> rows[j] == old(rows)[j]
        {
          rows := rows[i := rows[i][k := values[i]]];
          i := i + 1;
        }
      } else {
        while i < |rows|
          invariant 0 <= i <= |rows| == |old(rows)| && columns == old(columns)
          invariant forall j :: 0 <= j < i ==> rows[j] == old(rows)[j] + [values[j]]
          invariant forall j :: i <= j < |rows| ==> rows[j] == old(rows)[j]
        {
          rows := rows[i := rows[i] + [values[i]]];
          i := i + 1;
        }
        assert rows == WithColumn(old(Value()), name, values).rows;
        columns := columns + [name];
      }
    }

    /** Lines 28-31 of the script: add the site column. */
    method DeriveSite()
      requires Valid()
      modifies this
      ensures Valid() && Value() == WithSite(old(Value()))
    {
      Assign(SiteColumn, SiteValues(Value()));
    }

    /** Lines 34-37 of the script: add the shift column. */
    method DeriveShift()
      requires Valid()
      modifies this
      ensures Valid() && Value() == WithShift(old(Value()))
    {
      Assign(ShiftColumn, ShiftValues(Value()));
    }
  }

  /** Runs the in-place steps on a fresh frame holding the uploaded table. */
  method Prepare(raw: Table) returns (t: Table)
    requires WellFormed(raw)
    ensures t == Prepared(raw)
  {
    var frame := new Frame(raw);
    frame.StripColumnNames();
    frame.DeriveSite();
    frame.DeriveShift();
    t := frame.Value();
  }

  /**
   * Trimming keeps the number and the order of the columns: each new name is
   * the trimmed old one, has no whitespace at either end, and is not changed
   * by trimming again; the rows are untouched.
   */
  lemma StripColumnsSpec(t: Table)
    ensures |StripColumns(t).columns| == |t.columns| && StripColumns(t).rows == t.rows
    ensures forall k :: 0 <= k < |t.columns| ==>
      var c := StripColumns(t).columns[k]; c == Strip(t.columns[k]) && NoEdgeSpace(c) && Strip(c) == c
  {
    forall k | 0 <= k < |t.columns| ensures Strip(Strip(t.columns[k])) == Strip(t.columns[k]) {
      StripIdempotent(t.columns[k]);
    }
  }

  /** Trimming the names of an already trimmed frame changes nothing. */
  lemma StripColumnsIdempotent(t: Table)
    ensures StripColumns(StripColumns(t)) == StripColumns(t)
  {
    StripColumnsSpec(t);
    StripColumnsSpec(StripColumns(t));
  }

  /**
   * The site of a row: the text before the first " - " of its period (all of
   * it when there is no separator), NaN for a period that is not text, and
   * "Sin Sede" for every row when there is no period column.
   */
  lemma SiteOfRow(t: Table, i: nat)
    requires WellFormed(t) && i < |t.rows|
    ensures var site := Column(WithSite(t), SiteColumn)[i];
      && (PeriodColumn !in t.columns ==> site == Text(NoSite))
      && (PeriodColumn in t.columns ==> site == SiteOf(t.rows[i][IndexOf(t.columns, PeriodColumn)]))
  {
  }

  /**
   * The shift of a row: the text after the " - " where the split stopped (all
   * of it when there is no separator), NaN for a cell that is not text, and
   * "Sin Turno" for every row when there is no site-and-shift column.
   */
  lemma ShiftOfRow(t: Table, i: nat)
    requires WellFormed(t) && i < |t.rows|
    ensures var shift := Column(WithShift(t), ShiftColumn)[i];
      && (SiteShiftColumn !in t.columns ==> shift == Text(NoShift))
      && (SiteShiftColumn in t.columns ==> shift == ShiftOf(t.rows[i][IndexOf(t.columns, SiteShiftColumn)]))
  {
  }

  /** A text site is the text before the first separator of the period. */
  lemma SiteOfText(s: string)
    ensures SiteOf(Text(s)).Text?
    ensures var r := SiteOf(Text(s)).s;
      && r == s[..|r|]
      && NoneIn(s, Separator, 0, |r|)
      && (|r| < |s| ==> OccursAt(s, Separator, |r|))
      && (r == s <==> Free(s, Separator))
  {
    FirstPieceIsPrefixBeforeFirstSeparator(s, Separator);
  }

  /** A text shift is what follows the last separator the split found. */
  lemma ShiftOfText(s: string)
    ensures ShiftOf(Text(s)).Text?
    ensures var r := ShiftOf(Text(s)).s;
      && r == s[LastStart(s, Separator)..]
      && Free(r, Separator)
      && (r == s <==> Free(s, Separator))
  {
    LastPieceIsSuffixAfterSeparator(s, Separator);
  }

  /** The separator has a dash in the middle, so it cannot start just before a position that holds none. */
  lemma NoSeparatorWithoutDash(s: string, lo: nat, hi: nat)
    requires forall j :: lo < j <= hi && j < |s| ==> s[j] != '-'
    ensures NoneIn(s, Separator, lo, hi)
  {
    forall j | lo <= j < hi ensures !OccursAt(s, Separator, j) {
      if j + 3 <= |s| {
        assert s[j..j + 3][1] == s[j + 1] != '-';
      }
    }
  }

  /** The period in the script's own comment: "VIRTUAL - I_25" has the site "VIRTUAL". */
  lemma SiteSample()
    ensures SiteOf(Text("VIRTUAL - I_25")) == Text("VIRTUAL")
  {
    var s := "VIRTUAL - I_25";
    assert forall j :: 0 <= j < |s| && j != 8 ==> s[j] != '-';
    NoSeparatorWithoutDash(s, 0, 7);
    NoSeparatorWithoutDash(s, 8, |s| + 1);
    SplitOnce(s, Separator, 7);
  }

  /** The shift in the script's own comment: "YATACO PRINCIPAL - Noche" has the shift "Noche". */
  lemma ShiftSample()
    ensures ShiftOf(Text("YATACO PRINCIPAL - Noche")) == Text("Noche")
  {
    var s := "YATACO PRINCIPAL - Noche";
    assert forall j :: 0 <= j < |s| && j != 17 ==> s[j] != '-';
    NoSeparatorWithoutDash(s, 0, 16);
    NoSeparatorWithoutDash(s, 17, |s| + 1);
    SplitOnce(s, Separator, 16);
  }

  /**
   * The split is greedy: in "a - - b" the separator occurs at 1 and, overlapping
   * it, at 3; the scan takes the first and resumes after it, so the site is "a"
   * and the shift is "- b", not "b".
   */
  lemma OverlappingSeparatorsSample()
    ensures SiteOf(Text("a - - b")) == Text("a")
    ensures ShiftOf(Text("a - - b")) == Text("- b")
  {
    var s := "a - - b";
    assert OccursAt(s, Separator, 1);
    assert forall j :: 0 <= j < |s| && j != 2 && j != 4 ==> s[j] != '-';
    NoSeparatorWithoutDash(s, 0, 1);
    NoSeparatorWithoutDash(s, 4, |s| + 1);
    FindFromSpec(s, Separator, 0);
    FindFromSpec(s, Separator, 4);
    assert FindFrom(s, Separator, 0) == Some(1);
    assert FindFrom(s, Separator, 4) == None;
    assert Split(s, Separator) == [s[..1], s[4..]];
  }
}
