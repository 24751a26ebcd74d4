/**
 * The data frame the dashboard works on: named columns and rows of cells.
 * Cells are addressed by position, so renaming a column leaves the rows alone,
 * as reassigning `df.columns` does in pandas.
 */
module Tables {

  /** One cell of the uploaded sheet: text, an integer, or empty (pandas NaN). */
  datatype Cell = Text(s: string) | Num(n: int) | Blank

  type Row = seq<Cell>

  /** Column names in order, and the rows, each holding one cell per column. */
  datatype Table = Table(columns: seq<string>, rows: seq<Row>)

  predicate WellFormed(t: Table) {
    forall i :: 0 <= i < |t.rows| ==> |t.rows[i]| == |t.columns|
  }

  /** Position of the first column called `name`. */
  function IndexOf(cols: seq<string>, name: string): (k: nat)
    requires name in cols
    ensures k < |cols| && cols[k] == name
    ensures forall j :: 0 <= j < k ==> cols[j] != name
  {
    if cols[0] == name then 0 else 1 + IndexOf(cols[1..], name)
  }

  /** `df[name]`: one cell per row, the row's cell under the first column called `name`. */
  function Column(t: Table, name: string): (r: seq<Cell>)
    requires WellFormed(t) && name in t.columns
    ensures |r| == |t.rows|
    ensures forall i :: 0 <= i < |r| ==> r[i] == t.rows[i][IndexOf(t.columns, name)]
  {
    var k := IndexOf(t.columns, name);
    seq(|t.rows|, i requires 0 <= i < |t.rows| => t.rows[i][k])
  }

  /**
   * `df[name] = values`: an existing column `name` is overwritten in place,
   * otherwise a new column is appended at the end; every other cell is kept.
   */
  function WithColumn(t: Table, name: string, values: seq<Cell>): (r: Table)
    requires WellFormed(t) && |values| == |t.rows|
    ensures WellFormed(r) && |r.rows| == |t.rows|
    ensures r.columns == if name in t.columns then t.columns else t.columns + [name]
    ensures name in r.columns && Column(r, name) == values
    ensures forall i, k :: 0 <= i < |t.rows| && 0 <= k < |t.columns| && t.columns[k] != name ==>
      r.rows[i][k] == t.rows[i][k]
  {
    if name in t.columns then
      var k := IndexOf(t.columns, name);
      Table(t.columns, seq(|t.rows|, i requires 0 <= i < |t.rows| => t.rows[i][k := values[i]]))
    else
      var r := Table(t.columns + [name], seq(|t.rows|, i requires 0 <= i < |t.rows| => t.rows[i] + [values[i]]));
      assert IndexOf(r.columns, name) == |t.columns|;
      r
  }

  /** What a cell adds to a pandas column sum: its number; NaN is skipped. */
  function NumValue(c: Cell): int {
    match c
    case Num(n) => n
    case _ => 0
  }

  /**
   * `Series.sum()` over integer cells: NaN adds nothing, so a column without
   * numbers sums to 0, and a column of non-negative numbers has a non-negative sum.
   */
  function Sum(cs: seq<Cell>): (r: int)
    ensures (forall i :: 0 <= i < |cs| ==> !cs[i].Num?) ==> r == 0
    ensures (forall i :: 0 <= i < |cs| && cs[i].Num? ==> cs[i].n >= 0) ==> r >= 0
  {
    if cs == [] then 0 else NumValue(cs[0]) + Sum(cs[1..])
  }

  /** Summing is additive over concatenation. */
  lemma {:induction false} SumAppend(a: seq<Cell>, b: seq<Cell>)
    ensures Sum(a + b) == Sum(a) + Sum(b)
  {
    if a != [] {
      assert (a + b)[1..] == a[1..] + b;
      SumAppend(a[1..], b);
    } else {
      assert a + b == b;
    }
  }
}
