/**
 * The parsed table (a pandas DataFrame of text cells) and its upload grid
 * (`df_to_values`).
 */
module Frame {
  import opened Wrappers

  /** One cell as loaded: its text, or `None` for a missing value (pandas' NaN). */
  type Cell = Option<string>

  /** Column names in order, then one record per row. */
  datatype Table = Table(columns: seq<string>, rows: seq<seq<Cell>>) {
    /** A DataFrame is rectangular: every record has one cell per column. */
    predicate Valid() {
      forall r :: r in rows ==> |r| == |columns|
    }
  }

  /** The wire format of a bulk upload: rows of strings. */
  type Grid = seq<seq<string>>

  /** Position of the first column called `name` (the `name in df.columns` test and the lookup after it). */
  function ColumnIndex(columns: seq<string>, name: string): (r: Option<nat>)
    ensures r.None? <==> name !in columns
    ensures r.Some? ==> r.value < |columns| && columns[r.value] == name && name !in columns[..r.value]
  {
    if columns == [] then None
    else if columns[0] == name then Some(0)
    else
      match ColumnIndex(columns[1..], name)
      case None => None
      case Some(k) =>
        assert columns[..k + 1] == [columns[0]] + columns[1..][..k];
        Some(k + 1)
  }

  /** The cells of column `name`, top to bottom, or `None` when the table has no such column. */
  function Column(t: Table, name: string): (r: Option<seq<Cell>>)
    requires t.Valid()
    ensures r.None? <==> name !in t.columns
    ensures r.Some? ==> |r.value| == |t.rows|
    ensures r.Some? ==> exists k :: 0 <= k < |t.columns| && t.columns[k] == name &&
                          forall i :: 0 <= i < |t.rows| ==> r.value[i] == t.rows[i][k]
  {
    match ColumnIndex(t.columns, name)
    case None => None
    case Some(k) =>
      assert t.columns[k] == name;
      assert forall i :: 0 <= i < |t.rows| ==> t.rows[i] in t.rows;
      Some(seq(|t.rows|, i requires 0 <= i < |t.rows| => t.rows[i][k]))
  }

  /** `fillna('').astype(str)` of one record. */
  function RenderRow(r: seq<Cell>): (s: seq<string>)
    ensures |s| == |r|
    ensures forall j :: 0 <= j < |r| ==> (r[j].None? ==> s[j] == "") && (r[j].Some? ==> s[j] == r[j].value)
  {
    seq(|r|, j requires 0 <= j < |r| => r[j].GetOr(""))
  }

  /**
   * `df_to_values`: the header row, then every record rendered as text.
   * Row 0 is the column names in their original order; then one row per record.
   */
  function ToValues(t: Table): (g: Grid)
    ensures |g| == |t.rows| + 1 && g[0] == t.columns
  {
    [t.columns] + seq(|t.rows|, i requires 0 <= i < |t.rows| => RenderRow(t.rows[i]))
  }

  /** The table a grid denotes: first row as header, every other cell present. */
  function FromValues(g: Grid): Table
    requires |g| >= 1
  {
    Table(g[0], seq(|g| - 1, i requires 0 <= i < |g| - 1 =>
                      seq(|g[i + 1]|, j requires 0 <= j < |g[i + 1]| => Some(g[i + 1][j]))))
  }

  /** The table with every missing cell replaced by the empty string (`fillna('')`). */
  function FillMissing(t: Table): Table {
    Table(t.columns, seq(|t.rows|, i requires 0 <= i < |t.rows| =>
                           seq(|t.rows[i]|, j requires 0 <= j < |t.rows[i]| => Some(t.rows[i][j].GetOr("")))))
  }

  // ---------------------------------------------------------------------------
  // Properties of the upload grid

  /** Every row of the grid is as wide as the header. */
  lemma ToValuesRectangular(t: Table)
    requires t.Valid()
    ensures forall i :: 0 <= i < |ToValues(t)| ==> |ToValues(t)[i]| == |t.columns|
  {
    forall i | 1 <= i < |ToValues(t)|
      ensures |ToValues(t)[i]| == |t.columns|
    {
      assert t.rows[i - 1] in t.rows;
    }
  }

  /** Each present cell keeps its text; each missing cell becomes "" (never a marker like "nan"). */
  lemma ToValuesCells(t: Table, i: nat, j: nat)
    requires i < |t.rows| && j < |t.rows[i]|
    ensures j < |ToValues(t)[i + 1]|
    ensures t.rows[i][j].None? ==> ToValues(t)[i + 1][j] == ""
    ensures t.rows[i][j].Some? ==> ToValues(t)[i + 1][j] == t.rows[i][j].value
  {
  }

  /** Reading a grid back as a table and rendering it again gives the same grid. */
  lemma FromValuesRoundTrip(g: Grid)
    requires |g| >= 1
    ensures ToValues(FromValues(g)) == g
  {
    var g' := ToValues(FromValues(g));
    assert |g'| == |g|;
    forall i | 1 <= i < |g|
      ensures g'[i] == g[i]
    {
      assert g'[i] == RenderRow(FromValues(g).rows[i - 1]);
    }
  }

  /** Rendering loses exactly the distinction between a missing cell and an empty one. */
  lemma ToValuesRoundTrip(t: Table)
    ensures FromValues(ToValues(t)) == FillMissing(t)
  {
    var u := FromValues(ToValues(t));
    assert |u.rows| == |t.rows|;
    forall i | 0 <= i < |t.rows|
      ensures u.rows[i] == FillMissing(t).rows[i]
    {
      assert ToValues(t)[i + 1] == RenderRow(t.rows[i]);
    }
  }

  /** Two tables render to the same grid exactly when they agree once missing cells count as "". */
  lemma ToValuesSameIff(t1: Table, t2: Table)
    ensures ToValues(t1) == ToValues(t2) <==> FillMissing(t1) == FillMissing(t2)
  {
    ToValuesRoundTrip(t1);
    ToValuesRoundTrip(t2);
    if FillMissing(t1) == FillMissing(t2) {
      assert |t1.rows| == |t2.rows|;
      forall i | 0 <= i < |t1.rows|
        ensures RenderRow(t1.rows[i]) == RenderRow(t2.rows[i])
      {
        assert FillMissing(t1).rows[i] == FillMissing(t2).rows[i];
        assert |t1.rows[i]| == |t2.rows[i]|;
        forall j | 0 <= j < |t1.rows[i]|
          ensures t1.rows[i][j].GetOr("") == t2.rows[i][j].GetOr("")
        {
          assert FillMissing(t1).rows[i][j] == FillMissing(t2).rows[i][j];
        }
      }
    }
  }
}
