/**
 * The part of a pandas DataFrame the pipeline relies on: ordered column
 * labels and, per row, a cell for every label (None is NaN).
 */
module Frames {
  import opened Wrappers
  import opened Dicts
  import opened Cells

  datatype Frame = Frame(columns: seq<string>, rows: seq<map<string, Cell>>)

  function ColumnSet(columns: seq<string>): (s: set<string>)
    ensures forall c :: c in s <==> c in columns
  {
    set c | c in columns
  }

  /** Distinct labels, and every row has a cell for exactly those labels. */
  predicate Rectangular(f: Frame) {
    Distinct(f.columns) && forall i | 0 <= i < |f.rows| :: f.rows[i].Keys == ColumnSet(f.columns)
  }

  /** One dict as a DataFrame row over `columns`; a missing key becomes NaN. */
  function RowOf(columns: seq<string>, row: TypedRow): (m: map<string, Cell>)
    ensures m.Keys == ColumnSet(columns)
    ensures forall c | c in columns :: m[c] == Get(row, c)
  {
    map c | c in ColumnSet(columns) :: Get(row, c)
  }

  /** `pd.DataFrame(list_of_dicts)`: columns in order of first appearance, NaN where a row lacks a key. */
  function FrameOf(rows: seq<TypedRow>): (f: Frame)
    ensures Rectangular(f)
    ensures f.columns == KeyUnion(rows) && |f.rows| == |rows|
    ensures forall i, c | 0 <= i < |rows| && c in f.columns :: f.rows[i][c] == Get(rows[i], c)
  {
    var columns := KeyUnion(rows);
    Frame(columns, seq(|rows|, i requires 0 <= i < |rows| => RowOf(columns, rows[i])))
  }

  /** `df[c]`. */
  function Column(f: Frame, c: string): (col: seq<Cell>)
    requires forall i | 0 <= i < |f.rows| :: c in f.rows[i]
    ensures |col| == |f.rows| && forall i | 0 <= i < |f.rows| :: col[i] == f.rows[i][c]
  {
    seq(|f.rows|, i requires 0 <= i < |f.rows| => f.rows[i][c])
  }

  /** `df[c] = col` for an existing column `c`. */
  function SetColumn(f: Frame, c: string, col: seq<Cell>): (r: Frame)
    requires |col| == |f.rows|
    ensures r.columns == f.columns && |r.rows| == |f.rows|
    ensures forall i | 0 <= i < |f.rows| :: r.rows[i] == f.rows[i][c := col[i]]
  {
    Frame(f.columns, seq(|f.rows|, i requires 0 <= i < |f.rows| => f.rows[i][c := col[i]]))
  }

  /** Cell `c` of row `i` of `pd.DataFrame(rows)` is the row's value for `c`, or NaN. */
  lemma FrameCell(rows: seq<TypedRow>, i: nat, c: string)
    requires i < |rows| && c in KeyUnion(rows)
    ensures c in FrameOf(rows).rows[i] && FrameOf(rows).rows[i][c] == Get(rows[i], c)
  {
  }
}
