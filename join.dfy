/**
 * `pd.merge(old_df, new_df, how='outer', on=join_on)` on the two frames the
 * merger joins. A column other than the join key that both sides carry is
 * renamed with `_x` on the old side and `_y` on the new side. Every old row
 * is paired with every new row holding the same key cell. An old row with
 * no partner keeps NaN in the new side's columns, and a new row with no
 * partner keeps NaN in the old side's columns. pandas' order of the joined
 * rows is not modelled: old rows come first in their order, each followed by
 * its partners, then the unpartnered new rows.
 */
module OuterJoin {
  import opened Wrappers
  import opened Dicts
  import opened Cells
  import opened Frames
  import opened Strings

  type FrameRow = map<string, Cell>

  /** The first index of `x` in `s`. */
  function Position<T(==)>(s: seq<T>, x: T): (i: nat)
    requires x in s
    ensures i < |s| && s[i] == x && forall k | 0 <= k < i :: s[k] != x
  {
    if s[0] == x then 0
    else 1 + Position(s[1..], x)
  }

  lemma PositionOf<T(!new)>(s: seq<T>, j: nat)
    requires Distinct(s) && j < |s|
    ensures Position(s, s[j]) == j
  {
    var p := Position(s, s[j]);
    assert s[p] == s[j];
  }

  /** A row over `columns` whose cell for `columns[j]` is `cells[j]`. */
  function Zip(columns: seq<string>, cells: seq<Cell>): (m: FrameRow)
    requires |columns| == |cells|
    ensures m.Keys == ColumnSet(columns)
  {
    map c | c in ColumnSet(columns) :: cells[Position(columns, c)]
  }

  lemma ZipAt(columns: seq<string>, cells: seq<Cell>, j: nat)
    requires |columns| == |cells| && Distinct(columns) && j < |columns|
    ensures columns[j] in Zip(columns, cells) && Zip(columns, cells)[columns[j]] == cells[j]
  {
    PositionOf(columns, j);
  }

  /** The cell a row holds for `c`, NaN when there is no row or no such cell. */
  function CellOf(row: Option<FrameRow>, c: string): Cell {
    if row.Some? && c in row.value then row.value[c] else None
  }

  /** A column other than the key that both frames carry. */
  predicate Shared(prior: Frame, incoming: Frame, on: string, c: string) {
    c != on && c in prior.columns && c in incoming.columns
  }

  function LeftName(prior: Frame, incoming: Frame, on: string, c: string): string {
    if Shared(prior, incoming, on, c) then c + "_x" else c
  }

  function RightName(prior: Frame, incoming: Frame, on: string, c: string): string {
    if Shared(prior, incoming, on, c) then c + "_y" else c
  }

  /** The new frame's columns other than the key, in order. */
  function RightColumns(columns: seq<string>, on: string): (r: seq<string>)
    ensures forall c :: c in r <==> c in columns && c != on
    ensures Distinct(columns) ==> Distinct(r)
  {
    if columns == [] then []
    else
      var rest := RightColumns(columns[1..], on);
      assert columns == [columns[0]] + columns[1..];
      assert Distinct(columns) ==> columns[0] !in columns[1..];
      if columns[0] == on then rest else [columns[0]] + rest
  }

  /** The old side's labels of the old columns. */
  function LeftNames(prior: Frame, incoming: Frame, on: string): (names: seq<string>)
    ensures |names| == |prior.columns|
    ensures forall j | 0 <= j < |prior.columns| :: names[j] == LeftName(prior, incoming, on, prior.columns[j])
  {
    seq(|prior.columns|, j requires 0 <= j < |prior.columns| => LeftName(prior, incoming, on, prior.columns[j]))
  }

  /** The new side's labels of the new non-key columns. */
  function RightNames(prior: Frame, incoming: Frame, on: string): (names: seq<string>)
    ensures |names| == |RightColumns(incoming.columns, on)|
    ensures forall j | 0 <= j < |names| :: names[j] == RightName(prior, incoming, on, RightColumns(incoming.columns, on)[j])
  {
    var rc := RightColumns(incoming.columns, on);
    seq(|rc|, j requires 0 <= j < |rc| => RightName(prior, incoming, on, rc[j]))
  }

  /** The joined frame's labels: the old columns, then the new non-key columns, suffixed where shared. */
  function JoinedColumns(prior: Frame, incoming: Frame, on: string): seq<string> {
    LeftNames(prior, incoming, on) + RightNames(prior, incoming, on)
  }

  /** The cells of old row `a` under the old columns; the key cell comes from `b` when `a` is absent. */
  function LeftCells(prior: Frame, on: string, a: Option<FrameRow>, b: Option<FrameRow>): (cells: seq<Cell>)
    ensures |cells| == |prior.columns|
    ensures forall j | 0 <= j < |prior.columns| ::
      cells[j] == (if prior.columns[j] == on && a.None? then CellOf(b, on) else CellOf(a, prior.columns[j]))
  {
    seq(|prior.columns|, j requires 0 <= j < |prior.columns| =>
      if prior.columns[j] == on && a.None? then CellOf(b, on) else CellOf(a, prior.columns[j]))
  }

  /** The cells of new row `b` under the new non-key columns. */
  function RightCells(incoming: Frame, on: string, b: Option<FrameRow>): (cells: seq<Cell>)
    ensures |cells| == |RightColumns(incoming.columns, on)|
    ensures forall j | 0 <= j < |cells| :: cells[j] == CellOf(b, RightColumns(incoming.columns, on)[j])
  {
    var rc := RightColumns(incoming.columns, on);
    seq(|rc|, j requires 0 <= j < |rc| => CellOf(b, rc[j]))
  }

  /**
   * The cells of the joined row built from old row `a` and new row `b`,
   * either of which may be absent.
   */
  function JoinedCells(prior: Frame, incoming: Frame, on: string, a: Option<FrameRow>, b: Option<FrameRow>): (cells: seq<Cell>)
    ensures |cells| == |JoinedColumns(prior, incoming, on)|
  {
    LeftCells(prior, on, a, b) + RightCells(incoming, on, b)
  }

  function JoinedRow(prior: Frame, incoming: Frame, on: string, a: Option<FrameRow>, b: Option<FrameRow>): (m: FrameRow)
    ensures m.Keys == ColumnSet(JoinedColumns(prior, incoming, on))
  {
    Zip(JoinedColumns(prior, incoming, on), JoinedCells(prior, incoming, on, a, b))
  }

  function KeyCell(row: FrameRow, on: string): Cell {
    CellOf(Some(row), on)
  }

  /** The new rows whose key cell equals `key`, in order. */
  function Matches(rows: seq<FrameRow>, on: string, key: Cell): (r: seq<FrameRow>)
    ensures forall b :: b in r <==> b in rows && KeyCell(b, on) == key
  {
    if rows == [] then []
    else
      var prefix := Matches(rows[..|rows| - 1], on, key);
      var last := rows[|rows| - 1];
      assert rows == rows[..|rows| - 1] + [last];
      if KeyCell(last, on) == key then prefix + [last] else prefix
  }

  /** `b` is the partner `a` gets: a new row with the same key, or none when no new row has it. */
  predicate Partnered(incoming: Frame, on: string, a: FrameRow, b: Option<FrameRow>) {
    && (b.Some? ==> b.value in incoming.rows && KeyCell(b.value, on) == KeyCell(a, on))
    && (b.None? ==> forall n | n in incoming.rows :: KeyCell(n, on) != KeyCell(a, on))
  }

  /** `m` is the joined row of old row `a` and one of its partners. */
  ghost predicate FromOldRow(prior: Frame, incoming: Frame, on: string, m: FrameRow, a: FrameRow) {
    exists b :: m == JoinedRow(prior, incoming, on, Some(a), b) && Partnered(incoming, on, a, b)
  }

  /** The joined rows one old row contributes: one per partner, or one with NaN on the new side. */
  function OldRowJoined(prior: Frame, incoming: Frame, on: string, a: FrameRow): (r: seq<FrameRow>)
    ensures r != []
    ensures forall m | m in r :: FromOldRow(prior, incoming, on, m, a)
  {
    var ms := Matches(incoming.rows, on, KeyCell(a, on));
    if ms == [] then
      assert Partnered(incoming, on, a, None);
      [JoinedRow(prior, incoming, on, Some(a), None)]
    else
      var r := seq(|ms|, j requires 0 <= j < |ms| => JoinedRow(prior, incoming, on, Some(a), Some(ms[j])));
      assert forall m | m in r :: FromOldRow(prior, incoming, on, m, a) by {
        forall m | m in r ensures FromOldRow(prior, incoming, on, m, a) {
          var j :| 0 <= j < |ms| && r[j] == m;
          assert ms[j] in ms;
          assert Partnered(incoming, on, a, Some(ms[j]));
        }
      }
      r
  }

  /** The joined rows of the old rows, in order. */
  function OldRowsJoined(prior: Frame, incoming: Frame, on: string, rows: seq<FrameRow>): seq<FrameRow> {
    if rows == [] then []
    else OldRowsJoined(prior, incoming, on, rows[..|rows| - 1]) + OldRowJoined(prior, incoming, on, rows[|rows| - 1])
  }

  function OldKeys(prior: Frame, on: string): set<Cell> {
    set a | a in prior.rows :: KeyCell(a, on)
  }

  /** `m` is the joined row of a row of `rows` whose key no old row holds. */
  ghost predicate FromNewRow(prior: Frame, incoming: Frame, on: string, m: FrameRow, rows: seq<FrameRow>) {
    exists b | b in rows && KeyCell(b, on) !in OldKeys(prior, on) :: m == JoinedRow(prior, incoming, on, None, Some(b))
  }

  /** The joined rows of the new rows no old row partners, in order. */
  function NewOnlyJoined(prior: Frame, incoming: Frame, on: string, rows: seq<FrameRow>): (r: seq<FrameRow>)
    ensures forall m | m in r :: FromNewRow(prior, incoming, on, m, rows)
  {
    if rows == [] then []
    else
      var b := rows[|rows| - 1];
      var prefix := NewOnlyJoined(prior, incoming, on, rows[..|rows| - 1]);
      assert forall x | x in rows[..|rows| - 1] :: x in rows;
      if KeyCell(b, on) in OldKeys(prior, on) then prefix
      else prefix + [JoinedRow(prior, incoming, on, None, Some(b))]
  }

  /** `pd.merge(old, new, how='outer', on=on)`. */
  function Join(prior: Frame, incoming: Frame, on: string): Result<Frame, Error> {
    if on !in prior.columns || on !in incoming.columns then Err(MissingKey(on))
    else
      var columns := JoinedColumns(prior, incoming, on);
      if !Distinct(columns) then Err(DuplicateColumns)
      else Ok(Frame(columns, OldRowsJoined(prior, incoming, on, prior.rows) + NewOnlyJoined(prior, incoming, on, incoming.rows)))
  }

  lemma {:induction false} OldRowsJoinedOrigin(prior: Frame, incoming: Frame, on: string, rows: seq<FrameRow>)
    ensures forall m | m in OldRowsJoined(prior, incoming, on, rows) ::
      exists a | a in rows :: FromOldRow(prior, incoming, on, m, a)
  {
    if rows != [] {
      var prefix := rows[..|rows| - 1];
      OldRowsJoinedOrigin(prior, incoming, on, prefix);
      assert forall x | x in prefix :: x in rows;
      assert rows[|rows| - 1] in rows;
    }
  }

  lemma JoinRows(prior: Frame, incoming: Frame, on: string)
    requires Join(prior, incoming, on).Ok?
    ensures Join(prior, incoming, on).value.columns == JoinedColumns(prior, incoming, on)
    ensures Join(prior, incoming, on).value.rows
      == OldRowsJoined(prior, incoming, on, prior.rows) + NewOnlyJoined(prior, incoming, on, incoming.rows)
  {
  }

  /**
   * The joined frame's labels: each old column in order, with `_x` when the
   * new frame carries it too and it is not the key, then each new non-key
   * column in order, with `_y` when the old frame carries it too; no label
   * repeats.
   */
  lemma JoinColumnsLayout(prior: Frame, incoming: Frame, on: string)
    requires Join(prior, incoming, on).Ok?
    ensures |Join(prior, incoming, on).value.columns| == |prior.columns| + |RightColumns(incoming.columns, on)|
    ensures forall j | 0 <= j < |prior.columns| ::
      Join(prior, incoming, on).value.columns[j] ==
        if prior.columns[j] != on && prior.columns[j] in incoming.columns then prior.columns[j] + "_x" else prior.columns[j]
    ensures forall j | 0 <= j < |RightColumns(incoming.columns, on)| ::
      Join(prior, incoming, on).value.columns[|prior.columns| + j] ==
        var c := RightColumns(incoming.columns, on)[j];
        if c in prior.columns then c + "_y" else c
    ensures Distinct(Join(prior, incoming, on).value.columns)
  {
    JoinRows(prior, incoming, on);
    var ln, rn := LeftNames(prior, incoming, on), RightNames(prior, incoming, on);
    var rc := RightColumns(incoming.columns, on);
    var cols := Join(prior, incoming, on).value.columns;
    assert cols == ln + rn;
    forall j | 0 <= j < |rc| ensures cols[|prior.columns| + j] == if rc[j] in prior.columns then rc[j] + "_y" else rc[j] {
      assert rc[j] in rc;
      assert cols[|prior.columns| + j] == rn[j];
    }
  }

  /**
   * Every joined row comes from an old row and a partner with the same key,
   * from an old row no new row partners, or from a new row whose key no old
   * row holds.
   */
  lemma JoinRowOrigin(prior: Frame, incoming: Frame, on: string, i: nat)
    requires Join(prior, incoming, on).Ok? && i < |Join(prior, incoming, on).value.rows|
    ensures
      || (exists a | a in prior.rows :: FromOldRow(prior, incoming, on, Join(prior, incoming, on).value.rows[i], a))
      || FromNewRow(prior, incoming, on, Join(prior, incoming, on).value.rows[i], incoming.rows)
  {
    JoinRows(prior, incoming, on);
    JoinedPartsOrigin(prior, incoming, on, Join(prior, incoming, on).value.rows, i);
  }

  lemma JoinedPartsOrigin(prior: Frame, incoming: Frame, on: string, rows: seq<FrameRow>, i: nat)
    requires rows == OldRowsJoined(prior, incoming, on, prior.rows) + NewOnlyJoined(prior, incoming, on, incoming.rows)
    requires i < |rows|
    ensures
      || (exists a | a in prior.rows :: FromOldRow(prior, incoming, on, rows[i], a))
      || FromNewRow(prior, incoming, on, rows[i], incoming.rows)
  {
    var left := OldRowsJoined(prior, incoming, on, prior.rows);
    var right := NewOnlyJoined(prior, incoming, on, incoming.rows);
    if i < |left| {
      assert rows[i] == left[i] && left[i] in left;
      OldRowsJoinedOrigin(prior, incoming, on, prior.rows);
    } else {
      assert rows[i] == right[i - |left|] && right[i - |left|] in right;
    }
  }

  /** The merge fails on a key missing from either side and on colliding labels, and otherwise yields a well-formed frame. */
  lemma JoinOutcome(prior: Frame, incoming: Frame, on: string)
    ensures Join(prior, incoming, on) == Err(MissingKey(on)) <==> on !in prior.columns || on !in incoming.columns
    ensures Join(prior, incoming, on) == Err(DuplicateColumns) <==>
      on in prior.columns && on in incoming.columns && !Distinct(JoinedColumns(prior, incoming, on))
    ensures Join(prior, incoming, on).Ok? ==> Rectangular(Join(prior, incoming, on).value)
  {
    if Join(prior, incoming, on).Ok? {
      var g := Join(prior, incoming, on).value;
      forall i | 0 <= i < |g.rows| ensures g.rows[i].Keys == ColumnSet(g.columns) {
        JoinRowOrigin(prior, incoming, on, i);
      }
    }
  }

  /** A joined row holds the old row's cell under the old side's label of each old column. */
  lemma JoinedRowLeft(prior: Frame, incoming: Frame, on: string, a: Option<FrameRow>, b: Option<FrameRow>, c: string)
    requires Distinct(JoinedColumns(prior, incoming, on)) && c in prior.columns
    ensures LeftName(prior, incoming, on, c) in JoinedRow(prior, incoming, on, a, b)
    ensures JoinedRow(prior, incoming, on, a, b)[LeftName(prior, incoming, on, c)]
      == (if c == on && a.None? then CellOf(b, on) else CellOf(a, c))
  {
    var cols := JoinedColumns(prior, incoming, on);
    var cells := JoinedCells(prior, incoming, on, a, b);
    var j := Position(prior.columns, c);
    assert cols[j] == LeftNames(prior, incoming, on)[j];
    assert cells[j] == LeftCells(prior, on, a, b)[j];
    ZipAt(cols, cells, j);
  }

  /** A joined row holds the new row's cell under the new side's label of each new non-key column. */
  lemma JoinedRowRight(prior: Frame, incoming: Frame, on: string, a: Option<FrameRow>, b: Option<FrameRow>, c: string)
    requires Distinct(JoinedColumns(prior, incoming, on)) && c in incoming.columns && c != on
    ensures RightName(prior, incoming, on, c) in JoinedRow(prior, incoming, on, a, b)
    ensures JoinedRow(prior, incoming, on, a, b)[RightName(prior, incoming, on, c)] == CellOf(b, c)
  {
    var cols := JoinedColumns(prior, incoming, on);
    var cells := JoinedCells(prior, incoming, on, a, b);
    var rc := RightColumns(incoming.columns, on);
    var j := Position(rc, c);
    var k := |prior.columns| + j;
    assert cols[k] == RightNames(prior, incoming, on)[j];
    assert cells[k] == RightCells(incoming, on, b)[j];
    ZipAt(cols, cells, k);
  }

  lemma {:induction false} OldRowsJoinedCover(prior: Frame, incoming: Frame, on: string, rows: seq<FrameRow>, a: FrameRow)
    requires a in rows
    ensures exists m | m in OldRowsJoined(prior, incoming, on, rows) :: FromOldRow(prior, incoming, on, m, a)
  {
    var prefix := rows[..|rows| - 1];
    var last := rows[|rows| - 1];
    assert rows == prefix + [last];
    if a == last {
      var r := OldRowJoined(prior, incoming, on, a);
      assert r[0] in r;
    } else {
      OldRowsJoinedCover(prior, incoming, on, prefix, a);
    }
  }

  /** Every old row reaches the joined frame, paired with a partner or with none. */
  lemma JoinKeepsOld(prior: Frame, incoming: Frame, on: string, a: FrameRow)
    requires Join(prior, incoming, on).Ok? && a in prior.rows
    ensures exists m | m in Join(prior, incoming, on).value.rows :: FromOldRow(prior, incoming, on, m, a)
  {
    JoinRows(prior, incoming, on);
    OldRowsJoinedCover(prior, incoming, on, prior.rows, a);
  }

  lemma {:induction false} OldRowsJoinedPairs(prior: Frame, incoming: Frame, on: string, rows: seq<FrameRow>, a: FrameRow, b: FrameRow)
    requires a in rows && b in incoming.rows && KeyCell(a, on) == KeyCell(b, on)
    ensures JoinedRow(prior, incoming, on, Some(a), Some(b)) in OldRowsJoined(prior, incoming, on, rows)
  {
    var prefix := rows[..|rows| - 1];
    var last := rows[|rows| - 1];
    assert rows == prefix + [last];
    if a == last {
      var ms := Matches(incoming.rows, on, KeyCell(a, on));
      assert b in ms;
      var j :| 0 <= j < |ms| && ms[j] == b;
      assert OldRowJoined(prior, incoming, on, a)[j] == JoinedRow(prior, incoming, on, Some(a), Some(b));
    } else {
      OldRowsJoinedPairs(prior, incoming, on, prefix, a, b);
    }
  }

  lemma {:induction false} NewOnlyJoinedCover(prior: Frame, incoming: Frame, on: string, rows: seq<FrameRow>, b: FrameRow)
    requires b in rows && KeyCell(b, on) !in OldKeys(prior, on)
    ensures JoinedRow(prior, incoming, on, None, Some(b)) in NewOnlyJoined(prior, incoming, on, rows)
  {
    var prefix := rows[..|rows| - 1];
    assert rows == prefix + [rows[|rows| - 1]];
    if b != rows[|rows| - 1] {
      NewOnlyJoinedCover(prior, incoming, on, prefix, b);
    }
  }

  /**
   * Every new row reaches the joined frame: with each old row holding its
   * key, or alone when no old row holds it.
   */
  lemma JoinKeepsNew(prior: Frame, incoming: Frame, on: string, b: FrameRow)
    requires Join(prior, incoming, on).Ok? && b in incoming.rows
    ensures forall a | a in prior.rows && KeyCell(a, on) == KeyCell(b, on) ::
      JoinedRow(prior, incoming, on, Some(a), Some(b)) in Join(prior, incoming, on).value.rows
    ensures (forall a | a in prior.rows :: KeyCell(a, on) != KeyCell(b, on)) ==>
      JoinedRow(prior, incoming, on, None, Some(b)) in Join(prior, incoming, on).value.rows
  {
    JoinRows(prior, incoming, on);
    forall a | a in prior.rows && KeyCell(a, on) == KeyCell(b, on)
      ensures JoinedRow(prior, incoming, on, Some(a), Some(b)) in Join(prior, incoming, on).value.rows
    {
      OldRowsJoinedPairs(prior, incoming, on, prior.rows, a, b);
    }
    if KeyCell(b, on) !in OldKeys(prior, on) {
      NewOnlyJoinedCover(prior, incoming, on, incoming.rows, b);
    }
  }

  /** Every key cell of either side appears as the key cell of some joined row. */
  lemma JoinKeys(prior: Frame, incoming: Frame, on: string)
    requires Rectangular(prior) && Rectangular(incoming) && Join(prior, incoming, on).Ok?
    ensures forall a | a in prior.rows :: exists m | m in Join(prior, incoming, on).value.rows ::
      on in m && m[on] == KeyCell(a, on)
    ensures forall b | b in incoming.rows :: exists m | m in Join(prior, incoming, on).value.rows ::
      on in m && m[on] == KeyCell(b, on)
  {
    var g := Join(prior, incoming, on).value;
    assert LeftName(prior, incoming, on, on) == on;
    forall a | a in prior.rows ensures exists m | m in g.rows :: on in m && m[on] == KeyCell(a, on) {
      JoinKeepsOld(prior, incoming, on, a);
      var m :| m in g.rows && FromOldRow(prior, incoming, on, m, a);
      var b :| m == JoinedRow(prior, incoming, on, Some(a), b) && Partnered(incoming, on, a, b);
      JoinedRowLeft(prior, incoming, on, Some(a), b, on);
    }
    forall b | b in incoming.rows ensures exists m | m in g.rows :: on in m && m[on] == KeyCell(b, on) {
      JoinKeepsNew(prior, incoming, on, b);
      if a :| a in prior.rows && KeyCell(a, on) == KeyCell(b, on) {
        JoinedRowLeft(prior, incoming, on, Some(a), Some(b), on);
      } else {
        JoinedRowLeft(prior, incoming, on, None, Some(b), on);
      }
    }
  }

  /** No label carries a merge suffix already. */
  predicate NoSuffixes(f: Frame) {
    forall c | c in f.columns :: !EndsWith(c, "_x") && !EndsWith(c, "_y")
  }

  lemma SuffixedEnds(c: string, t: string)
    requires |t| == 2
    ensures EndsWith(c + t, t)
    ensures forall d: string | d + t == c + t :: d == c
  {
    forall d: string | d + t == c + t ensures d == c {
      assert d == (d + t)[..|d|];
    }
  }

  /** Frames whose labels carry no merge suffix never collide in the merge. */
  lemma JoinLabelsDistinct(prior: Frame, incoming: Frame, on: string)
    requires Rectangular(prior) && Rectangular(incoming) && NoSuffixes(prior) && NoSuffixes(incoming)
    ensures Distinct(JoinedColumns(prior, incoming, on))
  {
    var ln, rn := LeftNames(prior, incoming, on), RightNames(prior, incoming, on);
    var rc := RightColumns(incoming.columns, on);
    var cols := JoinedColumns(prior, incoming, on);
    forall c | c in prior.columns || c in incoming.columns ensures EndsWith(c + "_x", "_x") && EndsWith(c + "_y", "_y") {
      SuffixedEnds(c, "_x");
      SuffixedEnds(c, "_y");
    }
    forall i, j | 0 <= i < j < |cols| ensures cols[i] != cols[j] {
      if j < |ln| {
        SuffixedEnds(prior.columns[i], "_x");
        assert prior.columns[i] != prior.columns[j];
      } else if i >= |ln| {
        var c, d := rc[i - |ln|], rc[j - |ln|];
        assert cols[i] == rn[i - |ln|] && cols[j] == rn[j - |ln|];
        SuffixedEnds(c, "_y");
        assert c != d;
      } else {
        var c, d := prior.columns[i], rc[j - |ln|];
        assert cols[i] == ln[i] && cols[j] == rn[j - |ln|];
        assert d in incoming.columns;
      }
    }
  }
}
