/**
 * The loop of `outer_join_csvs` that folds each `_x`/`_y` column pair of
 * the joined frame into one column. The loop walks the labels the joined
 * frame had before the loop started. For each label ending in `_x` it
 * computes the partner and target names. `combine_first` keeps the old
 * side's cell unless it is NaN. The result is stored under the target
 * name, appended when the name is new, and both suffixed columns are
 * dropped.
 *
 * The source derives the names with `str.replace`, which rewrites every
 * `_x` in the label and not only the suffix; `ReplaceEverywhere` models
 * that, and `StripSuffix` is the evidently intended reading.
 */
module SuffixResolution {
  import opened Wrappers
  import opened Dicts
  import opened Strings
  import opened Cells
  import opened Frames
  import opened OuterJoin

  datatype Renaming = ReplaceEverywhere | StripSuffix

  /** The label without its last two characters. */
  function Unsuffixed(c: string): string {
    if |c| >= 2 then c[..|c| - 2] else c
  }

  /** The label of the new side's column paired with `_x` column `c`. */
  function Partner(rn: Renaming, c: string): string {
    match rn
    case ReplaceEverywhere => ReplaceX(c, "_y")
    case StripSuffix => Unsuffixed(c) + "_y"
  }

  /** The label the combined column is stored under. */
  function Target(rn: Renaming, c: string): string {
    match rn
    case ReplaceEverywhere => ReplaceX(c, "")
    case StripSuffix => Unsuffixed(c)
  }

  /** `x.combine_first(y)` on one cell: `x` unless it is NaN. */
  function Coalesce(x: Cell, y: Cell): (r: Cell)
    ensures r.Some? <==> x.Some? || y.Some?
    ensures x.Some? ==> r == x
  {
    if x.Some? then x else y
  }

  /** `df[c] = col`: replaces column `c` in place, or appends it when `df` has none. */
  function Assign(f: Frame, c: string, col: seq<Cell>): (r: Frame)
    requires Rectangular(f) && |col| == |f.rows|
    ensures Rectangular(r) && |r.rows| == |f.rows|
    ensures forall k :: k in r.columns <==> k in f.columns || k == c
    ensures forall i | 0 <= i < |f.rows| :: r.rows[i] == f.rows[i][c := col[i]]
  {
    var columns := if c in f.columns then f.columns else f.columns + [c];
    assert ColumnSet(columns) == ColumnSet(f.columns) + {c};
    Frame(columns, seq(|f.rows|, i requires 0 <= i < |f.rows| => f.rows[i][c := col[i]]))
  }

  /** The labels of `columns` outside `drop`, in order. */
  function Without(columns: seq<string>, drop: set<string>): (r: seq<string>)
    ensures forall k :: k in r <==> k in columns && k !in drop
    ensures Distinct(columns) ==> Distinct(r)
  {
    if columns == [] then []
    else
      var rest := Without(columns[1..], drop);
      assert columns == [columns[0]] + columns[1..];
      assert Distinct(columns) ==> columns[0] !in columns[1..];
      if columns[0] in drop then rest else [columns[0]] + rest
  }

  /** `df.drop(columns=drop, inplace=True)` for labels `df` has. */
  function DropColumns(f: Frame, drop: set<string>): (r: Frame)
    requires Rectangular(f)
    ensures Rectangular(r) && |r.rows| == |f.rows|
    ensures forall k :: k in r.columns <==> k in f.columns && k !in drop
    ensures forall i | 0 <= i < |f.rows| :: r.rows[i] == f.rows[i] - drop
  {
    var columns := Without(f.columns, drop);
    Frame(columns, seq(|f.rows|, i requires 0 <= i < |f.rows| => f.rows[i] - drop))
  }

  /** `df[c].combine_first(df[y])`. */
  function Combined(f: Frame, c: string, y: string): (col: seq<Cell>)
    requires Rectangular(f) && c in f.columns && y in f.columns
    ensures |col| == |f.rows|
    ensures forall i | 0 <= i < |f.rows| :: col[i] == Coalesce(f.rows[i][c], f.rows[i][y])
  {
    seq(|f.rows|, i requires 0 <= i < |f.rows| => Coalesce(f.rows[i][c], f.rows[i][y]))
  }

  /** One pass of the loop body for label `c`. */
  function Step(f: Frame, c: string, rn: Renaming): (r: Result<Frame, Error>)
    requires Rectangular(f)
    ensures r.Ok? ==> Rectangular(r.value) && |r.value.rows| == |f.rows|
  {
    if !EndsWith(c, "_x") then Ok(f)
    else if c !in f.columns then Err(MissingKey(c))
    else
      var y := Partner(rn, c);
      if y !in f.columns then Err(MissingKey(y))
      else Ok(DropColumns(Assign(f, Target(rn, c), Combined(f, c, y)), {c, y}))
  }

  /** The loop over `columns`, the labels the frame had when it started. */
  function Combine(f: Frame, columns: seq<string>, rn: Renaming): (r: Result<Frame, Error>)
    requires Rectangular(f)
    ensures r.Ok? ==> Rectangular(r.value) && |r.value.rows| == |f.rows|
  {
    if columns == [] then Ok(f)
    else
      var prefix := Combine(f, columns[..|columns| - 1], rn);
      if prefix.Err? then prefix else Step(prefix.value, columns[|columns| - 1], rn)
  }

  lemma CombineStep(f: Frame, columns: seq<string>, n: nat, rn: Renaming)
    requires Rectangular(f) && n < |columns|
    ensures Combine(f, columns[..n + 1], rn) ==
      if Combine(f, columns[..n], rn).Err? then Combine(f, columns[..n], rn)
      else Step(Combine(f, columns[..n], rn).value, columns[n], rn)
  {
    assert columns[..n + 1][..n] == columns[..n];
  }

  lemma {:induction false} CombineErrorSticks(f: Frame, columns: seq<string>, n: nat, rn: Renaming)
    requires Rectangular(f) && n <= |columns| && Combine(f, columns[..n], rn).Err?
    ensures Combine(f, columns, rn) == Combine(f, columns[..n], rn)
    decreases |columns| - n
  {
    if n < |columns| {
      CombineStep(f, columns, n, rn);
      CombineErrorSticks(f, columns, n + 1, rn);
    } else {
      assert columns[..n] == columns;
    }
  }

  /** The loop of `outer_join_csvs`, with the frame updated column by column. */
  method ResolveSuffixes(joined: Frame, rn: Renaming) returns (r: Result<Frame, Error>)
    requires Rectangular(joined)
    ensures r == Combine(joined, joined.columns, rn)
  {
    var columns := joined.columns;
    var df := joined;
    for i := 0 to |columns|
      invariant Rectangular(df)
      invariant Combine(joined, columns[..i], rn) == Ok(df)
    {
      CombineStep(joined, columns, i, rn);
      var column := columns[i];
      if EndsWith(column, "_x") {
        if column !in df.columns {
          CombineErrorSticks(joined, columns, i + 1, rn);
          return Err(MissingKey(column));
        }
        var partner := Partner(rn, column);
        if partner !in df.columns {
          CombineErrorSticks(joined, columns, i + 1, rn);
          return Err(MissingKey(partner));
        }
        var combined := Combined(df, column, partner);
        df := Assign(df, Target(rn, column), combined);
        df := DropColumns(df, {column, partner});
      }
    }
    assert columns[..|columns|] == columns;
    r := Ok(df);
  }

  lemma SuffixFacts(k: string)
    ensures EndsWith(k + "_x", "_x") && Unsuffixed(k + "_x") == k && !EndsWith(k + "_x", "_y")
    ensures EndsWith(k + "_y", "_y") && Unsuffixed(k + "_y") == k && !EndsWith(k + "_y", "_x")
  {
    assert (k + "_x")[..|k|] == k && (k + "_y")[..|k|] == k;
    assert (k + "_x")[|k| + 2 - 2..] == "_x" && (k + "_y")[|k| + 2 - 2..] == "_y";
  }

  lemma Resuffix(k: string, t: string)
    requires EndsWith(k, t) && |t| == 2
    ensures k == Unsuffixed(k) + t
  {
  }

  /**
   * A joined frame as the merge leaves it: for every label ending in `_x`,
   * the unsuffixed label is absent and the `_y` partner is present.
   */
  predicate WellSuffixed(g: Frame) {
    forall k | k in g.columns && EndsWith(k, "_x") :: Unsuffixed(k) !in g.columns && Unsuffixed(k) + "_y" in g.columns
  }

  /** After the labels `done`, `k` is gone: a processed `_x` label, or the `_y` partner of one. */
  predicate Consumed(done: seq<string>, k: string) {
    (k in done && EndsWith(k, "_x")) || (EndsWith(k, "_y") && Unsuffixed(k) + "_x" in done)
  }

  /** After the labels `done`, `k` holds a combined pair. */
  predicate Merged(done: seq<string>, k: string) {
    k + "_x" in done
  }

  predicate Present(g: Frame, done: seq<string>, k: string) {
    (k in g.columns && !Consumed(done, k)) || Merged(done, k)
  }

  /** What cell `k` of row `i` holds once the labels `done` have been processed. */
  function ResolvedCell(g: Frame, done: seq<string>, i: nat, k: string): Cell
    requires i < |g.rows|
  {
    if Merged(done, k) then Coalesce(CellOf(Some(g.rows[i]), k + "_x"), CellOf(Some(g.rows[i]), k + "_y"))
    else CellOf(Some(g.rows[i]), k)
  }

  /** The state the loop has reached after the labels `done`. */
  ghost predicate ResolvedState(g: Frame, done: seq<string>, h: Frame)
    requires |h.rows| == |g.rows|
  {
    && (forall k :: k in h.columns <==> Present(g, done, k))
    && (forall i, k | 0 <= i < |h.rows| && k in h.rows[i] :: h.rows[i][k] == ResolvedCell(g, done, i, k))
  }

  lemma StepPlain(g: Frame, done: seq<string>, c: string, h: Frame)
    requires Rectangular(g) && Rectangular(h) && |h.rows| == |g.rows| && ResolvedState(g, done, h)
    requires !EndsWith(c, "_x")
    ensures Step(h, c, StripSuffix) == Ok(h) && ResolvedState(g, done + [c], h)
  {
    var done' := done + [c];
    forall k ensures Consumed(done', k) == Consumed(done, k) && Merged(done', k) == Merged(done, k) {
      SuffixFacts(k);
      SuffixFacts(Unsuffixed(k));
    }
    forall i, k | 0 <= i < |h.rows| && k in h.rows[i] ensures ResolvedCell(g, done', i, k) == ResolvedCell(g, done, i, k) {
      SuffixFacts(k);
    }
  }

  /** A label ending in `_x` of a well-suffixed frame has no `_x`-suffixed twin. */
  lemma NoDoubleSuffix(g: Frame, k: string)
    requires WellSuffixed(g) && k in g.columns
    ensures k + "_x" !in g.columns
  {
    SuffixFacts(k);
  }

  /** The pair step for `c`, spelled out on the frame the loop has reached. */
  function PairStep(h: Frame, c: string): Frame
    requires Rectangular(h) && c in h.columns && Unsuffixed(c) + "_y" in h.columns
  {
    DropColumns(Assign(h, Unsuffixed(c), Combined(h, c, Unsuffixed(c) + "_y")), {c, Unsuffixed(c) + "_y"})
  }

  /** How the labels of one pair relate: `c` is `t + "_x"`, its partner `y` is `t + "_y"`. */
  lemma PairNames(c: string, k: string)
    requires EndsWith(c, "_x")
    ensures Unsuffixed(c) + "_x" == c && Unsuffixed(Unsuffixed(c) + "_y") == Unsuffixed(c)
    ensures !EndsWith(c, "_y") && EndsWith(Unsuffixed(c) + "_y", "_y") && !EndsWith(Unsuffixed(c) + "_y", "_x")
    ensures k + "_x" == c <==> k == Unsuffixed(c)
    ensures EndsWith(k, "_y") && Unsuffixed(k) + "_x" == c <==> k == Unsuffixed(c) + "_y"
  {
    var t := Unsuffixed(c);
    Resuffix(c, "_x");
    SuffixFacts(k);
    SuffixFacts(t);
    var u := Unsuffixed(k);
    SuffixFacts(u);
    if EndsWith(k, "_y") { Resuffix(k, "_y"); }
  }

  /** Which labels the pair step for `c` leaves present. */
  lemma PresentStep(g: Frame, done: seq<string>, c: string, k: string)
    requires EndsWith(c, "_x") && c !in done
    requires c + "_x" !in done && Unsuffixed(c) + "_y" + "_x" !in done
    ensures Present(g, done + [c], k) <==>
      (Present(g, done, k) || k == Unsuffixed(c)) && k != c && k != Unsuffixed(c) + "_y"
  {
    PairNames(c, k);
  }

  lemma PairStepColumn(g: Frame, done: seq<string>, c: string, h: Frame, k: string)
    requires Rectangular(h) && EndsWith(c, "_x") && c !in done
    requires forall j :: j in h.columns <==> Present(g, done, j)
    requires c in h.columns && Unsuffixed(c) + "_y" in h.columns
    requires c + "_x" !in done && Unsuffixed(c) + "_y" + "_x" !in done
    ensures k in PairStep(h, c).columns <==> Present(g, done + [c], k)
  {
    PresentStep(g, done, c, k);
    assert k in PairStep(h, c).columns <==> (k in h.columns || k == Unsuffixed(c)) && k != c && k != Unsuffixed(c) + "_y";
  }

  lemma PairStepCell(g: Frame, done: seq<string>, c: string, h: Frame, i: nat, k: string)
    requires Rectangular(h) && EndsWith(c, "_x") && i < |g.rows| == |h.rows|
    requires c in h.columns && Unsuffixed(c) + "_y" in h.columns
    requires h.rows[i][c] == CellOf(Some(g.rows[i]), c)
    requires h.rows[i][Unsuffixed(c) + "_y"] == CellOf(Some(g.rows[i]), Unsuffixed(c) + "_y")
    requires k in PairStep(h, c).rows[i] && k != Unsuffixed(c) ==> k in h.rows[i] && h.rows[i][k] == ResolvedCell(g, done, i, k)
    requires k in PairStep(h, c).rows[i]
    ensures PairStep(h, c).rows[i][k] == ResolvedCell(g, done + [c], i, k)
  {
    var t := Unsuffixed(c);
    PairNames(c, k);
    PairStepRow(h, c, i);
    assert Merged(done + [c], k) <==> Merged(done, k) || k == t;
    if k == t {
      assert PairStep(h, c).rows[i][k] == Coalesce(h.rows[i][c], h.rows[i][t + "_y"]);
    }
  }

  lemma PairStepRow(h: Frame, c: string, i: nat)
    requires Rectangular(h) && c in h.columns && Unsuffixed(c) + "_y" in h.columns && i < |h.rows|
    ensures var t := Unsuffixed(c);
      PairStep(h, c).rows[i] == h.rows[i][t := Coalesce(h.rows[i][c], h.rows[i][t + "_y"])] - {c, t + "_y"}
  {
  }

  lemma StepPair(g: Frame, done: seq<string>, c: string, h: Frame)
    requires Rectangular(g) && WellSuffixed(g) && Rectangular(h) && |h.rows| == |g.rows| && ResolvedState(g, done, h)
    requires forall d | d in done :: d in g.columns
    requires c in g.columns && c !in done && EndsWith(c, "_x")
    ensures Step(h, c, StripSuffix).Ok?
    ensures |Step(h, c, StripSuffix).value.rows| == |g.rows|
    ensures ResolvedState(g, done + [c], Step(h, c, StripSuffix).value)
  {
    var t := Unsuffixed(c);
    var y := t + "_y";
    PairNames(c, c);
    assert y in g.columns && t !in g.columns;
    NoDoubleSuffix(g, c);
    NoDoubleSuffix(g, y);
    SuffixFacts(t);
    assert !Merged(done, c) && !Merged(done, y) && !Merged(done, t);
    assert Present(g, done, c) && Present(g, done, y) && !Present(g, done, t);
    assert Step(h, c, StripSuffix) == Ok(PairStep(h, c));
    var h' := PairStep(h, c);
    forall k ensures k in h'.columns <==> Present(g, done + [c], k) {
      PairStepColumn(g, done, c, h, k);
    }
    forall i, k | 0 <= i < |h'.rows| && k in h'.rows[i] ensures h'.rows[i][k] == ResolvedCell(g, done + [c], i, k) {
      assert h.rows[i][c] == ResolvedCell(g, done, i, c);
      assert h.rows[i][y] == ResolvedCell(g, done, i, y);
      PairStepCell(g, done, c, h, i, k);
    }
  }

  /**
   * With the corrected renaming, the loop never fails on a well-suffixed
   * frame, and after the labels `columns[..n]` every processed pair is
   * combined and gone while every other column is untouched.
   */
  lemma {:induction false} StripResolves(g: Frame, n: nat)
    requires Rectangular(g) && WellSuffixed(g) && n <= |g.columns|
    ensures Combine(g, g.columns[..n], StripSuffix).Ok?
    ensures ResolvedState(g, g.columns[..n], Combine(g, g.columns[..n], StripSuffix).value)
  {
    if n == 0 {
      assert g.columns[..0] == [];
      var h := g;
      forall k ensures k in h.columns <==> Present(g, [], k) { }
    } else {
      StripResolves(g, n - 1);
      CombineStep(g, g.columns, n - 1, StripSuffix);
      var done := g.columns[..n - 1];
      var h := Combine(g, done, StripSuffix).value;
      var c := g.columns[n - 1];
      assert g.columns[..n] == done + [c];
      if EndsWith(c, "_x") {
        assert c !in done;
        assert forall d | d in done :: d in g.columns;
        StepPair(g, done, c, h);
      } else {
        StepPlain(g, done, c, h);
      }
    }
  }

  /** Every old column and every new non-key column has its label in the joined frame. */
  lemma JoinLabelsCover(prior: Frame, incoming: Frame, on: string)
    ensures forall c | c in prior.columns :: LeftName(prior, incoming, on, c) in JoinedColumns(prior, incoming, on)
    ensures forall d | d in incoming.columns && d != on :: RightName(prior, incoming, on, d) in JoinedColumns(prior, incoming, on)
  {
    var ln, rn := LeftNames(prior, incoming, on), RightNames(prior, incoming, on);
    var rc := RightColumns(incoming.columns, on);
    var cols := JoinedColumns(prior, incoming, on);
    forall c | c in prior.columns ensures LeftName(prior, incoming, on, c) in cols {
      var j := Position(prior.columns, c);
      assert cols[j] == ln[j];
    }
    forall d | d in incoming.columns && d != on ensures RightName(prior, incoming, on, d) in cols {
      var j := Position(rc, d);
      assert cols[|ln| + j] == rn[j];
    }
  }

  /** A label of the joined frame is an unshared column's own label or a shared column's suffixed one. */
  predicate LabelOrigin(prior: Frame, incoming: Frame, on: string, k: string) {
    || (k in prior.columns && !Shared(prior, incoming, on, k))
    || (k in incoming.columns && k != on && !Shared(prior, incoming, on, k))
    || (k == Unsuffixed(k) + "_x" && Shared(prior, incoming, on, Unsuffixed(k)))
    || (k == Unsuffixed(k) + "_y" && Shared(prior, incoming, on, Unsuffixed(k)))
  }

  lemma LeftNameOrigin(prior: Frame, incoming: Frame, on: string, c: string)
    requires c in prior.columns
    ensures LabelOrigin(prior, incoming, on, LeftName(prior, incoming, on, c))
  {
    SuffixFacts(c);
  }

  lemma RightNameOrigin(prior: Frame, incoming: Frame, on: string, d: string)
    requires d in incoming.columns && d != on
    ensures LabelOrigin(prior, incoming, on, RightName(prior, incoming, on, d))
  {
    SuffixFacts(d);
  }

  lemma JoinLabelOrigin(prior: Frame, incoming: Frame, on: string, k: string)
    requires k in JoinedColumns(prior, incoming, on)
    ensures LabelOrigin(prior, incoming, on, k)
  {
    var ln, rn := LeftNames(prior, incoming, on), RightNames(prior, incoming, on);
    var rc := RightColumns(incoming.columns, on);
    var cols := JoinedColumns(prior, incoming, on);
    var j := Position(cols, k);
    if j < |ln| {
      assert k == ln[j];
      LeftNameOrigin(prior, incoming, on, prior.columns[j]);
    } else {
      assert k == rn[j - |ln|];
      assert rc[j - |ln|] in rc;
      RightNameOrigin(prior, incoming, on, rc[j - |ln|]);
    }
  }

  lemma JoinLabelsOrigin(prior: Frame, incoming: Frame, on: string)
    ensures forall k | k in JoinedColumns(prior, incoming, on) :: LabelOrigin(prior, incoming, on, k)
  {
    forall k | k in JoinedColumns(prior, incoming, on) ensures LabelOrigin(prior, incoming, on, k) {
      JoinLabelOrigin(prior, incoming, on, k);
    }
  }

  /** The merge of two frames whose labels carry no suffix is well-suffixed. */
  lemma JoinWellSuffixed(prior: Frame, incoming: Frame, on: string)
    requires NoSuffixes(prior) && NoSuffixes(incoming) && Join(prior, incoming, on).Ok?
    ensures WellSuffixed(Join(prior, incoming, on).value)
  {
    JoinLabelsCover(prior, incoming, on);
    JoinLabelsOrigin(prior, incoming, on);
    var cols := JoinedColumns(prior, incoming, on);
    forall k | k in cols && EndsWith(k, "_x") ensures Unsuffixed(k) !in cols && Unsuffixed(k) + "_y" in cols {
      var c := Unsuffixed(k);
      SuffixFacts(c);
      PairNames(k, k);
      assert Shared(prior, incoming, on, c);
      assert RightName(prior, incoming, on, c) == c + "_y";
      assert !EndsWith(c, "_x") && !EndsWith(c, "_y");
      SuffixFacts(Unsuffixed(c));
    }
  }

  /** After the whole loop, a label is present iff it names a column of either side, and it is merged iff it is shared. */
  lemma ResolvedLabel(prior: Frame, incoming: Frame, on: string, k: string)
    requires NoSuffixes(prior) && NoSuffixes(incoming) && on in prior.columns
    ensures var cols := JoinedColumns(prior, incoming, on);
      && (Present(Frame(cols, []), cols, k) <==> k in prior.columns || k in incoming.columns)
      && (Merged(cols, k) <==> Shared(prior, incoming, on, k))
  {
    ResolvedMerged(prior, incoming, on, k);
    ResolvedPresent(prior, incoming, on, k);
  }

  lemma ResolvedMerged(prior: Frame, incoming: Frame, on: string, k: string)
    requires NoSuffixes(prior) && NoSuffixes(incoming)
    ensures Merged(JoinedColumns(prior, incoming, on), k) <==> Shared(prior, incoming, on, k)
  {
    var cols := JoinedColumns(prior, incoming, on);
    SuffixFacts(k);
    if Shared(prior, incoming, on, k) {
      JoinLabelsCover(prior, incoming, on);
      assert LeftName(prior, incoming, on, k) == k + "_x";
    }
    if k + "_x" in cols {
      JoinLabelsOrigin(prior, incoming, on);
      assert LabelOrigin(prior, incoming, on, k + "_x");
      assert k + "_x" !in prior.columns && k + "_x" !in incoming.columns;
    }
  }

  lemma ResolvedPresent(prior: Frame, incoming: Frame, on: string, k: string)
    requires NoSuffixes(prior) && NoSuffixes(incoming) && on in prior.columns
    ensures var cols := JoinedColumns(prior, incoming, on);
      Present(Frame(cols, []), cols, k) <==> k in prior.columns || k in incoming.columns
  {
    var cols := JoinedColumns(prior, incoming, on);
    ResolvedMerged(prior, incoming, on, k);
    JoinLabelsCover(prior, incoming, on);
    if (k in prior.columns || k in incoming.columns) && !Shared(prior, incoming, on, k) {
      assert !EndsWith(k, "_x") && !EndsWith(k, "_y");
      if k in prior.columns {
        assert LeftName(prior, incoming, on, k) == k;
      } else if k != on {
        assert RightName(prior, incoming, on, k) == k;
      }
      assert !Consumed(cols, k);
    }
    if k in cols && !Consumed(cols, k) && !Merged(cols, k) {
      JoinLabelsOrigin(prior, incoming, on);
      assert LabelOrigin(prior, incoming, on, k);
      var u := Unsuffixed(k);
      SuffixFacts(u);
      if Shared(prior, incoming, on, u) {
        assert LeftName(prior, incoming, on, u) == u + "_x";
      }
    }
  }

  /** The cell the merge keeps for label `k` of a row joined from `a` and `b`: the old value wins unless it is NaN. */
  function MergedCell(prior: Frame, incoming: Frame, on: string, a: Option<FrameRow>, b: Option<FrameRow>, k: string): Cell {
    if Shared(prior, incoming, on, k) then Coalesce(CellOf(a, k), CellOf(b, k))
    else if k in prior.columns then (if k == on && a.None? then CellOf(b, on) else CellOf(a, k))
    else CellOf(b, k)
  }

  /** One cell of the merged frame, from the joined row it was resolved from. */
  lemma MergedCellAt(prior: Frame, incoming: Frame, on: string, g: Frame, i: nat, a: Option<FrameRow>, b: Option<FrameRow>, k: string)
    requires NoSuffixes(prior) && NoSuffixes(incoming) && on in prior.columns
    requires g.columns == JoinedColumns(prior, incoming, on) && Distinct(g.columns)
    requires i < |g.rows| && g.rows[i] == JoinedRow(prior, incoming, on, a, b)
    requires k in prior.columns || k in incoming.columns
    ensures ResolvedCell(g, g.columns, i, k) == MergedCell(prior, incoming, on, a, b, k)
  {
    ResolvedLabel(prior, incoming, on, k);
    if Shared(prior, incoming, on, k) {
      JoinedRowLeft(prior, incoming, on, a, b, k);
      JoinedRowRight(prior, incoming, on, a, b, k);
    } else if k in prior.columns {
      JoinedRowLeft(prior, incoming, on, a, b, k);
    } else {
      JoinedRowRight(prior, incoming, on, a, b, k);
    }
  }

  /** The merge of two unsuffixed frames and the loop over its labels both succeed. */
  lemma MergeSucceeds(prior: Frame, incoming: Frame, on: string)
    requires Rectangular(prior) && Rectangular(incoming) && NoSuffixes(prior) && NoSuffixes(incoming)
    requires on in prior.columns && on in incoming.columns
    ensures Join(prior, incoming, on).Ok? && Rectangular(Join(prior, incoming, on).value)
    ensures Join(prior, incoming, on).value.columns == JoinedColumns(prior, incoming, on)
    ensures Combine(Join(prior, incoming, on).value, Join(prior, incoming, on).value.columns, StripSuffix).Ok?
    ensures ResolvedState(Join(prior, incoming, on).value, Join(prior, incoming, on).value.columns,
      Combine(Join(prior, incoming, on).value, Join(prior, incoming, on).value.columns, StripSuffix).value)
  {
    JoinLabelsDistinct(prior, incoming, on);
    JoinOutcome(prior, incoming, on);
    var g := Join(prior, incoming, on).value;
    JoinRows(prior, incoming, on);
    JoinWellSuffixed(prior, incoming, on);
    StripResolves(g, |g.columns|);
    assert g.columns[..|g.columns|] == g.columns;
  }

  /**
   * Joining two frames whose labels carry no suffix and then running the
   * loop with the corrected renaming succeeds. The result has exactly the
   * labels of the two sides, and each cell of a row is what the merge of
   * that row's old and new rows keeps.
   */
  lemma MergeResolved(prior: Frame, incoming: Frame, on: string)
    requires Rectangular(prior) && Rectangular(incoming) && NoSuffixes(prior) && NoSuffixes(incoming)
    requires on in prior.columns && on in incoming.columns
    ensures Join(prior, incoming, on).Ok? && Rectangular(Join(prior, incoming, on).value)
    ensures Combine(Join(prior, incoming, on).value, Join(prior, incoming, on).value.columns, StripSuffix).Ok?
    ensures var h := Combine(Join(prior, incoming, on).value, Join(prior, incoming, on).value.columns, StripSuffix).value;
      && |h.rows| == |Join(prior, incoming, on).value.rows|
      && (forall k :: k in h.columns <==> k in prior.columns || k in incoming.columns)
      && (forall i, a, b, k | 0 <= i < |h.rows| && k in h.columns &&
            Join(prior, incoming, on).value.rows[i] == JoinedRow(prior, incoming, on, a, b) ::
            h.rows[i][k] == MergedCell(prior, incoming, on, a, b, k))
  {
    MergeSucceeds(prior, incoming, on);
    var g := Join(prior, incoming, on).value;
    var cols := g.columns;
    var h := Combine(g, cols, StripSuffix).value;
    forall k ensures k in h.columns <==> k in prior.columns || k in incoming.columns {
      ResolvedLabel(prior, incoming, on, k);
      assert Present(g, cols, k) == Present(Frame(cols, []), cols, k);
    }
    forall i, a, b, k | 0 <= i < |h.rows| && k in h.columns && g.rows[i] == JoinedRow(prior, incoming, on, a, b)
      ensures h.rows[i][k] == MergedCell(prior, incoming, on, a, b, k)
    {
      assert h.rows[i][k] == ResolvedCell(g, cols, i, k);
      MergedCellAt(prior, incoming, on, g, i, a, b, k);
    }
  }

  /** No label contains `_x` anywhere. */
  predicate NoInnerX(f: Frame) {
    forall c | c in f.columns :: !Contains(c, "_x")
  }

  lemma EndsWithContains(c: string, t: string)
    requires EndsWith(c, t)
    ensures Contains(c, t)
  {
    assert OccursAt(c, t, |c| - |t|);
  }

  /** Both renamings name the same partner and target for a `_x` label whose stem has no `_x`. */
  lemma RenamingsAgreeOn(c: string)
    requires EndsWith(c, "_x") && !Contains(Unsuffixed(c), "_x")
    ensures Partner(ReplaceEverywhere, c) == Partner(StripSuffix, c)
    ensures Target(ReplaceEverywhere, c) == Target(StripSuffix, c)
  {
    Resuffix(c, "_x");
    ReplaceXOfSuffixed(Unsuffixed(c), "_y");
    ReplaceXOfSuffixed(Unsuffixed(c), "");
    assert Unsuffixed(c) + "" == Unsuffixed(c);
  }

  lemma {:induction false} RenamingsAgree(g: Frame, columns: seq<string>)
    requires Rectangular(g)
    requires forall c | c in columns && EndsWith(c, "_x") :: !Contains(Unsuffixed(c), "_x")
    ensures Combine(g, columns, ReplaceEverywhere) == Combine(g, columns, StripSuffix)
  {
    if columns != [] {
      var prefix := columns[..|columns| - 1];
      var c := columns[|columns| - 1];
      assert forall d | d in prefix :: d in columns;
      RenamingsAgree(g, prefix);
      if EndsWith(c, "_x") { RenamingsAgreeOn(c); }
    }
  }

  /**
   * When no label of either side contains `_x` or ends in `_y`, the loop as
   * written behaves as the corrected one, so `MergeResolved` describes it.
   */
  lemma AsWrittenResolves(prior: Frame, incoming: Frame, on: string)
    requires Rectangular(prior) && Rectangular(incoming) && NoInnerX(prior) && NoInnerX(incoming)
    requires NoSuffixes(prior) && NoSuffixes(incoming) && on in prior.columns && on in incoming.columns
    ensures Join(prior, incoming, on).Ok? && Rectangular(Join(prior, incoming, on).value)
    ensures Combine(Join(prior, incoming, on).value, Join(prior, incoming, on).value.columns, ReplaceEverywhere)
      == Combine(Join(prior, incoming, on).value, Join(prior, incoming, on).value.columns, StripSuffix)
  {
    MergeSucceeds(prior, incoming, on);
    JoinLabelsOrigin(prior, incoming, on);
    var cols := Join(prior, incoming, on).value.columns;
    forall c | c in cols && EndsWith(c, "_x") ensures !Contains(Unsuffixed(c), "_x") {
      PairNames(c, c);
      SuffixFacts(Unsuffixed(c));
      if c in prior.columns || c in incoming.columns {
        EndsWithContains(c, "_x");
      }
    }
    RenamingsAgree(Join(prior, incoming, on).value, cols);
  }

  /**
   * A column named `Li_xin` in both snapshots: the merge labels it
   * `Li_xin_x` and `Li_xin_y`, the loop as written then looks up
   * `Li_yin_y` and raises a KeyError, while the corrected loop folds the
   * pair back into `Li_xin`.
   */
  lemma InnerXBreaksMerge()
    ensures var f := Frame(["Date", "Li_xin"], []);
      && Join(f, f, "Date") == Ok(Frame(["Date", "Li_xin_x", "Li_xin_y"], []))
      && Combine(Join(f, f, "Date").value, ["Date", "Li_xin_x", "Li_xin_y"], ReplaceEverywhere) == Err(MissingKey("Li_yin_y"))
      && Combine(Join(f, f, "Date").value, ["Date", "Li_xin_x", "Li_xin_y"], StripSuffix) == Ok(Frame(["Date", "Li_xin"], []))
  {
    InnerXJoin();
    InnerXAsWritten();
    InnerXCorrected();
  }

  lemma InnerXJoin()
    ensures var f := Frame(["Date", "Li_xin"], []);
      Join(f, f, "Date") == Ok(Frame(["Date", "Li_xin_x", "Li_xin_y"], []))
  {
    var f := Frame(["Date", "Li_xin"], []);
    assert RightColumns(f.columns, "Date") == ["Li_xin"];
    assert "Li_xin" != "Date" by { assert "Li_xin"[0] != "Date"[0]; }
    assert Shared(f, f, "Date", "Li_xin") && !Shared(f, f, "Date", "Date");
    assert "Li_xin" + "_x" == "Li_xin_x" && "Li_xin" + "_y" == "Li_xin_y";
    var left := LeftNames(f, f, "Date");
    assert |left| == 2 && left[0] == LeftName(f, f, "Date", "Date") && left[1] == LeftName(f, f, "Date", "Li_xin");
    assert left == ["Date", "Li_xin_x"];
    var right := RightNames(f, f, "Date");
    assert |right| == 1 && right[0] == RightName(f, f, "Date", "Li_xin");
    assert right == ["Li_xin_y"];
    assert JoinedColumns(f, f, "Date") == ["Date", "Li_xin_x", "Li_xin_y"];
    var g := Frame(["Date", "Li_xin_x", "Li_xin_y"], []);
    assert "Li_xin_x"[7] != "Li_xin_y"[7] && "Date"[0] != "Li_xin_x"[0] && "Date"[0] != "Li_xin_y"[0];
    assert Distinct(g.columns);
    assert OldRowsJoined(f, f, "Date", []) == [] && NewOnlyJoined(f, f, "Date", []) == [];
    assert "Date" in f.columns;
    assert Join(f, f, "Date") == Ok(Frame(JoinedColumns(f, f, "Date"), OldRowsJoined(f, f, "Date", []) + NewOnlyJoined(f, f, "Date", [])));
    var none: seq<FrameRow> := [];
    assert none + none == none;
  }

  /** The labels of the joined example, before the loop. */
  lemma InnerXFirstLabel(rn: Renaming)
    ensures Rectangular(Frame(["Date", "Li_xin_x", "Li_xin_y"], []))
    ensures var g := Frame(["Date", "Li_xin_x", "Li_xin_y"], []);
      Combine(g, g.columns[..1], rn) == Ok(g)
  {
    var g := Frame(["Date", "Li_xin_x", "Li_xin_y"], []);
    assert "Li_xin_x"[7] != "Li_xin_y"[7] && "Date"[0] != "Li_xin_x"[0] && "Date"[0] != "Li_xin_y"[0];
    assert Distinct(g.columns);
    assert g.columns[..1][..0] == [];
    assert !EndsWith("Date", "_x");
  }

  /** `str.replace` rewrites every `_x`, the one inside the name too. */
  lemma InnerXReplaced()
    ensures ReplaceX("Li_xin_x", "_y") == "Li_yin_y"
  {
    assert ReplaceX("_x", "_y") == "_y";
    assert ReplaceX("n_x", "_y") == "n_y";
    assert ReplaceX("in_x", "_y") == "in_y";
    assert ReplaceX("_xin_x", "_y") == "_yin_y";
    assert ReplaceX("i_xin_x", "_y") == "i_yin_y";
  }

  lemma InnerXAsWritten()
    ensures Rectangular(Frame(["Date", "Li_xin_x", "Li_xin_y"], []))
    ensures var g := Frame(["Date", "Li_xin_x", "Li_xin_y"], []);
      Combine(g, g.columns, ReplaceEverywhere) == Err(MissingKey("Li_yin_y"))
  {
    InnerXFirstLabel(ReplaceEverywhere);
    var g := Frame(["Date", "Li_xin_x", "Li_xin_y"], []);
    var cols := g.columns;
    assert cols[..2][..1] == cols[..1];
    assert EndsWith("Li_xin_x", "_x");
    InnerXReplaced();
    assert "Li_yin_y"[3] != "Li_xin_x"[3] && "Li_yin_y"[3] != "Li_xin_y"[3] && "Li_yin_y"[0] != "Date"[0];
    assert Combine(g, cols[..2], ReplaceEverywhere) == Err(MissingKey("Li_yin_y"));
    CombineErrorSticks(g, cols, 2, ReplaceEverywhere);
  }

  /** The corrected loop body on `Li_xin_x` folds the pair into `Li_xin`. */
  lemma InnerXPairStep()
    ensures Rectangular(Frame(["Date", "Li_xin_x", "Li_xin_y"], []))
    ensures Step(Frame(["Date", "Li_xin_x", "Li_xin_y"], []), "Li_xin_x", StripSuffix) == Ok(Frame(["Date", "Li_xin"], []))
  {
    InnerXFirstLabel(StripSuffix);
    var g := Frame(["Date", "Li_xin_x", "Li_xin_y"], []);
    assert EndsWith("Li_xin_x", "_x");
    assert Unsuffixed("Li_xin_x") == "Li_xin";
    assert "Li_xin" + "_y" == "Li_xin_y";
    assert "Li_xin" !in g.columns by {
      assert |"Li_xin"| != |"Li_xin_x"| && |"Li_xin"| != |"Li_xin_y"| && "Li_xin"[0] != "Date"[0];
    }
    var a := Assign(g, "Li_xin", Combined(g, "Li_xin_x", "Li_xin_y"));
    assert a == Frame(["Date", "Li_xin_x", "Li_xin_y", "Li_xin"], []);
    InnerXDropped();
  }

  /** Dropping the pair leaves the date and the combined column. */
  lemma InnerXDropped()
    ensures Without(["Date", "Li_xin_x", "Li_xin_y", "Li_xin"], {"Li_xin_x", "Li_xin_y"}) == ["Date", "Li_xin"]
  {
    var drop := {"Li_xin_x", "Li_xin_y"};
    assert "Date" !in drop && "Li_xin" !in drop;
    var w := ["Date", "Li_xin_x", "Li_xin_y", "Li_xin"];
    assert w[1..] == ["Li_xin_x", "Li_xin_y", "Li_xin"] && w[1..][1..] == ["Li_xin_y", "Li_xin"] && w[1..][1..][1..] == ["Li_xin"];
    assert Without(["Li_xin"], drop) == ["Li_xin"];
  }

  lemma InnerXCorrected()
    ensures Rectangular(Frame(["Date", "Li_xin_x", "Li_xin_y"], []))
    ensures var g := Frame(["Date", "Li_xin_x", "Li_xin_y"], []);
      Combine(g, g.columns, StripSuffix) == Ok(Frame(["Date", "Li_xin"], []))
  {
    InnerXFirstLabel(StripSuffix);
    InnerXPairStep();
    var g := Frame(["Date", "Li_xin_x", "Li_xin_y"], []);
    var cols := g.columns;
    assert cols[..2][..1] == cols[..1] && cols[..3] == cols && cols[..3][..2] == cols[..2];
    assert Combine(g, cols[..2], StripSuffix) == Ok(Frame(["Date", "Li_xin"], []));
    assert !EndsWith("Li_xin_y", "_x");
  }
}
