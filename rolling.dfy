/**
 * `calculate_7d_rolling_avg`: the daily averages become a DataFrame, sorted
 * by date, and every column other than `Date` is replaced by its trailing
 * seven-row mean; the dates are then written back as `%m/%d/%y`.
 */
module TrendSmoothing {
  import opened Wrappers
  import opened Dicts
  import opened Dates
  import opened Sorting
  import opened Cells
  import opened Frames
  import opened TrendAggregator

  /** `rolling(window=7)`. */
  const WindowSize: nat := 7

  // ---------------------------------------------------------------------------
  // The rolling mean of one column
  // ---------------------------------------------------------------------------

  /** A cell as the number pandas averages; None for NaN and for text. */
  function CellReal(c: Cell): Option<real> {
    match c
    case None => None
    case Some(v) => AsReal(v)
  }

  /** The sum of a window, left to right; None as soon as one cell is NaN or text. */
  function CellsTotal(cs: seq<Cell>): (r: Option<real>)
    ensures r.Some? <==> forall t | 0 <= t < |cs| :: CellReal(cs[t]).Some?
  {
    if cs == [] then Some(0.0)
    else
      var prefix := cs[..|cs| - 1];
      assert forall t | 0 <= t < |prefix| :: prefix[t] == cs[t];
      match CellsTotal(prefix)
      case None => None
      case Some(a) =>
        match CellReal(cs[|cs| - 1])
        case None => None
        case Some(b) => Some(a + b)
  }

  /** The window ending at row `i`. */
  function WindowAt(col: seq<Cell>, i: nat): seq<Cell>
    requires WindowSize <= i + 1 <= |col|
  {
    col[i + 1 - WindowSize..i + 1]
  }

  /**
   * Row `i` of `rolling(window=7).mean()`: NaN for the first six rows and for
   * a window holding a NaN (the default `min_periods` is the window size).
   */
  function WindowMean(col: seq<Cell>, i: nat): Cell
    requires i < |col|
  {
    if i + 1 < WindowSize then None
    else
      match CellsTotal(WindowAt(col, i))
      case None => None
      case Some(t) => Some(Float(t / WindowSize as real))
  }

  /** `col.rolling(window=7).mean()`. */
  function Rolling(col: seq<Cell>): (r: seq<Cell>)
    ensures |r| == |col|
    ensures forall i | 0 <= i < |col| :: r[i] == WindowMean(col, i)
  {
    seq(|col|, i requires 0 <= i < |col| => WindowMean(col, i))
  }

  /** A column the model refuses to average: it holds text, on which pandas raises DataError unless it reads as a float. */
  predicate HasText(col: seq<Cell>) {
    exists t | 0 <= t < |col| :: col[t].Some? && col[t].value.Text?
  }

  /** A row has a mean exactly from the seventh row on, when none of its seven cells is NaN. */
  lemma WindowSpec(col: seq<Cell>, i: nat)
    requires i < |col|
    ensures WindowMean(col, i).Some? <==>
      WindowSize <= i + 1 && forall t | i + 1 - WindowSize <= t <= i :: CellReal(col[t]).Some?
    ensures WindowMean(col, i).Some? ==> WindowMean(col, i).value.Float?
  {
    if WindowSize <= i + 1 {
      var w := WindowAt(col, i);
      assert forall t | i + 1 - WindowSize <= t <= i :: col[t] == w[t - (i + 1 - WindowSize)];
      assert forall t | 0 <= t < |w| :: w[t] == col[t + (i + 1 - WindowSize)];
    }
  }

  lemma {:induction false} CellsTotalBounds(cs: seq<Cell>, lo: real, hi: real)
    requires forall t | 0 <= t < |cs| :: CellReal(cs[t]).Some? && lo <= CellReal(cs[t]).value <= hi
    ensures CellsTotal(cs).Some?
    ensures |cs| as real * lo <= CellsTotal(cs).value <= |cs| as real * hi
  {
    if cs != [] {
      var prefix := cs[..|cs| - 1];
      assert forall t | 0 <= t < |prefix| :: prefix[t] == cs[t];
      CellsTotalBounds(prefix, lo, hi);
    }
  }

  /** The mean of a window whose values all lie in `[lo, hi]` lies in `[lo, hi]`. */
  lemma WindowBounds(col: seq<Cell>, i: nat, lo: real, hi: real)
    requires WindowSize <= i + 1 <= |col|
    requires forall t | i + 1 - WindowSize <= t <= i :: CellReal(col[t]).Some? && lo <= CellReal(col[t]).value <= hi
    ensures WindowMean(col, i).Some? && WindowMean(col, i).value.Float?
    ensures lo <= WindowMean(col, i).value.x <= hi
  {
    var w := WindowAt(col, i);
    assert forall t | 0 <= t < |w| :: w[t] == col[t + (i + 1 - WindowSize)];
    CellsTotalBounds(w, lo, hi);
  }

  lemma {:induction false} CellsTotalConcat(a: seq<Cell>, b: seq<Cell>)
    requires CellsTotal(a).Some? && CellsTotal(b).Some?
    ensures CellsTotal(a + b) == Some(CellsTotal(a).value + CellsTotal(b).value)
    decreases |b|
  {
    if b == [] {
      assert a + b == a;
    } else {
      var b' := b[..|b| - 1];
      assert forall t | 0 <= t < |b'| :: b'[t] == b[t];
      assert (a + b)[..|a + b| - 1] == a + b';
      CellsTotalConcat(a, b');
    }
  }

  /**
   * The window slides one row at a time: the next sum drops the oldest value
   * and adds the newest.
   */
  lemma WindowSlide(col: seq<Cell>, i: nat)
    requires WindowSize <= i + 1 && i + 1 < |col|
    requires WindowMean(col, i).Some? && WindowMean(col, i + 1).Some?
    ensures CellReal(col[i + 1 - WindowSize]).Some? && CellReal(col[i + 1]).Some?
    ensures WindowMean(col, i + 1).value.x * WindowSize as real ==
      WindowMean(col, i).value.x * WindowSize as real - CellReal(col[i + 1 - WindowSize]).value + CellReal(col[i + 1]).value
  {
    WindowSpec(col, i);
    WindowSpec(col, i + 1);
    var lo := i + 1 - WindowSize;
    var wide := col[lo..i + 2];
    assert wide == [col[lo]] + WindowAt(col, i + 1);
    assert wide == WindowAt(col, i) + [col[i + 1]];
    assert CellsTotal([col[lo]]) == Some(CellReal(col[lo]).value);
    assert CellsTotal([col[i + 1]]) == Some(CellReal(col[i + 1]).value);
    CellsTotalConcat([col[lo]], WindowAt(col, i + 1));
    CellsTotalConcat(WindowAt(col, i), [col[i + 1]]);
  }

  /** Ten daily values 1 to 10: six NaN, then the means 4 to 7. */
  lemma RollingExample()
    ensures var col := seq(10, i requires 0 <= i < 10 => Some(Int(i + 1)));
      && (forall i | 0 <= i < 6 :: Rolling(col)[i] == None)
      && Rolling(col)[6] == Some(Float(4.0))
      && Rolling(col)[9] == Some(Float(7.0))
  {
    var col := seq(10, i requires 0 <= i < 10 => Some(Int(i + 1)));
    var w6 := WindowAt(col, 6);
    assert w6 == [Some(Int(1)), Some(Int(2)), Some(Int(3)), Some(Int(4)), Some(Int(5)), Some(Int(6)), Some(Int(7))];
    assert CellsTotal(w6[..1]) == Some(1.0);
    assert w6[..2][..1] == w6[..1];
    assert CellsTotal(w6[..2]) == Some(3.0);
    assert w6[..3][..2] == w6[..2];
    assert CellsTotal(w6[..3]) == Some(6.0);
    assert w6[..4][..3] == w6[..3];
    assert CellsTotal(w6[..4]) == Some(10.0);
    assert w6[..5][..4] == w6[..4];
    assert CellsTotal(w6[..5]) == Some(15.0);
    assert w6[..6][..5] == w6[..5];
    assert CellsTotal(w6[..6]) == Some(21.0);
    assert w6[..6] == w6[..|w6| - 1];
    assert CellsTotal(w6) == Some(28.0);
    var w9 := WindowAt(col, 9);
    assert w9 == [Some(Int(4)), Some(Int(5)), Some(Int(6)), Some(Int(7)), Some(Int(8)), Some(Int(9)), Some(Int(10))];
    assert CellsTotal(w9[..1]) == Some(4.0);
    assert w9[..2][..1] == w9[..1];
    assert CellsTotal(w9[..2]) == Some(9.0);
    assert w9[..3][..2] == w9[..2];
    assert CellsTotal(w9[..3]) == Some(15.0);
    assert w9[..4][..3] == w9[..3];
    assert CellsTotal(w9[..4]) == Some(22.0);
    assert w9[..5][..4] == w9[..4];
    assert CellsTotal(w9[..5]) == Some(30.0);
    assert w9[..6][..5] == w9[..5];
    assert CellsTotal(w9[..6]) == Some(39.0);
    assert w9[..6] == w9[..|w9| - 1];
    assert CellsTotal(w9) == Some(49.0);
  }

  // ---------------------------------------------------------------------------
  // Dates in the DataFrame
  // ---------------------------------------------------------------------------

  /** The sort key of NaT, after every date `%y` can express (`na_position='last'`). */
  const NaTKey: int := 2069 * 13 * 32

  lemma OrdinalBeforeNaT(d: Date)
    requires Valid(d)
    ensures Ordinal(d) < NaTKey
  {
  }

  /**
   * `pd.to_datetime` of one `Date` cell, as the integer `sort_values`
   * compares: NaN becomes NaT, text in the `%m/%d/%y` form its date, and
   * anything else is refused.
   */
  function CellDateKey(cell: Cell): Result<int, Error> {
    match cell
    case None => Ok(NaTKey)
    case Some(v) =>
      if v.Text? && ParseDate(v.s).Some? then Ok(Ordinal(ParseDate(v.s).value)) else Err(BadDate(v))
  }

  function RowDateKey(row: map<string, Cell>): Result<int, Error> {
    CellDateKey(if "Date" in row then row["Date"] else None)
  }

  /** `trend_df.sort_values(by='Date')` after the dates are converted. */
  function SortedFrame(f: Frame): Result<Frame, Error> {
    match Sorted(f.rows, RowDateKey)
    case Err(e) => Err(e)
    case Ok(rows) => Ok(Frame(f.columns, rows))
  }

  /** `dt.strftime('%m/%d/%y')` of one converted cell; NaT stays NaN. */
  function RenderDate(cell: Cell): Cell {
    match cell
    case Some(Text(s)) => if ParseDate(s).Some? then Some(Text(Render(ParseDate(s).value))) else cell
    case _ => cell
  }

  function RenderDates(f: Frame): (r: Frame)
    requires Rectangular(f) && "Date" in f.columns
    ensures Rectangular(r) && r.columns == f.columns && |r.rows| == |f.rows|
  {
    var col := Column(f, "Date");
    SetColumn(f, "Date", seq(|col|, i requires 0 <= i < |col| => RenderDate(col[i])))
  }

  /** Sorting fails exactly when a `Date` cell is neither NaN nor a `%m/%d/%y` date. */
  lemma SortedFrameErr(f: Frame)
    ensures SortedFrame(f).Err? <==> exists i | 0 <= i < |f.rows| :: RowDateKey(f.rows[i]).Err?
    ensures SortedFrame(f).Err? ==> SortedFrame(f).error.BadDate?
  {
    if SortedFrame(f).Err? {
      var i :| 0 <= i < |f.rows| && RowDateKey(f.rows[i]) == Err(KeyAll(f.rows, RowDateKey).error);
    }
  }

  lemma SortedFrameShape(f: Frame)
    requires Rectangular(f) && SortedFrame(f).Ok?
    ensures SortedFrame(f).value.columns == f.columns
    ensures |SortedFrame(f).value.rows| == |f.rows|
    ensures Rectangular(SortedFrame(f).value)
  {
    var s := SortedFrame(f).value;
    SortedPermutation(f.rows, RowDateKey);
    SortedLength(f.rows, RowDateKey);
    forall i | 0 <= i < |s.rows| ensures s.rows[i].Keys == ColumnSet(s.columns) {
      assert s.rows[i] in multiset(f.rows);
    }
  }

  /** The sorted frame holds the same rows, in ascending order of their converted dates. */
  lemma SortedFrameSpec(f: Frame)
    requires SortedFrame(f).Ok?
    ensures multiset(SortedFrame(f).value.rows) == multiset(f.rows)
    ensures forall i | 0 <= i < |SortedFrame(f).value.rows| :: RowDateKey(SortedFrame(f).value.rows[i]).Ok?
    ensures forall i, j | 0 <= i < j < |SortedFrame(f).value.rows| ::
      RowDateKey(SortedFrame(f).value.rows[i]).value <= RowDateKey(SortedFrame(f).value.rows[j]).value
  {
    SortedPermutation(f.rows, RowDateKey);
    SortedOrdered(f.rows, RowDateKey);
  }

  /** In the sorted frame, a NaT is followed only by NaT, and real dates never go backwards. */
  lemma SortedFrameChronological(f: Frame, i: nat, j: nat)
    requires Rectangular(f) && "Date" in f.columns && SortedFrame(f).Ok?
    requires i < j < |SortedFrame(f).value.rows|
    ensures var s := SortedFrame(f).value;
      && "Date" in s.rows[i] && "Date" in s.rows[j]
      && (s.rows[i]["Date"].None? ==> s.rows[j]["Date"].None?)
      && (s.rows[i]["Date"].Some? && s.rows[j]["Date"].Some? ==>
          var a := s.rows[i]["Date"].value;
          var b := s.rows[j]["Date"].value;
          a.Text? && b.Text? && ParseDate(a.s).Some? && ParseDate(b.s).Some? &&
          !Before(ParseDate(b.s).value, ParseDate(a.s).value))
  {
    SortedFrameShape(f);
    SortedFrameSpec(f);
    var s := SortedFrame(f).value;
    assert "Date" in s.rows[i] && "Date" in s.rows[j];
    var ca, cb := s.rows[i]["Date"], s.rows[j]["Date"];
    assert RowDateKey(s.rows[i]).value <= RowDateKey(s.rows[j]).value;
    if cb.Some? {
      OrdinalBeforeNaT(ParseDate(cb.value.s).value);
    }
    if ca.Some? && cb.Some? {
      OrdinalOrder(ParseDate(ca.value.s).value, ParseDate(cb.value.s).value);
    }
  }

  // ---------------------------------------------------------------------------
  // Rolling every candidate column
  // ---------------------------------------------------------------------------

  /** `[col for col in trend_df.columns if col not in ['Date']]`. */
  function NonDate(columns: seq<string>): (r: seq<string>)
    ensures forall c :: c in r <==> c in columns && c != "Date"
    ensures Distinct(columns) ==> Distinct(r)
  {
    if columns == [] then []
    else
      var rest := NonDate(columns[1..]);
      assert Distinct(columns) ==> columns[0] !in columns[1..];
      if columns[0] == "Date" then rest else [columns[0]] + rest
  }

  /** `trend_df[c] = trend_df[c].rolling(window=7).mean()`; a column holding text is refused (pandas' DataError). */
  function RollColumn(f: Frame, c: string): (r: Result<Frame, Error>)
    requires Rectangular(f) && c in f.columns
    ensures r.Ok? ==> Rectangular(r.value) && r.value.columns == f.columns && |r.value.rows| == |f.rows|
  {
    var col := Column(f, c);
    if HasText(col) then Err(NotNumeric(c)) else Ok(SetColumn(f, c, Rolling(col)))
  }

  /** The loop over `candidates`, one column after the other. */
  function RollColumns(f: Frame, cs: seq<string>): (r: Result<Frame, Error>)
    requires Rectangular(f) && forall c | c in cs :: c in f.columns
    ensures r.Ok? ==> Rectangular(r.value) && r.value.columns == f.columns && |r.value.rows| == |f.rows|
    ensures r.Err? ==> exists c | c in cs :: r.error == NotNumeric(c)
  {
    if cs == [] then Ok(f)
    else
      var prefix := cs[..|cs| - 1];
      assert forall c | c in prefix :: c in cs;
      match RollColumns(f, prefix)
      case Err(e) => Err(e)
      case Ok(g) => RollColumn(g, cs[|cs| - 1])
  }

  /** A column no earlier step touched still holds its original cells. */
  lemma {:induction false} RollColumnsColumn(f: Frame, cs: seq<string>, c: string)
    requires Rectangular(f) && (forall c' | c' in cs :: c' in f.columns) && Distinct(cs)
    requires c in f.columns && RollColumns(f, cs).Ok?
    ensures Column(RollColumns(f, cs).value, c) == if c in cs then Rolling(Column(f, c)) else Column(f, c)
  {
    if cs != [] {
      var prefix := cs[..|cs| - 1];
      var last := cs[|cs| - 1];
      assert forall c' | c' in prefix :: c' in cs;
      assert Distinct(prefix);
      var g := RollColumns(f, prefix).value;
      RollColumnsColumn(f, prefix, c);
      assert last !in prefix;
      assert c in cs <==> c in prefix || c == last;
      if c == last {
        RollColumnsColumn(f, prefix, last);
      }
    }
  }

  /** Rolling fails exactly when one of the columns holds text. */
  lemma {:induction false} RollColumnsErr(f: Frame, cs: seq<string>)
    requires Rectangular(f) && (forall c | c in cs :: c in f.columns) && Distinct(cs)
    ensures RollColumns(f, cs).Err? <==> exists c | c in cs :: HasText(Column(f, c))
    ensures RollColumns(f, cs).Err? ==> HasText(Column(f, RollColumns(f, cs).error.column))
  {
    if cs != [] {
      var prefix := cs[..|cs| - 1];
      var last := cs[|cs| - 1];
      assert forall c | c in prefix :: c in cs;
      assert Distinct(prefix);
      assert last !in prefix;
      assert forall c :: c in cs <==> c in prefix || c == last;
      RollColumnsErr(f, prefix);
      if RollColumns(f, prefix).Ok? {
        RollColumnsColumn(f, prefix, last);
      }
    }
  }

  lemma {:induction false} RollColumnsErrorSticks(f: Frame, cs: seq<string>, n: nat)
    requires Rectangular(f) && (forall c | c in cs :: c in f.columns)
    requires n <= |cs| && (forall c | c in cs[..n] :: c in f.columns) && RollColumns(f, cs[..n]).Err?
    ensures RollColumns(f, cs) == RollColumns(f, cs[..n])
  {
    if n < |cs| {
      var prefix := cs[..|cs| - 1];
      assert forall c | c in prefix :: c in cs;
      assert prefix[..n] == cs[..n];
      RollColumnsErrorSticks(f, prefix, n);
    } else {
      assert cs[..n] == cs;
    }
  }

  // ---------------------------------------------------------------------------
  // calculate_7d_rolling_avg as a whole
  // ---------------------------------------------------------------------------

  /** Rolling every candidate of a date-sorted frame, then writing the dates back. */
  function RollSorted(s: Frame): Result<Frame, Error>
    requires Rectangular(s) && "Date" in s.columns
  {
    match RollColumns(s, NonDate(s.columns))
    case Err(e) => Err(e)
    case Ok(g) => Ok(RenderDates(g))
  }

  /** `calculate_7d_rolling_avg` as a function of its input. */
  function RollingAverage(data: seq<TypedRow>): Result<Frame, Error> {
    var f := FrameOf(data);
    if "Date" !in f.columns then Err(MissingKey("Date"))
    else
      match SortedFrame(f)
      case Err(e) => Err(e)
      case Ok(s) =>
        SortedFrameShape(f);
        RollSorted(s)
  }

  /** The input DataFrame sorted by date, before any column is rolled. */
  function SortedInput(data: seq<TypedRow>): (s: Frame)
    requires SortedFrame(FrameOf(data)).Ok?
    ensures Rectangular(s) && s.columns == KeyUnion(data) && |s.rows| == |data|
    ensures multiset(s.rows) == multiset(FrameOf(data).rows)
  {
    SortedFrameShape(FrameOf(data));
    SortedFrameSpec(FrameOf(data));
    SortedFrame(FrameOf(data)).value
  }

  /** Column `c` of the date-sorted input, before rolling. */
  function SortedColumn(data: seq<TypedRow>, c: string): (col: seq<Cell>)
    requires SortedFrame(FrameOf(data)).Ok? && c in KeyUnion(data)
    ensures |col| == |data|
    ensures forall k | 0 <= k < |data| :: c in SortedInput(data).rows[k] && col[k] == SortedInput(data).rows[k][c]
  {
    var s := SortedInput(data);
    assert c in ColumnSet(s.columns);
    assert forall k | 0 <= k < |s.rows| :: s.rows[k].Keys == ColumnSet(s.columns);
    Column(s, c)
  }

  /** `calculate_7d_rolling_avg` step by step: the `Date` lookup, the conversion and sort, the rolling. */
  lemma RollingAverageSteps(data: seq<TypedRow>)
    ensures RollingAverage(data) ==
      if "Date" !in KeyUnion(data) then Err(MissingKey("Date"))
      else if SortedFrame(FrameOf(data)).Err? then Err(SortedFrame(FrameOf(data)).error)
      else RollSorted(SortedInput(data))
  {
  }

  lemma RollingAverageSorted(data: seq<TypedRow>)
    requires RollingAverage(data).Ok?
    ensures "Date" in KeyUnion(data) && SortedFrame(FrameOf(data)).Ok?
    ensures RollingAverage(data) == RollSorted(SortedInput(data))
  {
    RollingAverageSteps(data);
  }

  /** The result has the input's columns in first-appearance order and one row per input row. */
  lemma RollingAverageShape(data: seq<TypedRow>)
    requires RollingAverage(data).Ok?
    ensures SortedFrame(FrameOf(data)).Ok?
    ensures RollingAverage(data).value.columns == KeyUnion(data)
    ensures |RollingAverage(data).value.rows| == |data|
    ensures Rectangular(RollingAverage(data).value)
  {
    RollingAverageSorted(data);
  }

  lemma RollSortedCell(s: Frame, i: nat, c: string)
    requires Rectangular(s) && "Date" in s.columns && RollSorted(s).Ok?
    requires i < |s.rows| && c in s.columns
    ensures c != "Date" ==> RollSorted(s).value.rows[i][c] == WindowMean(Column(s, c), i)
    ensures c == "Date" ==> RollSorted(s).value.rows[i][c] == RenderDate(s.rows[i][c])
  {
    var cs := NonDate(s.columns);
    assert c != "Date" ==> c in cs;
    var g := RollColumns(s, cs).value;
    RollColumnsColumn(s, cs, c);
    assert Column(g, c)[i] == g.rows[i][c];
  }

  /** Each candidate cell is the seven-row mean, over the date-sorted column, ending at its row. */
  lemma RollingAverageCell(data: seq<TypedRow>, i: nat, c: string)
    requires RollingAverage(data).Ok? && i < |data| && c in KeyUnion(data) && c != "Date"
    ensures SortedFrame(FrameOf(data)).Ok?
    ensures var out := RollingAverage(data).value;
      i < |out.rows| && c in out.rows[i] && out.rows[i][c] == WindowMean(SortedColumn(data, c), i)
  {
    RollingAverageShape(data);
    RollingAverageSorted(data);
    RollSortedCell(SortedInput(data), i, c);
  }

  /** Each `Date` cell is the sorted row's date written back as `%m/%d/%y`. */
  lemma RollingAverageDate(data: seq<TypedRow>, i: nat)
    requires RollingAverage(data).Ok? && i < |data|
    ensures SortedFrame(FrameOf(data)).Ok? && "Date" in KeyUnion(data)
    ensures var out := RollingAverage(data).value;
      i < |out.rows| && "Date" in out.rows[i] && out.rows[i]["Date"] == RenderDate(SortedInput(data).rows[i]["Date"])
  {
    RollingAverageShape(data);
    RollingAverageSorted(data);
    RollSortedCell(SortedInput(data), i, "Date");
  }

  /**
   * How `calculate_7d_rolling_avg` fails: no `Date` column (an empty list
   * included), then a date it cannot convert, then a candidate column
   * holding text; otherwise it succeeds.
   */
  lemma RollingAverageOutcome(data: seq<TypedRow>)
    ensures "Date" !in KeyUnion(data) ==> RollingAverage(data) == Err(MissingKey("Date"))
    ensures "Date" in KeyUnion(data) && SortedFrame(FrameOf(data)).Err? ==>
      RollingAverage(data).Err? && RollingAverage(data).error.BadDate?
    ensures "Date" in KeyUnion(data) && SortedFrame(FrameOf(data)).Ok? ==>
      (RollingAverage(data).Err? <==> exists c | c in KeyUnion(data) && c != "Date" :: HasText(SortedColumn(data, c)))
    ensures "Date" in KeyUnion(data) && SortedFrame(FrameOf(data)).Ok? && RollingAverage(data).Err? ==>
      RollingAverage(data).error.NotNumeric?
  {
    RollingAverageSteps(data);
    SortedFrameErr(FrameOf(data));
    if "Date" in KeyUnion(data) && SortedFrame(FrameOf(data)).Ok? {
      var s := SortedInput(data);
      var cs := NonDate(s.columns);
      RollColumnsErr(s, cs);
    }
  }

  lemma RollingOfNothing()
    ensures RollingAverage([]) == Err(MissingKey("Date"))
  {
    RollingAverageOutcome([]);
  }

  /** Every row of `calculate_date_avg` is dated with a `%m/%d/%y` text. */
  lemma TrendDate(rows: seq<TypedRow>, p: nat)
    requires DateAverage(rows).Ok? && p < |DateAverage(rows).value|
    ensures var cell := Get(DateAverage(rows).value[p], "Date");
      cell.Some? && cell.value.Text? && ParseDate(cell.value.s).Some?
  {
    SortedOrdered(Averages(Group(rows).value).value, DateKey);
  }

  /** Every other cell of a row of `calculate_date_avg` is a mean or absent. */
  lemma TrendCell(rows: seq<TypedRow>, p: nat, c: string)
    requires DateAverage(rows).Ok? && p < |DateAverage(rows).value| && c != "Date"
    ensures var cell := Get(DateAverage(rows).value[p], c);
      cell.None? || cell.value.Float?
  {
    DateAverageRow(rows, p, c);
  }

  lemma TrendFrameDates(rows: seq<TypedRow>)
    requires DateAverage(rows).Ok? && DateAverage(rows).value != []
    ensures "Date" in KeyUnion(DateAverage(rows).value)
    ensures SortedFrame(FrameOf(DateAverage(rows).value)).Ok?
  {
    var trend := DateAverage(rows).value;
    var f := FrameOf(trend);
    TrendDate(rows, 0);
    assert "Date" in Keys(trend[0]);
    assert "Date" in f.columns;
    forall p | 0 <= p < |f.rows| ensures RowDateKey(f.rows[p]).Ok? {
      TrendDate(rows, p);
      assert f.rows[p]["Date"] == Get(trend[p], "Date");
    }
    SortedFrameErr(f);
  }

  /** Reordering the rows brings no text into a column whose cells are all floats or NaN. */
  lemma PermutedColumnNumeric(f: Frame, s: Frame, c: string)
    requires Rectangular(s) && c in s.columns && multiset(s.rows) == multiset(f.rows)
    requires forall p | 0 <= p < |f.rows| :: c in f.rows[p] && (f.rows[p][c].None? || f.rows[p][c].value.Float?)
    ensures !HasText(Column(s, c))
  {
    var col := Column(s, c);
    forall t | 0 <= t < |col| ensures col[t].None? || col[t].value.Float? {
      assert s.rows[t] in multiset(f.rows);
      var p :| 0 <= p < |f.rows| && f.rows[p] == s.rows[t];
    }
  }

  /** Sorting brings no text into a column whose input cells are all means or NaN. */
  lemma SortedColumnNumeric(data: seq<TypedRow>, c: string)
    requires SortedFrame(FrameOf(data)).Ok? && c in KeyUnion(data)
    requires forall p | 0 <= p < |data| :: Get(data[p], c).None? || Get(data[p], c).value.Float?
    ensures !HasText(SortedColumn(data, c))
  {
    var f := FrameOf(data);
    forall p | 0 <= p < |f.rows| ensures c in f.rows[p] && f.rows[p][c] == Get(data[p], c) {
      FrameCell(data, p, c);
    }
    var s := SortedInput(data);
    PermutedColumnNumeric(f, s, c);
    assert SortedColumn(data, c) == Column(s, c);
  }

  lemma TrendFrameNumeric(rows: seq<TypedRow>, c: string)
    requires DateAverage(rows).Ok? && DateAverage(rows).value != []
    requires c in KeyUnion(DateAverage(rows).value) && c != "Date"
    requires SortedFrame(FrameOf(DateAverage(rows).value)).Ok?
    ensures !HasText(SortedColumn(DateAverage(rows).value, c))
  {
    var trend: seq<TypedRow> := DateAverage(rows).value;
    forall p | 0 <= p < |trend| ensures Get(trend[p], c).None? || Get(trend[p], c).value.Float? {
      TrendCell(rows, p, c);
    }
    SortedColumnNumeric(trend, c);
  }

  /**
   * Smoothing the output of `calculate_date_avg` fails only when it is
   * empty: the dates convert and every candidate cell is a mean or missing.
   */
  lemma DateAverageThenRolling(rows: seq<TypedRow>)
    requires DateAverage(rows).Ok?
    ensures DateAverage(rows).value == [] ==> RollingAverage(DateAverage(rows).value) == Err(MissingKey("Date"))
    ensures DateAverage(rows).value != [] ==> RollingAverage(DateAverage(rows).value).Ok?
  {
    var trend := DateAverage(rows).value;
    RollingAverageOutcome(trend);
    if trend != [] {
      TrendFrameDates(rows);
      forall c | c in KeyUnion(trend) && c != "Date" ensures !HasText(SortedColumn(trend, c)) {
        TrendFrameNumeric(rows, c);
      }
    }
  }

  /** The `for candidate in candidates` loop, on a sorted frame. */
  method RollCandidates(s: Frame, candidates: seq<string>) returns (r: Result<Frame, Error>)
    requires Rectangular(s) && forall c | c in candidates :: c in s.columns
    ensures r == RollColumns(s, candidates)
  {
    var trendFrame := s;
    for i := 0 to |candidates|
      invariant RollColumns(s, candidates[..i]) == Ok(trendFrame)
    {
      var candidate := candidates[i];
      assert candidates[..i + 1][..i] == candidates[..i];
      var col := Column(trendFrame, candidate);
      if HasText(col) {
        RollColumnsErrorSticks(s, candidates, i + 1);
        return Err(NotNumeric(candidate));
      }
      trendFrame := SetColumn(trendFrame, candidate, Rolling(col));
    }
    assert candidates[..|candidates|] == candidates;
    return Ok(trendFrame);
  }

  method CalculateRollingAverage(data: seq<TypedRow>) returns (r: Result<Frame, Error>)
    ensures r == RollingAverage(data)
  {
    var trendFrame := FrameOf(data);
    if "Date" !in trendFrame.columns {
      return Err(MissingKey("Date"));
    }
    var sorted := SortedFrame(trendFrame);
    if sorted.Err? {
      return Err(sorted.error);
    }
    SortedFrameShape(trendFrame);
    trendFrame := sorted.value;
    var rolled := RollCandidates(trendFrame, NonDate(trendFrame.columns));
    if rolled.Err? {
      return Err(rolled.error);
    }
    r := Ok(RenderDates(rolled.value));
    assert r == RollSorted(trendFrame);
  }
}
