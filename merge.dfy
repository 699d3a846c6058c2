/**
 * `outer_join_csvs`: the previous snapshot and the new rows are joined on
 * the key column, each `_x`/`_y` pair is folded back into one column, the
 * duplicate rows are dropped, and the result is exported as records under
 * the `custom_sort` header. The previous snapshot arrives already parsed,
 * as a frame.
 */
module SnapshotMerger {
  import opened Wrappers
  import opened Dicts
  import opened Cells
  import opened Frames
  import opened OuterJoin
  import opened SuffixResolution
  import opened CsvExport
  import opened Strings

  /** A dict of `df.to_dict('records')`: a cell, possibly NaN, per column. */
  type Record = Dict<string, Cell>

  /** What `export_to_csv` writes: the header, then one line per record. */
  datatype Csv = Csv(header: seq<string>, records: seq<Record>)

  /** `export_to_csv(data, ...)`. */
  function Export(data: seq<Record>): (csv: Csv)
    ensures csv.records == data
    ensures forall k :: k in csv.header <==> exists i | 0 <= i < |data| :: k in Keys(data[i])
  {
    HeaderSpec(data);
    Csv(Header(data), data)
  }

  /** The cleaned rows as records: every value present. */
  function Lift(row: TypedRow): (r: Record)
    ensures Keys(r) == Keys(row)
    ensures forall k :: Get(r, k) == if Get(row, k).Some? then Some(Some(Get(row, k).value)) else None
  {
    if row == [] then []
    else
      var rest := Lift(row[1..]);
      assert row[0].key !in Keys(row[1..]);
      [Entry(row[0].key, Some(row[0].value))] + rest
  }

  function LiftAll(rows: seq<TypedRow>): (r: seq<Record>)
    ensures |r| == |rows| && forall i | 0 <= i < |rows| :: r[i] == Lift(rows[i])
  {
    seq(|rows|, i requires 0 <= i < |rows| => Lift(rows[i]))
  }

  /** A record's cell for `c`: NaN when the record lacks the key. */
  function CellIn(row: Record, c: string): Cell {
    if Get(row, c).Some? then Get(row, c).value else None
  }

  /** `pd.DataFrame(records)`: columns in order of first appearance, NaN where a record lacks a key. */
  function FrameOfRecords(rows: seq<Record>): (f: Frame)
    ensures Rectangular(f)
    ensures f.columns == KeyUnion(rows) && |f.rows| == |rows|
    ensures forall i, c | 0 <= i < |rows| && c in f.columns :: f.rows[i][c] == CellIn(rows[i], c)
  {
    var columns := KeyUnion(rows);
    Frame(columns, seq(|rows|, i requires 0 <= i < |rows| => map c | c in ColumnSet(columns) :: CellIn(rows[i], c)))
  }

  /** One frame row as a record, in column order. */
  function RecordOf(columns: seq<string>, row: FrameRow): (d: Record)
    requires Distinct(columns) && row.Keys == ColumnSet(columns)
    ensures Keys(d) == columns
    ensures forall c | c in columns :: Get(d, c) == Some(row[c])
  {
    var d := seq(|columns|, j requires 0 <= j < |columns| => Entry(columns[j], row[columns[j]]));
    assert Keys(d) == columns;
    assert DistinctKeys(d);
    forall c | c in columns ensures Get(d, c) == Some(row[c]) {
      var j :| 0 <= j < |columns| && columns[j] == c;
      GetAt(d, j);
    }
    d
  }

  /** Distinct rows over the same columns give distinct records. */
  lemma RecordOfInjective(columns: seq<string>, m: FrameRow, n: FrameRow)
    requires Distinct(columns) && m.Keys == ColumnSet(columns) && n.Keys == ColumnSet(columns)
    ensures RecordOf(columns, m) == RecordOf(columns, n) ==> m == n
  {
    var dm, dn := RecordOf(columns, m), RecordOf(columns, n);
    if dm == dn {
      forall c | c in columns ensures m[c] == n[c] {
        assert Get(dm, c) == Some(m[c]) && Get(dn, c) == Some(n[c]);
      }
      RowsAgree(columns, m, n);
    }
  }

  lemma RowsAgree(columns: seq<string>, m: FrameRow, n: FrameRow)
    requires m.Keys == ColumnSet(columns) && n.Keys == ColumnSet(columns)
    requires forall c | c in columns :: m[c] == n[c]
    ensures m == n
  {
  }

  /** `df.to_dict('records')`. */
  function Records(f: Frame): (r: seq<Record>)
    requires Rectangular(f)
    ensures |r| == |f.rows|
    ensures forall i | 0 <= i < |f.rows| :: r[i] == RecordOf(f.columns, f.rows[i])
  {
    seq(|f.rows|, i requires 0 <= i < |f.rows| => RecordOf(f.columns, f.rows[i]))
  }

  lemma {:induction false} KeyUnionUniform(rows: seq<Record>, columns: seq<string>)
    requires rows != [] && Distinct(columns)
    requires forall i | 0 <= i < |rows| :: Keys(rows[i]) == columns
    ensures KeyUnion(rows) == columns
  {
    var prefix := rows[..|rows| - 1];
    if prefix == [] {
      AddNewFresh([], columns);
      assert [] + columns == columns;
      assert rows == [rows[0]];
    } else {
      KeyUnionUniform(prefix, columns);
      AddNewKnown(columns, columns);
    }
  }

  lemma {:induction false} AddNewFresh(acc: seq<string>, ks: seq<string>)
    requires Distinct(acc) && Distinct(ks) && forall k | k in ks :: k !in acc
    ensures AddNew(acc, ks) == acc + ks
    decreases |ks|
  {
    if ks != [] {
      assert acc + ks == (acc + [ks[0]]) + ks[1..];
      assert forall k | k in ks[1..] :: k in ks && k != ks[0];
      assert ks[0] in ks;
      assert Distinct(acc + [ks[0]]) by {
        var a := acc + [ks[0]];
        forall i, j | 0 <= i < j < |a| ensures a[i] != a[j] {
          if j == |acc| { assert a[i] in acc; }
        }
      }
      assert Distinct(ks[1..]) by {
        assert forall i | 0 <= i < |ks[1..]| :: ks[1..][i] == ks[i + 1];
      }
      AddNewFresh(acc + [ks[0]], ks[1..]);
    }
  }

  lemma {:induction false} AddNewKnown(acc: seq<string>, ks: seq<string>)
    requires Distinct(acc) && forall k | k in ks :: k in acc
    ensures AddNew(acc, ks) == acc
    decreases |ks|
  {
    if ks != [] {
      assert forall k | k in ks[1..] :: k in ks;
      AddNewKnown(acc, ks[1..]);
    }
  }

  /** The row `pd.DataFrame` builds from a record, over `columns`. */
  function RowOfRecord(columns: seq<string>, row: Record): (m: FrameRow)
    ensures m.Keys == ColumnSet(columns)
  {
    map c | c in ColumnSet(columns) :: CellIn(row, c)
  }

  lemma FrameOfRecordsRows(rows: seq<Record>)
    ensures FrameOfRecords(rows).rows == seq(|rows|, i requires 0 <= i < |rows| => RowOfRecord(KeyUnion(rows), rows[i]))
  {
  }

  lemma RowOfRecordOf(columns: seq<string>, m: FrameRow)
    requires Distinct(columns) && m.Keys == ColumnSet(columns)
    ensures RowOfRecord(columns, RecordOf(columns, m)) == m
  {
    var d := RecordOf(columns, m);
    forall c | c in columns ensures CellIn(d, c) == m[c] {
      assert Get(d, c) == Some(m[c]);
    }
  }

  /** A frame with rows survives `to_dict('records')` then `pd.DataFrame(...)` unchanged. */
  lemma RecordsRoundTrip(f: Frame)
    requires Rectangular(f) && f.rows != []
    ensures FrameOfRecords(Records(f)) == f
  {
    var rs := Records(f);
    KeyUnionUniform(rs, f.columns);
    FrameOfRecordsRows(rs);
    var rows := FrameOfRecords(rs).rows;
    forall i | 0 <= i < |f.rows| ensures rows[i] == f.rows[i] {
      RowOfRecordOf(f.columns, f.rows[i]);
    }
  }

  /** Building the frame from records depends only on each record's keys for its columns. */
  lemma {:induction false} KeyUnionOfSameKeys<V, W>(rows: seq<Dict<string, V>>, others: seq<Dict<string, W>>)
    requires |rows| == |others| && forall i | 0 <= i < |rows| :: Keys(rows[i]) == Keys(others[i])
    ensures KeyUnion(rows) == KeyUnion(others)
  {
    if rows != [] {
      KeyUnionOfSameKeys(rows[..|rows| - 1], others[..|others| - 1]);
    }
  }

  lemma RowOfLift(columns: seq<string>, row: TypedRow)
    ensures RowOfRecord(columns, Lift(row)) == RowOf(columns, row)
  {
    forall c | c in columns ensures CellIn(Lift(row), c) == Get(row, c) {
    }
  }

  /** `pd.DataFrame` gives the same frame for the cleaned rows and for their records. */
  lemma LiftFrame(rows: seq<TypedRow>)
    ensures FrameOfRecords(LiftAll(rows)) == FrameOf(rows)
  {
    KeyUnionOfSameKeys(LiftAll(rows), rows);
    FrameOfRecordsRows(LiftAll(rows));
    var f, g := FrameOfRecords(LiftAll(rows)), FrameOf(rows);
    forall i | 0 <= i < |rows| ensures f.rows[i] == g.rows[i] {
      RowOfLift(g.columns, rows[i]);
    }
  }

  /** `drop_duplicates()`: the first occurrence of every row, in order. */
  function Dedupe<T(==,!new)>(s: seq<T>): (r: seq<T>)
    ensures Distinct(r)
    ensures forall x :: x in r <==> x in s
    ensures |r| <= |s|
  {
    if s == [] then []
    else
      var prefix := Dedupe(s[..|s| - 1]);
      var last := s[|s| - 1];
      assert s == s[..|s| - 1] + [last];
      if last in prefix then prefix else prefix + [last]
  }

  lemma PositionInPrefix<T(!new)>(s: seq<T>, x: T, y: T)
    requires y in s
    ensures Position(s + [x], y) == Position(s, y)
  {
    var p, q := Position(s + [x], y), Position(s, y);
    assert (s + [x])[q] == y;
  }

  lemma PositionOfLast<T(!new)>(s: seq<T>, x: T)
    requires x !in s
    ensures Position(s + [x], x) == |s|
  {
    var p := Position(s + [x], x);
  }

  /** The kept rows appear in the order of their first occurrences. */
  lemma {:induction false} DedupeKeepsFirstOrder<T(!new)>(s: seq<T>, i: nat, j: nat)
    requires i < j < |Dedupe(s)|
    ensures Position(s, Dedupe(s)[i]) < Position(s, Dedupe(s)[j])
  {
    var prefix := s[..|s| - 1];
    var last := s[|s| - 1];
    var r := Dedupe(prefix);
    assert s == prefix + [last];
    var x, y := Dedupe(s)[i], Dedupe(s)[j];
    assert x in r;
    PositionInPrefix(prefix, last, x);
    if j < |r| {
      DedupeKeepsFirstOrder(prefix, i, j);
      PositionInPrefix(prefix, last, y);
    } else {
      PositionOfLast(prefix, last);
    }
  }

  /** Dropping duplicates from rows that are already distinct changes nothing; in particular it is idempotent. */
  lemma {:induction false} DedupeDistinct<T(!new)>(s: seq<T>)
    requires Distinct(s)
    ensures Dedupe(s) == s
  {
    if s != [] {
      var prefix := s[..|s| - 1];
      assert Distinct(prefix);
      DedupeDistinct(prefix);
      assert s[|s| - 1] !in prefix;
      assert s == prefix + [s[|s| - 1]];
    }
  }

  /** The rows of `f` without repeats, first occurrences first. */
  function DropDuplicates(f: Frame): (r: Frame)
    requires Rectangular(f)
    ensures Rectangular(r) && r.columns == f.columns && r.rows == Dedupe(f.rows)
  {
    var rows := Dedupe(f.rows);
    assert forall i | 0 <= i < |rows| :: rows[i] in f.rows;
    Frame(f.columns, rows)
  }

  /**
   * What `outer_join_csvs` writes, with the pair resolution's names taken
   * from the stripped suffix (see `SuffixResolution`).
   */
  function MergeSnapshot(prior: Frame, newData: seq<Record>, on: string): Result<Csv, Error>
    requires Rectangular(prior)
  {
    var incoming := FrameOfRecords(newData);
    JoinOutcome(prior, incoming, on);
    match Join(prior, incoming, on)
    case Err(e) => Err(e)
    case Ok(joined) =>
      match Combine(joined, joined.columns, StripSuffix)
      case Err(e) => Err(e)
      case Ok(resolved) => Ok(Export(Records(DropDuplicates(resolved))))
  }

  /** `outer_join_csvs`, with the old CSV read into `prior` and the write left to the caller. */
  method OuterJoinCsvs(prior: Frame, newData: seq<Record>, on: string) returns (r: Result<Csv, Error>)
    requires Rectangular(prior)
    ensures r == MergeSnapshot(prior, newData, on)
  {
    var incoming := FrameOfRecords(newData);
    JoinOutcome(prior, incoming, on);
    var joined := Join(prior, incoming, on);
    if joined.Err? {
      return Err(joined.error);
    }
    var combined := ResolveSuffixes(joined.value, StripSuffix);
    if combined.Err? {
      return Err(combined.error);
    }
    var deduped := DropDuplicates(combined.value);
    r := Ok(Export(Records(deduped)));
  }

  /** The label carries no merge suffix. */
  predicate Plain(k: string) {
    !EndsWith(k, "_x") && !EndsWith(k, "_y")
  }

  /** No key of the new rows carries a merge suffix. */
  predicate PlainKeys(newData: seq<Record>) {
    forall i, k | 0 <= i < |newData| && k in Keys(newData[i]) :: Plain(k)
  }

  lemma PlainKeysFrame(newData: seq<Record>)
    requires PlainKeys(newData)
    ensures NoSuffixes(FrameOfRecords(newData))
  {
    var columns := KeyUnion(newData);
    forall c | c in columns ensures Plain(c) {
      var i :| 0 <= i < |newData| && c in Keys(newData[i]);
    }
    assert FrameOfRecords(newData).columns == columns;
  }

  /**
   * A key column missing from the old snapshot or from every new row makes
   * the merge raise `KeyError`; so does an empty batch of new rows, since
   * `pd.DataFrame([])` has no columns at all.
   */
  lemma MergeSnapshotMissingKey(prior: Frame, newData: seq<Record>, on: string)
    requires Rectangular(prior)
    requires on !in prior.columns || forall i | 0 <= i < |newData| :: on !in Keys(newData[i])
    ensures MergeSnapshot(prior, newData, on) == Err(MissingKey(on))
  {
  }

  /** A new row reaches the joined frame, so a join with new rows has rows. */
  lemma JoinHasRows(prior: Frame, incoming: Frame, on: string)
    requires Join(prior, incoming, on).Ok? && incoming.rows != []
    ensures Join(prior, incoming, on).value.rows != []
  {
    var b := incoming.rows[0];
    JoinKeepsNew(prior, incoming, on, b);
    if a :| a in prior.rows && KeyCell(a, on) == KeyCell(b, on) {
      assert JoinedRow(prior, incoming, on, Some(a), Some(b)) in Join(prior, incoming, on).value.rows;
    } else {
      assert JoinedRow(prior, incoming, on, None, Some(b)) in Join(prior, incoming, on).value.rows;
    }
  }

  /** The merged frame, resolved, on plain labels. */
  lemma MergeSnapshotValue(prior: Frame, newData: seq<Record>, on: string)
    requires Rectangular(prior) && NoSuffixes(prior) && PlainKeys(newData)
    requires on in prior.columns && on in KeyUnion(newData)
    ensures Join(prior, FrameOfRecords(newData), on).Ok? && Rectangular(Join(prior, FrameOfRecords(newData), on).value)
    ensures var g := Join(prior, FrameOfRecords(newData), on).value;
      && Combine(g, g.columns, StripSuffix).Ok?
      && Combine(g, g.columns, StripSuffix).value.rows != []
      && MergeSnapshot(prior, newData, on) == Ok(Export(Records(DropDuplicates(Combine(g, g.columns, StripSuffix).value))))
  {
    var incoming := FrameOfRecords(newData);
    PlainKeysFrame(newData);
    MergeResolved(prior, incoming, on);
    JoinHasRows(prior, incoming, on);
  }

  /**
   * On labels without merge suffixes the merge succeeds. Its header names
   * every column of either side once, in `custom_sort` order; no two
   * records are equal; and each record has a cell for every header name.
   */
  lemma MergeSnapshotSpec(prior: Frame, newData: seq<Record>, on: string)
    requires Rectangular(prior) && NoSuffixes(prior) && PlainKeys(newData)
    requires on in prior.columns && on in KeyUnion(newData)
    ensures MergeSnapshot(prior, newData, on).Ok?
    ensures var csv := MergeSnapshot(prior, newData, on).value;
      && (forall k :: k in csv.header <==> k in prior.columns || k in KeyUnion(newData))
      && (forall i, j | 0 <= i < j < |csv.header| :: CustomLess(csv.header[i], csv.header[j]))
      && Distinct(csv.records)
      && (forall i | 0 <= i < |csv.records| :: forall k :: k in Keys(csv.records[i]) <==> k in csv.header)
  {
    var incoming := FrameOfRecords(newData);
    PlainKeysFrame(newData);
    MergeResolved(prior, incoming, on);
    MergeSnapshotValue(prior, newData, on);
    var g := Join(prior, incoming, on).value;
    var h := Combine(g, g.columns, StripSuffix).value;
    var d := DropDuplicates(h);
    assert h.rows[0] in d.rows;
    RecordsDistinct(d);
    HeaderOfRecords(d);
  }

  /** Distinct rows give distinct records. */
  lemma RecordsDistinct(f: Frame)
    requires Rectangular(f) && Distinct(f.rows)
    ensures Distinct(Records(f))
  {
    var rs := Records(f);
    forall i, j | 0 <= i < j < |rs| ensures rs[i] != rs[j] {
      RecordOfInjective(f.columns, f.rows[i], f.rows[j]);
    }
  }

  /** The header of a frame's records lists its columns, in `custom_sort` order, when it has rows. */
  lemma HeaderOfRecords(f: Frame)
    requires Rectangular(f) && f.rows != []
    ensures forall k :: k in Header(Records(f)) <==> k in f.columns
    ensures forall i, j | 0 <= i < j < |Header(Records(f))| :: CustomLess(Header(Records(f))[i], Header(Records(f))[j])
    ensures forall i | 0 <= i < |Records(f)| :: Keys(Records(f)[i]) == f.columns
  {
    HeaderOfUniform(Records(f), f.columns);
  }

  lemma HeaderOfUniform(rs: seq<Record>, columns: seq<string>)
    requires rs != [] && forall i | 0 <= i < |rs| :: Keys(rs[i]) == columns
    ensures forall k :: k in Header(rs) <==> k in columns
    ensures forall i, j | 0 <= i < j < |Header(rs)| :: CustomLess(Header(rs)[i], Header(rs)[j])
  {
    HeaderSpec(rs);
    forall k ensures k in Header(rs) <==> k in columns {
      assert Keys(rs[0]) == columns;
    }
  }

  /**
   * `a` and `b` are the old and new rows one joined row is built from: an
   * old row with its partner or with none, or a new row whose key no old
   * row holds.
   */
  predicate JoinedFrom(prior: Frame, incoming: Frame, on: string, a: Option<FrameRow>, b: Option<FrameRow>) {
    || (a.Some? && a.value in prior.rows && Partnered(incoming, on, a.value, b))
    || (a.None? && b.Some? && b.value in incoming.rows && KeyCell(b.value, on) !in OldKeys(prior, on))
  }

  lemma JoinedRowFrom(prior: Frame, incoming: Frame, on: string, i: nat)
    requires Join(prior, incoming, on).Ok? && i < |Join(prior, incoming, on).value.rows|
    ensures exists a, b :: (JoinedFrom(prior, incoming, on, a, b) &&
      Join(prior, incoming, on).value.rows[i] == JoinedRow(prior, incoming, on, a, b))
  {
    var m := Join(prior, incoming, on).value.rows[i];
    JoinRowOrigin(prior, incoming, on, i);
    if a :| a in prior.rows && FromOldRow(prior, incoming, on, m, a) {
      var b :| m == JoinedRow(prior, incoming, on, Some(a), b) && Partnered(incoming, on, a, b);
      assert JoinedFrom(prior, incoming, on, Some(a), b);
    } else {
      var b :| b in incoming.rows && KeyCell(b, on) !in OldKeys(prior, on) && m == JoinedRow(prior, incoming, on, None, Some(b));
      assert JoinedFrom(prior, incoming, on, None, Some(b));
    }
  }

  /** Record `r` holds, under each of its keys, what the merge keeps from old row `a` and new row `b`. */
  ghost predicate MergedRecord(prior: Frame, incoming: Frame, on: string, r: Record) {
    exists a, b :: (JoinedFrom(prior, incoming, on, a, b) &&
      forall k | k in Keys(r) :: Get(r, k) == Some(MergedCell(prior, incoming, on, a, b, k)))
  }

  lemma ResolvedRowRecord(prior: Frame, incoming: Frame, on: string, i: nat)
    requires Rectangular(prior) && Rectangular(incoming) && NoSuffixes(prior) && NoSuffixes(incoming)
    requires on in prior.columns && on in incoming.columns
    requires Join(prior, incoming, on).Ok? && i < |Join(prior, incoming, on).value.rows|
    ensures Rectangular(Join(prior, incoming, on).value)
    ensures Combine(Join(prior, incoming, on).value, Join(prior, incoming, on).value.columns, StripSuffix).Ok?
    ensures var g := Join(prior, incoming, on).value;
      var h := Combine(g, g.columns, StripSuffix).value;
      MergedRecord(prior, incoming, on, RecordOf(h.columns, h.rows[i]))
  {
    MergeResolved(prior, incoming, on);
    var g := Join(prior, incoming, on).value;
    var h := Combine(g, g.columns, StripSuffix).value;
    JoinedRowFrom(prior, incoming, on, i);
    var a, b :| JoinedFrom(prior, incoming, on, a, b) && g.rows[i] == JoinedRow(prior, incoming, on, a, b);
    var r := RecordOf(h.columns, h.rows[i]);
    forall k | k in Keys(r) ensures Get(r, k) == Some(MergedCell(prior, incoming, on, a, b, k)) {
      assert h.rows[i][k] == MergedCell(prior, incoming, on, a, b, k);
    }
  }

  /** Every record the merge writes is the merge of an old row and its partner, or of a new row alone. */
  lemma MergeSnapshotRecords(prior: Frame, newData: seq<Record>, on: string)
    requires Rectangular(prior) && NoSuffixes(prior) && PlainKeys(newData)
    requires on in prior.columns && on in KeyUnion(newData)
    ensures MergeSnapshot(prior, newData, on).Ok?
    ensures forall r | r in MergeSnapshot(prior, newData, on).value.records :: MergedRecord(prior, FrameOfRecords(newData), on, r)
  {
    MergeSnapshotValue(prior, newData, on);
    forall r | r in MergeSnapshot(prior, newData, on).value.records ensures MergedRecord(prior, FrameOfRecords(newData), on, r) {
      RecordIsMerged(prior, newData, on, r);
    }
  }

  lemma RecordIsMerged(prior: Frame, newData: seq<Record>, on: string, r: Record)
    requires Rectangular(prior) && NoSuffixes(prior) && PlainKeys(newData)
    requires on in prior.columns && on in KeyUnion(newData)
    requires MergeSnapshot(prior, newData, on).Ok? && r in MergeSnapshot(prior, newData, on).value.records
    ensures MergedRecord(prior, FrameOfRecords(newData), on, r)
  {
    var incoming := FrameOfRecords(newData);
    PlainKeysFrame(newData);
    MergeSnapshotValue(prior, newData, on);
    var g := Join(prior, incoming, on).value;
    var h := Combine(g, g.columns, StripSuffix).value;
    var d := DropDuplicates(h);
    var rs := Records(d);
    var p :| 0 <= p < |rs| && rs[p] == r;
    assert d.rows[p] in h.rows;
    var i := Position(h.rows, d.rows[p]);
    ResolvedRowRecord(prior, incoming, on, i);
  }

  /** The resolved frame keeps each joined row's key cell. */
  lemma ResolvedKey(prior: Frame, incoming: Frame, on: string, i: nat)
    requires Rectangular(prior) && Rectangular(incoming) && NoSuffixes(prior) && NoSuffixes(incoming)
    requires on in prior.columns && on in incoming.columns
    requires Join(prior, incoming, on).Ok? && i < |Join(prior, incoming, on).value.rows|
    ensures Rectangular(Join(prior, incoming, on).value)
    ensures Combine(Join(prior, incoming, on).value, Join(prior, incoming, on).value.columns, StripSuffix).Ok?
    ensures var g := Join(prior, incoming, on).value;
      var h := Combine(g, g.columns, StripSuffix).value;
      on in g.rows[i] && on in h.rows[i] && h.rows[i][on] == g.rows[i][on]
  {
    MergeResolved(prior, incoming, on);
    var g := Join(prior, incoming, on).value;
    var h := Combine(g, g.columns, StripSuffix).value;
    JoinedRowFrom(prior, incoming, on, i);
    var a, b :| JoinedFrom(prior, incoming, on, a, b) && g.rows[i] == JoinedRow(prior, incoming, on, a, b);
    JoinRows(prior, incoming, on);
    JoinedRowLeft(prior, incoming, on, a, b, on);
    assert LeftName(prior, incoming, on, on) == on;
    assert h.rows[i][on] == MergedCell(prior, incoming, on, a, b, on);
  }

  /** The record the merge writes for joined row `j` carries its key cell. */
  lemma JoinedRowReachesRecord(prior: Frame, newData: seq<Record>, on: string, j: nat)
    requires Rectangular(prior) && NoSuffixes(prior) && PlainKeys(newData)
    requires on in prior.columns && on in KeyUnion(newData)
    requires Join(prior, FrameOfRecords(newData), on).Ok? && j < |Join(prior, FrameOfRecords(newData), on).value.rows|
    ensures on in Join(prior, FrameOfRecords(newData), on).value.rows[j]
    ensures MergeSnapshot(prior, newData, on).Ok?
    ensures exists r | r in MergeSnapshot(prior, newData, on).value.records ::
      Get(r, on) == Some(Join(prior, FrameOfRecords(newData), on).value.rows[j][on])
  {
    var incoming := FrameOfRecords(newData);
    PlainKeysFrame(newData);
    MergeResolved(prior, incoming, on);
    MergeSnapshotValue(prior, newData, on);
    ResolvedKey(prior, incoming, on, j);
    var g := Join(prior, incoming, on).value;
    var h := Combine(g, g.columns, StripSuffix).value;
    var d := DropDuplicates(h);
    var rs := Records(d);
    assert h.rows[j] in d.rows;
    var p := Position(d.rows, h.rows[j]);
    assert Get(rs[p], on) == Some(h.rows[j][on]);
    assert rs[p] in rs;
  }

  /** Every key of the old snapshot reaches a record of the merge. */
  lemma MergeSnapshotKeepsOldKeys(prior: Frame, newData: seq<Record>, on: string, a: FrameRow)
    requires Rectangular(prior) && NoSuffixes(prior) && PlainKeys(newData)
    requires on in prior.columns && on in KeyUnion(newData) && a in prior.rows
    ensures MergeSnapshot(prior, newData, on).Ok?
    ensures exists r | r in MergeSnapshot(prior, newData, on).value.records :: Get(r, on) == Some(KeyCell(a, on))
  {
    var incoming := FrameOfRecords(newData);
    MergeSnapshotValue(prior, newData, on);
    JoinKeys(prior, incoming, on);
    var g := Join(prior, incoming, on).value;
    var m :| m in g.rows && on in m && m[on] == KeyCell(a, on);
    JoinedRowReachesRecord(prior, newData, on, Position(g.rows, m));
  }

  /** Every key of the new rows reaches a record of the merge. */
  lemma MergeSnapshotKeepsNewKeys(prior: Frame, newData: seq<Record>, on: string, i: nat)
    requires Rectangular(prior) && NoSuffixes(prior) && PlainKeys(newData)
    requires on in prior.columns && on in KeyUnion(newData) && i < |newData|
    ensures MergeSnapshot(prior, newData, on).Ok?
    ensures exists r | r in MergeSnapshot(prior, newData, on).value.records :: Get(r, on) == Some(CellIn(newData[i], on))
  {
    var incoming := FrameOfRecords(newData);
    MergeSnapshotValue(prior, newData, on);
    JoinKeys(prior, incoming, on);
    var g := Join(prior, incoming, on).value;
    var b := incoming.rows[i];
    assert b in incoming.rows && KeyCell(b, on) == CellIn(newData[i], on);
    var m :| m in g.rows && on in m && m[on] == KeyCell(b, on);
    JoinedRowReachesRecord(prior, newData, on, Position(g.rows, m));
  }
}
