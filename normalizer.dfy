/**
 * The cell normaliser of `PollsWebScraper`: `is_percentage_column` and
 * `clean_and_process_data`. A first pass decides which columns hold
 * percentages; a second pass cleans every cell and types it.
 */
module Normalizer {
  import opened Wrappers
  import opened Dicts
  import opened Strings
  import opened Numbers
  import opened Cells

  /** The raw value of `column` in `row` contains a `%`. */
  predicate HasPercent(row: RawRow, column: string) {
    match Get(row, column)
    case Some(v) => '%' in v
    case None => false
  }

  /**
   * `is_percentage_column`: scans the rows in order and answers True at the
   * first raw value holding a `%`; a row without the column reached before
   * that raises KeyError.
   */
  function IsPercentageColumn(data: seq<RawRow>, column: string): Result<bool, Error> {
    if data == [] then Ok(false)
    else
      match Get(data[0], column)
      case None => Err(MissingKey(column))
      case Some(v) => if '%' in v then Ok(true) else IsPercentageColumn(data[1..], column)
  }

  /** No row before position `i` holds a `%` in `column`. */
  predicate NoPercentBefore(data: seq<RawRow>, column: string, i: int)
    requires 0 <= i <= |data|
  {
    forall j | 0 <= j < i :: !HasPercent(data[j], column)
  }

  /**
   * The scan fails exactly when some row lacks the column and no earlier row
   * holds a `%` in it; when it succeeds it answers whether any row holds one.
   */
  lemma {:induction false} IsPercentageColumnSpec(data: seq<RawRow>, column: string)
    ensures IsPercentageColumn(data, column).Err? <==>
      exists i | 0 <= i < |data| :: Get(data[i], column).None? && NoPercentBefore(data, column, i)
    ensures IsPercentageColumn(data, column).Ok? ==>
      (IsPercentageColumn(data, column).value <==> exists i | 0 <= i < |data| :: HasPercent(data[i], column))
  {
    if data != [] {
      IsPercentageColumnSpec(data[1..], column);
      var r := IsPercentageColumn(data, column);
      if Get(data[0], column).None? {
        assert NoPercentBefore(data, column, 0);
      } else if HasPercent(data[0], column) {
        assert r == Ok(true);
        forall i | 0 <= i < |data| && Get(data[i], column).None? ensures !NoPercentBefore(data, column, i) {
          assert i > 0;
        }
      } else {
        assert r == IsPercentageColumn(data[1..], column);
        if r.Err? {
          var i :| 0 <= i < |data[1..]| && Get(data[1..][i], column).None? && NoPercentBefore(data[1..], column, i);
          assert Get(data[i + 1], column).None?;
          forall j | 0 <= j < i + 1 ensures !HasPercent(data[j], column) {
            if j > 0 { assert data[j] == data[1..][j - 1]; }
          }
          assert NoPercentBefore(data, column, i + 1);
        } else {
          forall i | 0 <= i < |data| && Get(data[i], column).None?
            ensures !NoPercentBefore(data, column, i)
          {
            assert i > 0;
            assert data[i] == data[1..][i - 1];
            assert !NoPercentBefore(data[1..], column, i - 1);
            var j :| 0 <= j < i - 1 && HasPercent(data[1..][j], column);
            assert HasPercent(data[j + 1], column);
          }
          if exists i | 0 <= i < |data| :: HasPercent(data[i], column) {
            var i :| 0 <= i < |data| && HasPercent(data[i], column);
            assert i > 0 && HasPercent(data[1..][i - 1], column);
          }
          if exists i | 0 <= i < |data[1..]| :: HasPercent(data[1..][i], column) {
            var i :| 0 <= i < |data[1..]| && HasPercent(data[1..][i], column);
            assert HasPercent(data[i + 1], column);
          }
        }
      }
    }
  }

  /** When every row has the column, the scan cannot fail. */
  lemma ScanSucceedsOnRectangularData(data: seq<RawRow>, column: string)
    requires forall i | 0 <= i < |data| :: column in Keys(data[i])
    ensures IsPercentageColumn(data, column).Ok?
  {
    IsPercentageColumnSpec(data, column);
  }

  /** `[key for key in keys if self.is_percentage_column(table, key)]`. */
  function FilterPercentageColumns(keys: seq<string>, table: seq<RawRow>): Result<seq<string>, Error> {
    if keys == [] then Ok([])
    else
      match IsPercentageColumn(table, keys[0])
      case Err(e) => Err(e)
      case Ok(isPct) =>
        match FilterPercentageColumns(keys[1..], table)
        case Err(e) => Err(e)
        case Ok(rest) => Ok(if isPct then [keys[0]] + rest else rest)
  }

  /** The first pass: the percentage columns among the keys of the first row. */
  function PercentageColumns(table: seq<RawRow>): Result<seq<string>, Error> {
    if table == [] then Err(EmptyBatch)
    else FilterPercentageColumns(Keys(table[0]), table)
  }

  lemma {:induction false} FilterPercentageColumnsSpec(keys: seq<string>, table: seq<RawRow>)
    requires FilterPercentageColumns(keys, table).Ok?
    ensures forall c :: c in FilterPercentageColumns(keys, table).value <==>
      c in keys && exists i | 0 <= i < |table| :: HasPercent(table[i], c)
  {
    if keys != [] {
      FilterPercentageColumnsSpec(keys[1..], table);
      IsPercentageColumnSpec(table, keys[0]);
      assert keys == [keys[0]] + keys[1..];
    }
  }

  /**
   * A column is a percentage column iff it is a key of the first row and some
   * row's raw value for it contains `%`; an empty batch is an error.
   */
  lemma PercentageColumnsSpec(table: seq<RawRow>)
    ensures table == [] ==> PercentageColumns(table) == Err(EmptyBatch)
    ensures PercentageColumns(table).Ok? ==> forall c :: c in PercentageColumns(table).value <==>
      c in Keys(table[0]) && exists i | 0 <= i < |table| :: HasPercent(table[i], c)
  {
    if table != [] && PercentageColumns(table).Ok? {
      FilterPercentageColumnsSpec(Keys(table[0]), table);
    }
  }

  /** A batch in which every row has every key of the first row. */
  predicate Rectangular(table: seq<RawRow>) {
    table != [] && forall i, c | 0 <= i < |table| && c in Keys(table[0]) :: c in Keys(table[i])
  }

  lemma {:induction false} FilterSucceedsOnRectangularData(keys: seq<string>, table: seq<RawRow>)
    requires forall i, c | 0 <= i < |table| && c in keys :: c in Keys(table[i])
    ensures FilterPercentageColumns(keys, table).Ok?
  {
    if keys != [] {
      assert keys[0] in keys;
      assert forall c | c in keys[1..] :: c in keys;
      ScanSucceedsOnRectangularData(table, keys[0]);
      FilterSucceedsOnRectangularData(keys[1..], table);
    }
  }

  const AnnotationMarks: set<char> := {'*'}
  const OtherMarks: set<char> := {'*', ','} + Whitespace

  /** The characters cleaning removes from a cell of column `key`. */
  function Removed(key: string): set<char> {
    if key == "Pollster" then AnnotationMarks else OtherMarks
  }

  /** The cleaning step: `re.sub('[*]', ...)` for Pollster, `re.sub('[*,\s]', ...)` otherwise. */
  function CleanText(key: string, raw: string): string {
    Remove(raw, Removed(key))
  }

  /** For Pollster only `*` goes; every other character keeps its multiplicity. */
  lemma CleanPollster(raw: string)
    ensures '*' !in CleanText("Pollster", raw)
    ensures forall c | c != '*' :: multiset(CleanText("Pollster", raw))[c] == multiset(raw)[c]
  {
  }

  /**
   * For every other column the result holds no `*`, `,` or whitespace, and
   * every other character keeps its multiplicity.
   */
  lemma CleanOther(key: string, raw: string)
    requires key != "Pollster"
    ensures forall c | c in CleanText(key, raw) :: c != '*' && c != ',' && c !in Whitespace
    ensures forall c | c != '*' && c != ',' && c !in Whitespace :: multiset(CleanText(key, raw))[c] == multiset(raw)[c]
  {
    forall c | c in CleanText(key, raw) ensures c != '*' && c != ',' && c !in Whitespace {
      assert c !in OtherMarks;
    }
  }

  /** Cleaning keeps every `%`. */
  lemma CleanKeepsPercent(key: string, raw: string)
    ensures '%' in CleanText(key, raw) <==> '%' in raw
  {
    var drop := Removed(key);
    assert '%' !in drop;
    var r := Remove(raw, drop);
    assert multiset(r)['%'] == multiset(raw)['%'];
    assert '%' in r <==> '%' in multiset(r);
    assert '%' in raw <==> '%' in multiset(raw);
  }

  /** Cleaning twice changes nothing more. */
  lemma CleanIdempotent(key: string, raw: string)
    ensures CleanText(key, CleanText(key, raw)) == CleanText(key, raw)
  {
    RemoveIdempotent(raw, Removed(key));
  }

  /** A cell carrying `%`: the number left once every `%` is removed, over 100; `float()` raises otherwise. */
  function MarkedPercentage(cleaned: string): Result<Value, Error> {
    match ParseFloat(Remove(cleaned, {'%'}))
    case Some(x) => Ok(Float(x / 100.0))
    case None => Err(BadPercentage(cleaned))
  }

  /**
   * The second pass for one cleaned cell, by fixed precedence: a `%` in the
   * cell, then the column's classification, then int, float, text.
   */
  function ConvertCell(cleaned: string, isPercentageColumn: bool): Result<Value, Error> {
    if '%' in cleaned then MarkedPercentage(cleaned)
    else if isPercentageColumn then
      if '.' in cleaned then
        match ParseFloat(cleaned)
        case Some(x) => Ok(Float(x / 100.0))
        case None => Ok(Text(cleaned))
      else
        match ParseInt(cleaned)
        case Some(n) => Ok(Float(n as real / 100.0))
        case None => Ok(Text(cleaned))
    else
      match ParseInt(cleaned)
      case Some(n) => Ok(Int(n))
      case None =>
        match ParseFloat(cleaned)
        case Some(x) => Ok(Float(x))
        case None => Ok(Text(cleaned))
  }

  /**
   * A `%` in the cell wins over the column's classification: such a cell
   * converts the same way whether or not its column holds percentages.
   */
  lemma PercentMarkWins(cleaned: string)
    requires '%' in cleaned
    ensures ConvertCell(cleaned, true) == ConvertCell(cleaned, false) == MarkedPercentage(cleaned)
  {
  }

  /**
   * In a percentage column a cell without `%` that reads as a number, with or
   * without a decimal point, becomes that number over 100; any other cell keeps
   * its cleaned text.
   */
  lemma PercentageColumnCell(cleaned: string)
    requires '%' !in cleaned
    ensures ConvertCell(cleaned, true) ==
      Ok(if ParseFloat(cleaned).Some? then Float(ParseFloat(cleaned).value / 100.0) else Text(cleaned))
  {
    if '.' !in cleaned {
      NoPointFloatIsInt(cleaned);
    }
  }

  /**
   * In any other column integer text becomes an Int, other numeric text (which
   * then has a decimal point) a Float, and the rest keeps its cleaned text.
   */
  lemma PlainColumnCell(cleaned: string)
    requires '%' !in cleaned
    ensures ConvertCell(cleaned, false).Ok?
    ensures ConvertCell(cleaned, false).value.Int? <==> ParseInt(cleaned).Some?
    ensures ConvertCell(cleaned, false).value.Float? ==> '.' in cleaned && ParseFloat(cleaned).Some?
    ensures ConvertCell(cleaned, false).value.Text? <==> ParseFloat(cleaned).None?
  {
    if ParseInt(cleaned).Some? {
      IntTextIsFloatText(cleaned);
    }
    if '.' !in cleaned {
      NoPointFloatIsInt(cleaned);
    }
  }

  /** Only a cell holding `%` can fail, and text is only ever the cleaned cell itself. */
  lemma ConvertCellShape(cleaned: string, isPercentageColumn: bool)
    ensures ConvertCell(cleaned, isPercentageColumn).Err? ==>
      '%' in cleaned && ConvertCell(cleaned, isPercentageColumn).error == BadPercentage(cleaned)
    ensures ConvertCell(cleaned, isPercentageColumn).Ok? && ConvertCell(cleaned, isPercentageColumn).value.Text? ==>
      ConvertCell(cleaned, isPercentageColumn).value.s == cleaned
    ensures ConvertCell("", isPercentageColumn) == Ok(Text(""))
  {
    EmptyIsNotANumber();
  }

  /** The cleaned and typed value of one cell. */
  function CleanCell(key: string, raw: string, percentageColumns: seq<string>): Result<Value, Error> {
    ConvertCell(CleanText(key, raw), key in percentageColumns)
  }

  /** The inner loop over `row.items()`, on a prefix of the row; the first failing cell wins. */
  function CleanFields(fields: seq<Entry<string, string>>, percentageColumns: seq<string>): (r: Result<seq<Entry<string, Value>>, Error>)
    ensures r.Ok? ==> Keys(r.value) == Keys(fields)
  {
    if fields == [] then Ok([])
    else
      var last := fields[|fields| - 1];
      match CleanFields(fields[..|fields| - 1], percentageColumns)
      case Err(e) => Err(e)
      case Ok(done) =>
        match CleanCell(last.key, last.value, percentageColumns)
        case Err(e) => Err(e)
        case Ok(v) =>
          KeysAppend(done, Entry(last.key, v));
          KeysAppend(fields[..|fields| - 1], last);
          assert fields == fields[..|fields| - 1] + [last];
          Ok(done + [Entry(last.key, v)])
  }

  function CleanRow(row: RawRow, percentageColumns: seq<string>): (r: Result<TypedRow, Error>)
    ensures r.Ok? ==> Keys(r.value) == Keys(row)
  {
    match CleanFields(row, percentageColumns)
    case Err(e) => Err(e)
    case Ok(fields) =>
      DistinctKeysOfKeys(row);
      DistinctKeysOfKeys(fields);
      Ok(fields)
  }

  /** The outer loop over the rows, on a prefix of the batch; the first failing row wins. */
  function CleanRows(rows: seq<RawRow>, percentageColumns: seq<string>): (r: Result<seq<TypedRow>, Error>)
    ensures r.Ok? ==> |r.value| == |rows| && forall i | 0 <= i < |rows| :: Keys(r.value[i]) == Keys(rows[i])
  {
    if rows == [] then Ok([])
    else
      match CleanRows(rows[..|rows| - 1], percentageColumns)
      case Err(e) => Err(e)
      case Ok(done) =>
        match CleanRow(rows[|rows| - 1], percentageColumns)
        case Err(e) => Err(e)
        case Ok(row) =>
          KeysOfAppendedRow(rows, done, row);
          Ok(done + [row])
  }

  /** Appending the last row's cleaning keeps every cleaned row's keys those of its raw row. */
  lemma KeysOfAppendedRow(rows: seq<RawRow>, done: seq<TypedRow>, row: TypedRow)
    requires rows != [] && |done| == |rows| - 1
    requires forall i | 0 <= i < |done| :: Keys(done[i]) == Keys(rows[..|rows| - 1][i])
    requires Keys(row) == Keys(rows[|rows| - 1])
    ensures |done + [row]| == |rows|
    ensures forall i | 0 <= i < |rows| :: Keys((done + [row])[i]) == Keys(rows[i])
  {
    forall i | 0 <= i < |rows| ensures Keys((done + [row])[i]) == Keys(rows[i]) {
      if i < |done| {
        assert (done + [row])[i] == done[i] && rows[..|rows| - 1][i] == rows[i];
      }
    }
  }

  /** `clean_and_process_data` as a function of its input. */
  function CleanBatch(table: seq<RawRow>): Result<seq<TypedRow>, Error> {
    match PercentageColumns(table)
    case Err(e) => Err(e)
    case Ok(percentageColumns) => CleanRows(table, percentageColumns)
  }

  lemma CleanFieldsStep(fields: seq<Entry<string, string>>, j: nat, pct: seq<string>, done: seq<Entry<string, Value>>, v: Value)
    requires j < |fields| && CleanFields(fields[..j], pct) == Ok(done)
    requires CleanCell(fields[j].key, fields[j].value, pct) == Ok(v)
    ensures CleanFields(fields[..j + 1], pct) == Ok(done + [Entry(fields[j].key, v)])
  {
    assert fields[..j + 1][..j] == fields[..j];
  }

  /** The cells cleaned so far carry distinct keys, none of them the next cell's. */
  lemma FreshKey(row: RawRow, j: nat, pct: seq<string>, done: seq<Entry<string, Value>>)
    requires j < |row| && CleanFields(row[..j], pct) == Ok(done)
    ensures DistinctKeys(done) && row[j].key !in Keys(done)
  {
    assert Keys(done) == Keys(row[..j]);
    forall a, b | 0 <= a < b < |done| ensures done[a].key != done[b].key {
      assert Keys(done)[a] == row[a].key && Keys(done)[b] == row[b].key;
    }
    forall t | 0 <= t < j ensures Keys(done)[t] != row[j].key {
      assert Keys(done)[t] == row[t].key;
    }
  }

  lemma CleanRowsStep(rows: seq<RawRow>, i: nat, pct: seq<string>, done: seq<TypedRow>, fields: seq<Entry<string, Value>>)
    requires i < |rows| && CleanRows(rows[..i], pct) == Ok(done)
    requires CleanFields(rows[i], pct) == Ok(fields)
    ensures DistinctKeys(fields)
    ensures CleanRows(rows[..i + 1], pct) == Ok(done + [fields])
  {
    assert rows[..i + 1][..i] == rows[..i];
    DistinctKeysOfKeys(rows[i]);
    DistinctKeysOfKeys(fields);
  }

  lemma CleanRowsErrStep(rows: seq<RawRow>, i: nat, pct: seq<string>, done: seq<TypedRow>, e: Error)
    requires i < |rows| && CleanRows(rows[..i], pct) == Ok(done)
    requires CleanFields(rows[i], pct) == Err(e)
    ensures CleanRows(rows, pct) == Err(e)
  {
    assert rows[..i + 1][..i] == rows[..i];
    CleanRowsErrorSticks(rows, i + 1, pct);
  }

  lemma {:induction false} CleanFieldsErrorSticks(fields: seq<Entry<string, string>>, n: nat, pct: seq<string>)
    requires n <= |fields| && CleanFields(fields[..n], pct).Err?
    ensures CleanFields(fields, pct) == CleanFields(fields[..n], pct)
    decreases |fields| - n
  {
    if n < |fields| {
      assert fields[..n + 1][..n] == fields[..n];
      CleanFieldsErrorSticks(fields, n + 1, pct);
    } else {
      assert fields[..n] == fields;
    }
  }

  lemma {:induction false} CleanRowsErrorSticks(rows: seq<RawRow>, n: nat, pct: seq<string>)
    requires n <= |rows| && CleanRows(rows[..n], pct).Err?
    ensures CleanRows(rows, pct) == CleanRows(rows[..n], pct)
    decreases |rows| - n
  {
    if n < |rows| {
      assert rows[..n + 1][..n] == rows[..n];
      CleanRowsErrorSticks(rows, n + 1, pct);
    } else {
      assert rows[..n] == rows;
    }
  }

  /** A successful cleaning of a non-empty prefix is the shorter prefix's cleaning plus the last cell. */
  lemma CleanFieldsLast(fields: seq<Entry<string, string>>, pct: seq<string>)
    requires fields != [] && CleanFields(fields, pct).Ok?
    ensures CleanFields(fields[..|fields| - 1], pct).Ok?
    ensures CleanCell(fields[|fields| - 1].key, fields[|fields| - 1].value, pct).Ok?
    ensures CleanFields(fields, pct).value == CleanFields(fields[..|fields| - 1], pct).value
      + [Entry(fields[|fields| - 1].key, CleanCell(fields[|fields| - 1].key, fields[|fields| - 1].value, pct).value)]
  {
  }

  /** A cleaned row holds, at each position, the input cell's key and its cleaned value. */
  lemma {:induction false} CleanFieldsAt(fields: seq<Entry<string, string>>, pct: seq<string>)
    requires CleanFields(fields, pct).Ok?
    ensures |CleanFields(fields, pct).value| == |fields|
    ensures forall j | 0 <= j < |fields| ::
      CleanCell(fields[j].key, fields[j].value, pct).Ok? &&
      CleanFields(fields, pct).value[j] == Entry(fields[j].key, CleanCell(fields[j].key, fields[j].value, pct).value)
  {
    if fields != [] {
      var init := fields[..|fields| - 1];
      CleanFieldsLast(fields, pct);
      CleanFieldsAt(init, pct);
      CleanFieldsAtStep(fields, pct, CleanFields(init, pct).value, CleanFields(fields, pct).value);
    }
  }

  lemma CleanFieldsAtStep(fields: seq<Entry<string, string>>, pct: seq<string>, done: seq<Entry<string, Value>>, r: seq<Entry<string, Value>>)
    requires fields != [] && |done| == |fields| - 1
    requires forall j | 0 <= j < |done| ::
      CleanCell(fields[..|fields| - 1][j].key, fields[..|fields| - 1][j].value, pct).Ok? &&
      done[j] == Entry(fields[..|fields| - 1][j].key, CleanCell(fields[..|fields| - 1][j].key, fields[..|fields| - 1][j].value, pct).value)
    requires CleanCell(fields[|fields| - 1].key, fields[|fields| - 1].value, pct).Ok?
    requires r == done + [Entry(fields[|fields| - 1].key, CleanCell(fields[|fields| - 1].key, fields[|fields| - 1].value, pct).value)]
    ensures |r| == |fields|
    ensures forall j | 0 <= j < |fields| ::
      CleanCell(fields[j].key, fields[j].value, pct).Ok? &&
      r[j] == Entry(fields[j].key, CleanCell(fields[j].key, fields[j].value, pct).value)
  {
    forall j | 0 <= j < |fields|
      ensures CleanCell(fields[j].key, fields[j].value, pct).Ok?
      ensures r[j] == Entry(fields[j].key, CleanCell(fields[j].key, fields[j].value, pct).value)
    {
      if j < |done| {
        assert fields[j] == fields[..|fields| - 1][j] && r[j] == done[j];
      } else {
        assert j == |fields| - 1;
      }
    }
  }

  /** A failing row fails with the error of its first failing cell. */
  lemma {:induction false} CleanFieldsFails(fields: seq<Entry<string, string>>, pct: seq<string>)
    requires CleanFields(fields, pct).Err?
    ensures exists j | 0 <= j < |fields| ::
      CleanCell(fields[j].key, fields[j].value, pct) == Err(CleanFields(fields, pct).error) &&
      forall t | 0 <= t < j :: CleanCell(fields[t].key, fields[t].value, pct).Ok?
  {
    var init := fields[..|fields| - 1];
    forall t | 0 <= t < |fields| - 1 ensures fields[t] == init[t] { }
    if CleanFields(init, pct).Err? {
      CleanFieldsFails(init, pct);
      var j :| 0 <= j < |init| && CleanCell(init[j].key, init[j].value, pct) == Err(CleanFields(init, pct).error) &&
        forall t | 0 <= t < j :: CleanCell(init[t].key, init[t].value, pct).Ok?;
      assert CleanCell(fields[j].key, fields[j].value, pct) == Err(CleanFields(fields, pct).error);
    } else {
      CleanFieldsAt(init, pct);
      var j := |fields| - 1;
      assert CleanCell(fields[j].key, fields[j].value, pct) == Err(CleanFields(fields, pct).error);
    }
  }

  /** A successful second pass over a non-empty prefix is the shorter prefix's plus the last row. */
  lemma CleanRowsLast(rows: seq<RawRow>, pct: seq<string>)
    requires rows != [] && CleanRows(rows, pct).Ok?
    ensures CleanRows(rows[..|rows| - 1], pct).Ok? && CleanRow(rows[|rows| - 1], pct).Ok?
    ensures CleanRows(rows, pct).value == CleanRows(rows[..|rows| - 1], pct).value + [CleanRow(rows[|rows| - 1], pct).value]
  {
  }

  /** Each cleaned row is its input row cleaned on its own. */
  lemma {:induction false} CleanRowsAt(rows: seq<RawRow>, pct: seq<string>)
    requires CleanRows(rows, pct).Ok?
    ensures forall i | 0 <= i < |rows| :: CleanRow(rows[i], pct) == Ok(CleanRows(rows, pct).value[i])
  {
    if rows != [] {
      var init := rows[..|rows| - 1];
      CleanRowsLast(rows, pct);
      CleanRowsAt(init, pct);
      var done, r := CleanRows(init, pct).value, CleanRows(rows, pct).value;
      forall i | 0 <= i < |rows| ensures CleanRow(rows[i], pct) == Ok(r[i]) {
        if i < |init| {
          assert rows[i] == init[i] && r[i] == done[i];
        } else {
          assert i == |rows| - 1;
        }
      }
    }
  }

  /** A failing batch fails with the error of its first failing row. */
  lemma {:induction false} CleanRowsFails(rows: seq<RawRow>, pct: seq<string>)
    requires CleanRows(rows, pct).Err?
    ensures exists i | 0 <= i < |rows| ::
      CleanRow(rows[i], pct) == Err(CleanRows(rows, pct).error) &&
      forall t | 0 <= t < i :: CleanRow(rows[t], pct).Ok?
  {
    var init := rows[..|rows| - 1];
    var e := CleanRows(rows, pct).error;
    CleanRowsLastErr(rows, pct);
    if CleanRows(init, pct).Err? {
      CleanRowsFails(init, pct);
      var i :| 0 <= i < |init| && CleanRow(init[i], pct) == Err(e) &&
        forall t | 0 <= t < i :: CleanRow(init[t], pct).Ok?;
      forall t | 0 <= t <= i ensures rows[t] == init[t] { }
    } else {
      CleanRowsAt(init, pct);
      forall t | 0 <= t < |rows| - 1 ensures CleanRow(rows[t], pct).Ok? {
        assert rows[t] == init[t];
      }
    }
  }

  /** A failing second pass over a non-empty prefix fails in the shorter prefix or else in the last row. */
  lemma CleanRowsLastErr(rows: seq<RawRow>, pct: seq<string>)
    requires rows != [] && CleanRows(rows, pct).Err?
    ensures CleanRows(rows[..|rows| - 1], pct).Err? ==> CleanRows(rows, pct) == CleanRows(rows[..|rows| - 1], pct)
    ensures CleanRows(rows[..|rows| - 1], pct).Ok? ==> CleanRow(rows[|rows| - 1], pct) == Err(CleanRows(rows, pct).error)
  {
  }

  /**
   * What `clean_and_process_data` returns: on success one row per input row
   * holding, position by position, the input cell's key and its cleaned and
   * typed value. On a batch in which every row has every key of the first
   * row, it fails exactly when some cell fails to convert, and then with
   * `BadPercentage` of a cell whose raw text holds a `%`.
   */
  lemma CleanBatchSpec(table: seq<RawRow>)
    ensures CleanBatch(table).Ok? ==> PercentageColumns(table).Ok? && |CleanBatch(table).value| == |table|
    ensures CleanBatch(table).Ok? ==> forall i, j | 0 <= i < |table| && 0 <= j < |table[i]| ::
      CleanCell(table[i][j].key, table[i][j].value, PercentageColumns(table).value).Ok? &&
      j < |CleanBatch(table).value[i]| &&
      CleanBatch(table).value[i][j] ==
        Entry(table[i][j].key, CleanCell(table[i][j].key, table[i][j].value, PercentageColumns(table).value).value)
    ensures Rectangular(table) ==> PercentageColumns(table).Ok?
    ensures Rectangular(table) ==> (CleanBatch(table).Err? <==>
      exists i, j | 0 <= i < |table| && 0 <= j < |table[i]| ::
        CleanCell(table[i][j].key, table[i][j].value, PercentageColumns(table).value).Err?)
    ensures Rectangular(table) && CleanBatch(table).Err? ==>
      exists i, j | 0 <= i < |table| && 0 <= j < |table[i]| ::
        '%' in table[i][j].value && CleanBatch(table).error == BadPercentage(CleanText(table[i][j].key, table[i][j].value))
  {
    if CleanBatch(table).Ok? {
      var pct := PercentageColumns(table).value;
      CleanBatchRows(table, pct);
    }
    if Rectangular(table) {
      FilterSucceedsOnRectangularData(Keys(table[0]), table);
      var pct := PercentageColumns(table).value;
      assert CleanBatch(table) == CleanRows(table, pct);
      if CleanRows(table, pct).Err? {
        CleanRowsFails(table, pct);
        var i :| 0 <= i < |table| && CleanRow(table[i], pct) == Err(CleanRows(table, pct).error);
        CleanFieldsFails(table[i], pct);
        var j :| 0 <= j < |table[i]| && CleanCell(table[i][j].key, table[i][j].value, pct) == Err(CleanRows(table, pct).error);
        ConvertCellShape(CleanText(table[i][j].key, table[i][j].value), table[i][j].key in pct);
        CleanKeepsPercent(table[i][j].key, table[i][j].value);
      } else {
        CleanBatchRows(table, pct);
      }
    }
  }

  /** The cell-by-cell reading of a successful second pass. */
  lemma CleanBatchRows(table: seq<RawRow>, pct: seq<string>)
    requires CleanRows(table, pct).Ok?
    ensures forall i, j | 0 <= i < |table| && 0 <= j < |table[i]| ::
      CleanCell(table[i][j].key, table[i][j].value, pct).Ok? &&
      j < |CleanRows(table, pct).value[i]| &&
      CleanRows(table, pct).value[i][j] == Entry(table[i][j].key, CleanCell(table[i][j].key, table[i][j].value, pct).value)
  {
    CleanRowsAt(table, pct);
    forall i | 0 <= i < |table|
      ensures forall j | 0 <= j < |table[i]| ::
        CleanCell(table[i][j].key, table[i][j].value, pct).Ok? &&
        j < |CleanRows(table, pct).value[i]| &&
        CleanRows(table, pct).value[i][j] == Entry(table[i][j].key, CleanCell(table[i][j].key, table[i][j].value, pct).value)
    {
      CleanFieldsAt(table[i], pct);
    }
  }

  /** The inner loop of `clean_and_process_data`: `new_row` for one row, cell by cell. */
  method CleanRowCells(row: RawRow, percentageColumns: seq<string>) returns (r: Result<TypedRow, Error>)
    ensures r == CleanRow(row, percentageColumns)
  {
    var newRow: seq<Entry<string, Value>> := [];
    var j := 0;
    while j < |row|
      invariant 0 <= j <= |row|
      invariant CleanFields(row[..j], percentageColumns) == Ok(newRow)
    {
      var key, value := row[j].key, row[j].value;
      var cell := CleanCell(key, value, percentageColumns);
      if cell.Err? {
        assert row[..j + 1][..j] == row[..j];
        CleanFieldsErrorSticks(row, j + 1, percentageColumns);
        return Err(cell.error);
      }
      CleanFieldsStep(row, j, percentageColumns, newRow, cell.value);
      FreshKey(row, j, percentageColumns, newRow);
      newRow := Put(newRow, key, cell.value);
      j := j + 1;
    }
    assert row[..j] == row;
    DistinctKeysOfKeys(row);
    DistinctKeysOfKeys(newRow);
    return Ok(newRow);
  }

  /**
   * `clean_and_process_data`: the percentage columns first, then a loop that
   * builds each `new_row` and appends it to `cleaned_data`. One output row per
   * input row, each with the input row's keys in order.
   */
  method CleanAndProcessData(table: seq<RawRow>) returns (r: Result<seq<TypedRow>, Error>)
    ensures r == CleanBatch(table)
    ensures r.Ok? ==> |r.value| == |table| && forall i | 0 <= i < |table| :: Keys(r.value[i]) == Keys(table[i])
  {
    var columns := PercentageColumns(table);
    if columns.Err? {
      return Err(columns.error);
    }
    var percentageColumns := columns.value;
    var cleanedData: seq<TypedRow> := [];
    var i := 0;
    while i < |table|
      invariant 0 <= i <= |table|
      invariant CleanRows(table[..i], percentageColumns) == Ok(cleanedData)
    {
      var newRow := CleanRowCells(table[i], percentageColumns);
      if newRow.Err? {
        CleanRowsErrStep(table, i, percentageColumns, cleanedData, newRow.error);
        return Err(newRow.error);
      }
      CleanRowsStep(table, i, percentageColumns, cleanedData, newRow.value);
      cleanedData := cleanedData + [newRow.value];
      i := i + 1;
    }
    assert table[..i] == table;
    assert CleanBatch(table) == CleanRows(table, percentageColumns);
    return Ok(cleanedData);
  }
}
