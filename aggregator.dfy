/**
 * The trend aggregator of `PollsWebScraper`: `calculate_date_avg` groups the
 * cleaned rows by date and candidate and averages each group;
 * `calculate_7d_rolling_avg` smooths the daily averages with a trailing
 * seven-row window.
 */
module TrendAggregator {
  import opened Wrappers
  import opened Dicts
  import opened Dates
  import opened Sorting
  import opened Cells

  /** The columns that are never averaged. */
  const Identity: seq<string> := ["Date", "Pollster", "Sample"]

  /** A cell that feeds an average: not an identity column, and not the empty string. */
  predicate IsObservation(e: Entry<string, Value>) {
    e.key !in Identity && e.value != Text("")
  }

  /** The observation a row holds for candidate `k`, if any. */
  function RowObs(row: TypedRow, k: string): seq<Value> {
    match Get(row, k)
    case Some(v) => if IsObservation(Entry(k, v)) then [v] else []
    case None => []
  }

  /** Every observation of candidate `k` on date `d`, in row order. */
  function Obs(rows: seq<TypedRow>, d: Value, k: string): seq<Value> {
    if rows == [] then []
    else
      var last := rows[|rows| - 1];
      Obs(rows[..|rows| - 1], d, k) + (if Get(last, "Date") == Some(d) then RowObs(last, k) else [])
  }

  predicate HasObservation(fields: seq<Entry<string, Value>>) {
    exists t | 0 <= t < |fields| :: IsObservation(fields[t])
  }

  /** Row `i` is dated `d` and holds at least one observation. */
  predicate ObservedAt(rows: seq<TypedRow>, d: Value, i: int) {
    0 <= i < |rows| && Get(rows[i], "Date") == Some(d) && HasObservation(rows[i])
  }

  /** Some row dated `d` holds at least one observation. */
  predicate Observed(rows: seq<TypedRow>, d: Value) {
    exists i | 0 <= i < |rows| :: ObservedAt(rows, d, i)
  }

  predicate AllDated(rows: seq<TypedRow>) {
    forall i | 0 <= i < |rows| :: "Date" in Keys(rows[i])
  }

  // ---------------------------------------------------------------------------
  // The nested `defaultdict(lambda: defaultdict(list))`
  // ---------------------------------------------------------------------------

  type Candidates = Dict<string, seq<Value>>
  type Groups = Dict<Value, Candidates>

  /** `averages[d][k]` as the loop reads it, empty when either level is absent. */
  function Lookup(g: Groups, d: Value, k: string): seq<Value> {
    match Get(g, d)
    case None => []
    case Some(c) => GetOr(c, k, [])
  }

  /** The candidates recorded under date `d`, in insertion order. */
  function CandidatesOf(g: Groups, d: Value): seq<string> {
    match Get(g, d)
    case None => []
    case Some(c) => Keys(c)
  }

  /** `averages[d][k].append(v)`: both levels are created on first use. */
  function Append(g: Groups, d: Value, k: string, v: Value): (r: Groups)
    ensures Keys(r) == if d in Keys(g) then Keys(g) else Keys(g) + [d]
  {
    var c := GetOr(g, d, []);
    Put(g, d, Put(c, k, GetOr(c, k, []) + [v]))
  }

  lemma AppendLookup(g: Groups, d: Value, k: string, v: Value, d': Value, k': string)
    ensures Lookup(Append(g, d, k, v), d', k') == Lookup(g, d', k') + (if d' == d && k' == k then [v] else [])
  {
    var c := GetOr(g, d, []);
    var inner := Put(c, k, GetOr(c, k, []) + [v]);
    LookupPut(g, d, inner, d', k');
    if d' == d {
      LookupOuter(g, d, k');
      GetOrPut(c, k, GetOr(c, k, []) + [v], k');
    }
  }

  lemma LookupPut(g: Groups, d: Value, c: Candidates, d': Value, k': string)
    ensures Lookup(Put(g, d, c), d', k') == if d' == d then GetOr(c, k', []) else Lookup(g, d', k')
  {
    assert Get(Put(g, d, c), d') == if d' == d then Some(c) else Get(g, d');
  }

  lemma LookupOuter(g: Groups, d: Value, k: string)
    ensures Lookup(g, d, k) == GetOr(GetOr(g, d, []), k, [])
  {
    if Get(g, d).None? {
      var empty: Candidates := [];
      assert Get(empty, k) == None;
    }
  }

  lemma GetOrPut(c: Candidates, k: string, vs: seq<Value>, k': string)
    ensures GetOr(Put(c, k, vs), k', []) == if k' == k then vs else GetOr(c, k', [])
  {
    assert Get(Put(c, k, vs), k') == if k' == k then Some(vs) else Get(c, k');
  }

  lemma AppendCandidates(g: Groups, d: Value, k: string, v: Value, d': Value)
    ensures CandidatesOf(Append(g, d, k, v), d') ==
      if d' != d || k in CandidatesOf(g, d) then CandidatesOf(g, d') else CandidatesOf(g, d) + [k]
  {
    var c := GetOr(g, d, []);
    var inner := Put(c, k, GetOr(c, k, []) + [v]);
    assert Get(Append(g, d, k, v), d') == if d' == d then Some(inner) else Get(g, d');
    assert d' == d ==> CandidatesOf(g, d) == Keys(c);
  }

  /** The observations among the first cells of a row, for candidate `k`. */
  function FieldObs(fields: seq<Entry<string, Value>>, k: string): seq<Value> {
    if fields == [] then []
    else
      var e := fields[|fields| - 1];
      FieldObs(fields[..|fields| - 1], k) + (if e.key == k && IsObservation(e) then [e.value] else [])
  }

  /** The inner loop over `row.items()` for a row dated `d`, on a prefix of the row. */
  function GroupFields(g: Groups, d: Value, fields: seq<Entry<string, Value>>): Groups {
    if fields == [] then g
    else
      var e := fields[|fields| - 1];
      var g' := GroupFields(g, d, fields[..|fields| - 1]);
      if IsObservation(e) then Append(g', d, e.key, e.value) else g'
  }

  /** The inner loop appends the row's observations of `k`, under its date only. */
  lemma {:induction false} GroupFieldsLookup(g: Groups, d: Value, fields: seq<Entry<string, Value>>, d': Value, k: string)
    ensures Lookup(GroupFields(g, d, fields), d', k) == Lookup(g, d', k) + (if d' == d then FieldObs(fields, k) else [])
  {
    if fields != [] {
      var e := fields[|fields| - 1];
      var prefix := fields[..|fields| - 1];
      GroupFieldsLookup(g, d, prefix, d', k);
      if IsObservation(e) {
        AppendLookup(GroupFields(g, d, prefix), d, e.key, e.value, d', k);
      }
    }
  }

  /** A candidate is recorded under a date once it has an observation there. */
  lemma {:induction false} GroupFieldsCandidates(g: Groups, d: Value, fields: seq<Entry<string, Value>>, d': Value, k: string)
    ensures k in CandidatesOf(GroupFields(g, d, fields), d') <==>
      k in CandidatesOf(g, d') || (d' == d && FieldObs(fields, k) != [])
  {
    if fields != [] {
      var e := fields[|fields| - 1];
      var prefix := fields[..|fields| - 1];
      GroupFieldsCandidates(g, d, prefix, d', k);
      if IsObservation(e) {
        AppendCandidates(GroupFields(g, d, prefix), d, e.key, e.value, d');
      }
    }
  }

  /** A date is recorded once one of its cells is an observation. */
  lemma {:induction false} GroupFieldsDates(g: Groups, d: Value, fields: seq<Entry<string, Value>>, d': Value)
    ensures d' in Keys(GroupFields(g, d, fields)) <==> d' in Keys(g) || (d' == d && HasObservation(fields))
  {
    if fields != [] {
      var prefix := fields[..|fields| - 1];
      GroupFieldsDates(g, d, prefix, d');
      assert forall t | 0 <= t < |prefix| :: prefix[t] == fields[t];
      if HasObservation(fields) && !HasObservation(prefix) {
        assert IsObservation(fields[|fields| - 1]);
      }
    }
  }

  /** On a whole row, the inner loop finds the row's own cell for `k`. */
  lemma {:induction false} FieldObsOfRow(fields: seq<Entry<string, Value>>, k: string)
    requires DistinctKeys(fields)
    ensures FieldObs(fields, k) == RowObs(fields, k)
  {
    if fields != [] {
      var e := fields[|fields| - 1];
      var prefix := fields[..|fields| - 1];
      assert DistinctKeys(prefix);
      FieldObsOfRow(prefix, k);
      GetLast(fields, k);
      if e.key == k {
        assert k !in Keys(prefix);
      }
    }
  }

  /** One pass of the outer loop: `row["Date"]`, then the inner loop. */
  function GroupRow(g: Groups, row: TypedRow): Result<Groups, Error> {
    match Get(row, "Date")
    case None => Err(MissingKey("Date"))
    case Some(d) => Ok(GroupFields(g, d, row))
  }

  /** The grouping loop of `calculate_date_avg`, on a prefix of the rows. */
  function Group(rows: seq<TypedRow>): (r: Result<Groups, Error>)
    ensures r.Err? <==> !AllDated(rows)
    ensures r.Err? ==> r.error == MissingKey("Date")
  {
    if rows == [] then Ok([])
    else
      var prefix := rows[..|rows| - 1];
      AllDatedStep(rows);
      match Group(prefix)
      case Err(e) => Err(e)
      case Ok(g) => GroupRow(g, rows[|rows| - 1])
  }

  lemma AllDatedStep(rows: seq<TypedRow>)
    requires rows != []
    ensures AllDated(rows) <==> AllDated(rows[..|rows| - 1]) && "Date" in Keys(rows[|rows| - 1])
  {
    var prefix := rows[..|rows| - 1];
    assert forall i | 0 <= i < |prefix| :: prefix[i] == rows[i];
  }

  /** Identity columns are never observed. */
  lemma {:induction false} IdentityNeverObserved(rows: seq<TypedRow>, d: Value, k: string)
    requires k in Identity
    ensures Obs(rows, d, k) == []
  {
    if rows != [] {
      IdentityNeverObserved(rows[..|rows| - 1], d, k);
    }
  }

  lemma ObservedStep(rows: seq<TypedRow>, d: Value)
    requires rows != []
    ensures Observed(rows, d) <==>
      (Observed(rows[..|rows| - 1], d) || (Get(rows[|rows| - 1], "Date") == Some(d) && HasObservation(rows[|rows| - 1])))
  {
    var n := |rows| - 1;
    var prefix := rows[..n];
    if Observed(rows, d) {
      var i :| 0 <= i < |rows| && ObservedAt(rows, d, i);
      if i < n {
        assert prefix[i] == rows[i];
        assert ObservedAt(prefix, d, i);
      }
    }
    if Observed(prefix, d) {
      var i :| 0 <= i < n && ObservedAt(prefix, d, i);
      assert rows[i] == prefix[i];
      assert ObservedAt(rows, d, i);
    }
    if Get(rows[n], "Date") == Some(d) && HasObservation(rows[n]) {
      assert ObservedAt(rows, d, n);
    }
  }

  /**
   * After the grouping loop, `averages[d][k]` holds exactly the observations of
   * `k` on date `d` in row order; a candidate is recorded under a date iff it
   * has an observation there, and a date is recorded iff some row of that date
   * has an observation.
   */
  lemma {:induction false} GroupSpec(rows: seq<TypedRow>, d: Value, k: string)
    requires Group(rows).Ok?
    ensures Lookup(Group(rows).value, d, k) == Obs(rows, d, k)
    ensures k in CandidatesOf(Group(rows).value, d) <==> Obs(rows, d, k) != []
    ensures d in Keys(Group(rows).value) <==> Observed(rows, d)
  {
    if rows != [] {
      var prefix := rows[..|rows| - 1];
      var last := rows[|rows| - 1];
      GroupSpec(prefix, d, k);
      var g := Group(prefix).value;
      var date := Get(last, "Date").value;
      assert Group(rows).value == GroupFields(g, date, last);
      GroupFieldsLookup(g, date, last, d, k);
      GroupFieldsCandidates(g, date, last, d, k);
      GroupFieldsDates(g, date, last, d);
      FieldObsOfRow(last, k);
      ObservedStep(rows, d);
    }
  }

  // ---------------------------------------------------------------------------
  // Averaging
  // ---------------------------------------------------------------------------

  function AsReal(v: Value): Option<real> {
    match v
    case Int(n) => Some(n as real)
    case Float(x) => Some(x)
    case Text(_) => None
  }

  /** `sum(values)`, added left to right from 0; None stands for the TypeError a text value raises. */
  function Total(vs: seq<Value>): (r: Option<real>)
    ensures r.None? <==> exists t | 0 <= t < |vs| :: vs[t].Text?
  {
    if vs == [] then Some(0.0)
    else
      var prefix := vs[..|vs| - 1];
      assert forall t | 0 <= t < |prefix| :: prefix[t] == vs[t];
      match Total(prefix)
      case None => None
      case Some(a) =>
        match AsReal(vs[|vs| - 1])
        case None => None
        case Some(b) => Some(a + b)
  }

  /** `sum(values) / len(values)`; None for an empty list or a text value. */
  function Mean(vs: seq<Value>): Option<real> {
    if vs == [] then None
    else
      match Total(vs)
      case None => None
      case Some(t) => Some(t / |vs| as real)
  }

  /** The cell an average row holds: the mean, or missing. */
  function MeanCell(vs: seq<Value>): Cell {
    match Mean(vs)
    case None => None
    case Some(m) => Some(Float(m))
  }

  /** The mean of values that all lie in `[lo, hi]` lies in `[lo, hi]`. */
  lemma {:induction false} TotalBounds(vs: seq<Value>, lo: real, hi: real)
    requires Total(vs).Some?
    requires forall t | 0 <= t < |vs| :: AsReal(vs[t]).Some? && lo <= AsReal(vs[t]).value <= hi
    ensures |vs| as real * lo <= Total(vs).value <= |vs| as real * hi
  {
    if vs != [] {
      var prefix := vs[..|vs| - 1];
      assert forall t | 0 <= t < |prefix| :: prefix[t] == vs[t];
      TotalBounds(prefix, lo, hi);
      var m := |prefix| as real;
      assert Total(vs).value == Total(prefix).value + AsReal(vs[|vs| - 1]).value;
      assert |vs| as real * lo == m * lo + lo && |vs| as real * hi == m * hi + hi;
    }
  }

  /** Dividing by a positive count keeps a total's bounds. */
  lemma DivideBounds(t: real, n: real, lo: real, hi: real)
    requires n > 0.0 && n * lo <= t <= n * hi
    ensures lo <= t / n <= hi
  {
    assert t / n - lo == (t - n * lo) / n;
    assert hi - t / n == (n * hi - t) / n;
  }

  lemma MeanBounds(vs: seq<Value>, lo: real, hi: real)
    requires Mean(vs).Some?
    requires forall t | 0 <= t < |vs| :: AsReal(vs[t]).Some? && lo <= AsReal(vs[t]).value <= hi
    ensures lo <= Mean(vs).value <= hi
  {
    TotalBounds(vs, lo, hi);
    DivideBounds(Total(vs).value, |vs| as real, lo, hi);
  }

  /** The simple-average example: polls of 0.40 and 0.50 on one date average to 0.45. */
  lemma MeanExample()
    ensures Mean([Float(0.40), Float(0.50)]) == Some(0.45)
  {
    assert [Float(0.40), Float(0.50)][..1] == [Float(0.40)];
    assert [Float(0.40)][..0] == [];
  }

  /**
   * The inner loop over `candidates.items()`, on a prefix: each candidate is set
   * on the row to its mean, or to `''` for an empty list.
   */
  function AverageFields(row: TypedRow, cands: seq<Entry<string, seq<Value>>>): (r: Result<TypedRow, Error>)
    ensures r.Err? ==> r.error.NotNumeric?
  {
    if cands == [] then Ok(row)
    else
      var e := cands[|cands| - 1];
      match AverageFields(row, cands[..|cands| - 1])
      case Err(err) => Err(err)
      case Ok(r) =>
        match CandidateAverage(e)
        case Err(err) => Err(err)
        case Ok(v) => Ok(Put(r, e.key, v))
  }

  /** `sum(values) / len(values) if values else ''` for one candidate; `sum` raises on text. */
  function CandidateAverage(e: Entry<string, seq<Value>>): (r: Result<Value, Error>)
    ensures r.Err? <==> e.value != [] && Total(e.value).None?
    ensures r.Err? ==> r.error == NotNumeric(e.key)
    ensures r.Ok? ==> Some(r.value) == if e.value == [] then Some(Text("")) else MeanCell(e.value)
  {
    if e.value == [] then Ok(Text(""))
    else
      match Mean(e.value)
      case None => Err(NotNumeric(e.key))
      case Some(m) => Ok(Float(m))
  }

  /** `avg_row` for one date: the date, then each candidate's mean. */
  function AverageRow(d: Value, cands: Candidates): Result<TypedRow, Error> {
    AverageFields([Entry("Date", d)], cands)
  }

  /** The outer loop over `averages.items()`, on a prefix, building `trend_data`. */
  function Averages(g: seq<Entry<Value, Candidates>>): (r: Result<seq<TypedRow>, Error>)
    ensures r.Ok? ==> |r.value| == |g|
    ensures r.Err? ==> r.error.NotNumeric?
  {
    if g == [] then Ok([])
    else
      var e := g[|g| - 1];
      match Averages(g[..|g| - 1])
      case Err(err) => Err(err)
      case Ok(done) =>
        match AverageRow(e.key, e.value)
        case Err(err) => Err(err)
        case Ok(row) => Ok(done + [row])
  }

  /**
   * Each candidate of the list ends up on the row with its mean (or `''` for an
   * empty list); every other key keeps the row's value.
   */
  lemma {:induction false} AverageFieldsGet(row: TypedRow, cands: seq<Entry<string, seq<Value>>>, k: string)
    requires DistinctKeys(cands)
    requires AverageFields(row, cands).Ok?
    ensures Get(AverageFields(row, cands).value, k) ==
      if k !in Keys(cands) then Get(row, k)
      else if GetOr(cands, k, []) == [] then Some(Text(""))
      else MeanCell(GetOr(cands, k, []))
  {
    if cands != [] {
      var e := cands[|cands| - 1];
      var prefix := cands[..|cands| - 1];
      assert DistinctKeys(prefix);
      AverageFieldsGet(row, prefix, k);
      KeysLast(cands);
      GetLast(cands, k);
      if e.key == k {
        assert k !in Keys(prefix);
      }
    }
  }

  /** A non-empty list holding text: `sum` raises on it. */
  predicate NotAveragable(e: Entry<string, seq<Value>>) {
    e.value != [] && Total(e.value).None?
  }

  lemma AverageFieldsErrStep(row: TypedRow, cands: seq<Entry<string, seq<Value>>>)
    requires cands != []
    ensures AverageFields(row, cands).Err? <==>
      (AverageFields(row, cands[..|cands| - 1]).Err? || NotAveragable(cands[|cands| - 1]))
  {
  }

  /** A non-empty list holding text makes the inner loop raise. */
  lemma AverageFieldsFailsAt(row: TypedRow, cands: seq<Entry<string, seq<Value>>>, j: nat)
    requires j < |cands|
    ensures NotAveragable(cands[j]) ==> AverageFields(row, cands).Err?
  {
    if NotAveragable(cands[j]) {
      var upto := cands[..j + 1];
      AverageFieldsErrStep(row, upto);
      assert upto[j] == cands[j];
      AverageFieldsErrorSticks(row, cands, j + 1);
    }
  }

  /** When the inner loop raises, some non-empty list holds text. */
  lemma {:induction false} AverageFieldsFailure(row: TypedRow, cands: seq<Entry<string, seq<Value>>>) returns (j: nat)
    requires AverageFields(row, cands).Err?
    ensures j < |cands| && NotAveragable(cands[j])
  {
    var n := |cands| - 1;
    AverageFieldsErrStep(row, cands);
    if NotAveragable(cands[n]) {
      j := n;
    } else {
      j := AverageFieldsFailure(row, cands[..n]);
      assert cands[..n][j] == cands[j];
    }
  }

  /** Averaging a candidate list fails exactly when some non-empty list holds text. */
  lemma AverageFieldsErr(row: TypedRow, cands: seq<Entry<string, seq<Value>>>)
    ensures AverageFields(row, cands).Err? <==> exists j | 0 <= j < |cands| :: NotAveragable(cands[j])
  {
    if AverageFields(row, cands).Err? {
      var j := AverageFieldsFailure(row, cands);
    }
    forall j | 0 <= j < |cands| ensures NotAveragable(cands[j]) ==> AverageFields(row, cands).Err? {
      AverageFieldsFailsAt(row, cands, j);
    }
  }

  lemma {:induction false} AveragesAt(g: seq<Entry<Value, Candidates>>, i: nat)
    requires Averages(g).Ok? && i < |g|
    ensures AverageRow(g[i].key, g[i].value) == Ok(Averages(g).value[i])
  {
    var prefix, last := g[..|g| - 1], g[|g| - 1];
    assert Averages(prefix).Ok? && AverageRow(last.key, last.value).Ok?;
    var done, row := Averages(prefix).value, AverageRow(last.key, last.value).value;
    assert Averages(g).value == done + [row];
    if i < |prefix| {
      AveragesAt(prefix, i);
      assert prefix[i] == g[i] && (done + [row])[i] == done[i];
    } else {
      assert (done + [row])[i] == row;
    }
  }

  lemma {:induction false} AveragesErr(g: seq<Entry<Value, Candidates>>)
    ensures Averages(g).Err? <==> exists i | 0 <= i < |g| :: AverageRow(g[i].key, g[i].value).Err?
  {
    if g != [] {
      var prefix := g[..|g| - 1];
      AveragesErr(prefix);
      assert forall i | 0 <= i < |prefix| :: prefix[i] == g[i];
    }
  }

  // ---------------------------------------------------------------------------
  // Sorting by date
  // ---------------------------------------------------------------------------

  /** `convert_to_date(x['Date'])` for a `Date` cell, as the integer `sorted` compares. */
  function DateKeyOf(date: Option<Value>): Result<int, Error> {
    match date
    case None => Err(MissingKey("Date"))
    case Some(v) =>
      if v.Text? && ParseDate(v.s).Some? then Ok(Ordinal(ParseDate(v.s).value)) else Err(BadDate(v))
  }

  function DateKey(row: TypedRow): Result<int, Error> {
    DateKeyOf(Get(row, "Date"))
  }

  /** `sorted(trend_data, key=lambda x: convert_to_date(x['Date']))`. */
  function SortByDate(rows: seq<TypedRow>): Result<seq<TypedRow>, Error> {
    Sorted(rows, DateKey)
  }

  // ---------------------------------------------------------------------------
  // calculate_date_avg as a whole
  // ---------------------------------------------------------------------------

  /** `calculate_date_avg` as a function of its input: group, average, sort. */
  function DateAverage(rows: seq<TypedRow>): Result<seq<TypedRow>, Error> {
    match Group(rows)
    case Err(e) => Err(e)
    case Ok(g) =>
      match Averages(g)
      case Err(e) => Err(e)
      case Ok(trend) => SortByDate(trend)
  }

  /** Row `p` of `trend_data` before sorting carries the `p`-th grouped date, which has an observation. */
  lemma TrendRowDate(rows: seq<TypedRow>, p: nat)
    requires Group(rows).Ok? && Averages(Group(rows).value).Ok?
    requires p < |Group(rows).value|
    ensures Get(Averages(Group(rows).value).value[p], "Date") == Some(Group(rows).value[p].key)
    ensures Observed(rows, Group(rows).value[p].key)
  {
    var g := Group(rows).value;
    var d, c := g[p].key, g[p].value;
    AveragesAt(g, p);
    GetAt(g, p);
    assert d in Keys(g);
    GroupSpec(rows, d, "Date");
    IdentityNeverObserved(rows, d, "Date");
    assert "Date" !in Keys(c);
    AverageFieldsGet([Entry("Date", d)], c, "Date");
  }

  /** Every other key of row `p` holds the mean of the date's observations of it, or is absent. */
  lemma TrendRowCell(rows: seq<TypedRow>, p: nat, k: string)
    requires Group(rows).Ok? && Averages(Group(rows).value).Ok?
    requires p < |Group(rows).value| && k != "Date"
    ensures Get(Averages(Group(rows).value).value[p], k) == MeanCell(Obs(rows, Group(rows).value[p].key, k))
  {
    var g := Group(rows).value;
    var d, c := g[p].key, g[p].value;
    AveragesAt(g, p);
    GetAt(g, p);
    GroupSpec(rows, d, k);
    assert k in Keys(c) <==> Obs(rows, d, k) != [];
    assert GetOr(c, k, []) == Obs(rows, d, k);
    AverageFieldsGet([Entry("Date", d)], c, k);
  }

  lemma TrendRow(rows: seq<TypedRow>, p: nat, k: string)
    requires Group(rows).Ok? && Averages(Group(rows).value).Ok?
    requires p < |Group(rows).value|
    ensures Get(Averages(Group(rows).value).value[p], "Date") == Some(Group(rows).value[p].key)
    ensures Observed(rows, Group(rows).value[p].key)
    ensures k != "Date" ==>
      Get(Averages(Group(rows).value).value[p], k) == MeanCell(Obs(rows, Group(rows).value[p].key, k))
  {
    TrendRowDate(rows, p);
    if k != "Date" { TrendRowCell(rows, p, k); }
  }

  /** The rows of `trend_data` are distinct: their dates are the distinct keys of the groups. */
  lemma TrendDistinct(rows: seq<TypedRow>)
    requires Group(rows).Ok? && Averages(Group(rows).value).Ok?
    ensures Distinct(Averages(Group(rows).value).value)
  {
    var g := Group(rows).value;
    var trend := Averages(g).value;
    forall p, q | 0 <= p < q < |trend| ensures trend[p] != trend[q] {
      TrendRow(rows, p, "Date");
      TrendRow(rows, q, "Date");
      assert g[p].key != g[q].key;
    }
  }

  /**
   * Every row `calculate_date_avg` returns is dated with a date that has an
   * observation; every other key holds the mean of that date's observations of
   * it, and a key without observations is absent.
   */
  lemma DateAverageRow(rows: seq<TypedRow>, i: nat, k: string)
    requires DateAverage(rows).Ok? && i < |DateAverage(rows).value|
    ensures Get(DateAverage(rows).value[i], "Date").Some?
    ensures Observed(rows, Get(DateAverage(rows).value[i], "Date").value)
    ensures k != "Date" ==>
      Get(DateAverage(rows).value[i], k) == MeanCell(Obs(rows, Get(DateAverage(rows).value[i], "Date").value, k))
  {
    var g := Group(rows).value;
    var trend := Averages(g).value;
    SortedMembers(trend, DateKey);
    var p :| 0 <= p < |trend| && DateAverage(rows).value[i] == trend[p];
    TrendRow(rows, p, k);
  }

  /** Every date with an observation gets a row. */
  lemma DateAverageCovers(rows: seq<TypedRow>, d: Value)
    requires DateAverage(rows).Ok? && Observed(rows, d)
    ensures exists i | 0 <= i < |DateAverage(rows).value| :: Get(DateAverage(rows).value[i], "Date") == Some(d)
  {
    var g := Group(rows).value;
    var trend := Averages(g).value;
    GroupSpec(rows, d, "Date");
    var p :| 0 <= p < |g| && Keys(g)[p] == d;
    TrendRow(rows, p, "Date");
    SortedMembers(trend, DateKey);
    var i :| 0 <= i < |trend| && DateAverage(rows).value[i] == trend[p];
  }

  lemma TrendDatesDistinct(rows: seq<TypedRow>, p: nat, q: nat)
    requires Group(rows).Ok? && Averages(Group(rows).value).Ok?
    requires p < q < |Group(rows).value|
    ensures Get(Averages(Group(rows).value).value[p], "Date") != Get(Averages(Group(rows).value).value[q], "Date")
  {
    var g := Group(rows).value;
    TrendRowDate(rows, p);
    TrendRowDate(rows, q);
    assert DistinctKeys(g);
    assert g[p].key != g[q].key;
  }

  /** No two rows carry the same `Date` cell. */
  predicate DistinctDates(rows: seq<TypedRow>) {
    forall p, q | 0 <= p < q < |rows| :: Get(rows[p], "Date") != Get(rows[q], "Date")
  }

  lemma DatesDiffer(rows: seq<TypedRow>, p: nat, q: nat)
    requires DistinctDates(rows) && p < |rows| && q < |rows| && p != q
    ensures Get(rows[p], "Date") != Get(rows[q], "Date")
  {
    if q < p {
      assert Get(rows[q], "Date") != Get(rows[p], "Date");
    }
  }

  lemma DistinctDatesDistinct(rows: seq<TypedRow>)
    requires DistinctDates(rows)
    ensures Distinct(rows)
  {
    forall p, q | 0 <= p < q < |rows| ensures rows[p] != rows[q] {
      DatesDiffer(rows, p, q);
    }
  }

  lemma SortedDatesDiffer(rows: seq<TypedRow>, i: nat, j: nat)
    requires SortByDate(rows).Ok? && DistinctDates(rows)
    requires i < j < |SortByDate(rows).value|
    ensures Get(SortByDate(rows).value[i], "Date") != Get(SortByDate(rows).value[j], "Date")
  {
    var out := SortByDate(rows).value;
    DistinctDatesDistinct(rows);
    SortedDistinct(rows, DateKey);
    SortedMembers(rows, DateKey);
    var p :| 0 <= p < |rows| && out[i] == rows[p];
    var q :| 0 <= q < |rows| && out[j] == rows[q];
    DatesDiffer(rows, p, q);
  }

  /** Sorting rows of pairwise different dates keeps the dates pairwise different. */
  lemma SortByDateDistinctDates(rows: seq<TypedRow>)
    requires SortByDate(rows).Ok? && DistinctDates(rows)
    ensures DistinctDates(SortByDate(rows).value)
  {
    forall i, j | 0 <= i < j < |SortByDate(rows).value|
      ensures Get(SortByDate(rows).value[i], "Date") != Get(SortByDate(rows).value[j], "Date")
    {
      SortedDatesDiffer(rows, i, j);
    }
  }

  /** No two rows share a date. */
  lemma DateAverageDistinctDates(rows: seq<TypedRow>)
    requires DateAverage(rows).Ok?
    ensures DistinctDates(DateAverage(rows).value)
  {
    var g := Group(rows).value;
    var trend := Averages(g).value;
    forall p, q | 0 <= p < q < |trend| ensures Get(trend[p], "Date") != Get(trend[q], "Date") {
      TrendDatesDistinct(rows, p, q);
    }
    SortByDateDistinctDates(trend);
  }

  /** The rows come in chronological order of their parsed dates. */
  lemma DateAverageChronological(rows: seq<TypedRow>, i: nat, j: nat)
    requires DateAverage(rows).Ok? && i < j < |DateAverage(rows).value|
    ensures DateKey(DateAverage(rows).value[i]).Ok? && DateKey(DateAverage(rows).value[j]).Ok?
    ensures var a := Get(DateAverage(rows).value[i], "Date").value;
            var b := Get(DateAverage(rows).value[j], "Date").value;
            a.Text? && b.Text? && ParseDate(a.s).Some? && ParseDate(b.s).Some? &&
            !Before(ParseDate(b.s).value, ParseDate(a.s).value)
  {
    var g := Group(rows).value;
    var trend := Averages(g).value;
    SortedOrdered(trend, DateKey);
    var a := Get(DateAverage(rows).value[i], "Date").value;
    var b := Get(DateAverage(rows).value[j], "Date").value;
    OrdinalOrder(ParseDate(a.s).value, ParseDate(b.s).value);
  }

  // ---------------------------------------------------------------------------
  // When calculate_date_avg fails
  // ---------------------------------------------------------------------------

  /** `row` holds a text observation of candidate `k`: `sum` raises on it. */
  predicate TextObsAt(row: TypedRow, k: string) {
    RowObs(row, k) != [] && RowObs(row, k)[0].Text?
  }

  /** Some cell outside the identity columns holds non-empty text. */
  predicate SomeTextObservation(rows: seq<TypedRow>) {
    exists i, t | 0 <= i < |rows| && 0 <= t < |rows[i]| :: IsObservation(rows[i][t]) && rows[i][t].value.Text?
  }

  /** Every row that holds an observation has a `Date` that parses as `%m/%d/%y`. */
  predicate ObservedDatesParse(rows: seq<TypedRow>) {
    forall i | 0 <= i < |rows| && HasObservation(rows[i]) :: DateKey(rows[i]).Ok?
  }

  lemma TotalConcat(a: seq<Value>, b: seq<Value>)
    ensures Total(a + b).None? <==> Total(a).None? || Total(b).None?
  {
    var ab := a + b;
    if Total(ab).None? {
      var t :| 0 <= t < |ab| && ab[t].Text?;
      if t < |a| { assert a[t].Text?; } else { assert b[t - |a|].Text?; }
    }
    if Total(a).None? {
      var t :| 0 <= t < |a| && a[t].Text?;
      assert ab[t].Text?;
    }
    if Total(b).None? {
      var t :| 0 <= t < |b| && b[t].Text?;
      assert ab[|a| + t].Text?;
    }
  }

  /** Row `i` is dated `d` and holds text under candidate `k`. */
  predicate TextRowAt(rows: seq<TypedRow>, d: Value, k: string, i: int) {
    0 <= i < |rows| && DatedText(rows[i], d, k)
  }

  predicate DatedText(row: TypedRow, d: Value, k: string) {
    Get(row, "Date") == Some(d) && TextObsAt(row, k)
  }

  predicate TextRowOf(rows: seq<TypedRow>, d: Value, k: string) {
    exists i | 0 <= i < |rows| :: TextRowAt(rows, d, k, i)
  }

  lemma TextRowAtPrefix(rows: seq<TypedRow>, d: Value, k: string, i: nat)
    requires i < |rows| - 1
    ensures TextRowAt(rows, d, k, i) <==> TextRowAt(rows[..|rows| - 1], d, k, i)
  {
    assert rows[..|rows| - 1][i] == rows[i];
  }

  lemma TextRowStep(rows: seq<TypedRow>, d: Value, k: string)
    requires rows != []
    ensures TextRowOf(rows, d, k) <==> TextRowOf(rows[..|rows| - 1], d, k) || TextRowAt(rows, d, k, |rows| - 1)
  {
    var n := |rows| - 1;
    if TextRowOf(rows, d, k) {
      var i :| 0 <= i < |rows| && TextRowAt(rows, d, k, i);
      if i < n {
        TextRowAtPrefix(rows, d, k, i);
        assert TextRowOf(rows[..n], d, k);
      }
    }
    if TextRowOf(rows[..n], d, k) {
      var i :| 0 <= i < n && TextRowAt(rows[..n], d, k, i);
      TextRowAtPrefix(rows, d, k, i);
      assert TextRowOf(rows, d, k);
    }
    if TextRowAt(rows, d, k, n) {
      assert TextRowOf(rows, d, k);
    }
  }

  lemma TailText(row: TypedRow, d: Value, k: string)
    ensures Total(if Get(row, "Date") == Some(d) then RowObs(row, k) else []).None? <==>
      DatedText(row, d, k)
  {
    var tail := RowObs(row, k);
    if tail != [] { assert tail == [tail[0]]; }
  }

  /** The observations of `k` on `d` hold text exactly when some row of that date has a text observation of `k`. */
  lemma {:induction false} ObsText(rows: seq<TypedRow>, d: Value, k: string)
    ensures Total(Obs(rows, d, k)).None? <==> TextRowOf(rows, d, k)
  {
    if rows != [] {
      var n := |rows| - 1;
      var prefix := rows[..n];
      ObsText(prefix, d, k);
      TextRowStep(rows, d, k);
      TailText(rows[n], d, k);
      TotalConcat(Obs(prefix, d, k), if Get(rows[n], "Date") == Some(d) then RowObs(rows[n], k) else []);
    }
  }

  /** Observations of one candidate on one date that hold text make the averaging loop raise. */
  lemma AveragesFailOnTextList(rows: seq<TypedRow>, d: Value, k: string)
    requires Group(rows).Ok? && Total(Obs(rows, d, k)).None?
    ensures Averages(Group(rows).value).Err?
  {
    var g := Group(rows).value;
    GroupSpec(rows, d, k);
    assert k in CandidatesOf(g, d);
    assert d in Keys(g);
    var p :| 0 <= p < |g| && Keys(g)[p] == d;
    GetAt(g, p);
    var c := g[p].value;
    var j :| 0 <= j < |c| && Keys(c)[j] == k;
    GetAt(c, j);
    assert NotAveragable(c[j]);
    AverageFieldsErr([Entry("Date", d)], c);
    AveragesErr(g);
  }

  /** A text observation anywhere makes the averaging loop raise. */
  lemma AveragesFailOnText(rows: seq<TypedRow>, i: nat, t: nat)
    requires Group(rows).Ok? && i < |rows| && t < |rows[i]|
    requires IsObservation(rows[i][t]) && rows[i][t].value.Text?
    ensures Averages(Group(rows).value).Err?
  {
    var k := rows[i][t].key;
    GetAt(rows[i], t);
    assert TextObsAt(rows[i], k);
    assert "Date" in Keys(rows[i]);
    var d := Get(rows[i], "Date").value;
    assert TextRowAt(rows, d, k, i);
    ObsText(rows, d, k);
    AveragesFailOnTextList(rows, d, k);
  }

  /** The averaging loop raises only on a text observation. */
  lemma AveragesFailOnlyOnText(rows: seq<TypedRow>)
    requires Group(rows).Ok? && Averages(Group(rows).value).Err?
    ensures SomeTextObservation(rows)
  {
    var g := Group(rows).value;
    AveragesErr(g);
    var p :| 0 <= p < |g| && AverageRow(g[p].key, g[p].value).Err?;
    var d, c := g[p].key, g[p].value;
    AverageFieldsErr([Entry("Date", d)], c);
    var j :| 0 <= j < |c| && NotAveragable(c[j]);
    var k := c[j].key;
    GetAt(c, j);
    GetAt(g, p);
    GroupSpec(rows, d, k);
    ObsText(rows, d, k);
    TextRowIsTextObservation(rows, d, k);
  }

  /** A row that holds text under a candidate holds a text observation. */
  lemma TextRowIsTextObservation(rows: seq<TypedRow>, d: Value, k: string)
    requires TextRowOf(rows, d, k)
    ensures SomeTextObservation(rows)
  {
    var i :| 0 <= i < |rows| && TextRowAt(rows, d, k, i);
    var v := Get(rows[i], k).value;
    assert Entry(k, v) in rows[i];
    var t :| 0 <= t < |rows[i]| && rows[i][t] == Entry(k, v);
    assert IsObservation(rows[i][t]) && rows[i][t].value.Text?;
  }

  /** A failing sort key belongs to a date that some observed row carries. */
  lemma SortFailsOnlyOnBadDate(rows: seq<TypedRow>)
    requires Group(rows).Ok? && Averages(Group(rows).value).Ok?
    requires KeyAll(Averages(Group(rows).value).value, DateKey).Err?
    ensures !ObservedDatesParse(rows)
    ensures KeyAll(Averages(Group(rows).value).value, DateKey).error.BadDate?
  {
    var g := Group(rows).value;
    var trend := Averages(g).value;
    var p :| 0 <= p < |trend| && DateKey(trend[p]) == Err(KeyAll(trend, DateKey).error);
    TrendRowDate(rows, p);
    DatedKeyErr(trend[p]);
    var i := ObservedWitness(rows, g[p].key);
    assert DateKey(rows[i]) == DateKey(trend[p]);
    assert HasObservation(rows[i]) && DateKey(rows[i]).Err?;
  }

  /** A row that carries a date fails the sort key only on a date that does not parse. */
  lemma DatedKeyErr(row: TypedRow)
    requires Get(row, "Date").Some? && DateKey(row).Err?
    ensures DateKey(row) == Err(BadDate(Get(row, "Date").value))
  {
  }

  /** A row that makes `d` observed. */
  lemma ObservedWitness(rows: seq<TypedRow>, d: Value) returns (i: nat)
    requires Observed(rows, d)
    ensures i < |rows| && ObservedAt(rows, d, i)
  {
    i :| 0 <= i < |rows| && ObservedAt(rows, d, i);
  }

  /** An observed row whose date does not parse makes the sort fail. */
  lemma SortFailsOnBadDate(rows: seq<TypedRow>, i: nat)
    requires Group(rows).Ok? && Averages(Group(rows).value).Ok?
    requires i < |rows| && HasObservation(rows[i]) && DateKey(rows[i]).Err?
    ensures KeyAll(Averages(Group(rows).value).value, DateKey).Err?
  {
    var g := Group(rows).value;
    var trend := Averages(g).value;
    assert "Date" in Keys(rows[i]);
    var d := ObservedDate(rows, i);
    var p := GroupIndexOf(rows, d);
    TrendRowDate(rows, p);
    assert DateKey(trend[p]).Err?;
  }

  /** The date of a row that holds an observation is observed. */
  lemma ObservedDate(rows: seq<TypedRow>, i: nat) returns (d: Value)
    requires i < |rows| && HasObservation(rows[i]) && "Date" in Keys(rows[i])
    ensures Get(rows[i], "Date") == Some(d) && ObservedAt(rows, d, i)
  {
    d := Get(rows[i], "Date").value;
  }

  /** An observed date is a key of the grouping. */
  lemma GroupIndexOf(rows: seq<TypedRow>, d: Value) returns (p: nat)
    requires Group(rows).Ok? && Observed(rows, d)
    ensures p < |Group(rows).value| && Group(rows).value[p].key == d
  {
    var g := Group(rows).value;
    GroupSpec(rows, d, "Date");
    p :| 0 <= p < |g| && Keys(g)[p] == d;
  }

  /** Sorting fails exactly when some row holding an observation has a date that does not parse. */
  lemma SortFails(rows: seq<TypedRow>)
    requires Group(rows).Ok? && Averages(Group(rows).value).Ok?
    ensures SortByDate(Averages(Group(rows).value).value).Err? <==> !ObservedDatesParse(rows)
    ensures SortByDate(Averages(Group(rows).value).value).Err? ==>
      SortByDate(Averages(Group(rows).value).value).error.BadDate?
  {
    var trend := Averages(Group(rows).value).value;
    if KeyAll(trend, DateKey).Err? {
      SortFailsOnlyOnBadDate(rows);
    }
    if !ObservedDatesParse(rows) {
      var i :| 0 <= i < |rows| && HasObservation(rows[i]) && DateKey(rows[i]).Err?;
      SortFailsOnBadDate(rows, i);
    }
  }

  /**
   * How `calculate_date_avg` ends: a row without `Date` raises KeyError; else
   * a text observation raises TypeError; else it returns exactly when every
   * row that holds an observation has a parsable date, and raises ValueError
   * (or TypeError) otherwise.
   */
  lemma DateAverageOutcome(rows: seq<TypedRow>)
    ensures !AllDated(rows) ==> DateAverage(rows) == Err(MissingKey("Date"))
    ensures AllDated(rows) && SomeTextObservation(rows) ==>
      DateAverage(rows).Err? && DateAverage(rows).error.NotNumeric?
    ensures AllDated(rows) && !SomeTextObservation(rows) ==>
      (DateAverage(rows).Ok? <==> ObservedDatesParse(rows))
    ensures AllDated(rows) && !SomeTextObservation(rows) && DateAverage(rows).Err? ==>
      DateAverage(rows).error.BadDate?
  {
    if AllDated(rows) {
      var g := Group(rows).value;
      if SomeTextObservation(rows) {
        var i, t :| 0 <= i < |rows| && 0 <= t < |rows[i]| && IsObservation(rows[i][t]) && rows[i][t].value.Text?;
        AveragesFailOnText(rows, i, t);
      } else {
        if Averages(g).Err? {
          AveragesFailOnlyOnText(rows);
        }
        SortFails(rows);
      }
    }
  }

  // ---------------------------------------------------------------------------
  // The loops of calculate_date_avg
  // ---------------------------------------------------------------------------

  lemma {:induction false} AverageFieldsErrorSticks(row: TypedRow, cands: seq<Entry<string, seq<Value>>>, n: nat)
    requires n <= |cands| && AverageFields(row, cands[..n]).Err?
    ensures AverageFields(row, cands) == AverageFields(row, cands[..n])
    decreases |cands| - n
  {
    if n < |cands| {
      assert cands[..n + 1][..n] == cands[..n];
      AverageFieldsErrorSticks(row, cands, n + 1);
    } else {
      assert cands[..n] == cands;
    }
  }

  lemma {:induction false} AveragesErrorSticks(g: seq<Entry<Value, Candidates>>, n: nat)
    requires n <= |g| && Averages(g[..n]).Err?
    ensures Averages(g) == Averages(g[..n])
    decreases |g| - n
  {
    if n < |g| {
      assert g[..n + 1][..n] == g[..n];
      AveragesErrorSticks(g, n + 1);
    } else {
      assert g[..n] == g;
    }
  }

  lemma AveragesErrStep(g: seq<Entry<Value, Candidates>>, p: nat, done: seq<TypedRow>, e: Error)
    requires p < |g| && Averages(g[..p]) == Ok(done)
    requires AverageRow(g[p].key, g[p].value) == Err(e)
    ensures Averages(g) == Err(e)
  {
    assert g[..p + 1][..p] == g[..p];
    AveragesErrorSticks(g, p + 1);
  }

  /** One pass of the inner grouping loop. */
  lemma GroupFieldsStep(g: Groups, d: Value, fields: seq<Entry<string, Value>>, j: nat)
    requires j < |fields|
    ensures GroupFields(g, d, fields[..j + 1]) ==
      if IsObservation(fields[j]) then Append(GroupFields(g, d, fields[..j]), d, fields[j].key, fields[j].value)
      else GroupFields(g, d, fields[..j])
  {
    assert fields[..j + 1][..j] == fields[..j];
  }

  /** One pass of the inner averaging loop, once the earlier candidates are averaged. */
  lemma AverageFieldsStep(row: TypedRow, cands: seq<Entry<string, seq<Value>>>, q: nat)
    requires q < |cands| && AverageFields(row, cands[..q]).Ok?
    ensures var done := AverageFields(row, cands[..q]).value;
      AverageFields(row, cands[..q + 1]) ==
        if CandidateAverage(cands[q]).Err? then Err(CandidateAverage(cands[q]).error)
        else Ok(Put(done, cands[q].key, CandidateAverage(cands[q]).value))
  {
    assert cands[..q + 1][..q] == cands[..q];
  }

  /** The inner grouping loop: every observation of `row` goes to `averages[date][key]`. */
  method AppendObservations(averages: Groups, date: Value, row: TypedRow) returns (g: Groups)
    ensures g == GroupFields(averages, date, row)
  {
    g := averages;
    var j := 0;
    while j < |row|
      invariant 0 <= j <= |row|
      invariant g == GroupFields(averages, date, row[..j])
    {
      GroupFieldsStep(averages, date, row, j);
      var key, value := row[j].key, row[j].value;
      if key !in Identity && value != Text("") {
        g := Append(g, date, key, value);
      }
      j := j + 1;
    }
    assert row[..j] == row;
  }

  /** The grouping loop over the rows; `row["Date"]` raises on a row without a date. */
  method GroupObservations(data: seq<TypedRow>) returns (r: Result<Groups, Error>)
    ensures r == Group(data)
  {
    var averages: Groups := [];
    var i := 0;
    while i < |data|
      invariant 0 <= i <= |data|
      invariant Group(data[..i]) == Ok(averages)
    {
      var row := data[i];
      var date := Get(row, "Date");
      if date.None? {
        assert !AllDated(data);
        return Err(MissingKey("Date"));
      }
      averages := AppendObservations(averages, date.value, row);
      assert data[..i + 1][..i] == data[..i];
      i := i + 1;
    }
    assert data[..i] == data;
    return Ok(averages);
  }

  /** The inner averaging loop: `avg_row` for one date. */
  method AverageDate(date: Value, candidates: Candidates) returns (r: Result<TypedRow, Error>)
    ensures r == AverageRow(date, candidates)
  {
    var avgRow: TypedRow := [Entry("Date", date)];
    var q := 0;
    while q < |candidates|
      invariant 0 <= q <= |candidates|
      invariant AverageFields([Entry("Date", date)], candidates[..q]) == Ok(avgRow)
    {
      AverageFieldsStep([Entry("Date", date)], candidates, q);
      var average := CandidateAverage(candidates[q]);
      if average.Err? {
        AverageFieldsErrorSticks([Entry("Date", date)], candidates, q + 1);
        return Err(average.error);
      }
      avgRow := Put(avgRow, candidates[q].key, average.value);
      q := q + 1;
    }
    assert candidates[..q] == candidates;
    return Ok(avgRow);
  }

  /** The averaging loop over `averages.items()`, building `trend_data`. */
  method AverageGroups(averages: Groups) returns (r: Result<seq<TypedRow>, Error>)
    ensures r == Averages(averages)
  {
    var trendData: seq<TypedRow> := [];
    var p := 0;
    while p < |averages|
      invariant 0 <= p <= |averages|
      invariant Averages(averages[..p]) == Ok(trendData)
    {
      var avgRow := AverageDate(averages[p].key, averages[p].value);
      if avgRow.Err? {
        AveragesErrStep(averages, p, trendData, avgRow.error);
        return Err(avgRow.error);
      }
      assert averages[..p + 1][..p] == averages[..p];
      trendData := trendData + [avgRow.value];
      p := p + 1;
    }
    assert averages[..p] == averages;
    return Ok(trendData);
  }

  /**
   * `calculate_date_avg`: the grouping loop appends every observation to
   * `averages[date][key]`; the second loop builds one `avg_row` per date with
   * each candidate's mean; the rows are then sorted by parsed date.
   */
  method CalculateDateAverage(data: seq<TypedRow>) returns (r: Result<seq<TypedRow>, Error>)
    ensures r == DateAverage(data)
  {
    var averages := GroupObservations(data);
    if averages.Err? {
      return Err(averages.error);
    }
    var trendData := AverageGroups(averages.value);
    if trendData.Err? {
      return Err(trendData.error);
    }
    r := SortByDate(trendData.value);
  }
}
