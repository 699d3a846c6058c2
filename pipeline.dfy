/**
 * `polls_trends`: clean the scraped table, average it per date, save the
 * polls snapshot, then save the trends snapshot, smoothed over seven rows
 * when the average type is exactly `Rolling`. The scraped table, the
 * directory listing, the stored snapshots and the clock readings are
 * parameters.
 */
module Pipeline {
  import opened Wrappers
  import opened Dicts
  import opened Strings
  import opened Numbers
  import opened Cells
  import opened Frames
  import opened SnapshotMerger
  import Normalizer
  import TrendAggregator
  import TrendSmoothing
  import Snapshots

  /** A snapshot file `check_and_merge` writes: its name and its contents. */
  datatype Written = Written(name: string, csv: Csv)

  /** Every snapshot `check_and_merge` may pick for `base` is stored, as `pd.read_csv` reads it. */
  predicate Readable(files: seq<Snapshots.FileInfo>, stored: map<string, Frame>, base: string) {
    forall f | f in files && Snapshots.IsCandidate(f.name, base) :: f.name in stored && Rectangular(stored[f.name])
  }

  /** `check_and_merge(data, base, join_on=on)`: export afresh, or merge with the most recent snapshot. */
  function SaveSnapshot(files: seq<Snapshots.FileInfo>, stored: map<string, Frame>, base: string,
                        now: Snapshots.Clock, data: seq<Record>, on: string): (r: Result<Written, Error>)
    requires Snapshots.ValidClock(now) && Readable(files, stored, base)
    ensures r.Ok? ==> r.value.name == Snapshots.GenerateFilename(base, now)
  {
    match Snapshots.CheckAndMerge(files, base, now)
    case ExportNew(output) => Ok(Written(output, Export(data)))
    case MergeWith(previous, output) =>
      match MergeSnapshot(stored[previous], data, on)
      case Err(e) => Err(e)
      case Ok(csv) => Ok(Written(output, csv))
  }

  /** With no earlier snapshot the rows are exported as they are, under a header of all their keys. */
  lemma FirstSnapshotExports(files: seq<Snapshots.FileInfo>, stored: map<string, Frame>, base: string,
                             now: Snapshots.Clock, data: seq<Record>, on: string)
    requires Snapshots.ValidClock(now) && Readable(files, stored, base)
    requires forall f | f in files :: !Snapshots.IsCandidate(f.name, base)
    ensures SaveSnapshot(files, stored, base, now, data, on) == Ok(Written(Snapshots.GenerateFilename(base, now), Export(data)))
  {
  }

  /**
   * With an earlier snapshot the rows are merged into the most recent one,
   * and a batch without the key column fails even when it is empty.
   */
  lemma LaterSnapshotMerges(files: seq<Snapshots.FileInfo>, stored: map<string, Frame>, base: string,
                            now: Snapshots.Clock, data: seq<Record>, on: string)
    requires Snapshots.ValidClock(now) && Readable(files, stored, base)
    requires exists f | f in files :: Snapshots.IsCandidate(f.name, base)
    ensures Snapshots.CheckAndMerge(files, base, now).MergeWith?
    ensures var previous := Snapshots.CheckAndMerge(files, base, now).previous;
      && previous in stored && Rectangular(stored[previous])
      && (forall f | f in files && Snapshots.IsCandidate(f.name, base) :: f.ctime <= Snapshots.MostRecent(Snapshots.Candidates(files, base)).ctime)
      && SaveSnapshot(files, stored, base, now, data, on).Err? == MergeSnapshot(stored[previous], data, on).Err?
    ensures (forall i | 0 <= i < |data| :: on !in Keys(data[i])) ==>
      SaveSnapshot(files, stored, base, now, data, on) == Err(MissingKey(on))
  {
    var previous := Snapshots.CheckAndMerge(files, base, now).previous;
    var f :| f in files && f.name == previous && Snapshots.IsCandidate(f.name, base);
    if forall i | 0 <= i < |data| :: on !in Keys(data[i]) {
      MergeSnapshotMissingKey(stored[previous], data, on);
    }
  }

  /**
   * The dispatch on `average_type`: the records of the seven-row rolling
   * averages for exactly `Rolling`, the simple per-date averages for any
   * other value.
   */
  function TrendRecords(simple: seq<TypedRow>, averageType: string): Result<seq<Record>, Error> {
    if averageType == "Rolling" then
      match TrendSmoothing.RollingAverage(simple)
      case Err(e) => Err(e)
      case Ok(rolled) =>
        TrendSmoothing.RollingAverageShape(simple);
        Ok(Records(rolled))
    else Ok(LiftAll(simple))
  }

  /**
   * Only the exact string `Rolling` selects the rolling averages: every
   * other value, `Simple` or not, writes the simple averages unchanged.
   */
  lemma TrendRecordsSimple(simple: seq<TypedRow>, averageType: string)
    requires averageType != "Rolling"
    ensures TrendRecords(simple, averageType) == Ok(LiftAll(simple))
  {
  }

  /**
   * Smoothing keeps one record per simple average and fails only when
   * there are no averages at all; each record carries every column of the
   * averages.
   */
  lemma TrendRecordsRolling(rows: seq<TypedRow>)
    requires TrendAggregator.DateAverage(rows).Ok?
    ensures var simple := TrendAggregator.DateAverage(rows).value;
      && (TrendRecords(simple, "Rolling").Err? <==> simple == [])
      && (simple == [] ==> TrendRecords(simple, "Rolling") == Err(MissingKey("Date")))
      && (TrendRecords(simple, "Rolling").Ok? ==>
            |TrendRecords(simple, "Rolling").value| == |simple|
            && forall i | 0 <= i < |simple| :: Keys(TrendRecords(simple, "Rolling").value[i]) == KeyUnion(simple))
  {
    var simple := TrendAggregator.DateAverage(rows).value;
    TrendSmoothing.DateAverageThenRolling(rows);
    if simple != [] {
      TrendSmoothing.RollingAverageShape(simple);
    }
  }

  /** No character of the name is a `t`, so the polls snapshot is never a trends candidate. */
  lemma PollsSnapshotIsNoTrendsCandidate(now: Snapshots.Clock)
    requires Snapshots.ValidClock(now)
    ensures !Snapshots.IsCandidate(Snapshots.GenerateFilename("polls", now), "trends")
  {
    var name := Snapshots.GenerateFilename("polls", now);
    var ts := name[6..20];
    assert AllDigits(ts);
    assert name[20..] == ".csv" by {
      assert EndsWith(name, ".csv");
    }
    forall j | 0 <= j < |name| ensures name[j] != 't' {
      if j < 5 {
        assert name[..5][j] == "polls"[j];
      } else if 6 <= j < 20 {
        assert name[j] == ts[j - 6];
      } else if 20 <= j {
        assert name[j] == name[20..][j - 20];
      }
    }
    forall i | 0 <= i <= |name| - 6 ensures !OccursAt(name, "trends", i) {
      assert name[i..i + 6][0] == name[i];
    }
  }

  /**
   * What one run of `polls_trends` leaves behind once the polls snapshot is
   * written: that snapshot, and the trends snapshot or the error that
   * stopped the run before it was written.
   */
  datatype Run = Run(polls: Written, trends: Result<Written, Error>)

  /**
   * `polls_trends(url, average_type)` with the scraped table `raw`. An `Err`
   * is a run that stopped before any file was written: cleaning, averaging
   * or the polls merge failed. Once the polls snapshot is written the run is
   * `Ok`, and a failure of the trends step is recorded in its `trends`
   * field. The trends call sees the listing with the polls snapshot
   * (created at `pollsCreated`) added.
   */
  function PollsTrends(raw: seq<RawRow>, averageType: string, files: seq<Snapshots.FileInfo>,
                       stored: map<string, Frame>, pollsAt: Snapshots.Clock, pollsCreated: int,
                       trendsAt: Snapshots.Clock): (r: Result<Run, Error>)
    requires Snapshots.ValidClock(pollsAt) && Snapshots.ValidClock(trendsAt)
    requires Readable(files, stored, "polls") && Readable(files, stored, "trends")
    ensures Normalizer.CleanBatch(raw).Err? ==> r == Err(Normalizer.CleanBatch(raw).error)
    ensures Normalizer.CleanBatch(raw).Ok? && TrendAggregator.DateAverage(Normalizer.CleanBatch(raw).value).Err? ==>
      r == Err(TrendAggregator.DateAverage(Normalizer.CleanBatch(raw).value).error)
    ensures r.Ok? <==>
      && Normalizer.CleanBatch(raw).Ok?
      && TrendAggregator.DateAverage(Normalizer.CleanBatch(raw).value).Ok?
      && SaveSnapshot(files, stored, "polls", pollsAt, LiftAll(Normalizer.CleanBatch(raw).value), "Date").Ok?
    ensures r.Ok? ==>
      && r.value.polls == SaveSnapshot(files, stored, "polls", pollsAt, LiftAll(Normalizer.CleanBatch(raw).value), "Date").value
      && r.value.polls.name == Snapshots.GenerateFilename("polls", pollsAt)
      && (r.value.trends.Ok? ==> r.value.trends.value.name == Snapshots.GenerateFilename("trends", trendsAt))
  {
    match Normalizer.CleanBatch(raw)
    case Err(e) => Err(e)
    case Ok(polls) =>
      match TrendAggregator.DateAverage(polls)
      case Err(e) => Err(e)
      case Ok(simple) =>
        match SaveSnapshot(files, stored, "polls", pollsAt, LiftAll(polls), "Date")
        case Err(e) => Err(e)
        case Ok(pollsFile) =>
          Ok(SaveTrends(pollsFile, TrendRecords(simple, averageType), files, stored, pollsAt, pollsCreated, trendsAt))
  }

  /** The rest of `polls_trends` once the polls snapshot `pollsFile` is written. */
  function SaveTrends(pollsFile: Written, trends: Result<seq<Record>, Error>, files: seq<Snapshots.FileInfo>,
                      stored: map<string, Frame>, pollsAt: Snapshots.Clock, pollsCreated: int,
                      trendsAt: Snapshots.Clock): (r: Run)
    requires Snapshots.ValidClock(pollsAt) && Snapshots.ValidClock(trendsAt)
    requires Readable(files, stored, "trends") && pollsFile.name == Snapshots.GenerateFilename("polls", pollsAt)
    ensures r.polls == pollsFile
    ensures r.trends.Ok? ==> r.trends.value.name == Snapshots.GenerateFilename("trends", trendsAt)
    ensures trends.Err? ==> r.trends == Err(trends.error)
  {
    match trends
    case Err(e) => Run(pollsFile, Err(e))
    case Ok(records) =>
      var listing := files + [Snapshots.FileInfo(pollsFile.name, pollsCreated)];
      PollsSnapshotIsNoTrendsCandidate(pollsAt);
      Run(pollsFile, SaveSnapshot(listing, stored, "trends", trendsAt, records, "Date"))
  }

  /**
   * With no trends snapshot in the listing, the trends records are exported
   * as they are: the polls snapshot just written is no trends candidate.
   */
  lemma SaveTrendsExports(pollsFile: Written, records: seq<Record>, files: seq<Snapshots.FileInfo>,
                          stored: map<string, Frame>, pollsAt: Snapshots.Clock, pollsCreated: int,
                          trendsAt: Snapshots.Clock)
    requires Snapshots.ValidClock(pollsAt) && Snapshots.ValidClock(trendsAt)
    requires Readable(files, stored, "trends") && pollsFile.name == Snapshots.GenerateFilename("polls", pollsAt)
    requires forall f | f in files :: !Snapshots.IsCandidate(f.name, "trends")
    ensures SaveTrends(pollsFile, Ok(records), files, stored, pollsAt, pollsCreated, trendsAt).trends
      == Ok(Written(Snapshots.GenerateFilename("trends", trendsAt), Export(records)))
  {
    PollsSnapshotIsNoTrendsCandidate(pollsAt);
    FirstSnapshotExports(files + [Snapshots.FileInfo(pollsFile.name, pollsCreated)], stored, "trends", trendsAt, records, "Date");
  }

  /**
   * With a trends snapshot in the listing, the trends records are merged on
   * `Date` into the most recent one, which is an earlier trends file and
   * never the polls snapshot just written.
   */
  lemma SaveTrendsMerges(pollsFile: Written, records: seq<Record>, files: seq<Snapshots.FileInfo>,
                         stored: map<string, Frame>, pollsAt: Snapshots.Clock, pollsCreated: int,
                         trendsAt: Snapshots.Clock)
    requires Snapshots.ValidClock(pollsAt) && Snapshots.ValidClock(trendsAt)
    requires Readable(files, stored, "trends") && pollsFile.name == Snapshots.GenerateFilename("polls", pollsAt)
    requires exists f | f in files :: Snapshots.IsCandidate(f.name, "trends")
    ensures var listing := files + [Snapshots.FileInfo(pollsFile.name, pollsCreated)];
      var plan := Snapshots.CheckAndMerge(listing, "trends", trendsAt);
      && plan.MergeWith?
      && plan.previous in stored && Rectangular(stored[plan.previous])
      && (exists f | f in files :: f.name == plan.previous && Snapshots.IsCandidate(f.name, "trends")
            && forall g | g in files && Snapshots.IsCandidate(g.name, "trends") :: g.ctime <= f.ctime)
      && SaveTrends(pollsFile, Ok(records), files, stored, pollsAt, pollsCreated, trendsAt).trends
           == (match MergeSnapshot(stored[plan.previous], records, "Date")
               case Err(e) => Err(e)
               case Ok(csv) => Ok(Written(Snapshots.GenerateFilename("trends", trendsAt), csv)))
  {
    var polls := Snapshots.FileInfo(pollsFile.name, pollsCreated);
    var listing := files + [polls];
    PollsSnapshotIsNoTrendsCandidate(pollsAt);
    var g :| g in files && Snapshots.IsCandidate(g.name, "trends");
    assert g in listing;
    LaterSnapshotMerges(listing, stored, "trends", trendsAt, records, "Date");
    var plan := Snapshots.CheckAndMerge(listing, "trends", trendsAt);
    var f :| f in listing && f.name == plan.previous && Snapshots.IsCandidate(f.name, "trends")
      && forall h | h in listing && Snapshots.IsCandidate(h.name, "trends") :: h.ctime <= f.ctime;
    assert f != polls;
    assert f in files;
  }

  /**
   * A run that gets past the polls snapshot has written it under its
   * generated name; a trends snapshot it writes carries its own generated
   * name. Each passes its own selection test, and the polls snapshot never
   * counts as trends.
   */
  lemma PollsTrendsWrites(raw: seq<RawRow>, averageType: string, files: seq<Snapshots.FileInfo>,
                          stored: map<string, Frame>, pollsAt: Snapshots.Clock, pollsCreated: int,
                          trendsAt: Snapshots.Clock)
    requires Snapshots.ValidClock(pollsAt) && Snapshots.ValidClock(trendsAt)
    requires Readable(files, stored, "polls") && Readable(files, stored, "trends")
    requires PollsTrends(raw, averageType, files, stored, pollsAt, pollsCreated, trendsAt).Ok?
    ensures var run := PollsTrends(raw, averageType, files, stored, pollsAt, pollsCreated, trendsAt).value;
      && run.polls.name == Snapshots.GenerateFilename("polls", pollsAt)
      && Snapshots.IsCandidate(run.polls.name, "polls")
      && !Snapshots.IsCandidate(run.polls.name, "trends")
      && (run.trends.Ok? ==>
            run.trends.value.name == Snapshots.GenerateFilename("trends", trendsAt)
            && Snapshots.IsCandidate(run.trends.value.name, "trends"))
  {
    PollsSnapshotIsNoTrendsCandidate(pollsAt);
  }

  /**
   * A first run with an average type other than `Rolling` writes the simple
   * per-date averages of the cleaned polls as its trends snapshot.
   */
  lemma PollsTrendsWritesAverages(raw: seq<RawRow>, averageType: string, files: seq<Snapshots.FileInfo>,
                                  stored: map<string, Frame>, pollsAt: Snapshots.Clock, pollsCreated: int,
                                  trendsAt: Snapshots.Clock)
    requires Snapshots.ValidClock(pollsAt) && Snapshots.ValidClock(trendsAt)
    requires Readable(files, stored, "polls") && Readable(files, stored, "trends")
    requires averageType != "Rolling"
    requires forall f | f in files :: !Snapshots.IsCandidate(f.name, "trends")
    requires PollsTrends(raw, averageType, files, stored, pollsAt, pollsCreated, trendsAt).Ok?
    ensures Normalizer.CleanBatch(raw).Ok? && TrendAggregator.DateAverage(Normalizer.CleanBatch(raw).value).Ok?
    ensures PollsTrends(raw, averageType, files, stored, pollsAt, pollsCreated, trendsAt).value.trends
      == Ok(Written(Snapshots.GenerateFilename("trends", trendsAt),
                    Export(LiftAll(TrendAggregator.DateAverage(Normalizer.CleanBatch(raw).value).value))))
  {
    var simple := TrendAggregator.DateAverage(Normalizer.CleanBatch(raw).value).value;
    var pollsFile := SaveSnapshot(files, stored, "polls", pollsAt, LiftAll(Normalizer.CleanBatch(raw).value), "Date").value;
    TrendRecordsSimple(simple, averageType);
    SaveTrendsExports(pollsFile, LiftAll(simple), files, stored, pollsAt, pollsCreated, trendsAt);
  }

  /**
   * When no candidate cell holds a figure the simple averages are empty and
   * `Rolling` smoothing fails on the missing `Date` column; the polls
   * snapshot has been written by then and stays written.
   */
  lemma RollingWithoutAveragesKeepsPolls(raw: seq<RawRow>, files: seq<Snapshots.FileInfo>,
                                         stored: map<string, Frame>, pollsAt: Snapshots.Clock, pollsCreated: int,
                                         trendsAt: Snapshots.Clock)
    requires Snapshots.ValidClock(pollsAt) && Snapshots.ValidClock(trendsAt)
    requires Readable(files, stored, "polls") && Readable(files, stored, "trends")
    requires Normalizer.CleanBatch(raw).Ok? && TrendAggregator.DateAverage(Normalizer.CleanBatch(raw).value) == Ok([])
    requires SaveSnapshot(files, stored, "polls", pollsAt, LiftAll(Normalizer.CleanBatch(raw).value), "Date").Ok?
    ensures PollsTrends(raw, "Rolling", files, stored, pollsAt, pollsCreated, trendsAt) ==
      Ok(Run(SaveSnapshot(files, stored, "polls", pollsAt, LiftAll(Normalizer.CleanBatch(raw).value), "Date").value,
             Err(MissingKey("Date"))))
  {
    TrendRecordsRolling(Normalizer.CleanBatch(raw).value);
  }

  /** An empty scrape stops the run at the first row lookup, before any file is written. */
  lemma PollsTrendsOfNothing(averageType: string, files: seq<Snapshots.FileInfo>, stored: map<string, Frame>,
                             pollsAt: Snapshots.Clock, pollsCreated: int, trendsAt: Snapshots.Clock)
    requires Snapshots.ValidClock(pollsAt) && Snapshots.ValidClock(trendsAt)
    requires Readable(files, stored, "polls") && Readable(files, stored, "trends")
    ensures PollsTrends([], averageType, files, stored, pollsAt, pollsCreated, trendsAt) == Err(EmptyBatch)
  {
    Normalizer.PercentageColumnsSpec([]);
  }

  /** Any average type other than `Rolling` runs exactly as `Simple` does. */
  lemma PollsTrendsDefaultsToSimple(raw: seq<RawRow>, averageType: string, files: seq<Snapshots.FileInfo>,
                                    stored: map<string, Frame>, pollsAt: Snapshots.Clock, pollsCreated: int,
                                    trendsAt: Snapshots.Clock)
    requires Snapshots.ValidClock(pollsAt) && Snapshots.ValidClock(trendsAt)
    requires Readable(files, stored, "polls") && Readable(files, stored, "trends")
    requires averageType != "Rolling"
    ensures PollsTrends(raw, averageType, files, stored, pollsAt, pollsCreated, trendsAt)
      == PollsTrends(raw, "Simple", files, stored, pollsAt, pollsCreated, trendsAt)
  {
    if Normalizer.CleanBatch(raw).Ok? && TrendAggregator.DateAverage(Normalizer.CleanBatch(raw).value).Ok? {
      var simple := TrendAggregator.DateAverage(Normalizer.CleanBatch(raw).value).value;
      TrendRecordsSimple(simple, averageType);
      TrendRecordsSimple(simple, "Simple");
    }
  }

  /**
   * The average type changes only the trends step: runs with two average
   * types fail alike before the polls snapshot and, when they get past it,
   * write the same polls snapshot.
   */
  lemma AverageTypeOnlyAffectsTrends(raw: seq<RawRow>, t: string, u: string, files: seq<Snapshots.FileInfo>,
                                     stored: map<string, Frame>, pollsAt: Snapshots.Clock, pollsCreated: int,
                                     trendsAt: Snapshots.Clock)
    requires Snapshots.ValidClock(pollsAt) && Snapshots.ValidClock(trendsAt)
    requires Readable(files, stored, "polls") && Readable(files, stored, "trends")
    ensures PollsTrends(raw, t, files, stored, pollsAt, pollsCreated, trendsAt).Ok?
      <==> PollsTrends(raw, u, files, stored, pollsAt, pollsCreated, trendsAt).Ok?
    ensures PollsTrends(raw, t, files, stored, pollsAt, pollsCreated, trendsAt).Err? ==>
      PollsTrends(raw, t, files, stored, pollsAt, pollsCreated, trendsAt) == PollsTrends(raw, u, files, stored, pollsAt, pollsCreated, trendsAt)
    ensures PollsTrends(raw, t, files, stored, pollsAt, pollsCreated, trendsAt).Ok? ==>
      PollsTrends(raw, t, files, stored, pollsAt, pollsCreated, trendsAt).value.polls
        == PollsTrends(raw, u, files, stored, pollsAt, pollsCreated, trendsAt).value.polls
  {
  }
}
