/**
 * The snapshot files the merger writes and reads back: the timestamped name
 * `generate_filename` builds, and the choice `check_and_merge` makes between
 * exporting afresh and merging with the most recent earlier snapshot. The
 * directory listing and the clock are parameters.
 */
module Snapshots {
  import opened Strings
  import opened Numbers
  import opened Dates

  /** The fields of `datetime.now()` that `%Y%m%d%H%M%S` prints. */
  datatype Clock = Clock(year: int, month: int, day: int, hour: int, minute: int, second: int)

  /** A clock reading whose year has four digits. */
  predicate ValidClock(t: Clock) {
    && 1000 <= t.year <= 9999
    && 1 <= t.month <= 12
    && 1 <= t.day <= DaysInMonth(t.year, t.month)
    && 0 <= t.hour < 24 && 0 <= t.minute < 60 && 0 <= t.second < 60
  }

  /** `n` in decimal, zero-padded to `width` digits. */
  function Digits(n: nat, width: nat): (s: string)
    requires n < Pow10(width)
    ensures |s| == width && AllDigits(s) && DigitsValue(s) == n
  {
    if width == 0 then []
    else
      var s := Digits(n / 10, width - 1) + [('0' as int + n % 10) as char];
      assert s[..|s| - 1] == Digits(n / 10, width - 1);
      s
  }

  /** `now.strftime("%Y%m%d%H%M%S")`. */
  function Timestamp(t: Clock): (s: string)
    requires ValidClock(t)
    ensures |s| == 14 && AllDigits(s)
  {
    Digits(t.year, 4) + Digits(t.month, 2) + Digits(t.day, 2)
      + Digits(t.hour, 2) + Digits(t.minute, 2) + Digits(t.second, 2)
  }

  /** Reads the six fields back out of a timestamp. */
  function ParseTimestamp(s: string): Clock
    requires |s| == 14 && AllDigits(s)
  {
    Clock(DigitsValue(s[..4]), DigitsValue(s[4..6]), DigitsValue(s[6..8]),
          DigitsValue(s[8..10]), DigitsValue(s[10..12]), DigitsValue(s[12..]))
  }

  /** The timestamp holds the whole clock reading: parsing it back gives the reading. */
  lemma TimestampRoundTrip(t: Clock)
    requires ValidClock(t)
    ensures ParseTimestamp(Timestamp(t)) == t
  {
    var y, mo, d := Digits(t.year, 4), Digits(t.month, 2), Digits(t.day, 2);
    var h, mi, s := Digits(t.hour, 2), Digits(t.minute, 2), Digits(t.second, 2);
    var ts := Timestamp(t);
    assert ts == y + mo + d + h + mi + s;
    assert ts[..4] == y && ts[4..6] == mo && ts[6..8] == d;
    assert ts[8..10] == h && ts[10..12] == mi && ts[12..] == s;
  }

  /** Distinct clock readings give distinct timestamps. */
  lemma TimestampInjective(a: Clock, b: Clock)
    requires ValidClock(a) && ValidClock(b)
    ensures Timestamp(a) == Timestamp(b) ==> a == b
  {
    TimestampRoundTrip(a);
    TimestampRoundTrip(b);
  }

  /** The selection test of `check_and_merge`: the base name occurs in the file name, which ends in `.csv`. */
  predicate IsCandidate(name: string, base: string) {
    Contains(name, base) && EndsWith(name, ".csv")
  }

  /** `generate_filename`: the base name, `_`, the timestamp, `.csv`. */
  function GenerateFilename(base: string, now: Clock): (name: string)
    requires ValidClock(now)
    ensures IsCandidate(name, base)
    ensures |name| == |base| + 19 && name[..|base|] == base
    ensures name[|base|] == '_' && name[|base| + 1..|base| + 15] == Timestamp(now)
  {
    var name := base + "_" + Timestamp(now) + ".csv";
    assert OccursAt(name, base, 0);
    assert name[|name| - 4..] == ".csv";
    name
  }

  /** Two snapshots of the same base name written at distinct clock readings have distinct names. */
  lemma GenerateFilenameInjective(base: string, a: Clock, b: Clock)
    requires ValidClock(a) && ValidClock(b)
    ensures GenerateFilename(base, a) == GenerateFilename(base, b) ==> a == b
  {
    if GenerateFilename(base, a) == GenerateFilename(base, b) {
      TimestampInjective(a, b);
    }
  }

  /** A regular file of the working directory with its creation time. */
  datatype FileInfo = FileInfo(name: string, ctime: int)

  /** `existing_csvs`: the listed files that pass the selection test, in listing order. */
  function Candidates(files: seq<FileInfo>, base: string): (r: seq<FileInfo>)
    ensures |r| <= |files|
    ensures forall f :: f in r <==> f in files && IsCandidate(f.name, base)
  {
    if files == [] then []
    else
      var last := files[|files| - 1];
      var prefix := Candidates(files[..|files| - 1], base);
      assert files == files[..|files| - 1] + [last];
      if IsCandidate(last.name, base) then prefix + [last] else prefix
  }

  /**
   * `max(existing_csvs, key=os.path.getctime)`: Python's `max` replaces
   * its running choice only on a strictly greater key, so the result is
   * the first file of greatest creation time.
   */
  function MostRecent(files: seq<FileInfo>): (m: FileInfo)
    requires files != []
    ensures m in files
    ensures forall f | f in files :: f.ctime <= m.ctime
    ensures exists i | 0 <= i < |files| :: files[i] == m && forall j | 0 <= j < i :: files[j].ctime < m.ctime
  {
    if |files| == 1 then files[0]
    else
      var prefix := files[..|files| - 1];
      var m := MostRecent(prefix);
      var last := files[|files| - 1];
      assert files == prefix + [last];
      if last.ctime > m.ctime then
        assert forall j | 0 <= j < |files| - 1 :: files[j] in prefix;
        last
      else
        var i :| 0 <= i < |prefix| && prefix[i] == m && forall j | 0 <= j < i :: prefix[j].ctime < m.ctime;
        assert files[i] == m && forall j | 0 <= j < i :: files[j].ctime < m.ctime;
        m
  }

  /** What `check_and_merge` does: export the new rows, or merge them with a previous snapshot. */
  datatype Plan = ExportNew(output: string) | MergeWith(previous: string, output: string)

  /** `check_and_merge`, with `os.listdir` filtered by `isfile` given as `files` and `datetime.now()` as `now`. */
  function CheckAndMerge(files: seq<FileInfo>, base: string, now: Clock): (p: Plan)
    requires ValidClock(now)
    ensures p.output == GenerateFilename(base, now)
    ensures p.ExportNew? <==> forall f | f in files :: !IsCandidate(f.name, base)
    ensures p.MergeWith? ==> exists f | f in files ::
      && f.name == p.previous && IsCandidate(f.name, base)
      && forall g | g in files && IsCandidate(g.name, base) :: g.ctime <= f.ctime
  {
    var existing := Candidates(files, base);
    if existing != [] then MergeWith(MostRecent(existing).name, GenerateFilename(base, now))
    else
      assert forall f | f in files :: !IsCandidate(f.name, base) by {
        forall f | f in files ensures !IsCandidate(f.name, base) {
          assert f !in existing;
        }
      }
      ExportNew(GenerateFilename(base, now))
  }

  /** Once a snapshot has been written, the next run for the same base name merges instead of exporting. */
  lemma SnapshotIsFoundAgain(files: seq<FileInfo>, base: string, now: Clock, ctime: int, later: Clock)
    requires ValidClock(now) && ValidClock(later)
    ensures CheckAndMerge(files + [FileInfo(CheckAndMerge(files, base, now).output, ctime)], base, later).MergeWith?
  {
    var f := FileInfo(CheckAndMerge(files, base, now).output, ctime);
    assert f in files + [f];
  }
}
