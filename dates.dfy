/**
 * The `%m/%d/%y` date format the poll table uses, as `datetime.strptime`
 * reads it and `strftime` writes it.
 */
module Dates {
  import opened Wrappers
  import opened Numbers

  datatype Date = Date(year: int, month: int, day: int)

  /** Python's `s.split(sep)`. */
  function Split(s: string, sep: char): (parts: seq<string>)
    ensures |parts| >= 1
    decreases |s|
  {
    if sep !in s then [s]
    else
      var i := IndexOf(s, sep);
      [s[..i]] + Split(s[i + 1..], sep)
  }

  predicate IsLeap(year: int) {
    year % 4 == 0 && (year % 100 != 0 || year % 400 == 0)
  }

  function DaysInMonth(year: int, month: int): int {
    if month == 2 then (if IsLeap(year) then 29 else 28)
    else if month in {4, 6, 9, 11} then 30
    else 31
  }

  predicate Valid(d: Date) {
    1969 <= d.year <= 2068 && 1 <= d.month <= 12 && 1 <= d.day <= DaysInMonth(d.year, d.month)
  }

  function DigitValue(c: char): int {
    c as int - '0' as int
  }

  /** What `%m` matches: `1[0-2]|0[1-9]|[1-9]`. */
  predicate MonthText(m: string) {
    (|m| == 1 && '1' <= m[0] <= '9') || (|m| == 2 && AllDigits(m) && 1 <= DigitsValue(m) <= 12)
  }

  /** What `%d` matches: `3[01]|[12]\d|0[1-9]|[1-9]| [1-9]`. */
  predicate DayText(d: string) {
    || (|d| == 1 && '1' <= d[0] <= '9')
    || (|d| == 2 && AllDigits(d) && 1 <= DigitsValue(d) <= 31)
    || (|d| == 2 && d[0] == ' ' && '1' <= d[1] <= '9')
  }

  function DayValue(d: string): int
    requires DayText(d)
  {
    if d[0] == ' ' then DigitValue(d[1]) else DigitsValue(d)
  }

  /** `%y`: two digits; 69-99 are 1969-1999 and 00-68 are 2000-2068. */
  function CenturyYear(yy: int): int {
    if yy < 69 then 2000 + yy else 1900 + yy
  }

  /** `datetime.strptime(s, '%m/%d/%y')`; None stands for the ValueError. */
  function ParseDate(s: string): (r: Option<Date>)
    ensures r.Some? ==> Valid(r.value)
  {
    var parts := Split(s, '/');
    if |parts| == 3 && MonthText(parts[0]) && DayText(parts[1])
       && |parts[2]| == 2 && AllDigits(parts[2])
    then
      FieldRanges(parts[0], parts[1], parts[2]);
      var date := Date(CenturyYear(DigitsValue(parts[2])), DigitsValue(parts[0]), DayValue(parts[1]));
      if date.day <= DaysInMonth(date.year, date.month) then Some(date) else None
    else None
  }

  lemma FieldRanges(m: string, d: string, y: string)
    requires MonthText(m) && DayText(d) && |y| == 2 && AllDigits(y)
    ensures 1 <= DigitsValue(m) <= 12 && 1 <= DayValue(d) <= 31 && DigitsValue(y) < 100
  {
    if |m| == 1 { assert m[..0] == []; }
    if |d| == 1 { assert d[..0] == []; }
    DigitsValueBound(y);
  }

  /** Chronological order. */
  predicate Before(a: Date, b: Date) {
    a.year < b.year || (a.year == b.year && (a.month < b.month || (a.month == b.month && a.day < b.day)))
  }

  /** The integer the aggregator sorts by. */
  function Ordinal(d: Date): int {
    (d.year * 13 + d.month) * 32 + d.day
  }

  /** The ordinal of a valid date orders dates chronologically and tells them apart. */
  lemma OrdinalOrder(a: Date, b: Date)
    requires Valid(a) && Valid(b)
    ensures Before(a, b) <==> Ordinal(a) < Ordinal(b)
    ensures a == b <==> Ordinal(a) == Ordinal(b)
  {
  }

  function Pad2(n: int): string
    requires 0 <= n < 100
  {
    [('0' as int + n / 10) as char, ('0' as int + n % 10) as char]
  }

  /** `d.strftime('%m/%d/%y')`. */
  function Render(d: Date): string
    requires Valid(d)
  {
    Pad2(d.month) + "/" + Pad2(d.day) + "/" + Pad2(d.year % 100)
  }

  lemma {:induction false} IndexOfAt(s: string, c: char, i: nat)
    requires i < |s| && s[i] == c && c !in s[..i]
    ensures IndexOf(s, c) == i
  {
    if i > 0 {
      assert s[0] in s[..i];
      assert s[1..][..i - 1] == s[1..i];
      IndexOfAt(s[1..], c, i - 1);
    }
  }

  lemma Pad2Value(n: int)
    requires 0 <= n < 100
    ensures AllDigits(Pad2(n)) && DigitsValue(Pad2(n)) == n
  {
    var p := Pad2(n);
    assert p[..1] == [p[0]] && p[..1][..0] == [];
    assert DigitsValue(p[..1]) == n / 10;
  }

  lemma {:induction false} SplitThree(a: string, b: string, c: string, sep: char)
    requires |a| == 2 && |b| == 2 && |c| == 2
    requires sep !in a && sep !in b && sep !in c
    ensures Split(a + [sep] + b + [sep] + c, sep) == [a, b, c]
  {
    var s := a + [sep] + b + [sep] + c;
    assert s[..2] == a;
    IndexOfAt(s, sep, 2);
    var t := s[3..];
    assert t == b + [sep] + c;
    assert t[..2] == b && t[3..] == c;
    IndexOfAt(t, sep, 2);
    assert sep in s && sep in t;
    assert Split(c, sep) == [c];
    assert Split(t, sep) == [b] + Split(c, sep);
    assert Split(s, sep) == [a] + Split(t, sep);
  }

  /** Rendering a valid date and parsing it back gives the same date. */
  lemma ParseRender(d: Date)
    requires Valid(d)
    ensures ParseDate(Render(d)) == Some(d)
  {
    var m, dd, y := Pad2(d.month), Pad2(d.day), Pad2(d.year % 100);
    SplitThree(m, dd, y, '/');
    assert Render(d) == m + ['/'] + dd + ['/'] + y;
    Pad2Value(d.month);
    Pad2Value(d.day);
    Pad2Value(d.year % 100);
  }
}
