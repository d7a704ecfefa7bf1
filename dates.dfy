/**
 * Calendar dates as Python's `datetime.date` has them: the proleptic
 * Gregorian calendar, years 1 to 9999, and the day number `toordinal()`
 * (1 January of year 1 is day 1), whose differences are what
 * `(d2 - d1).days` returns.  ParseDate is `date(*map(int, s.split('-')))`.
 */
module Dates {
  import opened Wrappers
  import opened Text

  datatype Date = Date(year: int, month: int, day: int)

  const MinYear := 1
  const MaxYear := 9999

  predicate IsLeap(y: int) {
    y % 4 == 0 && (y % 100 != 0 || y % 400 == 0)
  }

  function DaysInMonth(y: int, m: int): int
    requires 1 <= m <= 12
  {
    if m == 2 then (if IsLeap(y) then 29 else 28)
    else if m == 4 || m == 6 || m == 9 || m == 11 then 30
    else 31
  }

  function DaysInYear(y: int): int {
    if IsLeap(y) then 366 else 365
  }

  /** What `date(y, m, d)` accepts without raising ValueError. */
  predicate Valid(d: Date) {
    MinYear <= d.year <= MaxYear && 1 <= d.month <= 12 && 1 <= d.day <= DaysInMonth(d.year, d.month)
  }

  /** Days in the years before year y. */
  function DaysBeforeYear(y: int): int
    requires y >= 1
  {
    var k := y - 1;
    k * 365 + k / 4 - k / 100 + k / 400
  }

  /** Days in the months of year y before month m. */
  function DaysBeforeMonth(y: int, m: int): int
    requires 1 <= m <= 12
  {
    [0, 31, 59, 90, 120, 151, 181, 212, 243, 273, 304, 334][m - 1]
      + (if m > 2 && IsLeap(y) then 1 else 0)
  }

  /** `date.toordinal()`: the days before the date's year, then its place in that year. */
  function DayNumber(d: Date): (n: int)
    requires Valid(d)
    ensures DaysBeforeYear(d.year) < n
  {
    DaysBeforeYear(d.year) + DaysBeforeMonth(d.year, d.month) + d.day
  }

  /** Chronological order of dates: by year, then month, then day. */
  predicate Before(a: Date, b: Date) {
    a.year < b.year
    || (a.year == b.year && (a.month < b.month || (a.month == b.month && a.day < b.day)))
  }

  lemma DivSteps(k: nat)
    ensures (k + 1) / 4 == k / 4 + (if (k + 1) % 4 == 0 then 1 else 0)
    ensures (k + 1) / 100 == k / 100 + (if (k + 1) % 100 == 0 then 1 else 0)
    ensures (k + 1) / 400 == k / 400 + (if (k + 1) % 400 == 0 then 1 else 0)
  {
  }

  lemma CenturyIsLeapCandidate(y: int)
    ensures y % 400 == 0 ==> y % 100 == 0
    ensures y % 100 == 0 ==> y % 4 == 0
  {
    if y % 400 == 0 {
      var m := 4 * (y / 400);
      assert y == 100 * m;
    }
    if y % 100 == 0 {
      var m := 25 * (y / 100);
      assert y == 4 * m;
    }
  }

  lemma {:induction false} DaysBeforeNextYear(y: int)
    requires y >= 1
    ensures DaysBeforeYear(y + 1) == DaysBeforeYear(y) + DaysInYear(y)
  {
    var k: nat := y - 1;
    DivSteps(k);
    CenturyIsLeapCandidate(y);
  }

  lemma {:induction false} DaysBeforeYearMonotone(y1: int, y2: int)
    requires 1 <= y1 <= y2
    ensures DaysBeforeYear(y1) + (y2 - y1) * 365 <= DaysBeforeYear(y2)
    decreases y2 - y1
  {
    if y1 < y2 {
      DaysBeforeYearMonotone(y1, y2 - 1);
      DaysBeforeNextYear(y2 - 1);
    }
  }

  lemma DaysBeforeNextMonth(y: int, m: int)
    requires 1 <= m <= 12
    ensures m < 12 ==> DaysBeforeMonth(y, m + 1) == DaysBeforeMonth(y, m) + DaysInMonth(y, m)
    ensures m == 12 ==> DaysBeforeMonth(y, m) + DaysInMonth(y, m) == DaysInYear(y)
  {
  }

  lemma {:induction false} DaysBeforeMonthMonotone(y: int, m1: int, m2: int)
    requires 1 <= m1 < m2 <= 12
    ensures DaysBeforeMonth(y, m1) + DaysInMonth(y, m1) <= DaysBeforeMonth(y, m2)
    decreases m2 - m1
  {
    DaysBeforeNextMonth(y, m1);
    if m1 + 1 < m2 {
      DaysBeforeMonthMonotone(y, m1 + 1, m2);
    }
  }

  /** A date's day number lies inside the span of its own year. */
  lemma DayNumberInYear(d: Date)
    requires Valid(d)
    ensures DaysBeforeYear(d.year) < DayNumber(d) <= DaysBeforeYear(d.year + 1)
  {
    DaysBeforeNextYear(d.year);
    if d.month < 12 {
      DaysBeforeMonthMonotone(d.year, d.month, 12);
    }
    DaysBeforeNextMonth(d.year, 12);
  }

  lemma BeforeHasSmallerDayNumber(a: Date, b: Date)
    requires Valid(a) && Valid(b) && Before(a, b)
    ensures DayNumber(a) < DayNumber(b)
  {
    if a.year < b.year {
      DayNumberInYear(a);
      DayNumberInYear(b);
      DaysBeforeYearMonotone(a.year + 1, b.year);
    } else if a.month < b.month {
      DaysBeforeMonthMonotone(a.year, a.month, b.month);
    }
  }

  /** `date(1, 1, 1).toordinal()` is 1. */
  lemma FirstOrdinal()
    ensures DayNumber(Date(MinYear, 1, 1)) == 1
  {
  }

  /** `date(1970, 1, 1).toordinal()`, the Unix epoch. */
  lemma EpochOrdinal()
    ensures DayNumber(Date(1970, 1, 1)) == 719163
  {
  }

  /** `date(2000, 3, 1).toordinal()`: 2000 is a leap year although a century. */
  lemma LeapCenturyOrdinal()
    ensures DayNumber(Date(2000, 3, 1)) == 730180
  {
  }

  /** `date(9999, 12, 31).toordinal()`, the last date `date` accepts. */
  lemma LastOrdinal()
    ensures DayNumber(Date(MaxYear, 12, 31)) == 3652059
  {
  }

  /** Day numbers order dates chronologically and tell distinct dates apart. */
  lemma DayNumberOrder(a: Date, b: Date)
    requires Valid(a) && Valid(b)
    ensures Before(a, b) <==> DayNumber(a) < DayNumber(b)
    ensures a == b <==> DayNumber(a) == DayNumber(b)
  {
    if Before(a, b) {
      BeforeHasSmallerDayNumber(a, b);
    } else if Before(b, a) {
      BeforeHasSmallerDayNumber(b, a);
    }
  }

  /** `date(*map(int, s.split('-')))`, None where Python would raise. */
  function ParseDate(s: string): (r: Option<Date>)
    ensures r.Some? ==> Valid(r.value)
  {
    var parts := Split(s, '-');
    if |parts| == 3 && (forall k :: 0 <= k < 3 ==> |parts[k]| > 0 && IsDigits(parts[k])) then
      var d := Date(ParseNat(parts[0]), ParseNat(parts[1]), ParseNat(parts[2]));
      if Valid(d) then Some(d) else None
    else None
  }

  /** `date.isoformat()`: YYYY-MM-DD with zero padding, the form the data file holds. */
  function IsoFormat(d: Date): string
    requires Valid(d)
  {
    ZeroPad(d.year, 4) + "-" + ZeroPad(d.month, 2) + "-" + ZeroPad(d.day, 2)
  }

  lemma DigitsHaveNoDash(s: string)
    requires IsDigits(s)
    ensures '-' !in s
  {
  }

  /** A date written `Y-M-D` in decimal, with a, b and c leading zeros before its three fields. */
  function Written(d: Date, a: nat, b: nat, c: nat): string
    requires Valid(d)
  {
    Padded(a, d.year) + "-" + Padded(b, d.month) + "-" + Padded(c, d.day)
  }

  /** However many leading zeros its fields carry, a written date parses to itself. */
  lemma ParseWritten(d: Date, a: nat, b: nat, c: nat)
    requires Valid(d)
    ensures ParseDate(Written(d, a, b, c)) == Some(d)
  {
    var y, m, dd := Padded(a, d.year), Padded(b, d.month), Padded(c, d.day);
    DigitsHaveNoDash(y);
    DigitsHaveNoDash(m);
    DigitsHaveNoDash(dd);
    SplitThree(y, m, dd, '-');
  }

  /** Only written dates parse: a string that parses is the date written with some leading zeros. */
  lemma ParsedIsWritten(s: string, d: Date)
    requires ParseDate(s) == Some(d)
    ensures Valid(d) && exists a: nat, b: nat, c: nat :: s == Written(d, a, b, c)
  {
    var p := Split(s, '-');
    assert |p| == 3 && d == Date(ParseNat(p[0]), ParseNat(p[1]), ParseNat(p[2]));
    JoinThree(s, '-');
    FieldsWritten(s, d, p[0], p[1], p[2]);
  }

  /** Three digit fields holding a date's numbers, joined by dashes, are that date written. */
  lemma FieldsWritten(s: string, d: Date, y: string, m: string, dd: string)
    requires Valid(d) && s == y + "-" + m + "-" + dd
    requires |y| > 0 && IsDigits(y) && ParseNat(y) == d.year
    requires |m| > 0 && IsDigits(m) && ParseNat(m) == d.month
    requires |dd| > 0 && IsDigits(dd) && ParseNat(dd) == d.day
    ensures exists a: nat, b: nat, c: nat :: s == Written(d, a, b, c)
  {
    DigitsAsWritten(y);
    DigitsAsWritten(m);
    DigitsAsWritten(dd);
    var a: nat :| y == Padded(a, d.year);
    var b: nat :| m == Padded(b, d.month);
    var c: nat :| dd == Padded(c, d.day);
    assert s == Written(d, a, b, c);
  }

  /** Every date written in ISO form parses back to itself. */
  lemma ParseIsoFormat(d: Date)
    requires Valid(d)
    ensures ParseDate(IsoFormat(d)) == Some(d)
  {
    var y, m, dd := NatToString(d.year), NatToString(d.month), NatToString(d.day);
    var a: nat, b: nat, c: nat := (if 4 > |y| then 4 - |y| else 0), (if 2 > |m| then 2 - |m| else 0),
      (if 2 > |dd| then 2 - |dd| else 0);
    assert IsoFormat(d) == Written(d, a, b, c);
    ParseWritten(d, a, b, c);
  }

  /** `getdate` accepts exactly the valid dates written `Y-M-D` with optional leading zeros. */
  lemma ParseDateExactly(s: string, d: Date)
    ensures ParseDate(s) == Some(d) <==> Valid(d) && exists a: nat, b: nat, c: nat :: s == Written(d, a, b, c)
  {
    if ParseDate(s) == Some(d) {
      ParsedIsWritten(s, d);
    } else if Valid(d) && exists a: nat, b: nat, c: nat :: s == Written(d, a, b, c) {
      var a: nat, b: nat, c: nat :| s == Written(d, a, b, c);
      ParseWritten(d, a, b, c);
    }
  }
}
