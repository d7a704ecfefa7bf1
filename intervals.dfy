/**
 * generate_intervals: the gaps, in days, between consecutive update dates
 * of one item, the last gap running from the latest update to today.
 * "Today" (date.today() in the program) is a parameter.
 */
module Intervals {
  import opened Wrappers
  import opened Dates
  import opened Numeric

  predicate AllValid(ds: seq<Date>) {
    forall i :: 0 <= i < |ds| ==> Valid(ds[i])
  }

  /** getdate over the whole history; the first string that does not parse is the error. */
  function ParseDates(stats: seq<string>): (r: Result<seq<Date>, string>)
    ensures r.Ok? ==> |r.value| == |stats| && AllValid(r.value)
    ensures r.Ok? ==> forall i :: 0 <= i < |stats| ==> ParseDate(stats[i]) == Some(r.value[i])
    ensures r.Err? ==>
      exists i :: (0 <= i < |stats| && stats[i] == r.error && ParseDate(stats[i]).None?
        && (forall j :: 0 <= j < i ==> ParseDate(stats[j]).Some?))
  {
    if |stats| == 0 then Ok([])
    else match ParseDate(stats[0])
      case None => Err(stats[0])
      case Some(d) =>
        match ParseDates(stats[1..])
        case Err(s) =>
          assert forall j :: 1 <= j < |stats| ==> stats[j] == stats[1..][j - 1];
          Err(s)
        case Ok(ds) => Ok([d] + ds)
  }

  /** Day differences between each point and the next. */
  function Gaps(points: seq<Date>): (r: seq<int>)
    requires AllValid(points)
    ensures |r| == (if |points| == 0 then 0 else |points| - 1)
    ensures forall k :: 0 <= k < |r| ==> r[k] == DayNumber(points[k + 1]) - DayNumber(points[k])
  {
    if |points| < 2 then []
    else [DayNumber(points[1]) - DayNumber(points[0])] + Gaps(points[1..])
  }

  /** The intervals of a parsed history: dates + [today], paired off consecutively. */
  function DateIntervals(dates: seq<Date>, today: Date): (r: seq<int>)
    requires AllValid(dates) && Valid(today)
    ensures |r| == |dates|
    ensures forall k :: 0 <= k < |dates| - 1 ==> r[k] == DayNumber(dates[k + 1]) - DayNumber(dates[k])
    ensures |dates| > 0 ==> r[|dates| - 1] == DayNumber(today) - DayNumber(dates[|dates| - 1])
  {
    var points := dates + [today];
    assert forall k :: 0 <= k < |dates| ==> points[k] == dates[k];
    assert points[|dates|] == today;
    Gaps(points)
  }

  function GenerateIntervals(stats: seq<string>, today: Date): (r: Result<seq<int>, string>)
    requires Valid(today)
    ensures r.Ok? <==> ParseDates(stats).Ok?
    ensures r.Ok? ==> |r.value| == |stats| && r.value == DateIntervals(ParseDates(stats).value, today)
    ensures r.Err? ==> r.error == ParseDates(stats).error
  {
    match ParseDates(stats)
    case Err(s) => Err(s)
    case Ok(ds) => Ok(DateIntervals(ds, today))
  }

  lemma {:induction false} GapsSum(points: seq<Date>)
    requires AllValid(points) && |points| >= 1
    ensures Sum(Gaps(points)) == DayNumber(points[|points| - 1]) - DayNumber(points[0])
  {
    if |points| >= 2 {
      GapsSum(points[1..]);
    }
  }

  /** The intervals telescope: together they span from the first update to today. */
  lemma IntervalsTelescope(dates: seq<Date>, today: Date)
    requires AllValid(dates) && Valid(today) && |dates| > 0
    ensures Sum(DateIntervals(dates, today)) == DayNumber(today) - DayNumber(dates[0])
  {
    GapsSum(dates + [today]);
  }

  /** No date comes after the one recorded next, and the last is not after today. */
  predicate Chronological(dates: seq<Date>, today: Date) {
    (forall k :: 0 <= k < |dates| - 1 ==> !Before(dates[k + 1], dates[k]))
    && (|dates| > 0 ==> !Before(today, dates[|dates| - 1]))
  }

  /** Every interval is non-negative exactly when the history is in chronological order. */
  lemma IntervalsNonNegative(dates: seq<Date>, today: Date)
    requires AllValid(dates) && Valid(today)
    ensures (forall k :: 0 <= k < |dates| ==> DateIntervals(dates, today)[k] >= 0)
        <==> Chronological(dates, today)
  {
    var r := DateIntervals(dates, today);
    var n := |dates|;
    forall k | 0 <= k < n - 1
      ensures r[k] >= 0 <==> !Before(dates[k + 1], dates[k])
    {
      DayNumberOrder(dates[k + 1], dates[k]);
    }
    if n > 0 {
      DayNumberOrder(today, dates[n - 1]);
      assert r[n - 1] >= 0 <==> !Before(today, dates[n - 1]);
    }
    if forall k :: 0 <= k < n ==> r[k] >= 0 {
      assert Chronological(dates, today);
    }
    if Chronological(dates, today) {
      forall k | 0 <= k < n ensures r[k] >= 0 {
        if k < n - 1 {
          assert !Before(dates[k + 1], dates[k]);
        }
      }
    }
  }
}
