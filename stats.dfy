/**
 * generate_stats_entries: one summary per item, in ascending name order,
 * holding the current (last) interval, the rounded mean and median, and
 * the largest and smallest interval.
 */
module Stats {
  import opened Wrappers
  import opened Text
  import opened Numeric
  import opened Dates
  import opened Intervals
  import opened Dataset

  datatype StatsEntry = StatsEntry(name: string, current: int, mean: int, median: int, max: int, min: int)

  /** `round(mean(i))`: the integer nearest the exact mean, halves to even. */
  function Mean(i: seq<int>): (r: int)
    requires |i| > 0
    ensures 2 * (if r * |i| >= Sum(i) then r * |i| - Sum(i) else Sum(i) - r * |i|) <= |i|
    ensures 2 * (if r * |i| >= Sum(i) then r * |i| - Sum(i) else Sum(i) - r * |i|) == |i| ==> r % 2 == 0
    ensures Min(i) <= r <= Max(i)
  {
    SumBounds(i, Min(i), Max(i));
    RoundHalfEvenWithin(Sum(i), |i|, Min(i), Max(i));
    RoundHalfEven(Sum(i), |i|)
  }

  /**
   * `round(median(i))`: the middle element of the sorted intervals, or for an
   * even count the two middle ones' midpoint rounded half to even.
   */
  function Median(i: seq<int>): (r: int)
    requires |i| > 0
    ensures Min(i) <= r <= Max(i)
  {
    var s := SortAscending(i);
    var n := |s|;
    SortedWithin(i, s);
    if n % 2 == 1 then s[n / 2]
    else
      RoundHalfEvenWithin(s[n / 2 - 1] + s[n / 2], 2, Min(i), Max(i));
      RoundHalfEven(s[n / 2 - 1] + s[n / 2], 2)
  }

  /**
   * The median is what `statistics.median` means: for an odd count the
   * element with at most half the others on either side of it; for an even
   * count the midpoint of the lower and the upper middle element, rounded.
   */
  lemma MedianIsMiddle(i: seq<int>)
    requires |i| > 0
    ensures |i| % 2 == 1 ==> LowerMiddle(i, Median(i)) && UpperMiddle(i, Median(i))
    ensures |i| % 2 == 0 ==>
      exists lo, hi :: LowerMiddle(i, lo) && UpperMiddle(i, hi) && lo <= hi && Median(i) == RoundHalfEven(lo + hi, 2)
  {
    var s := SortAscending(i);
    var n := |s|;
    if n % 2 == 1 {
      SortedMiddle(i, s, n / 2);
    } else {
      SortedMiddle(i, s, n / 2 - 1);
      SortedMiddle(i, s, n / 2);
      assert LowerMiddle(i, s[n / 2 - 1]) && UpperMiddle(i, s[n / 2]);
      assert s[n / 2 - 1] <= s[n / 2];
    }
  }

  lemma SortedWithin(i: seq<int>, s: seq<int>)
    requires |i| > 0 && multiset(s) == multiset(i)
    ensures forall k :: 0 <= k < |s| ==> Min(i) <= s[k] <= Max(i)
  {
    forall k | 0 <= k < |s| ensures Min(i) <= s[k] <= Max(i) {
      assert s[k] in multiset(s);
      assert s[k] in i;
    }
  }

  /** The summary tuple of one item, or the exception computing it raises. */
  function Summarize(e: Entry, today: Date): (r: Result<StatsEntry, Error>)
    requires Valid(today)
    ensures r.Ok? <==> ParseDates(e.item.stats).Ok? && |e.item.stats| > 0
    ensures ParseDates(e.item.stats).Err? ==> r == Err(MalformedDate(e.name, ParseDates(e.item.stats).error))
    ensures ParseDates(e.item.stats).Ok? && |e.item.stats| == 0 ==> r == Err(EmptyHistory(e.name))
    ensures r.Ok? ==> var i := GenerateIntervals(e.item.stats, today).value;
      && r.value.name == e.name
      && r.value.current == i[|i| - 1]
      && r.value.mean == Mean(i) && r.value.median == Median(i)
      && r.value.max == Max(i) && r.value.min == Min(i)
      && r.value.min <= r.value.current <= r.value.max
      && r.value.min <= r.value.mean <= r.value.max
      && r.value.min <= r.value.median <= r.value.max
  {
    match GenerateIntervals(e.item.stats, today)
    case Err(s) => Err(MalformedDate(e.name, s))
    case Ok(i) =>
      if |i| == 0 then Err(EmptyHistory(e.name))
      else Ok(StatsEntry(e.name, i[|i| - 1], Mean(i), Median(i), Max(i), Min(i)))
  }

  predicate NamesAscending(data: seq<Entry>) {
    forall i, j :: 0 <= i < j < |data| ==> LexLess(data[i].name, data[j].name)
  }

  function InsertByName(x: Entry, s: seq<Entry>): (r: seq<Entry>)
    requires NamesAscending(s)
    requires forall k :: 0 <= k < |s| ==> s[k].name != x.name
    ensures NamesAscending(r)
    ensures multiset(r) == multiset(s) + multiset{x}
  {
    if |s| == 0 || LexLess(x.name, s[0].name) then
      BeforeAll(x, s);
      ConsNamesAscending(x, s);
      [x] + s
    else
      var rest := InsertByName(x, s[1..]);
      assert s == [s[0]] + s[1..];
      HeadBeforeInsertion(x, s, rest);
      ConsNamesAscending(s[0], rest);
      var r := [s[0]] + rest;
      assert multiset(r) == multiset{s[0]} + multiset(rest);
      r
  }

  /** A name before the first of an ascending list is before all of them. */
  lemma BeforeAll(x: Entry, s: seq<Entry>)
    requires NamesAscending(s) && (|s| == 0 || LexLess(x.name, s[0].name))
    ensures forall k :: 0 <= k < |s| ==> LexLess(x.name, s[k].name)
  {
    forall k | 1 <= k < |s| ensures LexLess(x.name, s[k].name) {
      LexLessTransitive(x.name, s[0].name, s[k].name);
    }
  }

  /** When x goes after the head, the head stays before everything behind it. */
  lemma HeadBeforeInsertion(x: Entry, s: seq<Entry>, rest: seq<Entry>)
    requires NamesAscending(s) && |s| > 0 && s[0].name != x.name && !LexLess(x.name, s[0].name)
    requires multiset(rest) == multiset(s[1..]) + multiset{x}
    ensures forall k :: 0 <= k < |rest| ==> LexLess(s[0].name, rest[k].name)
  {
    LexLessTotal(x.name, s[0].name);
    forall k | 0 <= k < |rest| ensures LexLess(s[0].name, rest[k].name) {
      FromInsertion(rest, s[1..], x, k);
      if rest[k] != x {
        var j :| 0 <= j < |s[1..]| && s[1..][j] == rest[k];
        assert s[j + 1] == rest[k];
      }
    }
  }

  /** A head before every name of an ascending tail keeps it ascending. */
  lemma ConsNamesAscending(h: Entry, t: seq<Entry>)
    requires NamesAscending(t) && forall k :: 0 <= k < |t| ==> LexLess(h.name, t[k].name)
    ensures NamesAscending([h] + t)
  {
    var r := [h] + t;
    assert forall i :: 1 <= i < |r| ==> r[i] == t[i - 1];
  }

  /** `sorted(data.items())`: names are distinct, so the sort is by name alone. */
  function SortByName(data: seq<Entry>): (r: seq<Entry>)
    requires DistinctNames(data)
    ensures NamesAscending(r)
    ensures multiset(r) == multiset(data)
    ensures |r| == |data|
  {
    if |data| == 0 then []
    else
      var rest := SortByName(data[1..]);
      assert data == [data[0]] + data[1..];
      assert forall k :: 0 <= k < |rest| ==> rest[k].name != data[0].name by {
        forall k | 0 <= k < |rest| ensures rest[k].name != data[0].name {
          assert rest[k] in multiset(data[1..]);
          var j :| 0 <= j < |data[1..]| && data[1..][j] == rest[k];
          assert data[j + 1] == rest[k];
        }
      }
      InsertByName(data[0], rest)
  }

  /** Summaries of the entries in order; the first failing entry's error aborts. */
  function SummarizeAll(entries: seq<Entry>, today: Date): (r: Result<seq<StatsEntry>, Error>)
    requires Valid(today)
    ensures r.Ok? ==> |r.value| == |entries|
    ensures r.Ok? ==> forall k :: 0 <= k < |entries| ==> Summarize(entries[k], today) == Ok(r.value[k])
    ensures r.Err? ==> exists k :: 0 <= k < |entries| && FailsFirst(entries, k, today, r.error)
  {
    var f := e => Summarize(e, today);
    var r := Collect(entries, f);
    if r.Ok? then r
    else
      var k :| 0 <= k < |entries| && f(entries[k]) == Err(r.error) && forall j :: 0 <= j < k ==> f(entries[j]).Ok?;
      assert FailsFirst(entries, k, today, r.error);
      r
  }

  /**
   * generate_stats_entries: the summaries of the items in name order, or the
   * error of the first item in that order that cannot be summarised.
   */
  function GenerateStatsEntries(data: seq<Entry>, today: Date): (r: Result<seq<StatsEntry>, Error>)
    requires Valid(today) && DistinctNames(data)
    ensures r.Ok? ==> |r.value| == |data|
    ensures r.Ok? ==> forall i, j :: 0 <= i < j < |r.value| ==> LexLess(r.value[i].name, r.value[j].name)
    ensures r.Ok? ==> forall k :: 0 <= k < |data| ==> Summarize(SortByName(data)[k], today) == Ok(r.value[k])
    ensures r.Err? ==> exists k :: 0 <= k < |data| && FailsFirst(SortByName(data), k, today, r.error)
  {
    var sorted := SortByName(data);
    SummariesKeepNameOrder(sorted, today);
    SummarizeAll(sorted, today)
  }

  /** Item k of entries is the first whose summary fails, and it fails with e. */
  predicate FailsFirst(entries: seq<Entry>, k: int, today: Date, e: Error)
    requires Valid(today) && 0 <= k < |entries|
  {
    Summarize(entries[k], today) == Err(e) && forall j :: 0 <= j < k ==> Summarize(entries[j], today).Ok?
  }

  /**
   * The report succeeds exactly when every item can be summarised; then each
   * item's summary is in it, and otherwise the error is some item's error.
   */
  lemma StatsEntriesCoverData(data: seq<Entry>, today: Date)
    requires Valid(today) && DistinctNames(data)
    ensures var r := GenerateStatsEntries(data, today);
      && (r.Ok? <==> forall k :: 0 <= k < |data| ==> Summarize(data[k], today).Ok?)
      && (r.Err? ==> exists k :: 0 <= k < |data| && Summarize(data[k], today) == Err(r.error))
      && (r.Ok? ==> forall k :: 0 <= k < |data| ==>
            exists i :: 0 <= i < |r.value| && Summarize(data[k], today) == Ok(r.value[i]))
  {
    var sorted := SortByName(data);
    var r := SummarizeAll(sorted, today);
    assert r == GenerateStatsEntries(data, today);
    if r.Ok? {
      SummariesCoverData(data, sorted, today);
    } else {
      ErrorFromData(data, sorted, today);
    }
  }

  /** Every item of data is among the sorted entries, so its summary is in a successful report. */
  lemma SummariesCoverData(data: seq<Entry>, sorted: seq<Entry>, today: Date)
    requires Valid(today) && multiset(sorted) == multiset(data) && SummarizeAll(sorted, today).Ok?
    ensures var r := SummarizeAll(sorted, today);
      forall k :: 0 <= k < |data| ==>
        exists i :: 0 <= i < |r.value| && Summarize(data[k], today) == Ok(r.value[i])
  {
    var r := SummarizeAll(sorted, today);
    forall k | 0 <= k < |data|
      ensures exists i :: 0 <= i < |r.value| && Summarize(data[k], today) == Ok(r.value[i])
    {
      assert data[k] in multiset(data);
      assert data[k] in sorted;
      var i :| 0 <= i < |sorted| && sorted[i] == data[k];
      assert Summarize(sorted[i], today) == Ok(r.value[i]);
    }
  }

  /** The failing sorted entry is an item of data. */
  lemma ErrorFromData(data: seq<Entry>, sorted: seq<Entry>, today: Date)
    requires Valid(today) && multiset(sorted) == multiset(data) && SummarizeAll(sorted, today).Err?
    ensures exists k :: 0 <= k < |data| && Summarize(data[k], today) == Err(SummarizeAll(sorted, today).error)
  {
    var r := SummarizeAll(sorted, today);
    var i :| 0 <= i < |sorted| && FailsFirst(sorted, i, today, r.error);
    var x := sorted[i];
    assert x in multiset(sorted);
    assert x in data;
    var k :| 0 <= k < |data| && data[k] == x;
    assert Summarize(data[k], today) == Err(r.error);
  }

  lemma SummariesKeepNameOrder(sorted: seq<Entry>, today: Date)
    requires Valid(today) && NamesAscending(sorted)
    ensures var r := SummarizeAll(sorted, today);
      r.Ok? ==> forall i, j :: 0 <= i < j < |r.value| ==> LexLess(r.value[i].name, r.value[j].name)
  {
    var r := SummarizeAll(sorted, today);
    if r.Ok? {
      forall i, j | 0 <= i < j < |r.value| ensures LexLess(r.value[i].name, r.value[j].name) {
        assert Summarize(sorted[i], today) == Ok(r.value[i]);
        assert Summarize(sorted[j], today) == Ok(r.value[j]);
      }
    }
  }
}
