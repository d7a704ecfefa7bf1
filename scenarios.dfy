/**
 * Worked example: one item updated on 2020-01-01 and on 2020-01-10 and
 * looked at on 2020-01-20, first as an active item and then as a completed one.
 */
module Scenarios {
  import opened Wrappers
  import opened Text
  import opened Dates
  import opened Intervals
  import opened Dataset
  import opened Stats
  import opened Todo

  const First := Date(2020, 1, 1)
  const Second := Date(2020, 1, 10)
  const Today := Date(2020, 1, 20)

  lemma YearDigits()
    ensures ZeroPad(2020, 4) == "2020"
  {
    assert NatToString(2) == "2";
    assert NatToString(20) == "20";
    assert NatToString(202) == "202";
    assert NatToString(2020) == "2020";
  }

  lemma MonthAndDayDigits()
    ensures ZeroPad(1, 2) == "01" && ZeroPad(10, 2) == "10"
  {
    assert NatToString(1) == "1";
    assert Repeat('0', 1) == "0";
    assert NatToString(10) == "10";
  }

  /** The two recorded dates in the form the data file holds them. */
  lemma HistoryText()
    ensures IsoFormat(First) == "2020-01-01" && IsoFormat(Second) == "2020-01-10"
  {
    YearDigits();
    MonthAndDayDigits();
  }

  function History(): seq<string> {
    [IsoFormat(First), IsoFormat(Second)]
  }

  lemma ParsedHistory()
    ensures ParseDates(History()) == Ok([First, Second])
  {
    ParseIsoFormat(First);
    ParseIsoFormat(Second);
    var stats := History();
    var r := ParseDates(stats);
    assert ParseDate(stats[0]).Some? && ParseDate(stats[1]).Some?;
    assert r.Ok? && |r.value| == 2;
    assert ParseDate(stats[0]) == Some(r.value[0]) && ParseDate(stats[1]) == Some(r.value[1]);
    assert r.value == [First, Second];
  }

  lemma HistoryIntervals()
    ensures GenerateIntervals(History(), Today) == Ok([9, 10])
  {
    ParsedHistory();
    var i := DateIntervals([First, Second], Today);
    assert i == [9, 10];
  }

  lemma SmallStats()
    ensures Mean([9, 10]) == 10 && Median([9, 10]) == 10
    ensures Numeric.Max([9, 10]) == 10 && Numeric.Min([9, 10]) == 9
  {
    var i := [9, 10];
    assert i[1..] == [10];
    assert Numeric.Sum(i) == 19;
    assert Numeric.RoundHalfEven(19, 2) == 10;
    assert Numeric.SortAscending([10]) == [10];
    assert Numeric.SortAscending(i) == Numeric.InsertAscending(9, [10]) == [9, 10];
  }

  lemma HistorySummary(item: Item)
    requires item.stats == History()
    ensures Summarize(Entry("Foo", item), Today) == Ok(StatsEntry("Foo", 10, 10, 10, 10, 9))
  {
    HistoryIntervals();
    SmallStats();
  }

  lemma HistoryTodo(item: Item)
    requires item.stats == History()
    ensures TodoOf(Entry("Foo", item), Today) == Ok(TodoEntry("Foo", 3, 10))
  {
    HistoryIntervals();
  }

  lemma OneItemStats(item: Item)
    requires item.stats == History()
    ensures GenerateStatsEntries([Entry("Foo", item)], Today) == Ok([StatsEntry("Foo", 10, 10, 10, 10, 9)])
  {
    var data := [Entry("Foo", item)];
    var s := StatsEntry("Foo", 10, 10, 10, 10, 9);
    HistorySummary(item);
    assert data[1..] == [];
    assert SortByName(data) == InsertByName(data[0], []) == data;
    var r := SummarizeAll(data, Today);
    assert r == GenerateStatsEntries(data, Today);
    assert Summarize(data[0], Today) == Ok(s);
    assert r.Ok?;
    assert |r.value| == 1 && r.value[0] == s;
    assert r.value == [s];
  }

  /** Intervals 9 and 10; summary ("Foo", 10, 10, 10, 10, 9); todo ("Foo", 3, 10). */
  lemma ActiveItem()
    ensures var data := [Entry("Foo", Item(History(), false, false))];
      && GenerateIntervals(History(), Today) == Ok([9, 10])
      && GenerateStatsEntries(data, Today) == Ok([StatsEntry("Foo", 10, 10, 10, 10, 9)])
      && GenerateTodoEntries(data, Today) == Ok([TodoEntry("Foo", 3, 10)])
  {
    var item := Item(History(), false, false);
    HistoryIntervals();
    OneItemStats(item);
    OneItemTodo(item);
  }

  lemma OneItemTodo(item: Item)
    requires item == Item(History(), false, false)
    ensures GenerateTodoEntries([Entry("Foo", item)], Today) == Ok([TodoEntry("Foo", 3, 10)])
  {
    HistoryTodo(item);
    SingleTodo(Entry("Foo", item), TodoEntry("Foo", 3, 10));
  }

  lemma SingleTodo(e: Entry, t: TodoEntry)
    requires IsActive(e) && TodoOf(e, Today) == Ok(t)
    ensures GenerateTodoEntries([e], Today) == Ok([t])
  {
    var data := [e];
    assert data[1..] == [];
    assert Active(data) == data;
    var r := GenerateTodoEntries(data, Today);
    assert r.Ok?;
    assert |r.value| == 1 && r.value[0] == t;
    assert r.value == [t];
  }

  /** A completed item keeps its summary but drops out of the todo list, which then fails. */
  lemma CompletedItem()
    ensures var data := [Entry("Foo", Item(History(), true, false))];
      && GenerateStatsEntries(data, Today) == Ok([StatsEntry("Foo", 10, 10, 10, 10, 9)])
      && GenerateTodoEntries(data, Today) == Ok([])
      && ShowTodo(data, Today) == Err(NoEntries)
  {
    var item := Item(History(), true, false);
    var data := [Entry("Foo", item)];
    OneItemStats(item);
    assert data[1..] == [];
    assert Active(data) == [];
  }
}
