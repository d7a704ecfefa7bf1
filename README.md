# medusa in Dafny

A model of `medusa.py`, a small personal tool that tracks when serialised works (items) were
last updated. Its data file maps each item's name to a record holding the dates of its updates
(`stats`, `YYYY-MM-DD` strings in chronological order) and two flags, `complete` and `hiatus`.
From that file it prints two reports:

- **stats**: one row per item in ascending name order, giving the days since the last update
  (the current interval) and the rounded mean, the rounded median, the maximum and the minimum of
  all the item's intervals; a header and a rule of dashes come first.
- **todo**: the items that are neither complete nor on hiatus, each with the number of its next
  update and the days since its last one. They are sorted most overdue first and numbered from 1.
  The first line is marked `>> `, and a ` TODO ` banner as wide as the widest line sits on top.

The five generators (`generate_intervals`, `generate_stats_entries`, `format_stats`,
`generate_todo_entries`, `format_todo`) only compute values. `show_stats` and `show_todo` compute
a report and print it, and `main` reads the command line. The model keeps the computing part, so it
is made of datatypes, functions and lemmas:

| file | module | models |
|---|---|---|
| `wrappers.dfy` | `Wrappers` | `Option`, `Result`, and `Collect`: apply a step to each element in order and stop at the first error |
| `text.dfy` | `Text` | `str(int)`, `int()` on digits, `str.split`, `c * n`, format-spec padding, Python's `<` on `str` |
| `numeric.dfy` | `Numeric` | `sum`, `max`, `min`, `sorted` on integers, `round` with halves to even |
| `dates.dfy` | `Dates` | `datetime.date`: validity, `toordinal()`, parsing `getdate`, ISO form |
| `dataset.dfy` | `Dataset` | the loaded data file, and the errors the reports can end in |
| `intervals.dfy` | `Intervals` | `generate_intervals` |
| `stats.dfy` | `Stats` | `generate_stats_entries` |
| `stats_table.dfy` | `StatsTable` | `format_stats` and `show_stats` |
| `todo.dfy` | `Todo` | `generate_todo_entries`, `format_todo` and `show_todo` |
| `scenarios.dfy` | `Scenarios` | a worked example: one item updated on 2020-01-01 and 2020-01-10, viewed on 2020-01-20 |

Modelling decisions:

- "Today" (`date.today()`) is a parameter of every function that needs it.
- The data file is a sequence of `Entry(name, item)` in the order of the loaded `dict`. The todo
  report sorts with Python's stable sort, so entries with equal staleness keep this order. The
  loaded `dict` holds each name once (a JSON text that repeats a key keeps only its last value
  there). `DistinctNames` states this, and only the members whose proofs need it require it:
  `Stats.SortByName`, `Stats.GenerateStatsEntries`, `Stats.StatsEntriesCoverData`,
  `StatsTable.ShowStats`, `StatsTable.ShowStatsAligned`, and the lemmas `Todo.ActiveDistinct`,
  `Todo.TodoEntriesOncePerActiveItem`, `Todo.NamedAfterActive` and `Todo.SameNameSameEntry`.
  `Todo.GenerateTodoEntries` and `Todo.ShowTodo` do not require it.
- `getdate` is `date(*map(int, s.split('-')))`, so it accepts any three runs of digits, with or
  without leading zeros, that form a valid date: `2020-1-5` is 5 January 2020.
- Each uncaught exception becomes an `Err`:
  - `MalformedDate(name, text)`: `int()` or `date()` raises in `getdate`.
  - `EmptyHistory(name)`: `i[-1]` on an item with no dates.
  - `NoEntries`: `next()` on an empty `zip` in `show_stats`, or `max()` of no lines in `show_todo`.
  As in the program, the stats report visits items in name order and the todo report in data
  order, and the first failing item decides the error. Only items the todo report keeps are parsed
  for it.
- A date difference `(d2 - d1).days` is `DayNumber(d2) - DayNumber(d1)`, where `DayNumber` is the
  proleptic Gregorian ordinal (1 January of year 1 is day 1).
- `round(mean(i))` and `round(median(i))` are computed exactly on rationals (`RoundHalfEven(p, q)`
  rounds p/q). Halves go to the even neighbour, as Python's `round` does.

Behaviour of the code worth stating outright:

- `show_todo` calls `max()` on the list of todo lines at medusa.py:67. When no item is due that
  list is empty and `max()` raises, so `ShowTodo` returns `Err(NoEntries)` and no banner appears.
- `generate_intervals` subtracts consecutive dates without checking their order, so an interval
  is negative when the dates are out of order or lie after today.
  `Intervals.IntervalsNonNegative` proves that all intervals are non-negative exactly when the
  history is in order and its last date is not after today.
- The name column of the stats table is as wide as the longest name (medusa.py:62). When every
  name is shorter than the heading `name`, the data rows are narrower than the header; see
  Findings.

## Model

| member | source | states |
|---|---|---|
| `Wrappers.Collect` | medusa.py:46-50 | a loop whose body may raise: on success one result per element, each the step applied to that element; on failure the error of the first failing element, all before it succeeding |
| `Text.IntToString` | medusa.py:35 | `str()` of an integer is non-empty and starts with `-` exactly when the integer is negative |
| `Text.IntToStringDecimal` | medusa.py:35 | after the optional `-`, `str(i)` is the decimal form of the magnitude of i: digits only, no leading zero, and `int()` reads the magnitude back from it |
| `Text.DecimalUnique` | medusa.py:35 | the decimal form of n is unique: any digit string without a leading zero that `int()` reads as n is `str(n)` |
| `Text.ParseNatToString` | medusa.py:15 | `int()` applied to the decimal digits of n gives back n |
| `Text.ParseNatLeadingZeros` | medusa.py:15 | leading zeros do not change the value `int()` reads, so `"01"` is 1 |
| `Text.Split` | medusa.py:15 | `split('-')` gives at least one piece, and no piece contains `-` |
| `Text.JoinSplit` | medusa.py:15 | joining the pieces of `split` with the separator gives back the original string |
| `Text.SplitCons` | medusa.py:15 | a piece without `-` followed by `-` splits off as the first piece |
| `Text.SplitThree` | medusa.py:15 | three pieces without `-`, joined by `-`, split back into exactly those three pieces |
| `Text.JoinThree` | medusa.py:15 | a string that splits into three pieces is those pieces joined by `-` |
| `Text.Padded` | medusa.py:15 | a field written as k zeros and then the digits of n is a run of digits that `int()` reads as n |
| `Text.CanonicalDigits` | medusa.py:15 | a run of digits without a leading zero is exactly `str()` of the value `int()` reads from it |
| `Text.DigitsAsWritten` | medusa.py:15 | every non-empty run of digits is some number of zeros followed by `str()` of its value |
| `Text.PadRight` | medusa.py:35 | `{:w}` left-aligns: the string, then spaces up to at least w characters |
| `Text.PadLeft` | medusa.py:35 | `{:>w}` right-aligns: spaces, then the string, at least w characters in all |
| `Text.Repeat` | medusa.py:37 | `c * n` has n copies of c, and is empty when n is zero or negative |
| `Text.LexLessIrreflexive` | medusa.py:25 | no name is less than itself, so the order on names is strict |
| `Text.LexLessTotal` | medusa.py:25 | any two different names are ordered one way or the other |
| `Text.LexLessTransitive` | medusa.py:25 | string order is transitive |
| `Text.LexLessAsymmetric` | medusa.py:25 | two names are never each less than the other |
| `Numeric.Max` | medusa.py:27 | `max(i)` is an element of i and no element exceeds it |
| `Numeric.Min` | medusa.py:27 | `min(i)` is an element of i and no element is below it |
| `Numeric.SumBounds` | medusa.py:27 | a sum of n values between lo and hi lies between n·lo and n·hi |
| `Numeric.RoundHalfEven` | medusa.py:27 | the result is within 1/2 of p/q, and on an exact half it is even |
| `Numeric.RoundHalfEvenWithin` | medusa.py:27 | rounding a value between two integers stays between them |
| `Numeric.SortAscending` | medusa.py:27 | `sorted(i)` is ascending and a permutation of i |
| `Numeric.CountPermutation` | medusa.py:27 | how many elements lie below or above a value depends only on the multiset of elements, not their order |
| `Numeric.SortedMiddle` | medusa.py:27 | the element at position m of an ascending rearrangement of s has at most m elements of s below it and at most `len(s) - 1 - m` above it |
| `Dates.ParseDate` | medusa.py:14-15 | `getdate` yields only valid dates (year 1..9999, month 1..12, day within the month) |
| `Dates.ParseWritten` | medusa.py:14-15 | a valid date written `Y-M-D` with any number of leading zeros in each field parses to that date |
| `Dates.ParsedIsWritten` | medusa.py:14-15 | a string that parses to a date is that date written `Y-M-D` with some leading zeros in each field |
| `Dates.ParseDateExactly` | medusa.py:14-15 | `getdate` gives d exactly when d is valid and the string is d written `Y-M-D` with leading zeros; every other string is malformed |
| `Dates.ParseIsoFormat` | medusa.py:14-15 | every date written as zero-padded `YYYY-MM-DD` parses back to that date |
| `Dates.DayNumber` | medusa.py:18 | `toordinal()` counts every day of all earlier years before the date's own |
| `Dates.FirstOrdinal` | medusa.py:18 | `date(1, 1, 1)` is day 1 |
| `Dates.EpochOrdinal` | medusa.py:18 | `date(1970, 1, 1)` is day 719163 |
| `Dates.LeapCenturyOrdinal` | medusa.py:18 | `date(2000, 3, 1)` is day 730180, counting 29 February 2000 |
| `Dates.LastOrdinal` | medusa.py:18 | `date(9999, 12, 31)` is day 3652059 |
| `Dates.DaysBeforeNextYear` | medusa.py:18 | the ordinal advances by 366 days over a leap year and by 365 over any other year |
| `Dates.DayNumberInYear` | medusa.py:18 | a date's ordinal lies within the span of its own year |
| `Dates.DayNumberOrder` | medusa.py:18 | one date's ordinal is smaller than another's exactly when it comes earlier, and equal exactly when the dates are the same |
| `Intervals.ParseDates` | medusa.py:14-16 | success gives one valid date per string, each the parse of its string; failure names the first string that does not parse |
| `Intervals.Gaps` | medusa.py:17-18 | one difference per consecutive pair: next ordinal minus this one |
| `Intervals.DateIntervals` | medusa.py:16-18 | as many intervals as dates; interval k is date k+1 minus date k; the last is today minus the last date |
| `Intervals.GenerateIntervals` | medusa.py:9-18 | succeeds exactly when every date parses, and then gives `len(stats)` intervals: the gaps between the parsed dates, then today minus the last; a failure is the first unparsable string |
| `Intervals.IntervalsTelescope` | medusa.py:16-18 | the intervals add up to today minus the first date |
| `Intervals.IntervalsNonNegative` | medusa.py:16-18 | every interval is non-negative exactly when the dates are in order and the last is not after today |
| `Stats.Mean` | medusa.py:27 | `round(mean(i))` is within 1/2 of the exact mean, even when the mean lies exactly halfway, and between `min(i)` and `max(i)` |
| `Stats.Median` | medusa.py:27 | `round(median(i))` lies between `min(i)` and `max(i)` |
| `Stats.MedianIsMiddle` | medusa.py:27 | for odd n the median is an element with at most n/2 elements below it and at most n/2 above; for even n it is the rounded half-sum, ties to even, of a lower and an upper middle element, the lower not above the upper |
| `Stats.Summarize` | medusa.py:26-27 | fails with the item's parse error, or with the empty-history error when it has no dates; else current is the last interval, mean, median, max and min are `Mean`, `Median`, `Max` and `Min` of the intervals, and `min ≤ current, mean, median ≤ max` |
| `Stats.SortByName` | medusa.py:25 | `sorted(data.items())` is a permutation with names strictly ascending |
| `Stats.SummarizeAll` | medusa.py:25-27 | one summary per entry, in order; a failure is the error of the first entry that cannot be summarised, all before it succeeding |
| `Stats.GenerateStatsEntries` | medusa.py:20-27 | on success, one summary per item: entry k is the summary of the k-th item in name order, and names strictly ascend; on failure, the error of the first item in name order that cannot be summarised |
| `Stats.StatsEntriesCoverData` | medusa.py:25-27 | the report succeeds exactly when every item can be summarised; each item's own summary appears in it; an error is some item's error |
| `StatsTable.Row` | medusa.py:35 | a row's width is the sum of its cells, each padded to its column's width, plus five two-space gutters; it starts with the name and ends with the last cell |
| `StatsTable.RowCells` | medusa.py:35 | each cell sits in its own column: the name left-aligned at the start, then each number after a two-space gutter, right-aligned to its width (8, 5, 7, 4, 4), at the offset given by the widths of the columns before it |
| `StatsTable.RowParts` | medusa.py:35 | a row is the name column followed by five columns, each a two-space gutter and a right-aligned number |
| `StatsTable.Header` | medusa.py:34-36 | the header is the row format applied to the six headings `name`, `current`, `mean`, `median`, `max`, `min`, so `RowCells` places each heading in its column; it is as wide as the name column, and at least 4, plus 38 characters |
| `StatsTable.EntryRow` | medusa.py:35-39 | a data row is the row format applied to the entry's name and `str()` of its five numbers, so `RowCells` places each in its column; when the numbers fit their columns it is as wide as its name cell plus 38 characters; it starts with the name and ends with `str()` of the minimum |
| `StatsTable.FormatStats` | medusa.py:29-39 | `len(entries) + 2` lines: the header; a rule made only of `-` and exactly as long as the header; then one row per entry, in order |
| `StatsTable.RowsMatchHeader` | medusa.py:35-39 | with a name column of at least 4 and every cell fitting its column, all lines have the same width |
| `StatsTable.NameWidth` | medusa.py:62 | the name width is the length of the longest item name |
| `StatsTable.ShowStats` | medusa.py:60-63 | an empty data file fails with `NoEntries`; it succeeds exactly when the file is non-empty and every item can be summarised, and then it is `FormatStats` of the summaries with the longest name's width, one line per item plus two; otherwise the summaries' error |
| `StatsTable.ShortNamesMisalignRows` | medusa.py:35-39 | with only the name `Foo`, the data row is one character shorter than the header and the rule |
| `StatsTable.AlignedNameWidth` | medusa.py:62 | the corrected width is at least 4 and at least every name's length, and it is 4 or some name's length |
| `StatsTable.AlignedRowsMatchHeader` | medusa.py:35-39 | with the corrected width, every row is as wide as the header whenever the numbers fit their columns |
| `StatsTable.ShowStatsAligned` | medusa.py:60-63 | the corrected table succeeds under the same conditions and fails with the same errors as `ShowStats`; it is `FormatStats` of the summaries with the corrected width, one line per item plus two, all of the same width when the numbers fit |
| `Todo.Active` | medusa.py:46-48 | the kept items are no more than the data's items, and none is complete or on hiatus |
| `Todo.ActiveSingle` | medusa.py:46-48 | a single item is kept exactly when it is neither complete nor on hiatus |
| `Todo.ActiveAppend` | medusa.py:46-48 | the kept items of a + b are those of a followed by those of b, so the filter keeps data order |
| `Todo.ActiveMembers` | medusa.py:46-48 | an item is kept exactly when it is in the data and neither complete nor on hiatus |
| `Todo.ActiveDistinct` | medusa.py:46-48 | the kept items still have distinct names |
| `Todo.TodoOf` | medusa.py:49-50 | fails as `getdate` or `i[-1]` would; otherwise the entry has the item's name, next update `len(stats) + 1`, and staleness today minus the last date |
| `Todo.GenerateTodoEntries` | medusa.py:41-50 | one entry per kept item, in data order, each computed from that item; a failure is the error of the first kept item that fails, all before it succeeding |
| `Todo.TodoEntriesOncePerActiveItem` | medusa.py:46-50 | every item that is neither complete nor on hiatus gets exactly one entry, and no other item gets one |
| `Todo.InsertByStaleness` | medusa.py:57 | inserting into a non-increasing list keeps it non-increasing and adds exactly that entry |
| `Todo.SortByStaleness` | medusa.py:57 | `sorted(..., key=itemgetter(2), reverse=True)` is non-increasing in staleness and a permutation |
| `Todo.SortByStalenessStable` | medusa.py:57 | the sort is stable: for every staleness value, the entries with that value keep their relative order |
| `Todo.TodoLine` | medusa.py:58 | a line is the marker `>> ` for rank 1 and three spaces otherwise, then the rank and `. `; next `(+`, the staleness and `) `, then the name, and last ` (upd. `, the next update number and `)`; its length is 17 plus the lengths of its fields |
| `Todo.FormatTodo` | medusa.py:52-58 | one line per entry; line k shows rank k+1 and the k-th entry of the staleness-sorted list |
| `Todo.FormatTodoRanks` | medusa.py:57-58 | ranks run from 1; only the first line starts with `>> `, every other line with three spaces; every line has at least 20 characters |
| `Todo.Banner` | medusa.py:68 | the banner has length `max(maxLen, 6)`; it is ` TODO ` between two runs of `=`, and the right run is equal to the left one or one longer |
| `Todo.MaxLength` | medusa.py:67 | the longest line's length: no line is longer, and some line has it |
| `Todo.BannerFitsLines` | medusa.py:67-68 | for todo lines the banner is exactly as wide as the widest line |
| `Todo.UnderBanner` | medusa.py:67-69 | the banner for the widest line goes on top, as wide as that line, and the lines follow unchanged |
| `Todo.ShowTodo` | medusa.py:65-69 | with no item due it fails with `NoEntries`; it succeeds exactly when some item is due and every due item's entry can be computed; then line 0 is the banner for the widest of the other lines and as wide as it, and the rest is `FormatTodo` of the entries; otherwise the entries' error |
| `Scenarios.HistoryText` | medusa.py:14-15 | the example dates are written `2020-01-01` and `2020-01-10` |
| `Scenarios.ParsedHistory` | medusa.py:14-16 | those two strings parse to the two dates |
| `Scenarios.ActiveItem` | medusa.py:16-50 | on 2020-01-20: intervals 9 and 10; summary `("Foo", 10, 10, 10, 10, 9)`, since 9.5 rounds to even 10; todo entry `("Foo", 3, 10)` |
| `Scenarios.CompletedItem` | medusa.py:20-50 | a completed item keeps its summary, drops out of the todo list, and the todo report then fails with `NoEntries` |

## Left out

- `main` and its `argparse` dispatch (medusa.py:72-81): command-line plumbing.
- `read_json` and `local_path` from `libsyntyche`: file I/O in a library that is not part of this
  model. The data is taken as already loaded, with `stats` strings and boolean flags. Other JSON
  value types, and Python truthiness of non-boolean flags, are not modelled.
- `print` (medusa.py:63, 68-69): output. The reports are sequences of lines.
- `date.today()` (medusa.py:16): the wall clock. It is the `today` parameter.
- `Dates.ParseDate`: `int()` also accepts a leading `+`, surrounding whitespace, underscores
  between digits and non-ASCII decimal digits. The model reads only non-empty runs of ASCII digits
  and treats those other forms as malformed.
- `Stats.Mean` and `Stats.Median`: the program rounds a float, while the model rounds the exact
  rational. The two can differ only when a float cannot hold the value exactly. That needs
  interval sums far beyond what any date range produces.
- The format mini-language is modelled only as left/right padding to a minimum width. If every
  name is empty, the width is 0, and the program's `{:0}` reads as the zero-padding flag; the
  model pads to width 0.
- The exception types (`ValueError`, `TypeError`, `IndexError`, `StopIteration`) are not
  distinguished beyond the three `Error` cases.

## Findings

| source | as written | input that shows it | evidently intended | confidence | as-written member | corrected member |
|---|---|---|---|---|---|---|
| medusa.py:35-39, 62 | the name column is as wide as the longest name, even when that is narrower than the heading `name` | a data file whose only item is `Foo`: the header and rule are 42 characters, the row 41, so the numbers sit one column left of their headings | the name column at least as wide as its heading, so every row lines up with the header and the rule | medium (cosmetic misalignment); not executed | `StatsTable.ShortNamesMisalignRows` | `StatsTable.AlignedRowsMatchHeader` |
