/**
 * format_stats and show_stats: the statistics table.  The first column is
 * the name, left-aligned to the name width; the numeric columns are
 * right-aligned to at least 8, 5, 7, 4 and 4 characters; two spaces
 * separate columns; a rule of dashes as long as the header follows it.
 */
module StatsTable {
  import opened Wrappers
  import opened Text
  import opened Numeric
  import opened Dates
  import opened Dataset
  import opened Stats

  const Gutter := "  "

  function AtLeast(n: nat, width: nat): nat {
    if n >= width then n else width
  }

  /**
   * The row format `{:w}  {:>8}  {:>5}  {:>7}  {:>4}  {:>4}` applied to six
   * cells: each cell padded to its column's width, five two-space gutters.
   */
  function Row(name: string, current: string, mean: string, median: string, max: string, min: string,
               nameWidth: nat): (row: string)
    ensures |row| == AtLeast(|name|, nameWidth) + AtLeast(|current|, 8) + AtLeast(|mean|, 5)
      + AtLeast(|median|, 7) + AtLeast(|max|, 4) + AtLeast(|min|, 4) + 5 * |Gutter|
    ensures |name| + |min| <= |row| && row[..|name|] == name && row[|row| - |min|..] == min
  {
    var first := PadRight(name, nameWidth);
    var middle := Gutter + PadLeft(current, 8) + Gutter + PadLeft(mean, 5) + Gutter + PadLeft(median, 7) + Gutter
      + PadLeft(max, 4) + Gutter;
    var last := PadLeft(min, 4);
    assert (first + middle + last)[..|name|] == first[..|name|];
    assert (first + middle + last)[|first + middle + last| - |min|..] == last[|last| - |min|..];
    first + middle + last
  }

  /**
   * Where each cell sits: the name left-aligned in the name column, then each
   * number after a two-space gutter, right-aligned in its own column.
   */
  lemma RowCells(name: string, current: string, mean: string, median: string, max: string, min: string,
                 nameWidth: nat)
    ensures var row := Row(name, current, mean, median, max, min, nameWidth);
      var n, c, a := AtLeast(|name|, nameWidth), AtLeast(|current|, 8), AtLeast(|mean|, 5);
      var d, x := AtLeast(|median|, 7), AtLeast(|max|, 4);
      && row[..n] == PadRight(name, nameWidth)
      && row[n..n + 2 + c] == Gutter + PadLeft(current, 8)
      && row[n + 2 + c..n + 4 + c + a] == Gutter + PadLeft(mean, 5)
      && row[n + 4 + c + a..n + 6 + c + a + d] == Gutter + PadLeft(median, 7)
      && row[n + 6 + c + a + d..n + 8 + c + a + d + x] == Gutter + PadLeft(max, 4)
      && row[n + 8 + c + a + d + x..] == Gutter + PadLeft(min, 4)
  {
    var p0, p1, p2 := PadRight(name, nameWidth), Gutter + PadLeft(current, 8), Gutter + PadLeft(mean, 5);
    var p3, p4, p5 := Gutter + PadLeft(median, 7), Gutter + PadLeft(max, 4), Gutter + PadLeft(min, 4);
    RowParts(name, current, mean, median, max, min, nameWidth);
    assert |p0| == AtLeast(|name|, nameWidth) && |p1| == AtLeast(|current|, 8) + 2 && |p2| == AtLeast(|mean|, 5) + 2;
    assert |p3| == AtLeast(|median|, 7) + 2 && |p4| == AtLeast(|max|, 4) + 2;
    SixParts(p0, p1, p2, p3, p4, p5);
  }

  /** A row is the name cell followed by five cells, each a gutter and a right-aligned number. */
  lemma RowParts(name: string, current: string, mean: string, median: string, max: string, min: string,
                 nameWidth: nat)
    ensures Row(name, current, mean, median, max, min, nameWidth)
      == PadRight(name, nameWidth) + (Gutter + PadLeft(current, 8)) + (Gutter + PadLeft(mean, 5))
        + (Gutter + PadLeft(median, 7)) + (Gutter + PadLeft(max, 4)) + (Gutter + PadLeft(min, 4))
  {
    Regroup(PadRight(name, nameWidth), Gutter, PadLeft(current, 8), PadLeft(mean, 5), PadLeft(median, 7),
      PadLeft(max, 4), PadLeft(min, 4));
  }

  /** Regrouping Row's concatenation cell by cell. */
  lemma Regroup(n: string, g: string, c: string, a: string, d: string, x: string, m: string)
    ensures n + (g + c + g + a + g + d + g + x + g) + m == n + (g + c) + (g + a) + (g + d) + (g + x) + (g + m)
  {
  }

  /** The header: the six headings in the row format, as wide as the name column (at least 4) plus 38. */
  function Header(nameWidth: nat): (h: string)
    ensures h == Row("name", "current", "mean", "median", "max", "min", nameWidth)
    ensures |h| == AtLeast(4, nameWidth) + 38
  {
    Row("name", "current", "mean", "median", "max", "min", nameWidth)
  }

  /** A data row: the entry's name and its five numbers, as `str()` writes them, in the row format. */
  function EntryRow(e: StatsEntry, nameWidth: nat): (row: string)
    ensures row == Row(e.name, IntToString(e.current), IntToString(e.mean), IntToString(e.median),
      IntToString(e.max), IntToString(e.min), nameWidth)
    ensures Fits(e) ==> |row| == AtLeast(|e.name|, nameWidth) + 38
    ensures |e.name| + |IntToString(e.min)| <= |row|
    ensures row[..|e.name|] == e.name && row[|row| - |IntToString(e.min)|..] == IntToString(e.min)
  {
    var current, mean, median := IntToString(e.current), IntToString(e.mean), IntToString(e.median);
    var max, min := IntToString(e.max), IntToString(e.min);
    assert Fits(e) ==>
      AtLeast(|current|, 8) + AtLeast(|mean|, 5) + AtLeast(|median|, 7) + AtLeast(|max|, 4) + AtLeast(|min|, 4) == 28;
    Row(e.name, current, mean, median, max, min, nameWidth)
  }

  /** Header, dash rule, then one row per entry. */
  function FormatStats(entries: seq<StatsEntry>, nameWidth: nat): (lines: seq<string>)
    ensures |lines| == |entries| + 2
    ensures lines[0] == Header(nameWidth)
    ensures |lines[1]| == |lines[0]| && forall i :: 0 <= i < |lines[1]| ==> lines[1][i] == '-'
    ensures forall k :: 0 <= k < |entries| ==> lines[k + 2] == EntryRow(entries[k], nameWidth)
  {
    var header := Header(nameWidth);
    var rule := Repeat('-', |header|);
    assert |rule| == |header|;
    var rows := DataRows(entries, nameWidth);
    var lines := [header, rule] + rows;
    assert lines[0] == header && lines[1] == rule;
    assert forall k :: 0 <= k < |entries| ==> lines[k + 2] == rows[k];
    lines
  }

  /** One row per entry, in order. */
  function DataRows(entries: seq<StatsEntry>, nameWidth: nat): (rows: seq<string>)
    ensures |rows| == |entries|
    ensures forall k :: 0 <= k < |entries| ==> rows[k] == EntryRow(entries[k], nameWidth)
  {
    seq(|entries|, k requires 0 <= k < |entries| => EntryRow(entries[k], nameWidth))
  }

  /** `max(map(len, names))` in show_stats: the longest name. */
  function NameWidth(entries: seq<StatsEntry>): (w: nat)
    requires |entries| > 0
    ensures forall k :: 0 <= k < |entries| ==> |entries[k].name| <= w
    ensures exists k :: 0 <= k < |entries| && |entries[k].name| == w
  {
    var lengths := seq(|entries|, k requires 0 <= k < |entries| => |entries[k].name|);
    var m := Max(lengths);
    assert forall k :: 0 <= k < |entries| ==> lengths[k] == |entries[k].name|;
    assert exists k :: 0 <= k < |lengths| && lengths[k] == m;
    m
  }

  /** Every number of the entry fits in its column. */
  predicate Fits(e: StatsEntry) {
    |IntToString(e.current)| <= 8 && |IntToString(e.mean)| <= 5 && |IntToString(e.median)| <= 7
    && |IntToString(e.max)| <= 4 && |IntToString(e.min)| <= 4
  }

  /**
   * Rows line up with the header and the rule when the name column is at
   * least as wide as "name" and every name and number fits its column.
   */
  lemma RowsMatchHeader(entries: seq<StatsEntry>, nameWidth: nat)
    requires nameWidth >= 4
    requires forall k :: 0 <= k < |entries| ==> |entries[k].name| <= nameWidth && Fits(entries[k])
    ensures var lines := FormatStats(entries, nameWidth);
      forall k :: 0 <= k < |lines| ==> |lines[k]| == nameWidth + 38
  {
    var lines := FormatStats(entries, nameWidth);
    forall i | 2 <= i < |lines| ensures |lines[i]| == nameWidth + 38 {
      assert lines[i] == EntryRow(entries[i - 2], nameWidth);
    }
  }

  /** show_stats without the printing: the table, or why there is none. */
  function ShowStats(data: seq<Entry>, today: Date): (r: Result<seq<string>, Error>)
    requires Valid(today) && DistinctNames(data)
    ensures |data| == 0 ==> r == Err(NoEntries)
    ensures r.Ok? <==> |data| > 0 && GenerateStatsEntries(data, today).Ok?
    ensures r.Ok? ==> |r.value| == |data| + 2
    ensures r.Err? && |data| > 0 ==> r == Err(GenerateStatsEntries(data, today).error)
    ensures var es := GenerateStatsEntries(data, today);
      r.Ok? && es.Ok? && |es.value| > 0 ==> r.value == FormatStats(es.value, NameWidth(es.value))
  {
    match GenerateStatsEntries(data, today)
    case Err(e) => Err(e)
    case Ok(entries) =>
      if |entries| == 0 then Err(NoEntries) else Ok(FormatStats(entries, NameWidth(entries)))
  }

  /**
   * With names of fewer than four characters the name column is narrower
   * than its header "name", so every data row is shorter than the header
   * and the dash rule, and the numeric columns no longer sit under their headings.
   */
  lemma ShortNamesMisalignRows()
    ensures var entries := [StatsEntry("Foo", 10, 10, 10, 10, 9)];
      var lines := FormatStats(entries, NameWidth(entries));
      |lines[2]| == |lines[0]| - 1 == |lines[1]| - 1
  {
    var entries := [StatsEntry("Foo", 10, 10, 10, 10, 9)];
    var w := NameWidth(entries);
    assert w == 3;
    assert IntToString(10) == "10" && IntToString(9) == "9";
  }

  /** The name column's width made at least as wide as its header. */
  function AlignedNameWidth(entries: seq<StatsEntry>): (w: nat)
    requires |entries| > 0
    ensures w >= 4 && forall k :: 0 <= k < |entries| ==> |entries[k].name| <= w
    ensures w == 4 || exists k :: 0 <= k < |entries| && |entries[k].name| == w
  {
    AtLeast(NameWidth(entries), 4)
  }

  /** With the widened name column every row, the header and the rule are equally wide. */
  lemma AlignedRowsMatchHeader(entries: seq<StatsEntry>)
    requires |entries| > 0
    ensures (forall k :: 0 <= k < |entries| ==> Fits(entries[k])) ==>
      var lines := FormatStats(entries, AlignedNameWidth(entries));
      forall k :: 0 <= k < |lines| ==> |lines[k]| == |lines[0]|
  {
    if forall k :: 0 <= k < |entries| ==> Fits(entries[k]) {
      RowsMatchHeader(entries, AlignedNameWidth(entries));
    }
  }

  /** show_stats with the name column widened to its header when every name is shorter. */
  function ShowStatsAligned(data: seq<Entry>, today: Date): (r: Result<seq<string>, Error>)
    requires Valid(today) && DistinctNames(data)
    ensures |data| == 0 ==> r == Err(NoEntries)
    ensures r.Ok? <==> |data| > 0 && GenerateStatsEntries(data, today).Ok?
    ensures r.Ok? ==> |r.value| == |data| + 2
    ensures r.Err? && |data| > 0 ==> r == Err(GenerateStatsEntries(data, today).error)
    ensures var es := GenerateStatsEntries(data, today);
      r.Ok? && es.Ok? && |es.value| > 0 ==> r.value == FormatStats(es.value, AlignedNameWidth(es.value))
    ensures var es := GenerateStatsEntries(data, today);
      r.Ok? && es.Ok? && (forall k :: 0 <= k < |es.value| ==> Fits(es.value[k])) ==>
        forall k :: 0 <= k < |r.value| ==> |r.value[k]| == |r.value[0]|
  {
    match GenerateStatsEntries(data, today)
    case Err(e) => Err(e)
    case Ok(entries) =>
      if |entries| == 0 then Err(NoEntries)
      else
        AlignedRowsMatchHeader(entries);
        Ok(FormatStats(entries, AlignedNameWidth(entries)))
  }
}
