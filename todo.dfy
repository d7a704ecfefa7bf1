/**
 * generate_todo_entries, format_todo and show_todo: the items still being
 * updated (neither complete nor on hiatus), ranked by the days since their
 * last update, most overdue first, under a "TODO" banner as wide as the
 * widest line.
 */
module Todo {
  import opened Wrappers
  import opened Text
  import opened Numeric
  import opened Dates
  import opened Intervals
  import opened Dataset

  /** (name, number of the next update, days since the last update). */
  datatype TodoEntry = TodoEntry(name: string, next: int, staleness: int)

  predicate IsActive(e: Entry) {
    !e.item.complete && !e.item.hiatus
  }

  /** The items the todo list considers, in data order. */
  function Active(data: seq<Entry>): (r: seq<Entry>)
    ensures |r| <= |data|
    ensures forall k :: 0 <= k < |r| ==> IsActive(r[k])
  {
    if |data| == 0 then []
    else if IsActive(data[0]) then [data[0]] + Active(data[1..])
    else Active(data[1..])
  }

  /** One item is kept, alone, exactly when it is neither complete nor on hiatus. */
  lemma ActiveSingle(e: Entry)
    ensures Active([e]) == if IsActive(e) then [e] else []
  {
    assert [e][1..] == [];
  }

  /**
   * Filtering distributes over concatenation: the kept items of a + b are
   * those of a, then those of b, so the filter keeps data order.
   */
  lemma {:induction false} ActiveAppend(a: seq<Entry>, b: seq<Entry>)
    ensures Active(a + b) == Active(a) + Active(b)
  {
    if |a| == 0 {
      assert a + b == b;
    } else {
      assert (a + b)[1..] == a[1..] + b;
      ActiveAppend(a[1..], b);
    }
  }

  /** An item is considered exactly when it is neither complete nor on hiatus. */
  lemma {:induction false} ActiveMembers(data: seq<Entry>, e: Entry)
    ensures e in Active(data) <==> e in data && IsActive(e)
  {
    if |data| > 0 {
      ActiveMembers(data[1..], e);
      assert data == [data[0]] + data[1..];
    }
  }

  /** Distinct names stay distinct, so each considered item appears once. */
  lemma {:induction false} ActiveDistinct(data: seq<Entry>)
    requires DistinctNames(data)
    ensures DistinctNames(Active(data))
  {
    if |data| > 0 {
      ActiveDistinct(data[1..]);
      var rest := Active(data[1..]);
      if IsActive(data[0]) {
        forall k | 0 <= k < |rest| ensures rest[k].name != data[0].name {
          ActiveMembers(data[1..], rest[k]);
          var j :| 0 <= j < |data[1..]| && data[1..][j] == rest[k];
          assert data[j + 1] == rest[k];
        }
        var r := [data[0]] + rest;
        forall i, j | 0 <= i < j < |r| ensures r[i].name != r[j].name {
          if i > 0 {
            assert r[i] == rest[i - 1] && r[j] == rest[j - 1];
          }
        }
      }
    }
  }

  /** The todo tuple of one considered item, or the exception computing it raises. */
  function TodoOf(e: Entry, today: Date): (r: Result<TodoEntry, Error>)
    requires Valid(today)
    ensures r.Ok? <==> ParseDates(e.item.stats).Ok? && |e.item.stats| > 0
    ensures ParseDates(e.item.stats).Err? ==> r == Err(MalformedDate(e.name, ParseDates(e.item.stats).error))
    ensures ParseDates(e.item.stats).Ok? && |e.item.stats| == 0 ==> r == Err(EmptyHistory(e.name))
    ensures r.Ok? ==> var dates := ParseDates(e.item.stats).value;
      && r.value.name == e.name
      && r.value.next == |e.item.stats| + 1
      && r.value.staleness == DayNumber(today) - DayNumber(dates[|dates| - 1])
  {
    match GenerateIntervals(e.item.stats, today)
    case Err(s) => Err(MalformedDate(e.name, s))
    case Ok(i) =>
      if |i| == 0 then Err(EmptyHistory(e.name))
      else Ok(TodoEntry(e.name, |e.item.stats| + 1, i[|i| - 1]))
  }

  /** The considered items' tuples in data order; the first failure aborts. */
  function GenerateTodoEntries(data: seq<Entry>, today: Date): (r: Result<seq<TodoEntry>, Error>)
    requires Valid(today)
    ensures r.Ok? ==> |r.value| == |Active(data)|
    ensures r.Ok? ==> forall k :: 0 <= k < |r.value| ==> TodoOf(Active(data)[k], today) == Ok(r.value[k])
    ensures r.Err? ==>
      exists k :: (0 <= k < |Active(data)| && TodoOf(Active(data)[k], today) == Err(r.error)
        && (forall j :: 0 <= j < k ==> TodoOf(Active(data)[j], today).Ok?))
  {
    var active := Active(data);
    Collect(active, e => TodoOf(e, today))
  }

  lemma TodoNamesFollowActive(data: seq<Entry>, today: Date)
    requires Valid(today)
    ensures var r := GenerateTodoEntries(data, today);
      r.Ok? ==> forall k :: 0 <= k < |r.value| ==> r.value[k].name == Active(data)[k].name
  {
    var r := GenerateTodoEntries(data, today);
    if r.Ok? {
      forall k | 0 <= k < |r.value| ensures r.value[k].name == Active(data)[k].name {
        assert TodoOf(Active(data)[k], today) == Ok(r.value[k]);
      }
    }
  }

  /**
   * Each item that is neither complete nor on hiatus gets exactly one todo
   * entry, and no other item gets one.
   */
  lemma TodoEntriesOncePerActiveItem(data: seq<Entry>, today: Date)
    requires Valid(today) && DistinctNames(data)
    ensures var r := GenerateTodoEntries(data, today);
      r.Ok? ==>
        && (forall e :: e in data ==> (IsActive(e) <==> exists k :: 0 <= k < |r.value| && r.value[k].name == e.name))
        && (forall i, j :: 0 <= i < j < |r.value| ==> r.value[i].name != r.value[j].name)
  {
    var r := GenerateTodoEntries(data, today);
    if r.Ok? {
      TodoNamesFollowActive(data, today);
      NamedAfterActive(data, r.value);
    }
  }

  /** Entries named after the considered items, one each, in their order. */
  lemma NamedAfterActive(data: seq<Entry>, ts: seq<TodoEntry>)
    requires DistinctNames(data)
    requires |ts| == |Active(data)| && forall k :: 0 <= k < |ts| ==> ts[k].name == Active(data)[k].name
    ensures forall e :: e in data ==> (IsActive(e) <==> exists k :: 0 <= k < |ts| && ts[k].name == e.name)
    ensures forall i, j :: 0 <= i < j < |ts| ==> ts[i].name != ts[j].name
  {
    var active := Active(data);
    ActiveDistinct(data);
    forall e | e in data
      ensures IsActive(e) <==> exists k :: 0 <= k < |ts| && ts[k].name == e.name
    {
      ActiveMembers(data, e);
      if IsActive(e) {
        var k :| 0 <= k < |active| && active[k] == e;
        assert ts[k].name == e.name;
      }
      if exists k :: 0 <= k < |ts| && ts[k].name == e.name {
        var k :| 0 <= k < |ts| && ts[k].name == e.name;
        ActiveMembers(data, active[k]);
        SameNameSameEntry(data, e, active[k]);
      }
    }
  }

  lemma SameNameSameEntry(data: seq<Entry>, a: Entry, b: Entry)
    requires DistinctNames(data) && a in data && b in data && a.name == b.name
    ensures a == b
  {
    var i :| 0 <= i < |data| && data[i] == a;
    var j :| 0 <= j < |data| && data[j] == b;
  }

  predicate NonIncreasing(s: seq<TodoEntry>) {
    forall i, j :: 0 <= i < j < |s| ==> s[i].staleness >= s[j].staleness
  }

  /** The entries of staleness v, in their order. */
  function WithStaleness(s: seq<TodoEntry>, v: int): seq<TodoEntry>
  {
    if |s| == 0 then []
    else (if s[0].staleness == v then [s[0]] else []) + WithStaleness(s[1..], v)
  }

  function InsertByStaleness(x: TodoEntry, s: seq<TodoEntry>): (r: seq<TodoEntry>)
    requires NonIncreasing(s)
    ensures NonIncreasing(r)
    ensures multiset(r) == multiset(s) + multiset{x}
    decreases |s|, 0
  {
    if |s| == 0 || x.staleness >= s[0].staleness then
      var r := [x] + s;
      assert forall i :: 1 <= i < |r| ==> r[i] == s[i - 1];
      r
    else
      var rest := InsertByStaleness(x, s[1..]);
      assert s == [s[0]] + s[1..];
      InsertKeepsBound(x, s[1..], s[0].staleness);
      var r := [s[0]] + rest;
      assert forall i :: 1 <= i < |r| ==> r[i] == rest[i - 1];
      r
  }

  /** An upper bound on every staleness stays one after an insertion. */
  lemma {:induction false} InsertKeepsBound(x: TodoEntry, s: seq<TodoEntry>, bound: int)
    requires NonIncreasing(s) && x.staleness <= bound
    requires forall k :: 0 <= k < |s| ==> s[k].staleness <= bound
    ensures forall k :: 0 <= k < |InsertByStaleness(x, s)| ==> InsertByStaleness(x, s)[k].staleness <= bound
    decreases |s|, 1
  {
    if |s| > 0 && x.staleness < s[0].staleness {
      InsertKeepsBound(x, s[1..], bound);
    }
  }

  /** Inserting goes in front of every entry of equal staleness. */
  lemma {:induction false} InsertByStalenessStable(x: TodoEntry, s: seq<TodoEntry>, v: int)
    requires NonIncreasing(s)
    ensures WithStaleness(InsertByStaleness(x, s), v)
      == (if x.staleness == v then [x] else []) + WithStaleness(s, v)
  {
    var head := if x.staleness == v then [x] else [];
    if |s| == 0 || x.staleness >= s[0].staleness {
      assert ([x] + s)[1..] == s;
      assert WithStaleness([x] + s, v) == head + WithStaleness(s, v);
    } else {
      var rest := InsertByStaleness(x, s[1..]);
      var first := if s[0].staleness == v then [s[0]] else [];
      assert ([s[0]] + rest)[1..] == rest;
      assert WithStaleness([s[0]] + rest, v) == first + WithStaleness(rest, v);
      InsertByStalenessStable(x, s[1..], v);
      assert WithStaleness(rest, v) == head + WithStaleness(s[1..], v);
      assert WithStaleness(s, v) == first + WithStaleness(s[1..], v);
      var tail := WithStaleness(s[1..], v);
      if x.staleness == v {
        assert first == [];
        assert first + (head + tail) == head + (first + tail);
      } else {
        assert head == [];
        assert first + (head + tail) == head + (first + tail);
      }
    }
  }

  /**
   * `sorted(entries, key=itemgetter(2), reverse=True)`: most stale first,
   * and a permutation of its input.
   */
  function SortByStaleness(s: seq<TodoEntry>): (r: seq<TodoEntry>)
    ensures NonIncreasing(r)
    ensures multiset(r) == multiset(s)
    ensures |r| == |s|
  {
    if |s| == 0 then []
    else
      assert s == [s[0]] + s[1..];
      InsertByStaleness(s[0], SortByStaleness(s[1..]))
  }

  /** Python's sort is stable: entries of equal staleness keep their relative order. */
  lemma {:induction false} SortByStalenessStable(s: seq<TodoEntry>, v: int)
    ensures WithStaleness(SortByStaleness(s), v) == WithStaleness(s, v)
  {
    if |s| > 0 {
      SortByStalenessStable(s[1..], v);
      InsertByStalenessStable(s[0], SortByStaleness(s[1..]), v);
    }
  }

  const Marker := ">> "
  const Indent := "   "

  /**
   * The line for the entry ranked `rank`: the marker on rank 1 and an indent
   * otherwise, the rank, then staleness, name and next update number in the
   * places the format string of format_todo gives them.
   */
  function TodoLine(rank: nat, e: TodoEntry): (line: string)
    ensures |line| == 17 + |IntToString(rank)| + |IntToString(e.staleness)| + |e.name| + |IntToString(e.next)|
    ensures Ranked(line, rank)
    ensures var at := 5 + |IntToString(rank)|; var st := IntToString(e.staleness);
      line[at..at + |st| + 4] == "(+" + st + ") "
    ensures var nx := IntToString(e.next);
      line[|line| - |nx| - 8..] == " (upd. " + nx + ")"
    ensures var at := 9 + |IntToString(rank)| + |IntToString(e.staleness)|;
      line[at..at + |e.name|] == e.name
  {
    var prefix := if rank == 1 then Marker else Indent;
    var rk, st, nx := IntToString(rank), IntToString(e.staleness), IntToString(e.next);
    var lead, stale, upd := rk + ". ", "(+" + st + ") ", " (upd. " + nx + ")";
    FiveParts(prefix, lead, stale, e.name, upd);
    prefix + lead + stale + e.name + upd
  }

  /** A todo line of the given rank: marker or indent, then the rank and a period. */
  predicate Ranked(line: string, rank: nat) {
    && |line| >= 20
    && line[..3] == (if rank == 1 then Marker else Indent)
    && |line| >= 3 + |IntToString(rank)| + 2
    && line[3..3 + |IntToString(rank)| + 2] == IntToString(rank) + ". "
  }

  /** The lines for entries already in ranked order. */
  function NumberedLines(sorted: seq<TodoEntry>): (lines: seq<string>)
    ensures |lines| == |sorted|
    ensures forall k :: 0 <= k < |lines| ==> lines[k] == TodoLine(k + 1, sorted[k])
  {
    seq(|sorted|, k requires 0 <= k < |sorted| => TodoLine(k + 1, sorted[k]))
  }

  /** format_todo: one numbered line per entry, most stale first. */
  function FormatTodo(entries: seq<TodoEntry>): (lines: seq<string>)
    ensures |lines| == |entries|
    ensures var sorted := SortByStaleness(entries);
      forall k :: 0 <= k < |lines| ==> lines[k] == TodoLine(k + 1, sorted[k])
  {
    var sorted := SortByStaleness(entries);
    NumberedLines(sorted)
  }

  /** Ranks run from 1 and only the first line carries the marker. */
  lemma FormatTodoRanks(entries: seq<TodoEntry>)
    ensures var lines := FormatTodo(entries);
      forall k :: 0 <= k < |lines| ==> Ranked(lines[k], k + 1)
  {
    var lines := FormatTodo(entries);
    var sorted := SortByStaleness(entries);
    forall k | 0 <= k < |lines| ensures Ranked(lines[k], k + 1) {
      assert lines[k] == TodoLine(k + 1, sorted[k]);
    }
  }

  /** `'=' * (w // 2) + ' TODO ' + '=' * ceil(w / 2)` with `w = maxLen - 6`. */
  function Banner(maxLen: int): (b: string)
    ensures |b| == (if maxLen >= 6 then maxLen else 6)
    ensures var left := if maxLen >= 6 then (maxLen - 6) / 2 else 0;
      && b[left..left + 6] == " TODO "
      && (forall i :: 0 <= i < left ==> b[i] == '=')
      && (forall i :: left + 6 <= i < |b| ==> b[i] == '=')
      && left <= |b| - left - 6 <= left + 1
  {
    var w := maxLen - 6;
    var left := Repeat('=', w / 2);
    var right := Repeat('=', (w + 1) / 2);
    var b := left + " TODO " + right;
    assert b[|left|..|left| + 6] == " TODO ";
    b
  }

  function MaxLength(lines: seq<string>): (m: nat)
    requires |lines| > 0
    ensures forall k :: 0 <= k < |lines| ==> |lines[k]| <= m
    ensures exists k :: 0 <= k < |lines| && |lines[k]| == m
  {
    var lengths := seq(|lines|, k requires 0 <= k < |lines| => |lines[k]|);
    var m := Max(lengths);
    assert forall k :: 0 <= k < |lines| ==> lengths[k] == |lines[k]|;
    assert exists k :: 0 <= k < |lengths| && lengths[k] == m;
    m
  }

  /** The banner is exactly as wide as the widest todo line. */
  lemma BannerFitsLines(lines: seq<string>)
    requires |lines| > 0 && forall k :: 0 <= k < |lines| ==> |lines[k]| >= 20
    ensures |Banner(MaxLength(lines))| == MaxLength(lines)
  {
    var k :| 0 <= k < |lines| && |lines[k]| == MaxLength(lines);
  }

  /** The ranked lines under a banner as wide as the widest of them. */
  function UnderBanner(lines: seq<string>): (out: seq<string>)
    requires |lines| > 0 && forall k :: 0 <= k < |lines| ==> |lines[k]| >= 20
    ensures |out| == |lines| + 1 && out[1..] == lines
    ensures out[0] == Banner(MaxLength(lines)) && |out[0]| == MaxLength(lines)
  {
    BannerFitsLines(lines);
    var out := [Banner(MaxLength(lines))] + lines;
    assert out[1..] == lines;
    out
  }

  /** show_todo without the printing: the banner followed by the ranked lines. */
  function ShowTodo(data: seq<Entry>, today: Date): (r: Result<seq<string>, Error>)
    requires Valid(today)
    ensures |Active(data)| == 0 ==> r == Err(NoEntries)
    ensures r.Ok? <==> |Active(data)| > 0 && GenerateTodoEntries(data, today).Ok?
    ensures r.Ok? ==> |r.value| == |Active(data)| + 1
    ensures r.Ok? ==> r.value[1..] == FormatTodo(GenerateTodoEntries(data, today).value)
    ensures r.Ok? ==> r.value[0] == Banner(MaxLength(r.value[1..]))
    ensures r.Ok? ==> |r.value[0]| == MaxLength(r.value[1..])
    ensures r.Err? && |Active(data)| > 0 ==> r.error == GenerateTodoEntries(data, today).error
  {
    match GenerateTodoEntries(data, today)
    case Err(e) => Err(e)
    case Ok(entries) =>
      var lines := FormatTodo(entries);
      if |lines| == 0 then Err(NoEntries)
      else
        FormatTodoRanks(entries);
        assert forall k :: 0 <= k < |lines| ==> Ranked(lines[k], k + 1);
        Ok(UnderBanner(lines))
  }
}
