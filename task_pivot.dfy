/** `rowToGrid` of index.js: the `[task, date, total, rounded]` entries of
    `output2` pivoted into one row per task (in first-seen order) and one
    column per calendar day from the earliest to the latest day; no totals. */
module TaskPivot {
  import opened Wrappers
  import opened Duration
  import opened Calendar
  import opened Seqs
  import opened Sorting
  import opened Normalise
  import opened TaskAggregate
  import opened TaskAggregateFacts
  import opened Grid
  import opened Pivot

  /** `_.pluck(rows, 0)`. */
  function TaskNames<N>(es: seq<TaskEntry<N>>): (ts: seq<N>)
    ensures |ts| == |es| && forall i :: 0 <= i < |es| ==> ts[i] == es[i].task
  {
    seq(|es|, i requires 0 <= i < |es| => es[i].task)
  }

  /** `_.pluck(rows, 1)`, as days. */
  function TaskDates<N>(es: seq<TaskEntry<N>>): (ds: seq<Date>)
    ensures |ds| == |es| && forall i :: 0 <= i < |es| ==> ds[i] == es[i].date
  {
    seq(|es|, i requires 0 <= i < |es| => es[i].date)
  }

  /** Every entry's day is one the normaliser produces. */
  predicate TaskGoodDates<N>(es: seq<TaskEntry<N>>) {
    forall i :: 0 <= i < |es| ==> GoodDate(es[i].date)
  }

  /** `row => row[1]`, the sort key of `_.sortBy`. */
  function TaskDayKey<N>(e: TaskEntry<N>): string {
    DateText(e.date)
  }

  /** An entry as the write loop reads it: the task picks the row, the day the
      column, and column 3 is the text written. */
  function TaskMark<N>(e: TaskEntry<N>): Mark<N> {
    Mark(e.task, e.date, TaskRounded(e))
  }

  function TaskMarks<N>(es: seq<TaskEntry<N>>): (ms: seq<Mark<N>>)
    ensures |ms| == |es|
  {
    seq(|es|, i requires 0 <= i < |es| => TaskMark(es[i]))
  }

  // ---------------------------------------------------------------------
  // The table, described cell by cell

  /** The cell of task `t` and day `d`: the rounded text of the last entry
      with that key, or the 0 the row was created with. */
  function TaskCellFor<N(==)>(es: seq<TaskEntry<N>>, t: N, d: Date): Cell {
    match LastTaskEntryFor(es, TaskKey(t, d))
    case Some(e) => Text(TaskRounded(e))
    case None => Zero
  }

  function TaskLine<N(==)>(es: seq<TaskEntry<N>>, t: N, range: seq<Date>): GridRow<N> {
    GridRow(t, seq(|range|, j requires 0 <= j < |range| => TaskCellFor(es, t, range[j])))
  }

  /** One row per task, in first-seen order. */
  function TaskBody<N(==, !new)>(es: seq<TaskEntry<N>>, range: seq<Date>): (b: seq<GridRow<N>>)
    ensures |b| == |Uniq(TaskNames(es))|
  {
    var ts := Uniq(TaskNames(es));
    seq(|ts|, i requires 0 <= i < |ts| => TaskLine(es, ts[i], range))
  }

  /** The days from the earliest to the latest day of the entries. */
  function TaskDayColumns<N(==, !new)>(es: seq<TaskEntry<N>>): seq<Date>
    requires es != [] && TaskGoodDates(es)
  {
    var ds := Uniq(TaskDates(es));
    assert ds[0] in TaskDates(es);
    DaysFrom(MinDate(ds), MaxDate(ds))
  }

  /** `columnHeaders` after `unshift('Task')`. */
  function TaskHeader(range: seq<Date>): seq<string> {
    ["Task"] + DateTexts(range)
  }

  /** What index.js's `rowToGrid` returns, or `None` where it throws on no entries. */
  function TaskTable<N(==, !new)>(es: seq<TaskEntry<N>>): Option<Table<N>>
    requires TaskGoodDates(es)
  {
    if es == [] then None
    else
      var range := TaskDayColumns(es);
      Some(Table(TaskHeader(range), TaskBody(es, range), None))
  }

  // ---------------------------------------------------------------------
  // Reading the last entry through the sort and the marks

  function TaskEntryKeyIs<N(==)>(k: TaskKey<N>): TaskEntry<N> -> bool {
    (e: TaskEntry<N>) => TaskEntryKey(e) == k
  }

  /** A filter that keeps every entry with key `k` keeps its last one. */
  lemma {:induction false} LastTaskEntryForFilter<N(!new)>(s: seq<TaskEntry<N>>, q: TaskEntry<N> -> bool, k: TaskKey<N>)
    requires forall e :: TaskEntryKey(e) == k ==> q(e)
    ensures LastTaskEntryFor(Filter(s, q), k) == LastTaskEntryFor(s, k)
    decreases |s|
  {
    if s != [] {
      var init := s[..|s| - 1];
      var x := s[|s| - 1];
      var fi := Filter(init, q);
      LastTaskEntryForFilter(init, q, k);
      assert s == init + [x];
      FilterAppend(init, [x], q);
      FilterCons(x, [], q);
      assert [x] + [] == [x];
      assert Filter(s, q) == fi + (if q(x) then [x] else []);
      LastTaskEntryForSnoc(init, x, k);
      if q(x) {
        LastTaskEntryForSnoc(fi, x, k);
      } else {
        assert TaskEntryKey(x) != k;
        assert Filter(s, q) == fi;
      }
    }
  }

  /** `_.sortBy` by day is stable and entries of one key share a day, so the
      sort keeps each key's last entry. */
  lemma TaskSortedLast<N(!new)>(s: seq<TaskEntry<N>>, k: TaskKey<N>)
    ensures LastTaskEntryFor(SortBy(s, TaskDayKey), k) == LastTaskEntryFor(s, k)
  {
    var q := TaskEntryKeyIs(k);
    SortByStable(s, TaskDayKey, q, DateText(k.date));
    LastTaskEntryForFilter(SortBy(s, TaskDayKey), q, k);
    LastTaskEntryForFilter(s, q, k);
  }

  /** The last mark of a task and a day is the last entry of that key. */
  lemma {:induction false} TaskMarksLast<N>(es: seq<TaskEntry<N>>, t: N, d: Date)
    ensures LastMark(TaskMarks(es), t, d) == match LastTaskEntryFor(es, TaskKey(t, d))
                                            case Some(e) => Some(TaskRounded(e))
                                            case None => None
    decreases |es|
  {
    if es != [] {
      var init := es[..|es| - 1];
      assert TaskMarks(es)[..|es| - 1] == TaskMarks(init);
      TaskMarksLast(init, t, d);
    }
  }

  /** Writing the sorted entries over the zero rows gives the described body. */
  lemma TaskBodyFromZero<N(!new)>(es: seq<TaskEntry<N>>, range: seq<Date>)
    ensures Stamp(ZeroRows(Uniq(TaskNames(es)), |range|), TaskMarks(SortBy(es, TaskDayKey)), range)
              == TaskBody(es, range)
  {
    var ts := Uniq(TaskNames(es));
    var z := ZeroRows(ts, |range|);
    var sorted := SortBy(es, TaskDayKey);
    var ms := TaskMarks(sorted);
    var out := Stamp(z, ms, range);
    var b := TaskBody(es, range);
    forall i | 0 <= i < |ts|
      ensures out[i] == b[i]
    {
      StampRow(z, ms, range, i);
      forall j | 0 <= j < |range|
        ensures out[i].cells[j] == TaskCellFor(es, ts[i], range[j])
      {
        StampCell(z, ms, range, i, j);
        TaskMarksLast(sorted, ts[i], range[j]);
        TaskSortedLast(es, TaskKey(ts[i], range[j]));
      }
    }
  }

  /** `rowToGrid` of index.js. */
  method RowToGridTasks<N(==, !new)>(es: seq<TaskEntry<N>>) returns (t: Option<Table<N>>)
    requires TaskGoodDates(es)
    ensures t == TaskTable(es)
  {
    if es == [] {
      return None;
    }
    var uniqueDates := Uniq(TaskDates(es));
    var uniqueTasks := Uniq(TaskNames(es));
    assert uniqueDates[0] in TaskDates(es);
    var range := DayRange(MinDate(uniqueDates), MaxDate(uniqueDates));
    var columnHeaders := ["Task"] + DateTexts(range);
    var output := PushZeroRows([], uniqueTasks, |range|);
    var sortedRows := SortBy(es, TaskDayKey);
    output := ApplyWrites(output, TaskMarks(sortedRows), range);
    assert [] + ZeroRows(uniqueTasks, |range|) == ZeroRows(uniqueTasks, |range|);
    TaskBodyFromZero(es, range);
    t := Some(Table(columnHeaders, output, None));
  }

  // ---------------------------------------------------------------------
  // What the table shows

  /** Every row has one cell per day: the header has one more column. */
  lemma TaskBodyWidth<N(!new)>(es: seq<TaskEntry<N>>, range: seq<Date>)
    ensures forall i :: 0 <= i < |TaskBody(es, range)| ==> |TaskBody(es, range)[i].cells| == |range|
    ensures |TaskHeader(range)| == |range| + 1
  {
  }

  /** There is exactly one row per task that some entry has. */
  lemma TaskBodyNames<N(!new)>(es: seq<TaskEntry<N>>, range: seq<Date>, t: N)
    ensures NoDup(Names(TaskBody(es, range)))
    ensures t in Names(TaskBody(es, range)) <==> exists i :: 0 <= i < |es| && es[i].task == t
  {
    var ts := Uniq(TaskNames(es));
    assert Names(TaskBody(es, range)) == ts;
    if exists i :: 0 <= i < |es| && es[i].task == t {
      var i :| 0 <= i < |es| && es[i].task == t;
      assert TaskNames(es)[i] == t;
    }
    if t in TaskNames(es) {
      var i :| 0 <= i < |es| && TaskNames(es)[i] == t;
    }
  }

  /** Every entry's day has a column. */
  lemma TaskEveryDayHasColumn<N(!new)>(es: seq<TaskEntry<N>>, i: nat)
    requires TaskGoodDates(es) && i < |es|
    ensures es[i].date in TaskDayColumns(es)
  {
    var ds := Uniq(TaskDates(es));
    assert TaskDates(es)[i] == es[i].date;
    assert ds[0] in TaskDates(es);
    assert es[i].date in TaskDates(es);
    assert es[i].date in ds;
    var m :| 0 <= m < |ds| && ds[m] == es[i].date;
    DaysFromShape(MinDate(ds), MaxDate(ds));
  }

  /** A cell reads back as the quarter-rounded hours of the key's last entry,
      as NaN when those hours are not a number, and as 0 when there is no entry. */
  lemma TaskCellHours<N>(es: seq<TaskEntry<N>>, t: N, d: Date)
    ensures CellHours(TaskCellFor(es, t, d)) == match LastTaskEntryFor(es, TaskKey(t, d))
                                                case Some(e) => (if e.hours.NaN? then NaN else Hundredths(QuarterRound(e.hours.n)))
                                                case None => Hundredths(0)
  {
    match LastTaskEntryFor(es, TaskKey(t, d))
    case Some(e) =>
      if e.hours.NaN? {
        NaNStaysNaN();
      } else {
        RoundedTextDenotes(e.hours.n);
      }
    case None =>
  }
}
