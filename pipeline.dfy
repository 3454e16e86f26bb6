/** `processCSV` of each revision: drop the header record, normalise and sort
    the data records, run the aggregation loop and pivot its entries. When the
    callback throws, the `catch` block prints a message and the method returns
    nothing, which is `None` here. */
module Pipeline {
  import opened Wrappers
  import opened Duration
  import opened Calendar
  import opened Seqs
  import opened Sorting
  import opened Runs
  import opened Normalise
  import opened Aggregate
  import opened AggregateFacts
  import opened TaskAggregate
  import opened TaskAggregateFacts
  import opened Grid
  import opened Pivot
  import opened TaskPivot

  /** The records fast-csv hands to `processCSV`, the header record first. */
  type Input = seq<RawRow>

  /** What is left after `input.shift()` removes the header record. */
  function Data(input: Input): (data: seq<RawRow>)
    ensures |data| == if input == [] then 0 else |input| - 1
  {
    if input == [] then [] else input[1..]
  }

  /** Every data record has the five fields the loop reads. */
  predicate Complete(data: seq<RawRow>) {
    forall i :: 0 <= i < |data| ==> |data[i]| >= 5
  }

  /** moment reads the START field of every data record that has all five
      fields; for any other text it yields "Invalid date", which is not modelled. */
  predicate StampsReadable(input: Input) {
    forall i :: 0 <= i < |Data(input)| && |Data(input)[i]| >= 5 ==> StampOk(Data(input)[i][2])
  }

  /** `processCSV` ends in its `catch` block: with no data record `_.min` of
      no days is not a date and `.format` throws; a record without its HOURS
      field makes `parseHours(undefined)` throw. */
  predicate Fails(input: Input) {
    Data(input) == [] || !Complete(Data(input))
  }

  /** Without a failure, every data record is one the normaliser reads. */
  lemma ReadableData(input: Input)
    requires StampsReadable(input) && Complete(Data(input))
    ensures forall i :: 0 <= i < |Data(input)| ==> Readable(Data(input)[i])
  {
  }

  // ---------------------------------------------------------------------
  // src/index.js and dist/entry.js

  /** `output1` of src/index.js and dist/entry.js: the normalised records, sorted. */
  function SortedRecords(input: Input): (rows: seq<Row<string>>)
    requires StampsReadable(input) && Complete(Data(input))
    ensures multiset(rows) == multiset(NormaliseAll(Data(input)))
    ensures forall i :: 0 <= i < |rows| ==> GoodDate(rows[i].date)
  {
    ReadableData(input);
    var rows := SortRows(NormaliseAll(Data(input)));
    SortedGood(NormaliseAll(Data(input)));
    rows
  }

  /** The sort keeps the days' good form. */
  lemma SortedGood(rows: seq<Row<string>>)
    requires forall i :: 0 <= i < |rows| ==> GoodDate(rows[i].date)
    ensures forall i :: 0 <= i < |SortRows(rows)| ==> GoodDate(SortRows(rows)[i].date)
  {
    var s := SortRows(rows);
    forall i | 0 <= i < |s|
      ensures GoodDate(s[i].date)
    {
      assert s[i] in multiset(rows);
    }
  }

  /** The `i`-th key of the entries is the key of the `i`-th entry. */
  lemma {:induction false} EntryKeysAt<N>(es: seq<Entry<N>>, i: nat)
    requires i < |es|
    ensures EntryKeys(es)[i] == EntryKey(es[i])
    decreases |es|
  {
    if i < |es| - 1 {
      EntryKeysAt(es[..|es| - 1], i);
    }
  }

  /** Every entry of `output2` has the key of some row. */
  lemma ExpectedFromRows<N(!new)>(r: seq<Row<N>>, i: nat)
    requires i < |Expected(r)|
    ensures EntryKey(Expected(r)[i]) in Keys(r)
  {
    var ks := Keys(r);
    var k := EntryKey(Expected(r)[i]);
    ExpectedKeys(r);
    EntryKeysAt(Expected(r), i);
    assert k in Collapse(ks) + (if FinalGroupLong(r) then [KeyOf(r[|r| - 1])] else []);
    if k in Collapse(ks) {
      CollapseMembers(ks, k);
    } else {
      assert k == KeyOf(r[|r| - 1]) == ks[|r| - 1];
    }
  }

  /** The entries' days are the rows' days. */
  lemma ExpectedGoodDates<N(!new)>(r: seq<Row<N>>)
    requires forall i :: 0 <= i < |r| ==> GoodDate(r[i].date)
    ensures GoodDates(Expected(r))
  {
    var es := Expected(r);
    forall i | 0 <= i < |es|
      ensures GoodDate(es[i].date)
    {
      ExpectedFromRows(r, i);
      var m :| 0 <= m < |r| && Keys(r)[m] == EntryKey(es[i]);
    }
  }

  /** `output2` of src/index.js and dist/entry.js: empty exactly when there is no data record. */
  function SrcEntries(input: Input): (es: seq<Entry<string>>)
    requires StampsReadable(input) && Complete(Data(input))
    ensures GoodDates(es)
    ensures es == [] <==> Data(input) == []
  {
    var rows := SortedRecords(input);
    ExpectedGoodDates(rows);
    Expected(rows)
  }

  /** What src/index.js's `processCSV` returns. */
  function ProcessedSrc(input: Input): (t: Option<Table<(string, string)>>)
    requires StampsReadable(input)
    ensures t.None? <==> Fails(input)
  {
    if Fails(input) then None else SrcTable(SrcEntries(input))
  }

  /** What dist/entry.js's `processCSV` returns. */
  function ProcessedDist(input: Input): (t: Option<Table<(string, string)>>)
    requires StampsReadable(input)
    ensures t.None? <==> Fails(input)
  {
    if Fails(input) then None else DistTable(SrcEntries(input))
  }

  /** `processCSV` of src/index.js, with `rowToGrid` and its totals row. */
  method ProcessCsvSrc(input: Input) returns (t: Option<Table<(string, string)>>)
    requires StampsReadable(input)
    ensures t == ProcessedSrc(input)
  {
    var data := Data(input);
    if !Complete(data) {
      return None;
    }
    ReadableData(input);
    var output1 := SortRows(NormaliseAll(data));
    assert output1 == SortedRecords(input);
    var output2 := Summarise(output1, "");
    assert output2 == SrcEntries(input);
    t := RowToGridSrc(output2);
  }

  /** `processCSV` of dist/entry.js. */
  method ProcessCsvDist(input: Input) returns (t: Option<Table<(string, string)>>)
    requires StampsReadable(input)
    ensures t == ProcessedDist(input)
  {
    var data := Data(input);
    if !Complete(data) {
      return None;
    }
    ReadableData(input);
    var output1 := SortRows(NormaliseAll(data));
    assert output1 == SortedRecords(input);
    var output2 := Summarise(output1, "");
    assert output2 == SrcEntries(input);
    t := RowToGridDist(output2);
  }

  /** Project and task names without ',': the sort then puts equal keys side by side. */
  predicate PlainNames(input: Input) {
    forall i :: 0 <= i < |Data(input)| ==> |Data(input)[i]| >= 2 && ',' !in Data(input)[i][0] && ',' !in Data(input)[i][1]
  }

  /** With plain names, the sorted records are grouped by key. */
  lemma SortedGrouped(input: Input)
    requires StampsReadable(input) && Complete(Data(input)) && PlainNames(input)
    ensures Grouped(Keys(SortedRecords(input)))
  {
    ReadableData(input);
    var raw := NormaliseAll(Data(input));
    var rows := SortedRecords(input);
    forall i | 0 <= i < |rows|
      ensures ',' !in rows[i].project && ',' !in rows[i].task && GoodDate(rows[i].date)
    {
      assert rows[i] in multiset(raw);
      var m :| 0 <= m < |raw| && raw[m] == rows[i];
      assert raw[m] == NormaliseRow(Data(input)[m]);
    }
    SortedKeysContiguous(rows);
    ContiguousIsGrouped(Keys(rows));
  }

  /** The header of src/index.js's table: "Project", "Task", then each day of
      the range as text. */
  lemma SrcHeader(input: Input, j: nat)
    requires StampsReadable(input) && !Fails(input)
    requires j < |DayColumns(SrcEntries(input))|
    ensures var range := DayColumns(SrcEntries(input));
            var header := ProcessedSrc(input).value.header;
            |header| == |range| + 2 && header[..2] == ["Project", "Task"] && header[j + 2] == DateText(range[j])
  {
    var range := DayColumns(SrcEntries(input));
    assert DateTexts(range)[j] == DateText(range[j]);
  }

  /** The cell of row `i` and day column `j` of src/index.js's table: with
      plain names and no running sum carried from one project into the next,
      it shows the quarter-rounded total hours of all records of that project,
      task and day, and 0 where no record has them. */
  lemma SrcCell(input: Input, i: nat, j: nat)
    requires StampsReadable(input) && !Fails(input) && PlainNames(input)
    requires NoCarryAcrossProjects(SortedRecords(input))
    requires i < |ProcessedSrc(input).value.body| && j < |DayColumns(SrcEntries(input))|
    ensures var range := DayColumns(SrcEntries(input));
            var row := ProcessedSrc(input).value.body[i];
            var k := Key(row.name.0, row.name.1, range[j]);
            |row.cells| == |range|
            && row.cells[j] == if k in Keys(NormaliseAll(Data(input))) then Text(RoundHours(StringHours(KeySum(NormaliseAll(Data(input)), k)))) else Zero
  {
    SortedGrouped(input);
    BodyCellFromRecords(SortedRecords(input), NormaliseAll(Data(input)), DayColumns(SrcEntries(input)), i, j);
  }

  /** A cell of the pivoted loop output, over any range of days: the rounded
      sum of the records of its project, task and day, or 0 without one. */
  lemma BodyCellFromRecords(rows: seq<Row<string>>, records: seq<Row<string>>, range: seq<Date>, i: nat, j: nat)
    requires Grouped(Keys(rows)) && NoCarryAcrossProjects(rows) && multiset(rows) == multiset(records)
    requires i < |Body(Expected(rows), range)| && j < |range|
    ensures var row := Body(Expected(rows), range)[i];
            var k := Key(row.name.0, row.name.1, range[j]);
            |row.cells| == |range|
            && row.cells[j] == if k in Keys(records) then Text(RoundHours(StringHours(KeySum(records, k)))) else Zero
  {
    var row := Body(Expected(rows), range)[i];
    BodyCell(Expected(rows), range, i, j);
    CellFromRecords(rows, records, Key(row.name.0, row.name.1, range[j]));
  }

  /** Through the loop: once the sorted rows are grouped and no sum crosses a
      project, a key's cell shows the rounded sum of its records, in any order. */
  lemma CellFromRecords(rows: seq<Row<string>>, records: seq<Row<string>>, k: Key<string>)
    requires Grouped(Keys(rows)) && NoCarryAcrossProjects(rows) && multiset(rows) == multiset(records)
    ensures CellFor(Expected(rows), k.project, k.task, k.date)
              == if k in Keys(records) then Text(RoundHours(StringHours(KeySum(records, k)))) else Zero
  {
    LastEntryHoldsSum(rows, k);
    KeysPermutation(rows, records, k);
    KeySumPermutation(rows, records, k);
  }

  /** dist/entry.js's table has the same header and body as src/index.js's, and no totals row. */
  lemma DistMatchesSrc(input: Input)
    requires StampsReadable(input) && !Fails(input)
    ensures ProcessedDist(input).value.header == ProcessedSrc(input).value.header
    ensures ProcessedDist(input).value.body == ProcessedSrc(input).value.body
    ensures ProcessedDist(input).value.totals.None? && ProcessedSrc(input).value.totals.Some?
  {
  }

  // ---------------------------------------------------------------------
  // index.js

  /** `output1` of index.js: the records as `[task, day, hours]`, sorted. */
  function SortedTaskRecords(input: Input): (rows: seq<TaskRow<string>>)
    requires StampsReadable(input) && Complete(Data(input))
    ensures multiset(rows) == multiset(NormaliseTasks(Data(input)))
    ensures forall i :: 0 <= i < |rows| ==> GoodDate(rows[i].date)
  {
    ReadableData(input);
    SortedTaskGood(NormaliseTasks(Data(input)));
    SortTaskRows(NormaliseTasks(Data(input)))
  }

  /** The index.js sort keeps the days' good form. */
  lemma SortedTaskGood(rows: seq<TaskRow<string>>)
    requires forall i :: 0 <= i < |rows| ==> GoodDate(rows[i].date)
    ensures forall i :: 0 <= i < |SortTaskRows(rows)| ==> GoodDate(SortTaskRows(rows)[i].date)
  {
    var s := SortTaskRows(rows);
    forall i | 0 <= i < |s|
      ensures GoodDate(s[i].date)
    {
      assert s[i] in multiset(rows);
    }
  }

  lemma {:induction false} TaskEntryKeysAt<N>(es: seq<TaskEntry<N>>, i: nat)
    requires i < |es|
    ensures TaskEntryKeys(es)[i] == TaskEntryKey(es[i])
    decreases |es|
  {
    if i < |es| - 1 {
      TaskEntryKeysAt(es[..|es| - 1], i);
    }
  }

  /** Every entry of index.js's `output2` has the key of some row. */
  lemma ExpectedTasksFromRows<N(!new)>(r: seq<TaskRow<N>>, i: nat)
    requires i < |ExpectedTasks(r)|
    ensures TaskEntryKey(ExpectedTasks(r)[i]) in TaskKeys(r)
  {
    var ks := TaskKeys(r);
    var k := TaskEntryKey(ExpectedTasks(r)[i]);
    TaskExpectedKeys(r);
    TaskEntryKeysAt(ExpectedTasks(r), i);
    assert k in Collapse(ks) + (if TaskFinalLong(r) then [TaskKeyOf(r[|r| - 1])] else []);
    if k in Collapse(ks) {
      CollapseMembers(ks, k);
    } else {
      assert k == TaskKeyOf(r[|r| - 1]) == ks[|r| - 1];
    }
  }

  /** `output2` of index.js: empty exactly when there is no data record. */
  function TaskEntries(input: Input): (es: seq<TaskEntry<string>>)
    requires StampsReadable(input) && Complete(Data(input))
    ensures TaskGoodDates(es)
    ensures es == [] <==> Data(input) == []
  {
    var rows := SortedTaskRecords(input);
    ExpectedTasksGoodDates(rows);
    ExpectedTasks(rows)
  }

  /** The entries' days are the rows' days. */
  lemma ExpectedTasksGoodDates<N(!new)>(r: seq<TaskRow<N>>)
    requires forall i :: 0 <= i < |r| ==> GoodDate(r[i].date)
    ensures TaskGoodDates(ExpectedTasks(r))
  {
    var es := ExpectedTasks(r);
    forall i | 0 <= i < |es|
      ensures GoodDate(es[i].date)
    {
      ExpectedTasksFromRows(r, i);
      var m :| 0 <= m < |r| && TaskKeys(r)[m] == TaskEntryKey(es[i]);
    }
  }

  /** What index.js's `processCSV` returns. */
  function ProcessedTasks(input: Input): (t: Option<Table<string>>)
    requires StampsReadable(input)
    ensures t.None? <==> Fails(input)
  {
    if Fails(input) then None else TaskTable(TaskEntries(input))
  }

  /** `processCSV` of index.js. */
  method ProcessCsvTasks(input: Input) returns (t: Option<Table<string>>)
    requires StampsReadable(input)
    ensures t == ProcessedTasks(input)
  {
    var data := Data(input);
    if !Complete(data) {
      return None;
    }
    ReadableData(input);
    var output1 := SortTaskRows(NormaliseTasks(data));
    assert output1 == SortedTaskRecords(input);
    var output2 := SummariseTasks(output1, "");
    assert output2 == TaskEntries(input);
    t := RowToGridTasks(output2);
  }

  /** Task names without ',': the index.js sort then puts equal keys side by side. */
  predicate PlainTasks(input: Input) {
    forall i :: 0 <= i < |Data(input)| ==> |Data(input)[i]| >= 2 && ',' !in Data(input)[i][1]
  }

  lemma SortedTasksGrouped(input: Input)
    requires StampsReadable(input) && Complete(Data(input)) && PlainTasks(input)
    ensures Grouped(TaskKeys(SortedTaskRecords(input)))
  {
    ReadableData(input);
    var raw := NormaliseTasks(Data(input));
    var rows := SortedTaskRecords(input);
    forall i | 0 <= i < |rows|
      ensures ',' !in rows[i].task && GoodDate(rows[i].date)
    {
      assert rows[i] in multiset(raw);
      var m :| 0 <= m < |raw| && raw[m] == rows[i];
      assert raw[m] == NormaliseTaskRow(Data(input)[m]);
    }
    SortedTaskKeysContiguous(rows);
    ContiguousIsGrouped(TaskKeys(rows));
  }

  /** The header of index.js's table: "Task", then each day of the range as text. */
  lemma TaskHeaderAt(input: Input, j: nat)
    requires StampsReadable(input) && !Fails(input)
    requires j < |TaskDayColumns(TaskEntries(input))|
    ensures var range := TaskDayColumns(TaskEntries(input));
            var header := ProcessedTasks(input).value.header;
            |header| == |range| + 1 && header[0] == "Task" && header[j + 1] == DateText(range[j])
  {
    var range := TaskDayColumns(TaskEntries(input));
    assert DateTexts(range)[j] == DateText(range[j]);
  }

  /** What index.js's table shows for task and day `k` over the sorted rows
      `r`: 0 where no row has that task and day; the full sum of its rows when
      they form the last group of two or more rows; and otherwise only the
      hours of the first of them. */
  function TaskCellExpected(r: seq<TaskRow<string>>, k: TaskKey<string>): Cell {
    if k !in TaskKeys(r) then Zero
    else if TaskFinalLong(r) && k == TaskKeyOf(r[|r| - 1])
    then Text(RoundHours(StringHours(TaskSumHours(r, FirstIndex(TaskKeys(r), k), |r|))))
    else Text(RoundHours(StringHours(FirstHours(r, k))))
  }

  /** The cell of row `i` and day column `j` of index.js's table, with plain
      task names. */
  lemma TaskCell(input: Input, i: nat, j: nat)
    requires StampsReadable(input) && !Fails(input) && PlainTasks(input)
    requires i < |ProcessedTasks(input).value.body| && j < |TaskDayColumns(TaskEntries(input))|
    ensures var range := TaskDayColumns(TaskEntries(input));
            var row := ProcessedTasks(input).value.body[i];
            |row.cells| == |range| && row.cells[j] == TaskCellExpected(SortedTaskRecords(input), TaskKey(row.name, range[j]))
  {
    TaskBodyIs(input);
    SortedTasksGrouped(input);
    TaskBodyCellFromRows(SortedTaskRecords(input), TaskDayColumns(TaskEntries(input)), i, j);
  }

  /** index.js's table body is the pivot of the loop's output over the sorted records. */
  lemma TaskBodyIs(input: Input)
    requires StampsReadable(input) && !Fails(input)
    ensures ProcessedTasks(input).value.body
              == TaskBody(ExpectedTasks(SortedTaskRecords(input)), TaskDayColumns(TaskEntries(input)))
  {
  }

  /** A cell of the pivoted index.js loop output over grouped rows, for any
      range of days. */
  lemma TaskBodyCellFromRows(r: seq<TaskRow<string>>, range: seq<Date>, i: nat, j: nat)
    requires Grouped(TaskKeys(r))
    requires i < |TaskBody(ExpectedTasks(r), range)| && j < |range|
    ensures var row := TaskBody(ExpectedTasks(r), range)[i];
            |row.cells| == |range| && row.cells[j] == TaskCellExpected(r, TaskKey(row.name, range[j]))
  {
    var b := TaskBody(ExpectedTasks(r), range);
    var k := TaskKey(b[i].name, range[j]);
    assert b[i].cells[j] == TaskCellFor(ExpectedTasks(r), k.task, k.date);
    LastTaskEntryHolds(r, k);
  }
}
