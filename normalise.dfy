/** The start of `processCSV`: each data row becomes a normalised row, and the
    rows are sorted with `Array.prototype.sort()`, which compares the rows'
    comma-joined text. */
module Normalise {
  import opened Text
  import opened Calendar
  import opened Seqs
  import opened Sorting
  import opened Runs

  /** A CSV record as fast-csv hands it over: its fields, split at ';'. */
  type RawRow = seq<string>

  /** `[project, task, date, hoursText]` of src/index.js and dist/entry.js.
      The names are text; the loop and the pivot only compare them, so the
      types below take the name type as a parameter `N`. */
  datatype Row<N> = Row(project: N, task: N, date: Date, hours: string)

  /** `[task, date, hoursText]` of index.js. */
  datatype TaskRow<N> = TaskRow(task: N, date: Date, hours: string)

  /** What the aggregation loop compares: project, task and day. */
  datatype Key<N> = Key(project: N, task: N, date: Date)

  /** What the index.js loop compares: task and day. */
  datatype TaskKey<N> = TaskKey(task: N, date: Date)

  /** A START field moment reads with 'YYYY/MM/DD, h:mm A': its first ten
      characters are a valid `YYYY/MM/DD` with a four-digit year. */
  predicate StampOk(s: string) {
    |s| >= 10 && ParseDate(s[..10], '/').Some? && FourDigitYear(ParseDate(s[..10], '/').value)
  }

  /** The day of a START timestamp: the day whose `YYYY/MM/DD` text opens it. */
  function StampDate(s: string): (d: Date)
    requires StampOk(s)
    ensures GoodDate(d)
    ensures FormatDate(d, '/') == s[..10]
  {
    FormatParseDate(s[..10], '/');
    ParseDate(s[..10], '/').value
  }

  /** src/index.js and dist/entry.js: a record becomes `[row[0], row[1], day of row[2], row[4]]`. */
  function NormaliseRow(raw: RawRow): (r: Row<string>)
    requires Readable(raw)
    ensures r.project == raw[0] && r.task == raw[1] && r.hours == raw[4]
    ensures GoodDate(r.date) && FormatDate(r.date, '/') == raw[2][..10]
  {
    Row(raw[0], raw[1], StampDate(raw[2]), raw[4])
  }

  /** index.js: a record becomes `[row[1], day of row[2], row[4]]`; the project is dropped. */
  function NormaliseTaskRow(raw: RawRow): (r: TaskRow<string>)
    requires Readable(raw)
    ensures r.task == raw[1] && r.hours == raw[4]
    ensures GoodDate(r.date) && FormatDate(r.date, '/') == raw[2][..10]
  {
    TaskRow(raw[1], StampDate(raw[2]), raw[4])
  }

  /** A record with all five fields whose START field moment can read. */
  predicate Readable(raw: RawRow) {
    |raw| >= 5 && StampOk(raw[2])
  }

  /** `_.map(input, ...)` over the data records. */
  function NormaliseAll(raws: seq<RawRow>): (rows: seq<Row<string>>)
    requires forall i :: 0 <= i < |raws| ==> Readable(raws[i])
    ensures |rows| == |raws|
    ensures forall i :: 0 <= i < |raws| ==> rows[i] == NormaliseRow(raws[i])
  {
    seq(|raws|, i requires 0 <= i < |raws| => NormaliseRow(raws[i]))
  }

  function NormaliseTasks(raws: seq<RawRow>): (rows: seq<TaskRow<string>>)
    requires forall i :: 0 <= i < |raws| ==> Readable(raws[i])
    ensures |rows| == |raws|
    ensures forall i :: 0 <= i < |raws| ==> rows[i] == NormaliseTaskRow(raws[i])
  {
    seq(|raws|, i requires 0 <= i < |raws| => NormaliseTaskRow(raws[i]))
  }

  function KeyOf<N>(r: Row<N>): Key<N> {
    Key(r.project, r.task, r.date)
  }

  function TaskKeyOf<N>(r: TaskRow<N>): TaskKey<N> {
    TaskKey(r.task, r.date)
  }

  function Keys<N>(rows: seq<Row<N>>): (ks: seq<Key<N>>)
    ensures |ks| == |rows| && forall i :: 0 <= i < |rows| ==> ks[i] == KeyOf(rows[i])
  {
    seq(|rows|, i requires 0 <= i < |rows| => KeyOf(rows[i]))
  }

  function TaskKeys<N>(rows: seq<TaskRow<N>>): (ks: seq<TaskKey<N>>)
    ensures |ks| == |rows| && forall i :: 0 <= i < |rows| ==> ks[i] == TaskKeyOf(rows[i])
  {
    seq(|rows|, i requires 0 <= i < |rows| => TaskKeyOf(rows[i]))
  }

  // ---------------------------------------------------------------------
  // The sort

  /** The text `sort()` compares: the row's fields joined with ','. */
  function SortKey(r: Row<string>): string {
    Join([r.project, r.task, DateText(r.date), r.hours], ',')
  }

  function TaskSortKey(r: TaskRow<string>): string {
    Join([r.task, DateText(r.date), r.hours], ',')
  }

  /** `output1.sort()` of src/index.js and dist/entry.js: a reordering of the
      rows in which the joined texts ascend. */
  function SortRows(rows: seq<Row<string>>): (sorted: seq<Row<string>>)
    ensures multiset(sorted) == multiset(rows)
    ensures SortedBy(sorted, SortKey)
  {
    SortBy(rows, SortKey)
  }

  /** `output1.sort()` of index.js. */
  function SortTaskRows(rows: seq<TaskRow<string>>): (sorted: seq<TaskRow<string>>)
    ensures multiset(sorted) == multiset(rows)
    ensures SortedBy(sorted, TaskSortKey)
  {
    SortBy(rows, TaskSortKey)
  }

  // ---------------------------------------------------------------------
  // Why equal keys end up adjacent

  /** Text that starts with a comma-free field and a comma determines the field. */
  lemma SplitAtComma(x: string, u: string, y: string, v: string)
    requires ',' !in x && ',' !in y && x + "," + u == y + "," + v
    ensures x == y && u == v
  {
    BeforeAfterOfJoin(x, u, ',');
    BeforeAfterOfJoin(y, v, ',');
  }

  lemma JoinThree(a: string, b: string, c: string)
    ensures Join([a, b, c], ',') == a + "," + (b + "," + c)
  {
    assert [b, c][1..] == [c];
    assert Join([b, c], ',') == b + [','] + c;
    assert [a, b, c][1..] == [b, c];
    assert Join([a, b, c], ',') == a + [','] + (b + [','] + c);
  }

  lemma Rebracket(a: string, b: string, c: string, rest: string)
    ensures (a + "," + b + "," + c + ",") + rest == a + "," + (b + "," + (c + "," + rest))
  {
  }

  lemma JoinFour(a: string, b: string, c: string, d: string)
    ensures Join([a, b, c, d], ',') == a + "," + (b + "," + (c + "," + d))
  {
    assert [a, b, c, d][1..] == [b, c, d];
    JoinThree(b, c, d);
  }

  /** The part of a row's sort text that its key decides. */
  function KeyPrefix(k: Key<string>): string {
    k.project + "," + k.task + "," + DateText(k.date) + ","
  }

  lemma SortKeyHasKeyPrefix(r: Row<string>)
    ensures SortKey(r) == KeyPrefix(KeyOf(r)) + r.hours
  {
    JoinFour(r.project, r.task, DateText(r.date), r.hours);
    Rebracket(r.project, r.task, DateText(r.date), r.hours);
  }

  /** A row whose sort text starts with a key's prefix has that key, when the
      names hold no comma. */
  lemma KeyFromPrefix(r: Row<string>, k: Key<string>)
    requires ',' !in r.project && ',' !in r.task && ',' !in k.project && ',' !in k.task
    requires GoodDate(r.date) && GoodDate(k.date)
    requires |KeyPrefix(k)| <= |SortKey(r)| && SortKey(r)[..|KeyPrefix(k)|] == KeyPrefix(k)
    ensures KeyOf(r) == k
  {
    var p := KeyPrefix(k);
    var rest := SortKey(r)[|p|..];
    SortKeyHasKeyPrefix(r);
    assert SortKey(r) == p + rest;
    var dr, dk := DateText(r.date), DateText(k.date);
    JoinFour(r.project, r.task, dr, r.hours);
    Rebracket(k.project, k.task, dk, rest);
    SplitAtComma(r.project, r.task + "," + (dr + "," + r.hours), k.project, k.task + "," + (dk + "," + rest));
    SplitAtComma(r.task, dr + "," + r.hours, k.task, dk + "," + rest);
    SplitAtComma(dr, r.hours, dk, rest);
    DateTextInjective(r.date, k.date);
  }

  /** Names without ',': after the sort, rows with the same project, task and
      day are adjacent. */
  lemma {:induction false} SortedKeysContiguous(rows: seq<Row<string>>)
    requires SortedBy(rows, SortKey)
    requires forall i :: 0 <= i < |rows| ==> ',' !in rows[i].project && ',' !in rows[i].task && GoodDate(rows[i].date)
    ensures Contiguous(Keys(rows))
  {
    var ks := Keys(rows);
    forall i, j, m | 0 <= i < j < m < |ks| && ks[i] == ks[m]
      ensures ks[j] == ks[i]
    {
      var k := ks[i];
      SortKeyHasKeyPrefix(rows[i]);
      SortKeyHasKeyPrefix(rows[m]);
      var p := KeyPrefix(k);
      assert SortKey(rows[i])[..|p|] == p;
      assert SortKey(rows[m])[..|p|] == p;
      LexBetweenSharesPrefix(p, SortKey(rows[i]), SortKey(rows[j]), SortKey(rows[m]));
      KeyFromPrefix(rows[j], k);
    }
  }

  function TaskKeyPrefix(k: TaskKey<string>): string {
    k.task + "," + DateText(k.date) + ","
  }

  lemma RebracketTwo(b: string, c: string, rest: string)
    ensures (b + "," + c + ",") + rest == b + "," + (c + "," + rest)
  {
  }

  lemma TaskKeyFromPrefix(r: TaskRow<string>, k: TaskKey<string>)
    requires ',' !in r.task && ',' !in k.task && GoodDate(r.date) && GoodDate(k.date)
    requires |TaskKeyPrefix(k)| <= |TaskSortKey(r)| && TaskSortKey(r)[..|TaskKeyPrefix(k)|] == TaskKeyPrefix(k)
    ensures TaskKeyOf(r) == k
  {
    var p := TaskKeyPrefix(k);
    var rest := TaskSortKey(r)[|p|..];
    assert TaskSortKey(r) == p + rest;
    var dr, dk := DateText(r.date), DateText(k.date);
    JoinThree(r.task, dr, r.hours);
    RebracketTwo(k.task, dk, rest);
    SplitAtComma(r.task, dr + "," + r.hours, k.task, dk + "," + rest);
    SplitAtComma(dr, r.hours, dk, rest);
    DateTextInjective(r.date, k.date);
  }

  /** Task names without ',': after the index.js sort, rows with the same task and day are adjacent. */
  lemma {:induction false} SortedTaskKeysContiguous(rows: seq<TaskRow<string>>)
    requires SortedBy(rows, TaskSortKey)
    requires forall i :: 0 <= i < |rows| ==> ',' !in rows[i].task && GoodDate(rows[i].date)
    ensures Contiguous(TaskKeys(rows))
  {
    var ks := TaskKeys(rows);
    forall i, j, m | 0 <= i < j < m < |ks| && ks[i] == ks[m]
      ensures ks[j] == ks[i]
    {
      var k := ks[i];
      JoinThree(rows[i].task, DateText(rows[i].date), rows[i].hours);
      JoinThree(rows[m].task, DateText(rows[m].date), rows[m].hours);
      RebracketTwo(rows[i].task, DateText(rows[i].date), rows[i].hours);
      RebracketTwo(rows[m].task, DateText(rows[m].date), rows[m].hours);
      var p := TaskKeyPrefix(k);
      assert TaskSortKey(rows[i]) == p + rows[i].hours;
      assert TaskSortKey(rows[m]) == p + rows[m].hours;
      assert TaskSortKey(rows[i])[..|p|] == p;
      assert TaskSortKey(rows[m])[..|p|] == p;
      LexBetweenSharesPrefix(p, TaskSortKey(rows[i]), TaskSortKey(rows[j]), TaskSortKey(rows[m]));
      TaskKeyFromPrefix(rows[j], k);
    }
  }
}
