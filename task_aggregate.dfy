/** The aggregation loop of `processCSV` in index.js: a walk over the sorted
    `[task, date, hoursText]` rows keyed on (task, day) only, with no flush of
    a group's running sum. */
module TaskAggregate {
  import opened Wrappers
  import opened Duration
  import opened Calendar
  import opened Seqs
  import opened Runs
  import opened Normalise

  /** A row of index.js's `output2`, `[task, date, stringHours(hours),
      roundHours(stringHours(hours))]`: its key and the sum it was written with. */
  datatype TaskEntry<N> = TaskEntry(task: N, date: Date, hours: Hours)

  function TaskEntryKey<N>(e: TaskEntry<N>): TaskKey<N> {
    TaskKey(e.task, e.date)
  }

  /** Column 3 of index.js's `output2`. */
  function TaskTotal<N>(e: TaskEntry<N>): string {
    StringHours(e.hours)
  }

  /** Column 4 of index.js's `output2`, the text the grid shows. */
  function TaskRounded<N>(e: TaskEntry<N>): string {
    RoundHours(TaskTotal(e))
  }

  /** Row `i` has the task and day of the row before it: once the loop has
      read row `i - 1`, index.js's `sameDay && sameTask` holds exactly then. */
  predicate TaskCarries<N(==)>(r: seq<TaskRow<N>>, i: nat)
    requires i < |r|
  {
    i > 0 && TaskKeyOf(r[i - 1]) == TaskKeyOf(r[i])
  }

  /** `hours` once the loop has read row `i`. */
  function TaskAcc<N(==)>(r: seq<TaskRow<N>>, i: nat): Hours
    requires i < |r|
  {
    if TaskCarries(r, i) then Add(TaskAcc(r, i - 1), ParseHours(r[i].hours)) else ParseHours(r[i].hours)
  }

  /** Where the (task, day) group of row `i` began. */
  function TaskGroupStart<N(==)>(r: seq<TaskRow<N>>, i: nat): (g: nat)
    requires i < |r|
    ensures g <= i
    ensures g > 0 ==> TaskKeyOf(r[g - 1]) != TaskKeyOf(r[i])
  {
    if TaskCarries(r, i) then TaskGroupStart(r, i - 1) else i
  }

  /** The rows from the group's start up to row `i` share row `i`'s key. */
  lemma {:induction false} TaskInGroup<N>(r: seq<TaskRow<N>>, i: nat, j: nat)
    requires i < |r| && TaskGroupStart(r, i) <= j <= i
    ensures TaskKeyOf(r[j]) == TaskKeyOf(r[i])
    decreases i
  {
    if j < i {
      TaskInGroup(r, i - 1, j);
    }
  }

  /** At the start of a group the running sum is the first row's hours. */
  lemma TaskAccAtStart<N>(r: seq<TaskRow<N>>, i: nat)
    requires i < |r|
    ensures TaskAcc(r, TaskGroupStart(r, i)) == ParseHours(r[TaskGroupStart(r, i)].hours)
  {
    TaskInGroup(r, i, TaskGroupStart(r, i));
  }

  /** `c` falls between two groups. */
  predicate TaskBoundary<N(==)>(r: seq<TaskRow<N>>, c: nat) {
    c == 0 || c == |r| || (c < |r| && TaskKeyOf(r[c - 1]) != TaskKeyOf(r[c]))
  }

  /** A group starts at a boundary, with the key of its rows. */
  lemma TaskGroupStartBoundary<N>(r: seq<TaskRow<N>>, i: nat)
    requires i < |r|
    ensures TaskBoundary(r, TaskGroupStart(r, i)) && TaskKeyOf(r[TaskGroupStart(r, i)]) == TaskKeyOf(r[i])
  {
    TaskInGroup(r, i, TaskGroupStart(r, i));
  }

  /** The entry index.js writes for row `i` with sum `h`. */
  function TaskEntryAt<N>(r: seq<TaskRow<N>>, i: nat, h: Hours): TaskEntry<N>
    requires i < |r|
  {
    TaskEntry(r[i].task, r[i].date, h)
  }

  /** The entries of the groups that end before `c`: each is written once,
      when the group's first row is read, and keeps the running sum at that
      row, which is that row's hours. */
  function Opened<N(==)>(r: seq<TaskRow<N>>, c: nat): seq<TaskEntry<N>>
    requires c <= |r|
  {
    if c == 0 then []
    else
      var s := TaskGroupStart(r, c - 1);
      Opened(r, s) + [TaskEntryAt(r, s, TaskAcc(r, s))]
  }

  /** The last group has two rows or more, so index.js pushes its sum as an extra entry. */
  predicate TaskFinalLong<N(==)>(r: seq<TaskRow<N>>) {
    |r| >= 2 && TaskKeyOf(r[|r| - 2]) == TaskKeyOf(r[|r| - 1])
  }

  /** What index.js leaves in `output2`: one entry per group holding its first
      row's hours, and after a final group of two or more rows its full sum pushed. */
  function ExpectedTasks<N(==)>(r: seq<TaskRow<N>>): seq<TaskEntry<N>> {
    if TaskFinalLong(r) then Opened(r, |r|) + [TaskEntryAt(r, TaskGroupStart(r, |r| - 1), TaskAcc(r, |r| - 1))]
    else Opened(r, |r|)
  }

  /** The variables the `forEach` callback of index.js reads and writes. */
  datatype TaskWalk<N> = TaskWalk(output2: seq<TaskEntry<N>>, task: N, date: Option<Date>, hours: Hours, taskIndex: nat)

  /** The callback's writes land inside `output2` or just past its end. */
  predicate TaskSane<N>(w: TaskWalk<N>) {
    w.taskIndex <= |w.output2|
  }

  /** One call of the callback on `row`; `final` says it is the last row. */
  function TaskVisit<N(==)>(w: TaskWalk<N>, row: TaskRow<N>, final: bool): (v: TaskWalk<N>)
    requires TaskSane(w)
    ensures TaskSane(v)
  {
    var sameTask := w.task == row.task;
    var sameDay := w.date == Some(row.date);
    var task := if sameTask then w.task else row.task;
    var date := if sameDay then w.date else Some(row.date);
    var hours := if sameDay && sameTask then Add(w.hours, ParseHours(row.hours)) else ParseHours(row.hours);
    var entry := TaskEntry(task, date.value, hours);
    if !sameDay || !sameTask then
      var out := Store(w.output2, w.taskIndex, entry);
      TaskWalk(out, task, date, hours, |out|)
    else if final then TaskWalk(w.output2 + [entry], task, date, hours, w.taskIndex)
    else TaskWalk(w.output2, task, date, hours, w.taskIndex)
  }

  /** The variables after the callback has seen the first `n` rows, starting
      from `task = blank` and no day. */
  function TaskWalked<N(==)>(r: seq<TaskRow<N>>, blank: N, n: nat): (w: TaskWalk<N>)
    requires n <= |r|
    ensures TaskSane(w)
  {
    if n == 0 then TaskWalk([], blank, None, Zero, 0)
    else TaskVisit(TaskWalked(r, blank, n - 1), r[n - 1], n == |r|)
  }

  /** After `n` rows, the last of them row `i`: the task, day and running sum
      of row `i`; the entries of the groups before row `i`'s group and that
      group's first-row entry (and, once the `final` row is read, the pushed
      sum); and `taskIndex` just past the first-row entry. */
  ghost predicate TaskWalkInv<N>(r: seq<TaskRow<N>>, n: nat, final: bool, w: TaskWalk<N>)
    requires 0 < n <= |r|
  {
    var i := n - 1;
    var s := TaskGroupStart(r, i);
    var first := TaskEntryAt(r, s, TaskAcc(r, s));
    && w.task == r[i].task && w.date == Some(r[i].date)
    && w.hours == TaskAcc(r, i)
    && w.output2 == (if final && s < i then Opened(r, s) + [first] + [TaskEntryAt(r, s, TaskAcc(r, i))]
                     else Opened(r, s) + [first])
    && w.taskIndex == |Opened(r, s)| + 1
  }

  lemma TaskWalkFirst<N>(r: seq<TaskRow<N>>, blank: N)
    requires 0 < |r|
    ensures TaskWalkInv(r, 1, 1 == |r|, TaskWalked(r, blank, 1))
  {
    assert TaskWalked(r, blank, 0) == TaskWalk([], blank, None, Zero, 0);
    assert TaskGroupStart(r, 0) == 0;
  }

  /** Row `i` of a new (task, day) starts a group of its own, and the group
      before it is closed with its first-row entry. */
  lemma OpenStep<N>(r: seq<TaskRow<N>>, i: nat)
    requires 0 < i < |r| && TaskKeyOf(r[i - 1]) != TaskKeyOf(r[i])
    ensures TaskGroupStart(r, i) == i && TaskAcc(r, i) == ParseHours(r[i].hours)
    ensures var s := TaskGroupStart(r, i - 1);
      Opened(r, i) == Opened(r, s) + [TaskEntryAt(r, s, TaskAcc(r, s))]
  {
  }

  /** Row `i` of the same (task, day) as row `i - 1` stays in its group and
      adds its hours to the running sum. */
  lemma CarryStep<N>(r: seq<TaskRow<N>>, i: nat)
    requires 0 < i < |r| && TaskKeyOf(r[i - 1]) == TaskKeyOf(r[i])
    ensures TaskGroupStart(r, i) == TaskGroupStart(r, i - 1)
    ensures TaskAcc(r, i) == Add(TaskAcc(r, i - 1), ParseHours(r[i].hours))
    ensures TaskEntryAt(r, TaskGroupStart(r, i), TaskAcc(r, i)) == TaskEntry(r[i].task, r[i].date, TaskAcc(r, i))
  {
    TaskInGroup(r, i, TaskGroupStart(r, i));
  }

  /** A row of a new (task, day) appends its entry, holding its own hours. */
  lemma TaskWalkNewGroup<N>(r: seq<TaskRow<N>>, n: nat, final: bool, w: TaskWalk<N>)
    requires 1 < n <= |r| && TaskWalkInv(r, n - 1, n - 1 == |r|, w) && TaskSane(w)
    requires TaskKeyOf(r[n - 2]) != TaskKeyOf(r[n - 1])
    ensures TaskWalkInv(r, n, final, TaskVisit(w, r[n - 1], final))
  {
    OpenStep(r, n - 1);
  }

  /** A row of the same (task, day) only adds to the running sum, except that
      the final row pushes it. */
  lemma TaskWalkSameGroup<N>(r: seq<TaskRow<N>>, n: nat, final: bool, w: TaskWalk<N>)
    requires 1 < n <= |r| && TaskWalkInv(r, n - 1, n - 1 == |r|, w) && TaskSane(w)
    requires TaskKeyOf(r[n - 2]) == TaskKeyOf(r[n - 1])
    ensures TaskWalkInv(r, n, final, TaskVisit(w, r[n - 1], final))
  {
    CarryStep(r, n - 1);
  }

  /** One more call of the callback keeps the invariant. */
  lemma TaskWalkStep<N>(r: seq<TaskRow<N>>, blank: N, n: nat)
    requires 1 < n <= |r| && TaskWalkInv(r, n - 1, n - 1 == |r|, TaskWalked(r, blank, n - 1))
    ensures TaskWalkInv(r, n, n == |r|, TaskWalked(r, blank, n))
  {
    var w := TaskWalked(r, blank, n - 1);
    assert TaskWalked(r, blank, n) == TaskVisit(w, r[n - 1], n == |r|);
    if TaskKeyOf(r[n - 2]) != TaskKeyOf(r[n - 1]) {
      TaskWalkNewGroup(r, n, n == |r|, w);
    } else {
      TaskWalkSameGroup(r, n, n == |r|, w);
    }
  }

  lemma {:induction false} TaskWalkedInv<N>(r: seq<TaskRow<N>>, blank: N, n: nat)
    requires 0 < n <= |r|
    ensures TaskWalkInv(r, n, n == |r|, TaskWalked(r, blank, n))
  {
    if n == 1 {
      TaskWalkFirst(r, blank);
    } else {
      TaskWalkedInv(r, blank, n - 1);
      TaskWalkStep(r, blank, n);
    }
  }

  /** The callback, run over all rows, leaves the reference entries in `output2`. */
  lemma TaskWalkedIsExpected<N>(r: seq<TaskRow<N>>, blank: N)
    ensures TaskWalked(r, blank, |r|).output2 == ExpectedTasks(r)
  {
    if 0 < |r| {
      var n := |r|;
      var s := TaskGroupStart(r, n - 1);
      TaskWalkedInv(r, blank, n);
      assert Opened(r, n) == Opened(r, s) + [TaskEntryAt(r, s, TaskAcc(r, s))];
      assert TaskFinalLong(r) <==> s < n - 1;
    }
  }

  /** The `output1.forEach` of index.js, statement by statement; `blank` is the
      initial `task` (the empty text). */
  method SummariseTasks<N(==)>(r: seq<TaskRow<N>>, blank: N) returns (output2: seq<TaskEntry<N>>)
    ensures output2 == ExpectedTasks(r)
  {
    output2 := [];
    var task := blank;
    var date: Option<Date> := None;
    var hours := Zero;
    var taskIndex: nat := 0;
    for count := 0 to |r|
      invariant TaskWalk(output2, task, date, hours, taskIndex) == TaskWalked(r, blank, count)
    {
      var row := r[count];
      var sameTask := task == row.task;
      var sameDay := date == Some(row.date);
      task := if sameTask then task else row.task;
      date := if sameDay then date else Some(row.date);
      hours := if sameDay && sameTask then Add(hours, ParseHours(row.hours)) else ParseHours(row.hours);
      if !sameDay || !sameTask {
        output2 := Store(output2, taskIndex, TaskEntry(task, date.value, hours));
        taskIndex := |output2|;
      } else if |r| == count + 1 {
        output2 := output2 + [TaskEntry(task, date.value, hours)];
      }
    }
    TaskWalkedIsExpected(r, blank);
  }
}
