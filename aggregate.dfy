/** The aggregation loop of `processCSV` in src/index.js and dist/entry.js: a
    walk over the sorted rows that sums the hours of each (project, task, day)
    group into `output2`. */
module Aggregate {
  import opened Wrappers
  import opened Duration
  import opened Calendar
  import opened Seqs
  import opened Runs
  import opened Normalise

  /** A row of `output2`, `[project, task, date, stringHours(hours),
      roundHours(stringHours(hours))]`: its key and the sum it was written with;
      the two text columns are `Total` and `Rounded` of that sum. */
  datatype Entry<N> = Entry(project: N, task: N, date: Date, hours: Hours)

  function EntryKey<N>(e: Entry<N>): Key<N> {
    Key(e.project, e.task, e.date)
  }

  /** Column 3: `stringHours(hours)`. */
  function Total<N>(e: Entry<N>): string {
    StringHours(e.hours)
  }

  /** Column 4: `roundHours(stringHours(hours))`, the text the grid shows. */
  function Rounded<N>(e: Entry<N>): string {
    RoundHours(Total(e))
  }

  /** The entry the loop writes for a key and a running sum. */
  function EntryFor<N>(k: Key<N>, h: Hours): Entry<N> {
    Entry(k.project, k.task, k.date, h)
  }

  /** Row `i` has the task and the day of the row before it: then `hours` accumulates. */
  predicate Carries<N(==)>(r: seq<Row<N>>, i: nat)
    requires i < |r|
  {
    i > 0 && r[i - 1].task == r[i].task && r[i - 1].date == r[i].date
  }

  /** `hours` once the loop has read row `i`. */
  function Acc<N(==)>(r: seq<Row<N>>, i: nat): Hours
    requires i < |r|
  {
    if Carries(r, i) then Add(Acc(r, i - 1), ParseHours(r[i].hours)) else ParseHours(r[i].hours)
  }

  /** Where the group of row `i` began. */
  function GroupStart<N(==)>(r: seq<Row<N>>, i: nat): (g: nat)
    requires i < |r|
    ensures g <= i
    ensures g > 0 ==> KeyOf(r[g - 1]) != KeyOf(r[i])
  {
    if i > 0 && KeyOf(r[i - 1]) == KeyOf(r[i]) then GroupStart(r, i - 1) else i
  }

  /** The rows from the group's start up to row `i` share row `i`'s key. */
  lemma {:induction false} InGroup<N>(r: seq<Row<N>>, i: nat, j: nat)
    requires i < |r| && GroupStart(r, i) <= j <= i
    ensures KeyOf(r[j]) == KeyOf(r[i])
    decreases i
  {
    if j < i {
      InGroup(r, i - 1, j);
    }
  }

  /** The whole stretch from the group's start up to row `i` shares row `i`'s key. */
  lemma AllInGroup<N>(r: seq<Row<N>>, i: nat)
    requires i < |r|
    ensures forall j :: GroupStart(r, i) <= j <= i ==> KeyOf(r[j]) == KeyOf(r[i])
  {
    forall j | GroupStart(r, i) <= j <= i
      ensures KeyOf(r[j]) == KeyOf(r[i])
    {
      InGroup(r, i, j);
    }
  }

  /** A group starts at a boundary, with the key of its rows. */
  lemma GroupStartBoundary<N>(r: seq<Row<N>>, i: nat)
    requires i < |r|
    ensures Boundary(r, GroupStart(r, i)) && KeyOf(r[GroupStart(r, i)]) == KeyOf(r[i])
  {
    InGroup(r, i, GroupStart(r, i));
  }

  /** The group start is where the run of the row's key begins. */
  lemma {:induction false} GroupStartIsRunBegin<N>(r: seq<Row<N>>, i: nat)
    requires i < |r|
    ensures GroupStart(r, i) == RunBegin(Keys(r), i)
    decreases i
  {
    var ks := Keys(r);
    if i > 0 {
      assert ks[i - 1] == KeyOf(r[i - 1]) && ks[i] == KeyOf(r[i]);
      GroupStartIsRunBegin(r, i - 1);
    }
  }

  /** `c` separates two groups, or is the start or the end. */
  predicate Boundary<N(==)>(r: seq<Row<N>>, c: nat) {
    c == 0 || c == |r| || (c < |r| && KeyOf(r[c - 1]) != KeyOf(r[c]))
  }

  /** The entries of the groups that end before `c`, read from the left: each
      holds the sum at its group's last row. */
  function Closed<N(==)>(r: seq<Row<N>>, c: nat): seq<Entry<N>>
    requires c <= |r|
  {
    if c == 0 then [] else Closed(r, GroupStart(r, c - 1)) + [EntryFor(KeyOf(r[c - 1]), Acc(r, c - 1))]
  }

  /** What the loop leaves in `output2`: one entry per group holding the sum at
      the group's last row, except that a final group of two or more rows keeps
      the entry of its first row and gets the sum pushed after it. */
  function Expected<N(==)>(r: seq<Row<N>>): seq<Entry<N>> {
    if r == [] then []
    else
      var s := GroupStart(r, |r| - 1);
      var first := EntryFor(KeyOf(r[s]), Acc(r, s));
      if s < |r| - 1 then Closed(r, s) + [first] + [EntryFor(KeyOf(r[s]), Acc(r, |r| - 1))] else Closed(r, s) + [first]
  }

  /** The variables the `forEach` callback of `processCSV` reads and writes. */
  datatype Walk<N> = Walk(output2: seq<Entry<N>>, project: N, task: N, date: Option<Date>,
                       hours: Hours, taskIndex: nat, hasTemp: bool)

  /** Every write the callback makes lands inside `output2` or just past its end. */
  predicate Sane<N(==)>(w: Walk<N>) {
    && w.taskIndex <= |w.output2|
    && (w.date.Some? ==> 1 <= w.taskIndex)
    && (w.hasTemp ==> w.date.Some?)
  }

  /** One call of the callback on `row`; `final` says it is the last row. */
  function Visit<N(==)>(w: Walk<N>, row: Row<N>, final: bool): (v: Walk<N>)
    requires Sane(w)
    ensures Sane(v)
  {
    var sameProject := w.project == row.project;
    var sameTask := w.task == row.task;
    var sameDay := w.date == Some(row.date);
    var changed := !sameProject || !sameTask || !sameDay;
    var out := if changed && w.hasTemp
               then Store(w.output2, w.taskIndex - 1, EntryFor(Key(w.project, w.task, w.date.value), w.hours))
               else w.output2;
    var project := if sameProject then w.project else row.project;
    var task := if sameTask then w.task else row.task;
    var date := if sameDay then w.date else Some(row.date);
    var hours := if sameDay && sameTask then Add(w.hours, ParseHours(row.hours)) else ParseHours(row.hours);
    var entry := EntryFor(Key(project, task, date.value), hours);
    if changed then
      var out' := Store(out, w.taskIndex, entry);
      Walk(out', project, task, date, hours, |out'|, false)
    else if final then Walk(out + [entry], project, task, date, hours, w.taskIndex, false)
    else Walk(out, project, task, date, hours, w.taskIndex, true)
  }

  /** The variables after the callback has seen the first `n` rows. */
  function Walked<N(==)>(r: seq<Row<N>>, blank: N, n: nat): (w: Walk<N>)
    requires n <= |r|
    ensures Sane(w)
  {
    if n == 0 then Walk([], blank, blank, None, Zero, 0, false)
    else Visit(Walked(r, blank, n - 1), r[n - 1], n == |r|)
  }

  /** What the variables hold once the callback has seen `n` rows, the last of
      them row `i`: the fields and sum of row `i`, the closed groups' entries
      followed by the current group's first-row entry (and the pushed sum after
      the last row), and `taskIndex` just past the closed groups. */
  ghost predicate WalkInv<N>(r: seq<Row<N>>, n: nat, w: Walk<N>)
    requires 0 < n <= |r|
  {
    var i := n - 1;
    var s := GroupStart(r, i);
    var first := EntryFor(KeyOf(r[s]), Acc(r, s));
    && w.project == r[i].project && w.task == r[i].task && w.date == Some(r[i].date)
    && w.hours == Acc(r, i)
    && w.output2 == (if n == |r| && s < i then Closed(r, s) + [first] + [EntryFor(KeyOf(r[s]), Acc(r, i))] else Closed(r, s) + [first])
    && w.taskIndex == |Closed(r, s)| + 1
    && w.hasTemp == (n < |r| && s < i)
  }

  /** The first row opens a group. */
  lemma WalkFirst<N>(r: seq<Row<N>>, blank: N)
    requires 0 < |r|
    ensures WalkInv(r, 1, Walked(r, blank, 1))
  {
    assert Walked(r, blank, 0) == Walk([], blank, blank, None, Zero, 0, false);
    assert GroupStart(r, 0) == 0;
  }

  /** A row with a new key closes the group before it and opens its own. */
  lemma WalkNewGroup<N>(r: seq<Row<N>>, blank: N, n: nat)
    requires 1 < n <= |r| && WalkInv(r, n - 1, Walked(r, blank, n - 1))
    requires KeyOf(r[n - 2]) != KeyOf(r[n - 1])
    ensures WalkInv(r, n, Walked(r, blank, n))
  {
    var w := Walked(r, blank, n - 1);
    var i := n - 1;
    var s := GroupStart(r, i - 1);
    var closing := EntryFor(KeyOf(r[i - 1]), Acc(r, i - 1));
    assert GroupStart(r, i) == i;
    assert Closed(r, i) == Closed(r, s) + [closing];
    assert !(w.project == r[i].project && w.task == r[i].task && w.date == Some(r[i].date));
    if w.hasTemp {
      assert w.output2 == Closed(r, s) + [EntryFor(KeyOf(r[s]), Acc(r, s))];
      assert Store(w.output2, w.taskIndex - 1, EntryFor(Key(w.project, w.task, w.date.value), w.hours)) == Closed(r, i);
    } else {
      assert s == i - 1;
      assert w.output2 == Closed(r, i);
    }
  }

  /** A row with the key of the row before it stays in that group. */
  lemma WalkSameGroup<N>(r: seq<Row<N>>, blank: N, n: nat)
    requires 1 < n <= |r| && WalkInv(r, n - 1, Walked(r, blank, n - 1))
    requires KeyOf(r[n - 2]) == KeyOf(r[n - 1])
    ensures WalkInv(r, n, Walked(r, blank, n))
  {
    var w := Walked(r, blank, n - 1);
    var i := n - 1;
    var s := GroupStart(r, i - 1);
    assert GroupStart(r, i) == GroupStart(r, i - 1);
    InGroup(r, i - 1, s);
    assert KeyOf(r[s]) == KeyOf(r[i]);
    assert w.project == r[i].project && w.task == r[i].task && w.date == Some(r[i].date);
    assert Carries(r, i);
    var hours := Add(w.hours, ParseHours(r[i].hours));
    assert hours == Acc(r, i);
    var first := EntryFor(KeyOf(r[s]), Acc(r, s));
    assert w.output2 == Closed(r, s) + [first];
    var entry := EntryFor(Key(w.project, w.task, w.date.value), hours);
    assert entry == EntryFor(KeyOf(r[s]), Acc(r, i));
    if n == |r| {
      assert Walked(r, blank, n) == Walk(w.output2 + [entry], w.project, w.task, w.date, hours, w.taskIndex, false);
    } else {
      assert Walked(r, blank, n) == Walk(w.output2, w.project, w.task, w.date, hours, w.taskIndex, true);
    }
  }

  /** After each row the variables hold what `WalkInv` says. */
  lemma {:induction false} WalkedInv<N>(r: seq<Row<N>>, blank: N, n: nat)
    requires 0 < n <= |r|
    ensures WalkInv(r, n, Walked(r, blank, n))
  {
    if n == 1 {
      WalkFirst(r, blank);
    } else {
      WalkedInv(r, blank, n - 1);
      if KeyOf(r[n - 2]) != KeyOf(r[n - 1]) {
        WalkNewGroup(r, blank, n);
      } else {
        WalkSameGroup(r, blank, n);
      }
    }
  }

  /** The callback, run over all rows, leaves the reference entries in `output2`. */
  lemma WalkedIsExpected<N>(r: seq<Row<N>>, blank: N)
    ensures Walked(r, blank, |r|).output2 == Expected(r)
  {
    if 0 < |r| {
      WalkedInv(r, blank, |r|);
    }
  }

  /** The callback `(row, count) => { ... }` of `output1.forEach`, statement
      by statement, on the variables it shares with `processCSV`. */
  method Callback<N(==)>(w: Walk<N>, row: Row<N>, final: bool) returns (v: Walk<N>)
    requires Sane(w)
    ensures v == Visit(w, row, final)
  {
    var output2, project, task, date, hours, taskIndex, hasTemp :=
      w.output2, w.project, w.task, w.date, w.hours, w.taskIndex, w.hasTemp;
    var sameProject := project == row.project;
    var sameTask := task == row.task;
    var sameDay := date == Some(row.date);
    if (!sameProject || !sameTask || !sameDay) && hasTemp {
      output2 := Store(output2, taskIndex - 1, EntryFor(Key(project, task, date.value), hours));
    }
    project := if sameProject then project else row.project;
    task := if sameTask then task else row.task;
    date := if sameDay then date else Some(row.date);
    hours := if sameDay && sameTask then Add(hours, ParseHours(row.hours)) else ParseHours(row.hours);
    hasTemp := true;
    if !sameProject || !sameTask || !sameDay {
      output2 := Store(output2, taskIndex, EntryFor(Key(project, task, date.value), hours));
      taskIndex := |output2|;
      hasTemp := false;
    } else if final {
      output2 := output2 + [EntryFor(Key(project, task, date.value), hours)];
      hasTemp := false;
    }
    v := Walk(output2, project, task, date, hours, taskIndex, hasTemp);
  }

  /** The `output1.forEach` of `processCSV`: the callback run on each row in
      turn, starting from `project = task = date = ''`, `hours = 0`,
      `taskIndex = 0` and `hasTemp = false`. */
  method Summarise<N(==)>(r: seq<Row<N>>, blank: N) returns (output2: seq<Entry<N>>)
    ensures output2 == Expected(r)
  {
    var w := Walk([], blank, blank, None, Zero, 0, false);
    for count := 0 to |r|
      invariant w == Walked(r, blank, count)
    {
      w := Callback(w, r[count], |r| == count + 1);
    }
    WalkedIsExpected(r, blank);
    output2 := w.output2;
  }
}
