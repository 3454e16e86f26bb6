/** What index.js's `output2` holds, group by group: one entry per (task, day)
    group, each keeping only the hours of the group's first row, and for a long
    final group one entry more with its full sum. */
module TaskAggregateFacts {
  import opened Wrappers
  import opened Duration
  import opened Calendar
  import opened Seqs
  import opened Runs
  import opened Normalise
  import opened TaskAggregate

  /** The keys of the entries, in order. */
  function TaskEntryKeys<N>(es: seq<TaskEntry<N>>): (ks: seq<TaskKey<N>>)
    ensures |ks| == |es|
  {
    if es == [] then [] else TaskEntryKeys(es[..|es| - 1]) + [TaskEntryKey(es[|es| - 1])]
  }

  lemma TaskEntryKeysSnoc<N>(es: seq<TaskEntry<N>>, x: TaskEntry<N>)
    ensures TaskEntryKeys(es + [x]) == TaskEntryKeys(es) + [TaskEntryKey(x)]
  {
    assert (es + [x])[..|es|] == es;
  }

  /** The sum of the hours of rows `lo` to `hi - 1`, read left to right. */
  function TaskSumHours<N>(r: seq<TaskRow<N>>, lo: nat, hi: nat): Hours
    requires lo <= hi <= |r|
    decreases hi
  {
    if hi == lo then Zero else Add(TaskSumHours(r, lo, hi - 1), ParseHours(r[hi - 1].hours))
  }

  /** The hours of the first row with key `k`, the hours its entry keeps. */
  function FirstHours<N(==)>(r: seq<TaskRow<N>>, k: TaskKey<N>): Hours
    requires k in TaskKeys(r)
  {
    ParseHours(r[FirstIndex(TaskKeys(r), k)].hours)
  }

  lemma WholePrefix<K>(s: seq<K>)
    ensures s[..|s|] == s
  {
  }

  /** The group start is where the run of the task key begins. */
  lemma {:induction false} TaskGroupStartIsRunBegin<N>(r: seq<TaskRow<N>>, i: nat)
    requires i < |r|
    ensures TaskGroupStart(r, i) == RunBegin(TaskKeys(r), i)
    decreases i
  {
    var ks := TaskKeys(r);
    if i > 0 {
      assert ks[i - 1] == TaskKeyOf(r[i - 1]) && ks[i] == TaskKeyOf(r[i]);
      TaskGroupStartIsRunBegin(r, i - 1);
    }
  }

  /** An entry written from the start of row `i`'s group carries row `i`'s key. */
  lemma GroupEntryKey<N>(r: seq<TaskRow<N>>, i: nat, h: Hours)
    requires i < |r|
    ensures TaskEntryKey(TaskEntryAt(r, TaskGroupStart(r, i), h)) == TaskKeys(r)[i]
  {
    TaskGroupStartBoundary(r, i);
  }

  /** The keys of the opened entries up to `c`: those up to the start of the
      group before `c`, then that group's key. */
  lemma OpenedKeysSnoc<N>(r: seq<TaskRow<N>>, c: nat)
    requires 0 < c <= |r|
    ensures TaskEntryKeys(Opened(r, c)) == TaskEntryKeys(Opened(r, TaskGroupStart(r, c - 1))) + [TaskKeys(r)[c - 1]]
  {
    var b := TaskGroupStart(r, c - 1);
    var x := TaskEntryAt(r, b, TaskAcc(r, b));
    assert Opened(r, c) == Opened(r, b) + [x];
    GroupEntryKey(r, c - 1, x.hours);
    TaskEntryKeysSnoc(Opened(r, b), x);
  }

  /** Up to a group boundary, the opened entries' keys are the groups' keys in order. */
  lemma {:induction false} OpenedKeys<N(!new)>(r: seq<TaskRow<N>>, c: nat)
    requires c <= |r| && TaskBoundary(r, c)
    ensures TaskEntryKeys(Opened(r, c)) == Collapse(TaskKeys(r)[..c])
    decreases c
  {
    if c == 0 {
      assert TaskKeys(r)[..0] == [];
    } else {
      var ks := TaskKeys(r);
      var b := TaskGroupStart(r, c - 1);
      TaskGroupStartBoundary(r, c - 1);
      OpenedKeys(r, b);
      TaskGroupStartIsRunBegin(r, c - 1);
      OpenedKeysSnoc(r, c);
      CollapseSnoc(ks, c, Collapse(ks[..b]));
    }
  }

  /** Over all rows, the opened entries' keys are the groups' keys in order. */
  lemma AllOpenedKeys<N(!new)>(r: seq<TaskRow<N>>)
    ensures TaskEntryKeys(Opened(r, |r|)) == Collapse(TaskKeys(r))
  {
    OpenedKeys(r, |r|);
    WholePrefix(TaskKeys(r));
  }

  /** A long final group adds the key of its pushed entry after the groups' keys. */
  lemma ExpectedKeysLong<N(!new)>(r: seq<TaskRow<N>>)
    requires TaskFinalLong(r)
    ensures TaskEntryKeys(ExpectedTasks(r)) == Collapse(TaskKeys(r)) + [TaskKeyOf(r[|r| - 1])]
  {
    PushedKey(r);
    AllOpenedKeys(r);
  }

  /** The entry pushed after the opened ones carries the last row's key. */
  lemma PushedKey<N>(r: seq<TaskRow<N>>)
    requires 0 < |r|
    ensures var x := TaskEntryAt(r, TaskGroupStart(r, |r| - 1), TaskAcc(r, |r| - 1));
            TaskEntryKeys(Opened(r, |r|) + [x]) == TaskEntryKeys(Opened(r, |r|)) + [TaskKeyOf(r[|r| - 1])]
  {
    var n := |r|;
    var x := TaskEntryAt(r, TaskGroupStart(r, n - 1), TaskAcc(r, n - 1));
    TaskEntryKeysSnoc(Opened(r, n), x);
    GroupEntryKey(r, n - 1, x.hours);
  }

  /** index.js's `output2` lists one entry per group, in the order of the
      sorted rows, and one entry more when the last group has two rows or more. */
  lemma TaskExpectedKeys<N(!new)>(r: seq<TaskRow<N>>)
    ensures TaskEntryKeys(ExpectedTasks(r))
              == Collapse(TaskKeys(r)) + (if TaskFinalLong(r) then [TaskKeyOf(r[|r| - 1])] else [])
  {
    if TaskFinalLong(r) {
      ExpectedKeysLong(r);
    } else {
      AllOpenedKeys(r);
      assert Collapse(TaskKeys(r)) + [] == Collapse(TaskKeys(r));
    }
  }

  /** The number of entries: groups, plus one for a long last group. */
  lemma TaskEntryCount<N(!new)>(r: seq<TaskRow<N>>)
    ensures |ExpectedTasks(r)| == |Collapse(TaskKeys(r))| + (if TaskFinalLong(r) then 1 else 0)
  {
    TaskExpectedKeys(r);
  }

  // ---------------------------------------------------------------------
  // Which hours the last entry of a key carries

  /** The last entry for `k`: the cell index.js's grid ends up showing for `k`. */
  function LastTaskEntryFor<N(==)>(es: seq<TaskEntry<N>>, k: TaskKey<N>): Option<TaskEntry<N>> {
    if es == [] then None
    else if TaskEntryKey(es[|es| - 1]) == k then Some(es[|es| - 1])
    else LastTaskEntryFor(es[..|es| - 1], k)
  }

  /** The last entry for `k` is the entry at the last index with key `k`: none
      when no entry has that key. */
  lemma {:induction false} LastTaskEntryForIndex<N>(es: seq<TaskEntry<N>>, k: TaskKey<N>)
    ensures LastTaskEntryFor(es, k).None? <==> forall i :: 0 <= i < |es| ==> TaskEntryKey(es[i]) != k
    ensures LastTaskEntryFor(es, k).Some? ==>
              exists i :: 0 <= i < |es| && es[i] == LastTaskEntryFor(es, k).value && TaskEntryKey(es[i]) == k
                          && forall j :: i < j < |es| ==> TaskEntryKey(es[j]) != k
    decreases |es|
  {
    if es != [] && TaskEntryKey(es[|es| - 1]) != k {
      var init := es[..|es| - 1];
      LastTaskEntryForIndex(init, k);
      assert forall i :: 0 <= i < |es| - 1 ==> init[i] == es[i];
    }
  }

  lemma LastTaskEntryForSnoc<N(!new)>(es: seq<TaskEntry<N>>, x: TaskEntry<N>, k: TaskKey<N>)
    ensures LastTaskEntryFor(es + [x], k) == if TaskEntryKey(x) == k then Some(x) else LastTaskEntryFor(es, k)
  {
    assert (es + [x])[..|es|] == es;
  }

  /** A group of grouped keys starts at the first row with its key. */
  lemma GroupStartIsFirst<N>(r: seq<TaskRow<N>>, i: nat)
    requires Grouped(TaskKeys(r)) && i < |r|
    ensures TaskKeys(r)[i] in TaskKeys(r) && FirstIndex(TaskKeys(r), TaskKeys(r)[i]) == TaskGroupStart(r, i)
  {
    var ks := TaskKeys(r);
    var s := TaskGroupStart(r, i);
    TaskGroupStartBoundary(r, i);
    assert ks[s] == ks[i] && (s == 0 || ks[s - 1] != ks[s]);
    RunItemAbsentBefore(ks, s);
    FirstIndexAt(ks, ks[i], s);
  }

  /** A key occurs before `c` exactly when it occurs before the group that
      ends at `c`, or is that group's key. */
  lemma InPrefixGroup<N>(r: seq<TaskRow<N>>, c: nat, k: TaskKey<N>)
    requires 0 < c <= |r|
    ensures var ks := TaskKeys(r);
            k in ks[..c] <==> k in ks[..TaskGroupStart(r, c - 1)] || k == ks[c - 1]
  {
    var ks := TaskKeys(r);
    var b := TaskGroupStart(r, c - 1);
    if k in ks[..c] {
      var m :| 0 <= m < c && ks[..c][m] == k;
      if m < b {
        assert ks[..b][m] == k;
      } else {
        TaskInGroup(r, c - 1, m);
      }
    }
    if k in ks[..b] {
      var m :| 0 <= m < b && ks[..b][m] == k;
      assert ks[..c][m] == k;
    }
    assert ks[..c][c - 1] == ks[c - 1];
  }

  /** The entry a group opens is the key's entry with the hours of the key's
      first row. */
  lemma OpenedIsFirst<N>(r: seq<TaskRow<N>>, c: nat)
    requires 0 < c <= |r| && Grouped(TaskKeys(r))
    ensures var k := TaskKeys(r)[c - 1];
            var b := TaskGroupStart(r, c - 1);
            k in TaskKeys(r) && TaskEntryAt(r, b, TaskAcc(r, b)) == TaskEntry(k.task, k.date, FirstHours(r, k))
  {
    GroupStartIsFirst(r, c - 1);
    TaskAccAtStart(r, c - 1);
    GroupEntryKey(r, c - 1, Zero);
  }

  /** The group that ends at `c` opens the last entry of its own key, with
      the hours of the key's first row. */
  lemma OpenedStepSame<N(!new)>(r: seq<TaskRow<N>>, c: nat, k: TaskKey<N>)
    requires 0 < c <= |r| && Grouped(TaskKeys(r)) && k == TaskKeys(r)[c - 1]
    ensures k in TaskKeys(r)[..c] && k in TaskKeys(r)
    ensures LastTaskEntryFor(Opened(r, c), k) == Some(TaskEntry(k.task, k.date, FirstHours(r, k)))
  {
    var b := TaskGroupStart(r, c - 1);
    var x := TaskEntryAt(r, b, TaskAcc(r, b));
    assert Opened(r, c) == Opened(r, b) + [x];
    OpenedIsFirst(r, c);
    PushedLast(Opened(r, b), x, k, Opened(r, c));
    assert TaskKeys(r)[..c][c - 1] == k;
  }

  /** For any other key, the group that ends at `c` changes neither its last
      entry nor whether it has occurred. */
  lemma OpenedStepOther<N(!new)>(r: seq<TaskRow<N>>, c: nat, k: TaskKey<N>)
    requires 0 < c <= |r| && k != TaskKeys(r)[c - 1]
    ensures var b := TaskGroupStart(r, c - 1);
            && LastTaskEntryFor(Opened(r, c), k) == LastTaskEntryFor(Opened(r, b), k)
            && (k in TaskKeys(r)[..c] <==> k in TaskKeys(r)[..b])
  {
    var b := TaskGroupStart(r, c - 1);
    var x := TaskEntryAt(r, b, TaskAcc(r, b));
    assert Opened(r, c) == Opened(r, b) + [x];
    GroupEntryKey(r, c - 1, x.hours);
    PushedOtherKey(Opened(r, b), x, k, Opened(r, c));
    InPrefixGroup(r, c, k);
  }

  /** Up to a group boundary: the last opened entry of a key that occurs holds
      the hours of the key's first row. */
  lemma {:induction false} LastTaskEntryOpened<N(!new)>(r: seq<TaskRow<N>>, c: nat, k: TaskKey<N>)
    requires c <= |r| && TaskBoundary(r, c) && Grouped(TaskKeys(r))
    ensures LastTaskEntryFor(Opened(r, c), k)
              == if k in TaskKeys(r)[..c] && k in TaskKeys(r) then Some(TaskEntry(k.task, k.date, FirstHours(r, k))) else None
    decreases c
  {
    if c > 0 {
      if k == TaskKeys(r)[c - 1] {
        OpenedStepSame(r, c, k);
      } else {
        TaskGroupStartBoundary(r, c - 1);
        LastTaskEntryOpened(r, TaskGroupStart(r, c - 1), k);
        OpenedStepOther(r, c, k);
      }
    }
  }

  /** The running sum is the sum of the rows of the group read so far. */
  lemma {:induction false} TaskRunSum<N>(r: seq<TaskRow<N>>, j: nat)
    requires j < |r|
    ensures TaskAcc(r, j) == TaskSumHours(r, TaskGroupStart(r, j), j + 1)
    decreases j
  {
    if TaskCarries(r, j) {
      TaskRunSum(r, j - 1);
      CarryStep(r, j);
    }
  }

  /** An entry of key `k` pushed last is the last entry of `k`. */
  lemma PushedLast<N(!new)>(es: seq<TaskEntry<N>>, x: TaskEntry<N>, k: TaskKey<N>, all: seq<TaskEntry<N>>)
    requires all == es + [x] && TaskEntryKey(x) == k
    ensures LastTaskEntryFor(all, k) == Some(TaskEntry(k.task, k.date, x.hours))
  {
    LastTaskEntryForSnoc(es, x, k);
  }

  /** An entry of another key pushed last leaves the last entry of `k` as it was. */
  lemma PushedOtherKey<N(!new)>(es: seq<TaskEntry<N>>, x: TaskEntry<N>, k: TaskKey<N>, all: seq<TaskEntry<N>>)
    requires all == es + [x] && TaskEntryKey(x) != k
    ensures LastTaskEntryFor(all, k) == LastTaskEntryFor(es, k)
  {
    LastTaskEntryForSnoc(es, x, k);
  }

  /** The pushed entry of a long final group is the last entry of its key and
      holds the group's full sum. */
  lemma LongFinalEntry<N(!new)>(r: seq<TaskRow<N>>, k: TaskKey<N>)
    requires TaskFinalLong(r) && k == TaskKeyOf(r[|r| - 1]) && k in TaskKeys(r)
    requires FirstIndex(TaskKeys(r), k) == TaskGroupStart(r, |r| - 1)
    ensures LastTaskEntryFor(ExpectedTasks(r), k)
              == Some(TaskEntry(k.task, k.date, TaskSumHours(r, FirstIndex(TaskKeys(r), k), |r|)))
  {
    var n := |r|;
    var h := TaskAcc(r, n - 1);
    GroupEntryKey(r, n - 1, h);
    TaskRunSum(r, n - 1);
    PushedLast(Opened(r, n), TaskEntryAt(r, TaskGroupStart(r, n - 1), h), k, ExpectedTasks(r));
  }

  /** For every other key, the pushed sum changes nothing: its last entry
      is its last opened entry. */
  lemma OpenedEntry<N(!new)>(r: seq<TaskRow<N>>, k: TaskKey<N>)
    requires !(TaskFinalLong(r) && k == TaskKeyOf(r[|r| - 1]))
    ensures LastTaskEntryFor(ExpectedTasks(r), k) == LastTaskEntryFor(Opened(r, |r|), k)
  {
    if TaskFinalLong(r) {
      PushedOther(r, k);
    }
  }

  /** The sum pushed for the last key is not an entry of any other key. */
  lemma PushedOther<N(!new)>(r: seq<TaskRow<N>>, k: TaskKey<N>)
    requires TaskFinalLong(r) && k != TaskKeyOf(r[|r| - 1])
    ensures LastTaskEntryFor(ExpectedTasks(r), k) == LastTaskEntryFor(Opened(r, |r|), k)
  {
    var n := |r|;
    var x := TaskEntryAt(r, TaskGroupStart(r, n - 1), TaskAcc(r, n - 1));
    TaskGroupStartBoundary(r, n - 1);
    PushedOtherKey(Opened(r, n), x, k, ExpectedTasks(r));
  }

  /** index.js's `output2` gives every (task, day) of the input a last entry:
      the full sum of the group's rows when it is a final group of two rows or
      more, and otherwise the hours of the group's first row only; keys not in
      the input get no entry. */
  lemma LastTaskEntryHolds<N(!new)>(r: seq<TaskRow<N>>, k: TaskKey<N>)
    requires Grouped(TaskKeys(r))
    ensures LastTaskEntryFor(ExpectedTasks(r), k)
              == if k !in TaskKeys(r) then None
                 else if TaskFinalLong(r) && k == TaskKeyOf(r[|r| - 1])
                 then Some(TaskEntry(k.task, k.date, TaskSumHours(r, FirstIndex(TaskKeys(r), k), |r|)))
                 else Some(TaskEntry(k.task, k.date, FirstHours(r, k)))
  {
    if TaskFinalLong(r) && k == TaskKeyOf(r[|r| - 1]) {
      GroupStartIsFirst(r, |r| - 1);
      LongFinalEntry(r, k);
    } else {
      LastTaskEntryOpened(r, |r|, k);
      OpenedEntry(r, k);
      WholePrefix(TaskKeys(r));
    }
  }

  /** Two rows of one task and day followed by another task: the group is not
      the last, so its entry keeps the first row's hour and the second row's two
      hours are lost. */
  lemma LostHoursExample<N>(t: N, u: N)
    requires t != u
    ensures var d := Date(2020, 1, 6);
            ExpectedTasks([TaskRow(t, d, "1"), TaskRow(t, d, "2"), TaskRow(u, d, "1")])
              == [TaskEntry(t, d, Hundredths(100)), TaskEntry(u, d, Hundredths(100))]
  {
    var d := Date(2020, 1, 6);
    var r := [TaskRow(t, d, "1"), TaskRow(t, d, "2"), TaskRow(u, d, "1")];
    ParseWhole("1");
    assert TaskGroupStart(r, 2) == 2;
    assert TaskGroupStart(r, 1) == 0;
    assert Opened(r, 0) == [];
    assert Opened(r, 2) == [TaskEntry(t, d, Hundredths(100))];
  }
}
