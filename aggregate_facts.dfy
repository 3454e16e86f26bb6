/** What `output2` holds, group by group, as the rest of `processCSV` reads it:
    which keys get entries and how many, which sum the last entry of a key
    carries, and where the loop departs from a plain per-key sum. */
module AggregateFacts {
  import opened Wrappers
  import opened Duration
  import opened Calendar
  import opened Seqs
  import opened Runs
  import opened Normalise
  import opened Aggregate

  /** The keys of the entries, in order. */
  function EntryKeys<N>(es: seq<Entry<N>>): (ks: seq<Key<N>>)
    ensures |ks| == |es|
  {
    if es == [] then [] else EntryKeys(es[..|es| - 1]) + [EntryKey(es[|es| - 1])]
  }

  lemma EntryKeysSnoc<N>(es: seq<Entry<N>>, x: Entry<N>)
    ensures EntryKeys(es + [x]) == EntryKeys(es) + [EntryKey(x)]
  {
    assert (es + [x])[..|es|] == es;
  }

  /** The last group has two rows or more, so the loop pushes its sum as an extra entry. */
  predicate FinalGroupLong<N(==, !new)>(r: seq<Row<N>>) {
    |r| >= 2 && KeyOf(r[|r| - 2]) == KeyOf(r[|r| - 1])
  }

  /** Up to a group boundary, the closed entries' keys are the groups' keys in order. */
  lemma {:induction false} ClosedKeys<N(!new)>(r: seq<Row<N>>, c: nat)
    requires c <= |r| && Boundary(r, c)
    ensures EntryKeys(Closed(r, c)) == Collapse(Keys(r)[..c])
    decreases c
  {
    if c == 0 {
      assert Keys(r)[..0] == [];
    } else {
      var b := GroupStart(r, c - 1);
      GroupStartBoundary(r, c - 1);
      ClosedKeys(r, b);
      CollapseUpTo(Keys(r), c);
      GroupStartIsRunBegin(r, c - 1);
      EntryKeysSnoc(Closed(r, b), EntryFor(KeyOf(r[c - 1]), Acc(r, c - 1)));
    }
  }

  /** `output2` lists one entry per group, in the order of the sorted rows,
      and one entry more when the last group has two rows or more. */
  lemma ExpectedKeys<N(!new)>(r: seq<Row<N>>)
    ensures EntryKeys(Expected(r)) == Collapse(Keys(r)) + (if FinalGroupLong(r) then [KeyOf(r[|r| - 1])] else [])
  {
    if |r| > 0 {
      var n := |r|;
      var s := GroupStart(r, n - 1);
      var first := EntryFor(KeyOf(r[s]), Acc(r, s));
      GroupStartBoundary(r, n - 1);
      GroupsBeforeLast(r);
      FinalGroupLongAt(r);
      EntryKeysSnoc(Closed(r, s), first);
      if s < n - 1 {
        EntryKeysSnoc(Closed(r, s) + [first], EntryFor(KeyOf(r[s]), Acc(r, n - 1)));
      }
    } else {
      assert Keys(r) == [];
    }
  }

  /** The groups' keys are the closed entries' keys followed by the last group's key. */
  lemma GroupsBeforeLast<N(!new)>(r: seq<Row<N>>)
    requires 0 < |r|
    ensures Collapse(Keys(r)) == EntryKeys(Closed(r, GroupStart(r, |r| - 1))) + [KeyOf(r[|r| - 1])]
  {
    var ks, n := Keys(r), |r|;
    GroupStartBoundary(r, n - 1);
    ClosedKeys(r, GroupStart(r, n - 1));
    CollapseUpTo(ks, n);
    GroupStartIsRunBegin(r, n - 1);
    assert ks[..n] == ks;
  }

  /** The last group is long exactly when it starts before the last row. */
  lemma FinalGroupLongAt<N(!new)>(r: seq<Row<N>>)
    requires 0 < |r|
    ensures FinalGroupLong(r) <==> GroupStart(r, |r| - 1) < |r| - 1
  {
  }

  /** Once equal keys are adjacent, as the sort makes them, the groups have distinct keys. */
  lemma GroupKeysDistinct<N(!new)>(r: seq<Row<N>>)
    requires Grouped(Keys(r))
    ensures NoDup(Collapse(Keys(r)))
  {
    CollapseDistinct(Keys(r), |r|);
    assert Keys(r)[..|r|] == Keys(r);
  }

  // ---------------------------------------------------------------------
  // Which sum the last entry of a key carries

  /** `hours` only accumulates inside a group: two neighbouring rows with the
      same task and day also have the same project. */
  predicate NoCarryAcrossProjects<N(==, !new)>(r: seq<Row<N>>) {
    forall i {:trigger Carries(r, i)} :: 0 < i < |r| && Carries(r, i) ==> r[i - 1].project == r[i].project
  }

  /** The sum of the rows' hours, read left to right. */
  function SumHours<N(==, !new)>(rows: seq<Row<N>>): Hours {
    if rows == [] then Zero else Add(SumHours(rows[..|rows| - 1]), ParseHours(rows[|rows| - 1].hours))
  }

  predicate HasKey<N(==, !new)>(k: Key<N>, row: Row<N>) {
    KeyOf(row) == k
  }

  function KeyIs<N(==, !new)>(k: Key<N>): Row<N> -> bool {
    row => HasKey(k, row)
  }

  /** The hours of all rows with key `k`, summed: what one would expect from a per-key total. */
  function KeySum<N(==, !new)>(r: seq<Row<N>>, k: Key<N>): Hours {
    SumHours(Filter(r, KeyIs(k)))
  }

  /** The row where the running sum at row `j` last started afresh. */
  function FreshStart<N(==)>(r: seq<Row<N>>, j: nat): (s: nat)
    requires j < |r|
    ensures s <= j && !Carries(r, s)
  {
    if Carries(r, j) then FreshStart(r, j - 1) else j
  }

  /** The running sum is the sum of the rows read since it last started afresh. */
  lemma {:induction false} AccFromFresh<N(!new)>(r: seq<Row<N>>, j: nat)
    requires j < |r|
    ensures Acc(r, j) == SumHours(r[FreshStart(r, j)..j + 1])
    decreases j
  {
    if Carries(r, j) {
      AccFromFresh(r, j - 1);
      AccCarried(r, FreshStart(r, j), j);
    } else {
      AccFresh(r, j);
    }
  }

  /** Without a carry across projects, the sum starts afresh exactly where a group starts. */
  lemma {:induction false} FreshIsGroupStart<N(!new)>(r: seq<Row<N>>, j: nat)
    requires j < |r| && NoCarryAcrossProjects(r)
    ensures FreshStart(r, j) == GroupStart(r, j)
    decreases j
  {
    if Carries(r, j) {
      assert r[j - 1].project == r[j].project;
      FreshIsGroupStart(r, j - 1);
    }
  }

  /** A row that starts afresh sums to its own hours. */
  lemma AccFresh<N(!new)>(r: seq<Row<N>>, s: nat)
    requires s < |r| && !Carries(r, s)
    ensures Acc(r, s) == SumHours(r[s..s + 1])
  {
    var x := r[s];
    assert r[s..s + 1] == [] + [x];
    SumHoursSnoc([], x);
  }

  /** A carried row adds its hours to the sum of the rows before it. */
  lemma AccCarried<N(!new)>(r: seq<Row<N>>, s: nat, j: nat)
    requires s < j < |r| && Carries(r, j) && Acc(r, j - 1) == SumHours(r[s..j])
    ensures Acc(r, j) == SumHours(r[s..j + 1])
  {
    var before, x := r[s..j], r[j];
    assert r[s..j + 1] == before + [x];
    SumHoursSnoc(before, x);
  }

  /** With equal keys adjacent, no row outside a group has the group's key. */
  lemma OutsideGroup<N(!new)>(r: seq<Row<N>>, c: nat)
    requires 0 < c <= |r| && Boundary(r, c) && Grouped(Keys(r))
    ensures forall m :: 0 <= m < |r| ==> (KeyOf(r[m]) == KeyOf(r[c - 1]) <==> GroupStart(r, c - 1) <= m < c)
  {
    var ks := Keys(r);
    var b := GroupStart(r, c - 1);
    GroupStartBoundary(r, c - 1);
    AllInGroup(r, c - 1);
    assert ks[b] == ks[c - 1];
    assert b == 0 || ks[b - 1] != ks[b];
    RunItemAbsentBefore(ks, b);
    assert c == |ks| || ks[c - 1] != ks[c];
    RunItemAbsentAfter(ks, c);
    forall m | 0 <= m < |r|
      ensures KeyOf(r[m]) == KeyOf(r[c - 1]) <==> b <= m < c
    {
      assert ks[m] == KeyOf(r[m]);
      if m < b {
        assert ks[..b][m] == ks[m];
      } else if m >= c {
        assert ks[m] != ks[c - 1];
      }
    }
  }

  /** With equal keys adjacent, the rows of a group's key are exactly the group. */
  lemma GroupIsFilter<N(!new)>(r: seq<Row<N>>, c: nat)
    requires 0 < c <= |r| && Boundary(r, c) && Grouped(Keys(r))
    ensures Filter(r, KeyIs(KeyOf(r[c - 1]))) == r[GroupStart(r, c - 1)..c]
  {
    OutsideGroup(r, c);
    FilterSegment(r, KeyIs(KeyOf(r[c - 1])), GroupStart(r, c - 1), c);
  }

  /** Without a carry across projects, a group's last running sum is the sum of its rows. */
  lemma RunSum<N(!new)>(r: seq<Row<N>>, c: nat)
    requires 0 < c <= |r| && NoCarryAcrossProjects(r)
    ensures Acc(r, c - 1) == SumHours(r[GroupStart(r, c - 1)..c])
  {
    FreshIsGroupStart(r, c - 1);
    AccFromFresh(r, c - 1);
  }

  /** Without a carry across projects, a group's last running sum is its key's sum. */
  lemma GroupSum<N(!new)>(r: seq<Row<N>>, c: nat)
    requires 0 < c <= |r| && Boundary(r, c) && Grouped(Keys(r)) && NoCarryAcrossProjects(r)
    ensures Acc(r, c - 1) == KeySum(r, KeyOf(r[c - 1]))
  {
    RunSum(r, c);
    GroupIsFilter(r, c);
  }

  /** The last entry for `k`: the cell the grid ends up showing for `k`, since
      later writes overwrite earlier ones. */
  function LastEntryFor<N(==)>(es: seq<Entry<N>>, k: Key<N>): Option<Entry<N>> {
    if es == [] then None
    else if EntryKey(es[|es| - 1]) == k then Some(es[|es| - 1])
    else LastEntryFor(es[..|es| - 1], k)
  }

  /** The last entry for `k` is the entry at the last index with key `k`: none
      when no entry has that key. */
  lemma {:induction false} LastEntryForIndex<N>(es: seq<Entry<N>>, k: Key<N>)
    ensures LastEntryFor(es, k).None? <==> forall i :: 0 <= i < |es| ==> EntryKey(es[i]) != k
    ensures LastEntryFor(es, k).Some? ==>
              exists i :: 0 <= i < |es| && es[i] == LastEntryFor(es, k).value && EntryKey(es[i]) == k
                          && forall j :: i < j < |es| ==> EntryKey(es[j]) != k
    decreases |es|
  {
    if es != [] && EntryKey(es[|es| - 1]) != k {
      var init := es[..|es| - 1];
      LastEntryForIndex(init, k);
      assert forall i :: 0 <= i < |es| - 1 ==> init[i] == es[i];
    }
  }

  /** An entry written last decides its own key and leaves the others alone. */
  lemma LastEntryForSnoc<N(!new)>(es: seq<Entry<N>>, x: Entry<N>, k: Key<N>)
    ensures LastEntryFor(es + [x], k) == if EntryKey(x) == k then Some(x) else LastEntryFor(es, k)
  {
    assert (es + [x])[..|es|] == es;
  }

  /** Some row before `c` has key `k`. */
  predicate Occurs<N(==)>(r: seq<Row<N>>, k: Key<N>, c: nat)
    requires c <= |r|
  {
    c > 0 && (KeyOf(r[c - 1]) == k || Occurs(r, k, c - 1))
  }

  lemma {:induction false} OccursInKeys<N>(r: seq<Row<N>>, k: Key<N>, c: nat)
    requires c <= |r|
    ensures Occurs(r, k, c) <==> k in Keys(r)[..c]
  {
    var ks := Keys(r);
    if c == 0 {
      assert ks[..0] == [];
    } else {
      OccursInKeys(r, k, c - 1);
      assert ks[..c] == ks[..c - 1] + [ks[c - 1]];
    }
  }

  /** A key occurs up to the end of a group when it is the group's key or occurs before the group. */
  lemma {:induction false} OccursInGroup<N>(r: seq<Row<N>>, k: Key<N>, c: nat)
    requires 0 < c <= |r|
    ensures Occurs(r, k, c) <==> k == KeyOf(r[c - 1]) || Occurs(r, k, GroupStart(r, c - 1))
  {
    if c > 1 && KeyOf(r[c - 2]) == KeyOf(r[c - 1]) {
      OccursInGroup(r, k, c - 1);
    }
  }

  /** Up to a group boundary: the last closed entry of a key that occurs holds that key's sum. */
  lemma {:induction false} LastEntryClosed<N(!new)>(r: seq<Row<N>>, c: nat, k: Key<N>)
    requires c <= |r| && Boundary(r, c) && Grouped(Keys(r)) && NoCarryAcrossProjects(r)
    ensures LastEntryFor(Closed(r, c), k) == if Occurs(r, k, c) then Some(EntryFor(k, KeySum(r, k))) else None
    decreases c
  {
    if c > 0 {
      var b := GroupStart(r, c - 1);
      GroupStartBoundary(r, c - 1);
      LastEntryClosed(r, b, k);
      GroupSum(r, c);
      LastEntryForSnoc(Closed(r, b), EntryFor(KeyOf(r[c - 1]), Acc(r, c - 1)), k);
      OccursInGroup(r, k, c);
    }
  }

  /** An entry of the same key just before `full` is shadowed by it. */
  lemma LastEntryShadowed<N(!new)>(closed: seq<Entry<N>>, first: Entry<N>, full: Entry<N>, k: Key<N>)
    requires EntryKey(first) == EntryKey(full)
    ensures LastEntryFor(closed + [first] + [full], k) == LastEntryFor(closed + [full], k)
  {
    LastEntryForSnoc(closed + [first], full, k);
    LastEntryForSnoc(closed, full, k);
    LastEntryForSnoc(closed, first, k);
  }

  /** The first-row entry a long last group leaves behind is shadowed by the
      pushed sum: every key's last entry in `output2` is its last closed entry
      over all the rows. */
  lemma LastEntryAsClosed<N(!new)>(r: seq<Row<N>>, k: Key<N>)
    ensures LastEntryFor(Expected(r), k) == LastEntryFor(Closed(r, |r|), k)
  {
    var n := |r|;
    if n > 0 && GroupStart(r, n - 1) < n - 1 {
      var s := GroupStart(r, n - 1);
      GroupStartBoundary(r, n - 1);
      LastEntryShadowed(Closed(r, s), EntryFor(KeyOf(r[s]), Acc(r, s)), EntryFor(KeyOf(r[n - 1]), Acc(r, n - 1)), k);
    }
  }

  /** When no sum runs across projects, the last entry of every key in the
      input holds the key's summed hours; keys not in the input get no entry. */
  lemma LastEntryHoldsSum<N(!new)>(r: seq<Row<N>>, k: Key<N>)
    requires Grouped(Keys(r)) && NoCarryAcrossProjects(r)
    ensures LastEntryFor(Expected(r), k) == if k in Keys(r) then Some(EntryFor(k, KeySum(r, k))) else None
  {
    OccursInKeys(r, k, |r|);
    assert Keys(r)[..|r|] == Keys(r);
    LastEntryClosed(r, |r|, k);
    LastEntryAsClosed(r, k);
  }

  /** A long last group leaves its first row's entry in front of the pushed sum. */
  lemma StaleEntry<N(!new)>(r: seq<Row<N>>)
    requires FinalGroupLong(r)
    ensures var out := Expected(r);
            var s := GroupStart(r, |r| - 1);
            var k := KeyOf(r[|r| - 1]);
            && |out| >= 2
            && out[|out| - 2] == EntryFor(k, Acc(r, s))
            && out[|out| - 1] == EntryFor(k, Acc(r, |r| - 1))
  {
    var s := GroupStart(r, |r| - 1);
    GroupStartBoundary(r, |r| - 1);
    assert s < |r| - 1;
  }

  // ---------------------------------------------------------------------
  // Two worked inputs

  /** Two entries of a quarter and a third of an hour on one task and day: the
      pushed sum of 0.58 hours follows the first row's entry of 0.25 hours. */
  lemma SameDayExample<N>(p: N, t: N)
    ensures var d := Date(2020, 1, 6);
            Expected([Row(p, t, d, "0,25"), Row(p, t, d, "0,33")])
              == [Entry(p, t, d, Hundredths(25)), Entry(p, t, d, Hundredths(58))]
  {
    var d := Date(2020, 1, 6);
    var r := [Row(p, t, d, "0,25"), Row(p, t, d, "0,33")];
    ParseHoursQuarterThird();
    assert Acc(r, 0) == Hundredths(25);
    assert Acc(r, 1) == Hundredths(58);
    assert GroupStart(r, 1) == 0;
  }

  /** Neighbouring rows that differ only in the project: the second project's
      entry carries the first project's hours as well (3 hours for 2). */
  lemma CarryAcrossProjectsExample<N(!new)>(a: N, b: N, t: N)
    requires a != b
    ensures var d := Date(2020, 1, 6);
            var r := [Row(a, t, d, "1"), Row(b, t, d, "2")];
            && !NoCarryAcrossProjects(r)
            && Expected(r) == [EntryFor(Key(a, t, d), Hundredths(100)), EntryFor(Key(b, t, d), Hundredths(300))]
            && KeySum(r, Key(b, t, d)) == Hundredths(200)
  {
    var d := Date(2020, 1, 6);
    var r := [Row(a, t, d, "1"), Row(b, t, d, "2")];
    ParseWhole("1");
    ParseWhole("2");
    assert Carries(r, 1) && r[0].project != r[1].project;
    assert Acc(r, 0) == Hundredths(100);
    assert Acc(r, 1) == Hundredths(300);
    assert GroupStart(r, 1) == 1 && GroupStart(r, 0) == 0;
    assert Closed(r, 1) == [EntryFor(Key(a, t, d), Hundredths(100))];
    var q := KeyIs(Key(b, t, d));
    assert r == [r[0]] + [r[1]];
    FilterCons(r[0], [r[1]], q);
    FilterCons(r[1], [], q);
    assert Filter(r, q) == [r[1]];
    assert SumHours([r[1]]) == Hundredths(200);
  }

  // ---------------------------------------------------------------------
  // Per-key sums do not depend on the order of the rows

  /** Adding two amounts in either order after a third gives the same sum. */
  lemma AddSwap(a: Hours, b: Hours, c: Hours)
    ensures Add(Add(a, b), c) == Add(Add(a, c), b)
  {
  }

  /** One more row adds its hours to the sum. */
  lemma SumHoursSnoc<N(!new)>(s: seq<Row<N>>, x: Row<N>)
    ensures SumHours(s + [x]) == Add(SumHours(s), ParseHours(x.hours))
  {
    assert (s + [x])[..|s|] == s;
  }

  lemma Regroup<T>(u: seq<T>, x: T, v: seq<T>, y: T)
    ensures u + [x] + (v + [y]) == (u + [x] + v) + [y]
    ensures u + (v + [y]) == (u + v) + [y]
  {
  }

  /** Summing `u + [x] + v` is summing `u + v` and then adding `x`. */
  lemma {:induction false} SumHoursLifted<N(!new)>(u: seq<Row<N>>, x: Row<N>, v: seq<Row<N>>)
    ensures SumHours(u + [x] + v) == Add(SumHours(u + v), ParseHours(x.hours))
    decreases |v|
  {
    if v == [] {
      assert u + [x] + v == u + [x];
      assert u + v == u;
      SumHoursSnoc(u, x);
    } else {
      var init := v[..|v| - 1];
      var y := v[|v| - 1];
      var w := u + [x] + init;
      SumHoursLifted(u, x, init);
      assert v == init + [y];
      Regroup(u, x, init, y);
      SumHoursSnoc(w, y);
      SumHoursSnoc(u + init, y);
      AddSwap(SumHours(u + init), ParseHours(x.hours), ParseHours(y.hours));
    }
  }

  /** Putting `x` at the end of one side and anywhere in the other keeps two equal key sums equal. */
  lemma KeySumStep<N(!new)>(init: seq<Row<N>>, x: Row<N>, u: seq<Row<N>>, v: seq<Row<N>>, k: Key<N>)
    requires KeySum(init, k) == KeySum(u + v, k)
    ensures KeySum(init + [x], k) == KeySum(u + [x] + v, k)
  {
    var q := KeyIs(k);
    FilterAround(u, x, v, q);
    FilterSnoc(init, x, q);
    if q(x) {
      KeptStep(Filter(init, q), x, Filter(u, q), Filter(v, q));
    } else {
      AppendNothing(Filter(init, q), Filter(u, q), Filter(v, q));
    }
  }

  lemma KeptStep<N(!new)>(fi: seq<Row<N>>, x: Row<N>, fu: seq<Row<N>>, fv: seq<Row<N>>)
    requires SumHours(fi) == SumHours(fu + fv)
    ensures SumHours(fi + [x]) == SumHours(fu + [x] + fv)
  {
    SumHoursLifted(fu, x, fv);
    SumHoursSnoc(fi, x);
  }

  /** Reordering the rows changes no key's sum. */
  lemma {:induction false} KeySumPermutation<N(!new)>(a: seq<Row<N>>, b: seq<Row<N>>, k: Key<N>)
    requires multiset(a) == multiset(b)
    ensures KeySum(a, k) == KeySum(b, k)
    decreases |a|
  {
    if a == [] {
      assert |b| == |multiset(b)| == 0;
    } else {
      var init := a[..|a| - 1];
      var x := a[|a| - 1];
      assert a == init + [x];
      assert x in multiset(a);
      var m :| 0 <= m < |b| && b[m] == x;
      var u, v := b[..m], b[m + 1..];
      RemoveAt(b, m);
      assert multiset(a) == multiset(init) + multiset{x};
      MultisetCancel(multiset(init), multiset(u + v), x);
      KeySumPermutation(init, u + v, k);
      KeySumStep(init, x, u, v, k);
    }
  }

  /** Reordering the rows keeps the set of keys. */
  lemma KeysPermutation<N>(a: seq<Row<N>>, b: seq<Row<N>>, k: Key<N>)
    requires multiset(a) == multiset(b)
    ensures k in Keys(a) <==> k in Keys(b)
  {
    if k in Keys(a) {
      var i :| 0 <= i < |a| && Keys(a)[i] == k;
      assert a[i] in multiset(b);
      var j :| 0 <= j < |b| && b[j] == a[i];
      assert Keys(b)[j] == k;
    }
    if k in Keys(b) {
      var j :| 0 <= j < |b| && Keys(b)[j] == k;
      assert b[j] in multiset(a);
      var i :| 0 <= i < |a| && a[i] == b[j];
      assert Keys(a)[i] == k;
    }
  }
}
