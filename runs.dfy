/** Runs of equal adjacent items in a sorted sequence of keys: the groups the
    aggregation loop of `processCSV` sums. */
module Runs {
  import opened Seqs

  /** Equal items are adjacent: whatever lies between two equal items equals them. */
  ghost predicate Contiguous<K>(ks: seq<K>) {
    forall i, j, k :: 0 <= i < j < k < |ks| && ks[i] == ks[k] ==> ks[j] == ks[i]
  }

  /** The first index of the run of equal items that goes back from `i`. */
  function RunBegin<K(==)>(ks: seq<K>, i: nat): (b: nat)
    requires i < |ks|
    ensures b <= i
    ensures b > 0 ==> ks[b - 1] != ks[i]
  {
    if i > 0 && ks[i - 1] == ks[i] then RunBegin(ks, i - 1) else i
  }

  /** Every item from the run's first index up to `i` equals the item at `i`. */
  lemma {:induction false} RunBeginSame<K>(ks: seq<K>, i: nat, j: nat)
    requires i < |ks| && RunBegin(ks, i) <= j <= i
    ensures ks[j] == ks[i]
    decreases i
  {
    if j < i {
      RunBeginSame(ks, i - 1, j);
    }
  }

  /** Adjacent repeats collapsed to one item each, read from the left. */
  function Collapse<K(==)>(ks: seq<K>): (c: seq<K>)
    ensures |c| <= |ks|
    decreases |ks|
  {
    if |ks| <= 1 then ks
    else
      var init := ks[..|ks| - 1];
      if ks[|ks| - 2] == ks[|ks| - 1] then Collapse(init) else Collapse(init) + [ks[|ks| - 1]]
  }

  /** Collapsing repeats keeps every item and adds none. */
  lemma {:induction false} CollapseMembers<K>(ks: seq<K>, x: K)
    ensures x in Collapse(ks) <==> x in ks
    decreases |ks|
  {
    if |ks| > 1 {
      var init := ks[..|ks| - 1];
      CollapseMembers(init, x);
      assert ks == init + [ks[|ks| - 1]];
      assert ks[|ks| - 2] in init;
    }
  }

  /** Up to the end of a run, the collapsed prefix ends with the run's item,
      once, after the collapsed prefix before the run. */
  lemma {:induction false} CollapseUpTo<K(!new)>(ks: seq<K>, c: nat)
    requires 0 < c <= |ks|
    ensures Collapse(ks[..c]) == Collapse(ks[..RunBegin(ks, c - 1)]) + [ks[c - 1]]
  {
    var t := ks[..c];
    if c == 1 {
      assert t == [ks[0]];
      assert ks[..0] == [];
    } else {
      assert t[..c - 1] == ks[..c - 1];
      assert t[c - 2] == ks[c - 2] && t[c - 1] == ks[c - 1];
      if ks[c - 2] == ks[c - 1] {
        CollapseUpTo(ks, c - 1);
      }
    }
  }

  /** The step of `CollapseUpTo` with the collapsed prefix before the run named `e`. */
  lemma CollapseSnoc<K(!new)>(ks: seq<K>, c: nat, e: seq<K>)
    requires 0 < c <= |ks| && e == Collapse(ks[..RunBegin(ks, c - 1)])
    ensures Collapse(ks[..c]) == e + [ks[c - 1]]
  {
    CollapseUpTo(ks, c);
  }

  /** Equal items are adjacent, read from the left: each item either repeats
      the one before it or has not occurred yet. */
  predicate Grouped<K(==)>(ks: seq<K>)
    decreases |ks|
  {
    |ks| <= 1 || (Grouped(ks[..|ks| - 1]) && (ks[|ks| - 2] == ks[|ks| - 1] || ks[|ks| - 1] !in ks[..|ks| - 1]))
  }

  lemma {:induction false} GroupedPrefix<K>(ks: seq<K>, n: nat)
    requires Grouped(ks) && n <= |ks|
    ensures Grouped(ks[..n])
    decreases |ks|
  {
    if n < |ks| {
      assert ks[..|ks| - 1][..n] == ks[..n];
      GroupedPrefix(ks[..|ks| - 1], n);
    } else {
      assert ks[..n] == ks;
    }
  }

  /** The two readings of adjacency agree. */
  lemma {:induction false} ContiguousIsGrouped<K>(ks: seq<K>)
    ensures Contiguous(ks) <==> Grouped(ks)
    decreases |ks|
  {
    if |ks| > 1 {
      var n := |ks|;
      var init := ks[..n - 1];
      ContiguousIsGrouped(init);
      assert forall i :: 0 <= i < n - 1 ==> init[i] == ks[i];
      if Contiguous(ks) {
        assert Contiguous(init);
      }
    }
  }

  /** A run start of a grouped sequence: the run's item does not occur before it. */
  lemma RunItemAbsentBefore<K>(ks: seq<K>, i: nat)
    requires Grouped(ks) && i < |ks| && (i == 0 || ks[i - 1] != ks[i])
    ensures ks[i] !in ks[..i]
  {
    if i > 0 {
      GroupedPrefix(ks, i + 1);
      var t := ks[..i + 1];
      assert t[..i] == ks[..i] && t[i - 1] == ks[i - 1] && t[i] == ks[i];
    }
  }

  /** A run end of a grouped sequence: the run's item does not occur after it. */
  lemma {:induction false} RunItemAbsentAt<K>(ks: seq<K>, c: nat, m: nat)
    requires Grouped(ks) && 0 < c <= m < |ks| && ks[c - 1] != ks[c]
    ensures ks[m] != ks[c - 1]
    decreases m
  {
    if m > c {
      RunItemAbsentAt(ks, c, m - 1);
      GroupedPrefix(ks, m + 1);
      var t := ks[..m + 1];
      assert t[..m] == ks[..m] && t[m - 1] == ks[m - 1] && t[m] == ks[m];
      assert ks[c - 1] in ks[..m];
    }
  }

  lemma RunItemAbsentAfter<K>(ks: seq<K>, c: nat)
    requires Grouped(ks) && 0 < c && (c == |ks| || (c < |ks| && ks[c - 1] != ks[c]))
    ensures forall m :: c <= m < |ks| ==> ks[m] != ks[c - 1]
  {
    forall m | c <= m < |ks|
      ensures ks[m] != ks[c - 1]
    {
      RunItemAbsentAt(ks, c, m);
    }
  }

  /** When equal items are adjacent, collapsing their repeats leaves each item exactly once. */
  lemma {:induction false} CollapseDistinct<K(!new)>(ks: seq<K>, c: nat)
    requires Grouped(ks) && c <= |ks|
    ensures NoDup(Collapse(ks[..c]))
  {
    if c > 0 {
      var b := RunBegin(ks, c - 1);
      CollapseUpTo(ks, c);
      CollapseDistinct(ks, b);
      CollapseMembers(ks[..b], ks[c - 1]);
      RunBeginSame(ks, c - 1, b);
      RunItemAbsentBefore(ks, b);
    } else {
      assert ks[..0] == [];
    }
  }
}
