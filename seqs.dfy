/** The lodash and Array helpers the core uses, on sequences: `_.uniq`
    (first-seen order), `_.filter`, and a stable sort by key (`_.sortBy`,
    and `Array.prototype.sort` on string forms). */
module Seqs {

  predicate NoDup<T(==)>(s: seq<T>) {
    forall i, j :: 0 <= i < j < |s| ==> s[i] != s[j]
  }

  /** Index of the first occurrence of `x`. */
  function FirstIndex<T(==)>(s: seq<T>, x: T): (k: nat)
    requires x in s
    ensures k < |s| && s[k] == x && x !in s[..k]
  {
    if s[0] == x then 0 else 1 + FirstIndex(s[1..], x)
  }

  /** An occurrence with no earlier occurrence is the first one. */
  lemma FirstIndexAt<T>(s: seq<T>, x: T, k: nat)
    requires k < |s| && s[k] == x && x !in s[..k]
    ensures x in s && FirstIndex(s, x) == k
  {
  }

  /** `_.uniq(s)`: each distinct element once, in first-seen order. */
  function Uniq<T(==, !new)>(s: seq<T>): (u: seq<T>)
    ensures NoDup(u)
    ensures forall x :: x in u <==> x in s
    decreases |s|
  {
    if s == [] then []
    else
      var u := Uniq(s[..|s| - 1]);
      if s[|s| - 1] in u then u else u + [s[|s| - 1]]
  }

  /** First-seen order: earlier elements of `Uniq(s)` first occur earlier in `s`. */
  lemma {:induction false} UniqFirstSeen<T(!new)>(s: seq<T>)
    ensures forall i, j :: 0 <= i < j < |Uniq(s)| ==> FirstIndex(s, Uniq(s)[i]) < FirstIndex(s, Uniq(s)[j])
    decreases |s|
  {
    if s != [] {
      var init := s[..|s| - 1];
      UniqFirstSeen(init);
      forall x | x in init
        ensures FirstIndex(s, x) == FirstIndex(init, x)
      {
        FirstIndexOfPrefix(init, s, x);
      }
      var u := Uniq(s);
      forall i | 0 <= i < |u| - 1
        ensures u[i] in init
      {
      }
    }
  }

  lemma {:induction false} FirstIndexOfPrefix<T>(init: seq<T>, s: seq<T>, x: T)
    requires |init| <= |s| && s[..|init|] == init && x in init
    ensures FirstIndex(s, x) == FirstIndex(init, x)
  {
    if s[0] != x {
      assert s[1..][..|init| - 1] == init[1..];
      FirstIndexOfPrefix(init[1..], s[1..], x);
    }
  }

  lemma AppendAssoc<T>(a: seq<T>, b: seq<T>, c: seq<T>)
    ensures a + (b + c) == (a + b) + c
  {
  }

  lemma SliceSplit<T>(s: seq<T>, b: nat, c: nat)
    requires b <= c <= |s|
    ensures s[..c] == s[..b] + s[b..c]
  {
  }

  lemma SplitThree<T>(s: seq<T>, b: nat, c: nat)
    requires b <= c <= |s|
    ensures s == (s[..b] + s[b..c]) + s[c..]
  {
  }

  /** JavaScript's `a[i] = x` on an array without holes: overwrite position `i`,
      or append when `i` is the length. */
  function Store<T>(a: seq<T>, i: nat, x: T): (b: seq<T>)
    requires i <= |a|
    ensures |b| == if i < |a| then |a| else |a| + 1
    ensures b[i] == x
  {
    if i < |a| then a[i := x] else a + [x]
  }

  /** `Store` leaves every other position as it was. */
  lemma StoreKeeps<T>(a: seq<T>, i: nat, x: T)
    requires i <= |a|
    ensures forall j :: 0 <= j < |a| && j != i ==> Store(a, i, x)[j] == a[j]
  {
  }

  /** `_.filter(s, q)`. */
  function Filter<T(!new)>(s: seq<T>, q: T -> bool): (r: seq<T>)
    ensures |r| <= |s|
    ensures forall x :: x in r <==> x in s && q(x)
  {
    if s == [] then [] else (if q(s[0]) then [s[0]] else []) + Filter(s[1..], q)
  }

  lemma {:induction false} FilterAppend<T(!new)>(a: seq<T>, b: seq<T>, q: T -> bool)
    ensures Filter(a + b, q) == Filter(a, q) + Filter(b, q)
  {
    if a != [] {
      assert (a + b)[1..] == a[1..] + b;
      FilterAppend(a[1..], b, q);
    } else {
      assert a + b == b;
    }
  }

  lemma FilterCons<T(!new)>(x: T, t: seq<T>, q: T -> bool)
    ensures Filter([x] + t, q) == (if q(x) then [x] else []) + Filter(t, q)
  {
    assert ([x] + t)[1..] == t;
  }

  /** Nothing passes the filter when no element satisfies it. */
  lemma {:induction false} FilterNone<T(!new)>(s: seq<T>, q: T -> bool)
    requires forall i :: 0 <= i < |s| ==> !q(s[i])
    ensures Filter(s, q) == []
  {
    if s != [] {
      assert forall i :: 0 <= i < |s| - 1 ==> s[1..][i] == s[i + 1];
      FilterNone(s[1..], q);
    }
  }

  /** Everything passes the filter when every element satisfies it. */
  lemma {:induction false} FilterAll<T(!new)>(s: seq<T>, q: T -> bool)
    requires forall i :: 0 <= i < |s| ==> q(s[i])
    ensures Filter(s, q) == s
  {
    if s != [] {
      FilterAll(s[1..], q);
      assert s == [s[0]] + s[1..];
    }
  }

  /** When exactly the elements in `[b, c)` pass, the filter keeps that stretch. */
  lemma {:induction false} FilterSegment<T(!new)>(s: seq<T>, q: T -> bool, b: nat, c: nat)
    requires b <= c <= |s|
    requires forall i :: 0 <= i < |s| ==> (q(s[i]) <==> b <= i < c)
    ensures Filter(s, q) == s[b..c]
  {
    if c == 0 {
      FilterNone(s, q);
    } else {
      var t := s[1..];
      assert forall i :: 0 <= i < |t| ==> t[i] == s[i + 1];
      FilterCons(s[0], t, q);
      assert s == [s[0]] + t;
      if b > 0 {
        FilterSegment(t, q, b - 1, c - 1);
        assert s[b..c] == t[b - 1..c - 1];
      } else {
        FilterSegment(t, q, 0, c - 1);
        assert s[0..c] == [s[0]] + t[0..c - 1];
      }
    }
  }

  /** The filter of `u + [x] + v` is the filter of `u + v` with `x` kept in place when it passes. */
  lemma FilterAround<T(!new)>(u: seq<T>, x: T, v: seq<T>, q: T -> bool)
    ensures Filter(u + [x] + v, q) == Filter(u, q) + (if q(x) then [x] else []) + Filter(v, q)
    ensures Filter(u + v, q) == Filter(u, q) + Filter(v, q)
  {
    FilterAppend(u + [x], v, q);
    FilterAppend(u, [x], q);
    FilterAppend(u, v, q);
    FilterCons(x, [], q);
    assert [x] + [] == [x];
  }

  lemma FilterSnoc<T(!new)>(s: seq<T>, x: T, q: T -> bool)
    ensures Filter(s + [x], q) == Filter(s, q) + (if q(x) then [x] else [])
  {
    FilterAppend(s, [x], q);
    FilterCons(x, [], q);
    assert [x] + [] == [x];
  }

  /** Taking out the element at `m` takes it out of the multiset. */
  lemma RemoveAt<T>(b: seq<T>, m: nat)
    requires m < |b|
    ensures b == b[..m] + [b[m]] + b[m + 1..]
    ensures multiset(b) == multiset(b[..m] + b[m + 1..]) + multiset{b[m]}
  {
    assert b == b[..m] + [b[m]] + b[m + 1..];
  }

  lemma AppendNothing<T>(s: seq<T>, u: seq<T>, v: seq<T>)
    ensures s + [] == s && u + [] + v == u + v
  {
  }

  lemma MultisetCancel<T>(a: multiset<T>, b: multiset<T>, x: T)
    requires a + multiset{x} == b + multiset{x}
    ensures a == b
  {
    assert a == (a + multiset{x}) - multiset{x};
    assert b == (b + multiset{x}) - multiset{x};
  }
}
