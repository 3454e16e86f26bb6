/** Stable sorting by a text key in UTF-16 code-unit order (`Text.LexLe`): the model of both
    `Array.prototype.sort()` on rows compared by their joined text and
    lodash's `_.sortBy` on a text field. */
module Sorting {
  import opened Text
  import opened Seqs

  /** The keys ascend along `s`. */
  ghost predicate SortedBy<T>(s: seq<T>, key: T -> string) {
    forall i, j :: 0 <= i < j < |s| ==> LexLe(key(s[i]), key(s[j]))
  }

  /** Put `x` before the first element whose key it does not exceed. */
  function InsertBy<T>(x: T, s: seq<T>, key: T -> string): (r: seq<T>)
    ensures multiset(r) == multiset(s) + multiset{x}
    ensures SortedBy(s, key) ==> SortedBy(r, key)
  {
    if s == [] then [x]
    else if LexLe(key(x), key(s[0])) then
      InsertFront(x, s, key);
      [x] + s
    else
      var t := InsertBy(x, s[1..], key);
      InsertBehind(x, s, key, t);
      [s[0]] + t
  }

  /** `x` may go in front when its key does not exceed the first one. */
  lemma InsertFront<T>(x: T, s: seq<T>, key: T -> string)
    requires s != [] && LexLe(key(x), key(s[0]))
    ensures SortedBy(s, key) ==> SortedBy([x] + s, key)
  {
    var r := [x] + s;
    if SortedBy(s, key) {
      forall j | 0 < j < |r|
        ensures LexLe(key(x), key(r[j]))
      {
        if j > 1 {
          LexLeTransitive(key(x), key(s[0]), key(s[j - 1]));
        }
      }
    }
  }

  /** When `x`'s key exceeds the first one, the first element stays in front
      of the rest with `x` inserted. */
  lemma InsertBehind<T>(x: T, s: seq<T>, key: T -> string, t: seq<T>)
    requires s != [] && !LexLe(key(x), key(s[0]))
    requires multiset(t) == multiset(s[1..]) + multiset{x}
    requires SortedBy(s[1..], key) ==> SortedBy(t, key)
    ensures multiset([s[0]] + t) == multiset(s) + multiset{x}
    ensures SortedBy(s, key) ==> SortedBy([s[0]] + t, key)
  {
    assert s == [s[0]] + s[1..];
    if SortedBy(s, key) {
      LexLeTotal(key(x), key(s[0]));
      forall j | 0 <= j < |t|
        ensures LexLe(key(s[0]), key(t[j]))
      {
        assert t[j] in multiset(t);
        if t[j] != x {
          assert t[j] in s[1..];
        }
      }
    }
  }

  /** A stable sort by key: insertion sort, equal keys keep their input order. */
  function SortBy<T>(s: seq<T>, key: T -> string): (r: seq<T>)
    ensures multiset(r) == multiset(s)
    ensures SortedBy(r, key)
  {
    if s == [] then []
    else
      var r := InsertBy(s[0], SortBy(s[1..], key), key);
      assert s == [s[0]] + s[1..];
      r
  }

  /** Inserting `x` among elements of one key `k` puts it in front of them. */
  lemma {:induction false} InsertByFilter<T(!new)>(x: T, s: seq<T>, key: T -> string, q: T -> bool, k: string)
    requires forall y :: q(y) ==> key(y) == k
    ensures Filter(InsertBy(x, s, key), q) == (if q(x) then [x] else []) + Filter(s, q)
  {
    if s == [] {
      FilterCons(x, [], q);
    } else if LexLe(key(x), key(s[0])) {
      assert InsertBy(x, s, key) == [x] + s;
      FilterCons(x, s, q);
    } else {
      var t := InsertBy(x, s[1..], key);
      var rest := Filter(s[1..], q);
      assert InsertBy(x, s, key) == [s[0]] + t;
      InsertByFilter(x, s[1..], key, q, k);
      FilterCons(s[0], t, q);
      assert s == [s[0]] + s[1..];
      FilterCons(s[0], s[1..], q);
      if q(x) {
        OneKeyBefore(x, s[0], key, q, k);
        assert Filter(t, q) == [x] + rest;
      } else {
        assert Filter(t, q) == rest;
      }
    }
  }

  /** An element of key `k` cannot sort after another element of key `k`. */
  lemma OneKeyBefore<T>(x: T, y: T, key: T -> string, q: T -> bool, k: string)
    requires forall z :: q(z) ==> key(z) == k
    requires q(x) && !LexLe(key(x), key(y))
    ensures !q(y)
  {
    LexLeTotal(k, k);
  }

  /** Stability: among elements that share one key, the sort keeps the input order. */
  lemma {:induction false} SortByStable<T(!new)>(s: seq<T>, key: T -> string, q: T -> bool, k: string)
    requires forall y :: q(y) ==> key(y) == k
    ensures Filter(SortBy(s, key), q) == Filter(s, q)
  {
    if s != [] {
      SortByStable(s[1..], key, q, k);
      InsertByFilter(s[0], SortBy(s[1..], key), key, q, k);
      assert s == [s[0]] + s[1..];
      FilterCons(s[0], s[1..], q);
    }
  }
}
