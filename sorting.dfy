/** Stable sorting, as Python's `list.sort` and a database `ORDER BY` over a
    table scanned in insertion order provide it. An order is given by a
    relation `before(a, b)`: "a has to be placed ahead of b". Elements that
    are not ordered either way are "tied" and keep their input order. */
module Sorting {
  import opened Models

  /** `before` is a strict weak order: asymmetric and negatively transitive
      (if a is ahead of c, every b is behind a or ahead of c). */
  ghost predicate StrictWeakOrder<T(!new)>(before: (T, T) -> bool) {
    (forall a, b :: before(a, b) ==> !before(b, a)) &&
    (forall a, b, c :: before(a, c) ==> before(a, b) || before(b, c))
  }

  /** No element is placed ahead of an element it has to follow. */
  ghost predicate Sorted<T>(s: seq<T>, before: (T, T) -> bool) {
    forall i, j :: 0 <= i < j < |s| ==> !before(s[j], s[i])
  }

  predicate Tied<T>(a: T, b: T, before: (T, T) -> bool) {
    !before(a, b) && !before(b, a)
  }

  /** The elements of `s` tied with `y`, in the order of `s`. */
  function TiedWith<T>(s: seq<T>, y: T, before: (T, T) -> bool): (r: seq<T>)
    ensures |r| <= |s|
  {
    if s == [] then []
    else if Tied(s[0], y, before) then [s[0]] + TiedWith(s[1..], y, before)
    else TiedWith(s[1..], y, before)
  }

  /** Puts `x` ahead of the first element of `s` that does not have to come before it. */
  function Insert<T>(x: T, s: seq<T>, before: (T, T) -> bool): (r: seq<T>)
    ensures multiset(r) == multiset(s) + multiset{x}
  {
    if s == [] || !before(s[0], x) then [x] + s
    else
      assert s == [s[0]] + s[1..];
      [s[0]] + Insert(x, s[1..], before)
  }

  /** Stable insertion sort. */
  function SortBy<T>(xs: seq<T>, before: (T, T) -> bool): (r: seq<T>)
    ensures multiset(r) == multiset(xs)
  {
    if xs == [] then []
    else
      assert xs == [xs[0]] + xs[1..];
      Insert(xs[0], SortBy(xs[1..], before), before)
  }

  lemma {:induction false} InsertSorted<T(!new)>(x: T, s: seq<T>, before: (T, T) -> bool)
    requires StrictWeakOrder(before)
    requires Sorted(s, before)
    ensures Sorted(Insert(x, s, before), before)
  {
    if s == [] || !before(s[0], x) {
      var r := [x] + s;
      forall i, j | 0 <= i < j < |r| ensures !before(r[j], r[i]) {
        if i == 0 && s != [] {
          // before(r[j], x) would force before(r[j], s[0]) or before(s[0], x)
          assert r[j] == s[j - 1];
          if j - 1 > 0 { assert !before(s[j - 1], s[0]); }
        }
      }
    } else {
      var t := Insert(x, s[1..], before);
      InsertSorted(x, s[1..], before);
      var r := [s[0]] + t;
      forall i, j | 0 <= i < j < |r| ensures !before(r[j], r[i]) {
        if i == 0 {
          assert r[j] in multiset(t);
          assert r[j] == x || r[j] in s[1..];
          if r[j] != x {
            var k :| 0 <= k < |s[1..]| && s[1..][k] == r[j];
            assert s[k + 1] == r[j];
          }
        } else {
          assert r[i] == t[i - 1] && r[j] == t[j - 1];
        }
      }
    }
  }

  /** The sort result is ordered. */
  lemma {:induction false} SortBySorted<T(!new)>(xs: seq<T>, before: (T, T) -> bool)
    requires StrictWeakOrder(before)
    ensures Sorted(SortBy(xs, before), before)
  {
    if xs != [] {
      SortBySorted(xs[1..], before);
      InsertSorted(xs[0], SortBy(xs[1..], before), before);
    }
  }

  lemma {:induction false} InsertStable<T(!new)>(x: T, s: seq<T>, y: T, before: (T, T) -> bool)
    requires StrictWeakOrder(before)
    ensures TiedWith(Insert(x, s, before), y, before)
         == (if Tied(x, y, before) then [x] else []) + TiedWith(s, y, before)
  {
    if s == [] || !before(s[0], x) {
      assert ([x] + s)[1..] == s;
    } else {
      InsertStable(x, s[1..], y, before);
      var r := [s[0]] + Insert(x, s[1..], before);
      assert r[1..] == Insert(x, s[1..], before);
      if Tied(x, y, before) {
        // s[0] is ahead of x, which is tied with y, so s[0] is ahead of y
        assert before(s[0], y) || before(y, x);
      }
    }
  }

  /** Stability: the elements tied with any `y` appear in input order. */
  lemma {:induction false} SortByStable<T(!new)>(xs: seq<T>, y: T, before: (T, T) -> bool)
    requires StrictWeakOrder(before)
    ensures TiedWith(SortBy(xs, before), y, before) == TiedWith(xs, y, before)
  {
    if xs != [] {
      SortByStable(xs[1..], y, before);
      InsertStable(xs[0], SortBy(xs[1..], before), y, before);
    }
  }

  lemma {:induction false} InsertDistinct<T>(x: T, s: seq<T>, before: (T, T) -> bool)
    requires x !in s && NoDuplicates(s)
    ensures NoDuplicates(Insert(x, s, before))
  {
    if s != [] && before(s[0], x) {
      InsertDistinct(x, s[1..], before);
      var t := Insert(x, s[1..], before);
      assert s[0] !in multiset(t) by {
        assert forall k :: 1 <= k < |s| ==> s[k] == s[1..][k - 1];
      }
      assert forall k :: 0 <= k < |t| ==> ([s[0]] + t)[k + 1] == t[k];
    }
  }

  /** Sorting introduces no duplicates. */
  lemma {:induction false} SortByDistinct<T>(xs: seq<T>, before: (T, T) -> bool)
    requires NoDuplicates(xs)
    ensures NoDuplicates(SortBy(xs, before))
  {
    if xs != [] {
      assert forall k :: 1 <= k < |xs| ==> xs[k] == xs[1..][k - 1];
      SortByDistinct(xs[1..], before);
      assert xs[0] !in multiset(SortBy(xs[1..], before));
      InsertDistinct(xs[0], SortBy(xs[1..], before), before);
    }
  }

  /** A `WHERE` clause over a table scanned in insertion order: the rows
      satisfying `keep`, in order. */
  function Where<T>(s: seq<T>, keep: T -> bool): (r: seq<T>)
    ensures |r| <= |s|
    ensures forall i :: 0 <= i < |r| ==> keep(r[i])
    decreases |s|
  {
    if s == [] then []
    else
      var init := s[..|s| - 1];
      var last := s[|s| - 1];
      Where(init, keep) + (if keep(last) then [last] else [])
  }

  /** The rows kept are exactly the rows of `s` satisfying `keep`. */
  lemma {:induction false} WhereMembers<T>(s: seq<T>, keep: T -> bool, x: T)
    ensures x in Where(s, keep) <==> x in s && keep(x)
    decreases |s|
  {
    if s != [] {
      var init := s[..|s| - 1];
      assert s == init + [s[|s| - 1]];
      WhereMembers(init, keep, x);
    }
  }

  /** The first row kept is the first row of `s` satisfying `keep`. */
  lemma {:induction false} WhereFirst<T>(s: seq<T>, keep: T -> bool)
    requires Where(s, keep) != []
    ensures exists k :: 0 <= k < |s| && s[k] == Where(s, keep)[0] && keep(s[k]) &&
                        forall i :: 0 <= i < k ==> !keep(s[i])
    decreases |s|
  {
    var init := s[..|s| - 1];
    if Where(init, keep) != [] {
      WhereFirst(init, keep);
      var k :| 0 <= k < |init| && init[k] == Where(init, keep)[0] && keep(init[k]) &&
               forall i :: 0 <= i < k ==> !keep(init[i]);
      assert Where(s, keep)[0] == Where(init, keep)[0];
      assert s[k] == init[k];
      assert forall i :: 0 <= i < k ==> s[i] == init[i];
    } else {
      WhereNone(init, keep);
      assert Where(s, keep) == [s[|s| - 1]];
      assert forall i :: 0 <= i < |s| - 1 ==> s[i] == init[i];
    }
  }

  /** Nothing kept: no row satisfies `keep`. */
  lemma WhereNone<T>(s: seq<T>, keep: T -> bool)
    requires Where(s, keep) == []
    ensures forall i :: 0 <= i < |s| ==> !keep(s[i])
  {
    forall i | 0 <= i < |s| ensures !keep(s[i]) {
      WhereMembers(s, keep, s[i]);
    }
  }

  /** Two conditions that agree on every row select the same rows. */
  lemma {:induction false} WhereAgree<T>(s: seq<T>, p: T -> bool, q: T -> bool)
    requires forall i :: 0 <= i < |s| ==> p(s[i]) == q(s[i])
    ensures Where(s, p) == Where(s, q)
    decreases |s|
  {
    if s != [] {
      WhereAgree(s[..|s| - 1], p, q);
    }
  }
}
