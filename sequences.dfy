/**
 The building blocks of a filter's option list, `sorted(column.unique())`:
 pandas' `unique()` (distinct values in order of first appearance) and
 Python's `sorted()` (the same values in ascending order).
 */
module Sequences {
  import opened Ordering

  predicate Distinct<T(==)>(s: seq<T>) {
    forall i, j :: 0 <= i < j < |s| ==> s[i] != s[j]
  }

  /** No later element lies below an earlier one. */
  predicate Ascending<T>(s: seq<T>, less: (T, T) -> bool) {
    forall i, j :: 0 <= i < j < |s| ==> !less(s[j], s[i])
  }

  predicate StrictlyAscending<T>(s: seq<T>, less: (T, T) -> bool) {
    forall i, j :: 0 <= i < j < |s| ==> less(s[i], s[j])
  }

  /** pandas `Series.unique()`: every value once, at its first appearance. */
  function Unique<T(==,!new)>(xs: seq<T>): (r: seq<T>)
    ensures Distinct(r)
    ensures forall x :: x in r <==> x in xs
    ensures |r| <= |xs|
  {
    if xs == [] then []
    else
      var u := Unique(xs[..|xs| - 1]);
      assert xs == xs[..|xs| - 1] + [xs[|xs| - 1]];
      if xs[|xs| - 1] in u then u else u + [xs[|xs| - 1]]
  }

  /** `x` occurs in `xs` somewhere before the first occurrence of `y`. */
  ghost predicate AppearsBefore<T>(xs: seq<T>, x: T, y: T) {
    exists a :: 0 <= a < |xs| && xs[a] == x && y !in xs[..a + 1]
  }

  /** `unique()` lists the values in order of first appearance: of any two
      values it returns, the earlier one occurs in the column before the
      later one first does. */
  lemma {:induction false} UniqueKeepsFirstAppearanceOrder<T(!new)>(xs: seq<T>)
    ensures forall i, j :: 0 <= i < j < |Unique(xs)| ==> AppearsBefore(xs, Unique(xs)[i], Unique(xs)[j])
  {
    if xs != [] {
      var prefix, last := xs[..|xs| - 1], xs[|xs| - 1];
      UniqueKeepsFirstAppearanceOrder(prefix);
      var u, r := Unique(prefix), Unique(xs);
      assert xs == prefix + [last];
      forall i, j | 0 <= i < j < |r| ensures AppearsBefore(xs, r[i], r[j]) {
        assert r[i] == u[i] && u[i] in prefix;
        if j < |u| {
          assert r[j] == u[j] && AppearsBefore(prefix, u[i], u[j]);
          var a :| 0 <= a < |prefix| && prefix[a] == u[i] && u[j] !in prefix[..a + 1];
          assert xs[..a + 1] == prefix[..a + 1];
        } else {
          var a :| 0 <= a < |prefix| && prefix[a] == u[i];
          assert r[j] == last && last !in prefix;
          assert xs[..a + 1] == prefix[..a + 1];
        }
      }
    }
  }

  /** Places `x` in an ascending sequence, before the first element not below it. */
  function Insert<T(!new)>(x: T, s: seq<T>, less: (T, T) -> bool): (r: seq<T>)
    requires StrictTotalOrder(less)
    requires Ascending(s, less)
    ensures Ascending(r, less)
    ensures multiset(r) == multiset(s) + multiset{x}
  {
    if s == [] then [x]
    else if less(s[0], x) then
      var rest := Insert(x, s[1..], less);
      InsertAfterHead(x, s, rest, less);
      [s[0]] + rest
    else
      InsertAtHead(x, s, less);
      [x] + s
  }

  lemma InsertAfterHead<T(!new)>(x: T, s: seq<T>, rest: seq<T>, less: (T, T) -> bool)
    requires StrictTotalOrder(less)
    requires Ascending(s, less) && s != [] && less(s[0], x)
    requires Ascending(rest, less) && multiset(rest) == multiset(s[1..]) + multiset{x}
    ensures Ascending([s[0]] + rest, less)
    ensures multiset([s[0]] + rest) == multiset(s) + multiset{x}
  {
    assert s == [s[0]] + s[1..];
    var r := [s[0]] + rest;
    forall j | 0 < j < |r| ensures !less(r[j], s[0]) {
      assert r[j] == rest[j - 1];
      assert r[j] in multiset(rest);
      if r[j] != x {
        assert r[j] in s[1..];
        var m :| 0 <= m < |s| - 1 && s[1..][m] == r[j];
        assert s[m + 1] == r[j];
      }
    }
  }

  lemma InsertAtHead<T(!new)>(x: T, s: seq<T>, less: (T, T) -> bool)
    requires StrictTotalOrder(less)
    requires Ascending(s, less) && s != [] && !less(s[0], x)
    ensures Ascending([x] + s, less)
  {
    var r := [x] + s;
    forall k | 0 <= k < |s| ensures !less(s[k], x) {
      if k > 0 && s[k] != s[0] {
        assert less(s[0], s[k]);
      }
    }
    forall i, j | 0 <= i < j < |r| ensures !less(r[j], r[i]) {
      if i > 0 {
        assert r[i] == s[i - 1] && r[j] == s[j - 1];
      } else {
        assert r[j] == s[j - 1];
      }
    }
  }

  /** Python's `sorted()`: the same values in ascending order. */
  function SortAscending<T(!new)>(xs: seq<T>, less: (T, T) -> bool): (r: seq<T>)
    requires StrictTotalOrder(less)
    ensures Ascending(r, less)
    ensures multiset(r) == multiset(xs)
  {
    if xs == [] then []
    else
      assert xs == xs[..|xs| - 1] + [xs[|xs| - 1]];
      Insert(xs[|xs| - 1], SortAscending(xs[..|xs| - 1], less), less)
  }

  /** A sequence has no repeated value exactly when each value occurs at most once in its multiset. */
  lemma {:induction false} DistinctIffSingletons<T>(s: seq<T>)
    ensures Distinct(s) <==> forall x :: multiset(s)[x] <= 1
  {
    if s != [] {
      var p, y := s[..|s| - 1], s[|s| - 1];
      assert s == p + [y];
      DistinctIffSingletons(p);
      assert Distinct(s) <==> Distinct(p) && y !in p by {
        if Distinct(s) {
          assert forall i :: 0 <= i < |p| ==> p[i] == s[i];
        }
        if Distinct(p) && y !in p {
          forall i, j | 0 <= i < j < |s| ensures s[i] != s[j] {
            if j < |s| - 1 {
              assert s[i] == p[i] && s[j] == p[j];
            } else {
              assert s[i] == p[i];
            }
          }
        }
      }
      if forall x :: multiset(s)[x] <= 1 {
        forall x ensures multiset(p)[x] <= 1 {
          assert multiset(s)[x] == multiset(p)[x] + (if x == y then 1 else 0);
        }
        assert multiset(s)[y] == multiset(p)[y] + 1;
      }
    }
  }

  /** The options of one filter widget, `sorted(column.unique())`: every value
      of the column exactly once, in strictly ascending order. */
  function Domain<T(==,!new)>(xs: seq<T>, less: (T, T) -> bool): (r: seq<T>)
    requires StrictTotalOrder(less)
    ensures StrictlyAscending(r, less)
    ensures Distinct(r)
    ensures forall x :: x in r <==> x in xs
  {
    var u := Unique(xs);
    var r := SortAscending(u, less);
    DistinctIffSingletons(u);
    DistinctIffSingletons(r);
    assert forall x :: x in r <==> x in u by {
      forall x ensures x in r <==> x in u {
        assert x in r <==> x in multiset(r);
        assert x in u <==> x in multiset(u);
      }
    }
    r
  }

  /** A strictly ascending sequence is determined by its set of elements. */
  lemma {:induction false} StrictlyAscendingIsUnique<T(!new)>(a: seq<T>, b: seq<T>, less: (T, T) -> bool)
    requires StrictTotalOrder(less)
    requires StrictlyAscending(a, less) && StrictlyAscending(b, less)
    requires forall x :: x in a <==> x in b
    ensures a == b
  {
    assert a != [] ==> a[0] in b;
    assert b != [] ==> b[0] in a;
    if a != [] && b != [] {
      // Both heads are the least element of the same set.
      var a0, b0 := a[0], b[0];
      var k :| 0 <= k < |b| && b[k] == a0;
      var m :| 0 <= m < |a| && a[m] == b0;
      assert k == 0 || less(b0, a0);
      assert m == 0 || less(a0, b0);
      assert a0 == b0;
      forall x ensures x in a[1..] <==> x in b[1..] {
        if x in a[1..] {
          var i :| 0 <= i < |a| - 1 && a[1..][i] == x;
          assert a[i + 1] == x && less(a[0], x);
          assert x in b;
          var k :| 0 <= k < |b| && b[k] == x;
          assert k != 0;
          assert b[1..][k - 1] == x;
        }
        if x in b[1..] {
          var i :| 0 <= i < |b| - 1 && b[1..][i] == x;
          assert b[i + 1] == x && less(b[0], x);
          assert x in a;
          var k :| 0 <= k < |a| && a[k] == x;
          assert k != 0;
          assert a[1..][k - 1] == x;
        }
      }
      StrictlyAscendingIsUnique(a[1..], b[1..], less);
      assert a == [a[0]] + a[1..] && b == [b[0]] + b[1..];
    }
  }

  /** `Domain` is the only strictly ascending list of exactly the column's values. */
  lemma DomainIsCanonical<T(!new)>(xs: seq<T>, r: seq<T>, less: (T, T) -> bool)
    requires StrictTotalOrder(less)
    requires StrictlyAscending(r, less)
    requires forall x :: x in r <==> x in xs
    ensures r == Domain(xs, less)
  {
    StrictlyAscendingIsUnique(r, Domain(xs, less), less);
  }
}
