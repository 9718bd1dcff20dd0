/**
 The orders that Python's `sorted()` applies to the filter options: text is
 compared lexicographically by code point, prices numerically.
 */
module Ordering {

  /** `less` is a strict total order: irreflexive, transitive, and any two
      different values are comparable. */
  ghost predicate StrictTotalOrder<T(!new)>(less: (T, T) -> bool) {
    && (forall x :: !less(x, x))
    && (forall x, y, z :: less(x, y) && less(y, z) ==> less(x, z))
    && (forall x, y :: x != y ==> less(x, y) || less(y, x))
  }

  /** Python's `<` on `str`: the first differing code point decides, and a
      proper prefix comes first. */
  predicate StringLess(a: string, b: string) {
    if |a| == 0 then |b| > 0
    else if |b| == 0 then false
    else if a[0] != b[0] then a[0] < b[0]
    else StringLess(a[1..], b[1..])
  }

  /** `a` is a proper prefix of `b`. */
  ghost predicate ProperPrefix(a: string, b: string) {
    |a| < |b| && a == b[..|a|]
  }

  /** `a` and `b` agree before position `k` and `a` has the smaller code point there. */
  ghost predicate FirstDifferenceAt(a: string, b: string, k: int) {
    0 <= k < |a| && k < |b| && a[..k] == b[..k] && a[k] < b[k]
  }

  /** Dropping an equal first character keeps prefixes and first differences,
      one position earlier. */
  lemma DropCommonHead(a: string, b: string)
    requires |a| > 0 && |b| > 0 && a[0] == b[0]
    ensures ProperPrefix(a, b) <==> ProperPrefix(a[1..], b[1..])
    ensures (exists k :: FirstDifferenceAt(a, b, k)) <==> exists j :: FirstDifferenceAt(a[1..], b[1..], j)
  {
    var a', b' := a[1..], b[1..];
    if |a| < |b| {
      assert a == [a[0]] + a' && b[..|a|] == [b[0]] + b'[..|a'|];
    }
    if exists k :: FirstDifferenceAt(a, b, k) {
      var k :| FirstDifferenceAt(a, b, k);
      assert k != 0;
      assert a'[..k - 1] == a[..k][1..] && b'[..k - 1] == b[..k][1..];
      assert FirstDifferenceAt(a', b', k - 1);
    }
    if exists j :: FirstDifferenceAt(a', b', j) {
      var j :| FirstDifferenceAt(a', b', j);
      assert a[..j + 1] == [a[0]] + a'[..j] && b[..j + 1] == [b[0]] + b'[..j];
      assert FirstDifferenceAt(a, b, j + 1);
    }
  }

  /** Python's rule for `str <`, stated directly: `a` is below `b` exactly
      when it is a proper prefix of `b`, or the first position where they
      differ holds a smaller code point in `a`. */
  lemma {:induction false} StringLessIsFirstDifference(a: string, b: string)
    ensures StringLess(a, b) <==> ProperPrefix(a, b) || exists k :: FirstDifferenceAt(a, b, k)
  {
    if |a| == 0 || |b| == 0 {
    } else if a[0] < b[0] {
      assert FirstDifferenceAt(a, b, 0);
    } else if a[0] != b[0] {
      var a0, b0 := a[0], b[0];
      assert ProperPrefix(a, b) ==> a0 == b0;
      assert forall k :: 0 < k <= |a| && k <= |b| && a[..k] == b[..k] ==> a0 == b0;
    } else {
      StringLessIsFirstDifference(a[1..], b[1..]);
      DropCommonHead(a, b);
    }
  }

  /** Python's `<` on numbers (prices are modelled as integers). */
  predicate IntLess(a: int, b: int) {
    a < b
  }

  lemma {:induction false} StringLessIrreflexive(a: string)
    ensures !StringLess(a, a)
  {
    if |a| > 0 {
      StringLessIrreflexive(a[1..]);
    }
  }

  lemma {:induction false} StringLessTransitive(a: string, b: string, c: string)
    requires StringLess(a, b) && StringLess(b, c)
    ensures StringLess(a, c)
  {
    if |a| > 0 && a[0] == b[0] && b[0] == c[0] {
      StringLessTransitive(a[1..], b[1..], c[1..]);
    }
  }

  lemma {:induction false} StringLessTotal(a: string, b: string)
    requires a != b
    ensures StringLess(a, b) || StringLess(b, a)
  {
    if |a| > 0 && |b| > 0 && a[0] == b[0] {
      assert a == [a[0]] + a[1..] && b == [b[0]] + b[1..];
      StringLessTotal(a[1..], b[1..]);
    }
  }

  lemma StringLessIsStrictTotalOrder()
    ensures StrictTotalOrder(StringLess)
  {
    forall x: string ensures !StringLess(x, x) {
      StringLessIrreflexive(x);
    }
    forall x: string, y: string, z: string | StringLess(x, y) && StringLess(y, z)
      ensures StringLess(x, z)
    {
      StringLessTransitive(x, y, z);
    }
    forall x: string, y: string | x != y ensures StringLess(x, y) || StringLess(y, x) {
      StringLessTotal(x, y);
    }
  }

  lemma IntLessIsStrictTotalOrder()
    ensures StrictTotalOrder(IntLess)
  {
  }
}
