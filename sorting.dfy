/**
 * Sorting of a finite set by a strict total order.  The hook sorts four
 * times (years descending, months ascending, year-month keys descending
 * with `localeCompare`, keys ascending with the default string order); each
 * of those is `SortBy` with the matching order.
 */
module Sorting {

  /** `lt` is irreflexive, transitive and total on distinct elements. */
  ghost predicate StrictTotalOrder<T(!new)>(lt: (T, T) -> bool) {
    && (forall a :: !lt(a, a))
    && (forall a, b, c :: lt(a, b) && lt(b, c) ==> lt(a, c))
    && (forall a, b :: a != b ==> lt(a, b) || lt(b, a))
  }

  /** Every earlier element is strictly `lt` every later one (so no duplicates). */
  predicate SortedBy<T>(s: seq<T>, lt: (T, T) -> bool) {
    forall i, j :: 0 <= i < j < |s| ==> lt(s[i], s[j])
  }

  predicate IsLeast<T>(m: T, s: set<T>, lt: (T, T) -> bool) {
    m in s && forall x :: x in s && x != m ==> lt(m, x)
  }

  lemma {:induction false} LeastExists<T(!new)>(s: set<T>, lt: (T, T) -> bool)
    requires StrictTotalOrder(lt)
    requires s != {}
    ensures exists m :: IsLeast(m, s, lt)
  {
    var x :| x in s;
    var rest := s - {x};
    if rest == {} {
      assert s == {x};
      assert IsLeast(x, s, lt);
    } else {
      LeastExists(rest, lt);
      var m :| IsLeast(m, rest, lt);
      if lt(x, m) {
        forall y | y in s && y != x ensures lt(x, y) {
          if y != m {
            assert lt(m, y);
          }
        }
        assert IsLeast(x, s, lt);
      } else {
        assert IsLeast(m, s, lt);
      }
    }
  }

  /** The sorted sequence of the elements of `s`. */
  method SortBy<T(!new)>(s: set<T>, lt: (T, T) -> bool) returns (r: seq<T>)
    requires StrictTotalOrder(lt)
    ensures SortedBy(r, lt)
    ensures forall x :: x in r <==> x in s
    ensures |r| == |s|
  {
    r := [];
    var rest := s;
    while rest != {}
      invariant rest <= s
      invariant SortedBy(r, lt)
      invariant forall x :: x in s <==> x in r || x in rest
      invariant forall x :: x in r ==> x !in rest
      invariant forall i, x :: 0 <= i < |r| && x in rest ==> lt(r[i], x)
      invariant |r| + |rest| == |s|
      decreases |rest|
    {
      LeastExists(rest, lt);
      var m :| IsLeast(m, rest, lt);
      r := r + [m];
      rest := rest - {m};
    }
  }

  function Elements<T>(s: seq<T>): set<T> {
    set x | x in s
  }

  lemma HeadIsLeast<T>(s: seq<T>, lt: (T, T) -> bool)
    requires SortedBy(s, lt) && s != []
    ensures IsLeast(s[0], Elements(s), lt)
  {
    forall x | x in Elements(s) && x != s[0] ensures lt(s[0], x) {
      var i :| 0 <= i < |s| && s[i] == x;
    }
  }

  lemma LeastUnique<T(!new)>(m: T, n: T, s: set<T>, lt: (T, T) -> bool)
    requires StrictTotalOrder(lt)
    requires IsLeast(m, s, lt) && IsLeast(n, s, lt)
    ensures m == n
  {
  }

  /**
   * A set has only one sorted listing: whichever way the source's set
   * iteration and its sort go, the result is the same.
   */
  lemma {:induction false} SortedUnique<T(!new)>(a: seq<T>, b: seq<T>, lt: (T, T) -> bool)
    requires StrictTotalOrder(lt)
    requires SortedBy(a, lt) && SortedBy(b, lt)
    requires forall x :: x in a <==> x in b
    ensures a == b
  {
    assert a == [] <==> b == [] by {
      if a != [] { assert a[0] in b; }
      if b != [] { assert b[0] in a; }
    }
    if a != [] {
      assert Elements(a) == Elements(b);
      HeadIsLeast(a, lt);
      HeadIsLeast(b, lt);
      LeastUnique(a[0], b[0], Elements(a), lt);
      forall x ensures x in a[1..] <==> x in b[1..] {
        if x in a[1..] {
          var i :| 1 <= i < |a| && a[i] == x;
          assert lt(a[0], x);
          assert x in b;
          var j :| 0 <= j < |b| && b[j] == x;
          assert j != 0;
          assert x in b[1..];
        }
        if x in b[1..] {
          var j :| 1 <= j < |b| && b[j] == x;
          assert lt(b[0], x);
          assert x in a;
          var i :| 0 <= i < |a| && a[i] == x;
          assert i != 0;
          assert x in a[1..];
        }
      }
      SortedUnique(a[1..], b[1..], lt);
      assert a == [a[0]] + a[1..];
      assert b == [b[0]] + b[1..];
    }
  }

  /** In a sorted sequence no later element is `lt` an earlier one. */
  lemma SortedNotBackward<T(!new)>(s: seq<T>, lt: (T, T) -> bool, i: nat, j: nat)
    requires StrictTotalOrder(lt) && SortedBy(s, lt)
    requires i <= j < |s|
    ensures !lt(s[j], s[i])
  {
    if i < j {
      assert lt(s[i], s[j]);
    }
  }

  /** A sorted sequence has no repeated element. */
  lemma SortedDistinct<T(!new)>(s: seq<T>, lt: (T, T) -> bool)
    requires StrictTotalOrder(lt) && SortedBy(s, lt)
    ensures forall a, b :: 0 <= a < |s| && 0 <= b < |s| && s[a] == s[b] ==> a == b
  {
    forall a, b | 0 <= a < |s| && 0 <= b < |s| && a != b ensures s[a] != s[b] {
      if a < b {
        assert lt(s[a], s[b]);
      } else {
        assert lt(s[b], s[a]);
      }
    }
  }
}
