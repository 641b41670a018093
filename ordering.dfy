/** Strict total orders, the least element of a finite set under one, and the
    ascending enumeration of a finite set. The ordered containers of the
    schema normaliser (std::set of strings, of attribute sets and of
    dependencies) iterate their elements in exactly this ascending order. */
module Ordering {

  /** `less` is irreflexive, transitive and total on distinct values. */
  ghost predicate IsStrictTotalOrder<T(!new)>(less: (T, T) -> bool) {
    && (forall x :: !less(x, x))
    && (forall x, y, z :: less(x, y) && less(y, z) ==> less(x, z))
    && (forall x, y :: x != y ==> less(x, y) || less(y, x))
  }

  /** `m` is an element of `s` that no element of `s` precedes. */
  predicate IsLeast<T>(m: T, s: set<T>, less: (T, T) -> bool) {
    m in s && forall y :: y in s ==> !less(y, m)
  }

  /** Every non-empty finite set has a least element. */
  lemma {:induction false} MinimumExists<T(!new)>(s: set<T>, less: (T, T) -> bool)
    requires s != {}
    requires IsStrictTotalOrder(less)
    ensures exists m :: IsLeast(m, s, less)
    decreases s
  {
    var x :| x in s;
    var rest := s - {x};
    if rest == {} {
      assert s == {x};
      assert IsLeast(x, s, less);
    } else {
      MinimumExists(rest, less);
      var m :| IsLeast(m, rest, less);
      if less(x, m) {
        forall y | y in s ensures !less(y, x) {
          if y != x {
            assert y in rest && !less(y, m);
          }
        }
        assert IsLeast(x, s, less);
      } else {
        assert IsLeast(m, s, less);
      }
    }
  }

  /** The first element of `s` in ascending order (`s.begin()` of an ordered set). */
  function MinBy<T(!new)>(s: set<T>, less: (T, T) -> bool): (m: T)
    requires s != {}
    requires IsStrictTotalOrder(less)
    ensures m in s
    ensures forall y :: y in s && y != m ==> less(m, y)
  {
    MinimumExists(s, less);
    var m :| IsLeast(m, s, less);
    m
  }

  /** The elements of `s` in ascending order (the iteration order of an ordered set). */
  function Ascending<T(!new)>(s: set<T>, less: (T, T) -> bool): (r: seq<T>)
    requires IsStrictTotalOrder(less)
    ensures |r| == |s|
    ensures forall i :: 0 <= i < |r| ==> r[i] in s
    ensures forall x :: x in s ==> x in r
    ensures forall i, j :: 0 <= i < j < |r| ==> less(r[i], r[j])
    decreases s
  {
    if s == {} then []
    else
      var m := MinBy(s, less);
      var rest := Ascending(s - {m}, less);
      var r := [m] + rest;
      assert forall i :: 0 <= i < |rest| ==> less(m, rest[i]);
      assert forall i, j :: 0 <= i < j < |r| ==> less(r[i], r[j]) by {
        forall i, j | 0 <= i < j < |r| ensures less(r[i], r[j]) {
          if i == 0 {
            assert r[j] == rest[j - 1];
          } else {
            assert r[i] == rest[i - 1] && r[j] == rest[j - 1];
          }
        }
      }
      r
  }

  /** Two finite sets with the same ascending enumeration are equal. */
  lemma AscendingInjective<T(!new)>(a: set<T>, b: set<T>, less: (T, T) -> bool)
    requires IsStrictTotalOrder(less)
    requires Ascending(a, less) == Ascending(b, less)
    ensures a == b
  {
    var s := Ascending(a, less);
    forall x | x in a ensures x in b { assert x in s; }
    forall x | x in b ensures x in a { assert x in s; }
  }

}
