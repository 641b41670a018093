/** The set helpers of the normaliser: membership, inclusion and equality of
    attribute sets, computed the way the C++ templates compute them — by a
    search of the ordered set and by std::includes over two ascending ranges. */
module TemplateDef {
  import opened Ordering
  import opened SetStrCompare

  /** std::find_if over a range: the index of the first element satisfying `p`,
      or the length of the range when none does. */
  function FindIf<T>(x: seq<T>, p: T -> bool): (r: nat)
    ensures r <= |x|
    ensures r < |x| ==> p(x[r])
    ensures forall i :: 0 <= i < r ==> !p(x[i])
    decreases |x|
  {
    if |x| == 0 then 0
    else if p(x[0]) then 0
    else 1 + FindIf(x[1..], p)
  }

  /** The index where a left-to-right scan stops is what find_if returns:
      every element before it fails `p`, and it is the end or satisfies `p`. */
  lemma {:induction false} FindIfIs<T>(x: seq<T>, p: T -> bool, i: nat)
    requires i <= |x|
    requires forall j :: 0 <= j < i ==> !p(x[j])
    requires i < |x| ==> p(x[i])
    ensures FindIf(x, p) == i
    decreases |x|
  {
    if |x| > 0 && i > 0 {
      assert !p(x[0]);
      assert forall j :: 0 <= j < i - 1 ==> x[1..][j] == x[j + 1];
      FindIfIs(x[1..], p, i - 1);
    }
  }

  /** find_if on a suffix: it stops at once on an element satisfying `p`,
      and otherwise goes on from the next element. */
  lemma FindIfSuffix<T>(x: seq<T>, p: T -> bool, i: nat)
    requires i < |x|
    ensures p(x[i]) ==> FindIf(x[i..], p) == 0
    ensures !p(x[i]) ==> FindIf(x[i..], p) == 1 + FindIf(x[i + 1..], p)
  {
    assert x[i..][1..] == x[i + 1..];
  }

  /** find_if over an ordered set: no element satisfies `p` when the search
      runs off the end, and otherwise the element found precedes every other
      element satisfying `p`. */
  lemma FindIfAscending<T(!new)>(s: set<T>, less: (T, T) -> bool, p: T -> bool)
    requires IsStrictTotalOrder(less)
    ensures var x := Ascending(s, less);
      FindIf(x, p) == |x| ==> forall y :: y in s ==> !p(y)
    ensures var x := Ascending(s, less); var i := FindIf(x, p);
      i < |x| ==> x[i] in s && forall y :: y in s && p(y) && y != x[i] ==> less(x[i], y)
  {
    var x := Ascending(s, less);
    var i := FindIf(x, p);
    forall y | y in s ensures (i == |x| ==> !p(y)) && (i < |x| && p(y) && y != x[i] ==> less(x[i], y)) {
      var j :| 0 <= j < |x| && x[j] == y;
      if i < |x| && p(y) && y != x[i] {
        assert i < j by {
          assert !(j < i);
        }
        assert less(x[i], x[j]);
      }
    }
  }

  /** The elements of `x` ascend strictly under `less`. */
  predicate Sorted<T>(x: seq<T>, less: (T, T) -> bool) {
    forall i, j :: 0 <= i < j < |x| ==> less(x[i], x[j])
  }

  /** std::includes: every element of the ascending range `y` occurs in the
      ascending range `x`, decided in one merge-like pass over both. */
  function Includes<T(!new)>(x: seq<T>, y: seq<T>, less: (T, T) -> bool): (r: bool)
    requires IsStrictTotalOrder(less)
    requires Sorted(x, less) && Sorted(y, less)
    ensures r <==> forall v :: v in y ==> v in x
    decreases |x| + |y|
  {
    if |y| == 0 then true
    else if |x| == 0 then assert y[0] in y; false
    else if less(y[0], x[0]) then
      assert y[0] !in x by {
        forall i | 0 <= i < |x| ensures x[i] != y[0] {
          if i > 0 { assert less(x[0], x[i]); }
        }
      }
      false
    else if less(x[0], y[0]) then
      assert x[0] !in y by {
        forall i | 0 <= i < |y| ensures y[i] != x[0] {
          if i > 0 { assert less(y[0], y[i]); }
        }
      }
      assert forall v :: v in x && v != x[0] ==> v in x[1..] by {
        forall v | v in x && v != x[0] ensures v in x[1..] {
          var i :| 0 <= i < |x| && x[i] == v;
          assert x[1..][i - 1] == v;
        }
      }
      Includes(x[1..], y, less)
    else
      assert x[0] == y[0];
      assert forall v :: v in y[1..] ==> v != x[0] by {
        forall i | 0 < i < |y| ensures y[i] != x[0] { assert less(y[0], y[i]); }
      }
      assert forall v :: v in x && v != x[0] ==> v in x[1..] by {
        forall v | v in x && v != x[0] ensures v in x[1..] {
          var i :| 0 <= i < |x| && x[i] == v;
          assert x[1..][i - 1] == v;
        }
      }
      assert forall v :: v in y && v != y[0] ==> v in y[1..] by {
        forall v | v in y && v != y[0] ensures v in y[1..] {
          var i :| 0 <= i < |y| && y[i] == v;
          assert y[1..][i - 1] == v;
        }
      }
      Includes(x[1..], y[1..], less)
  }

  /** contains(list, val): the search of the ordered set finds `val`
      (template_def.h:24-27). */
  function Contains(list: set<string>, val: string): (r: bool)
    ensures r <==> val in list
  {
    var x := SortedAttrs(list);
    FindIf(x, v => v == val) != |x|
  }

  /** isSubset(lhs, rhs): every element of `rhs` is in `lhs` — note the
      argument order (template_def.h:54-57). */
  function IsSubset(lhs: set<string>, rhs: set<string>): (r: bool)
    ensures r <==> rhs <= lhs
  {
    StrLessIsStrictTotalOrder();
    var x, y := SortedAttrs(lhs), SortedAttrs(rhs);
    var r := Includes(x, y, StrLess);
    assert r ==> rhs <= lhs by {
      if r {
        forall v | v in rhs ensures v in lhs { assert v in y; }
      }
    }
    r
  }

  /** isEqual(lhs, rhs): equal sizes and inclusion both ways, which is set
      equality (template_def.h:37-42). */
  function IsEqual(lhs: set<string>, rhs: set<string>): (r: bool)
    ensures r <==> lhs == rhs
  {
    |lhs| == |rhs| && IsSubset(lhs, rhs) && IsSubset(rhs, lhs)
  }

  /** std::count_if over a range: how many elements satisfy `p`. */
  function CountIf<T>(x: seq<T>, p: T -> bool): (r: nat)
    ensures r <= |x|
    ensures r == 0 <==> forall i :: 0 <= i < |x| ==> !p(x[i])
    ensures r == |x| <==> forall i :: 0 <= i < |x| ==> p(x[i])
    decreases |x|
  {
    if |x| == 0 then 0
    else
      var rest := CountIf(x[1..], p);
      assert forall i :: 1 <= i < |x| ==> x[i] == x[1..][i - 1];
      (if p(x[0]) then 1 else 0) + rest
  }
}
