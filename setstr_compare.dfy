/** The order of attribute names and of attribute sets.

    Attribute names compare like std::string: lexicographically, a proper
    prefix first. Attribute sets compare like setstr_compare::less: the
    smaller set first, and sets of one size element by element in ascending
    order, the first differing element deciding. */
module SetStrCompare {
  import opened Ordering
  import opened Sets

  /** std::string's operator< on attribute names. */
  predicate StrLess(a: string, b: string)
    decreases |a|
  {
    if |a| == 0 then |b| > 0
    else if |b| == 0 then false
    else if a[0] != b[0] then a[0] < b[0]
    else StrLess(a[1..], b[1..])
  }

  lemma {:induction false} StrLessIrreflexive(a: string)
    ensures !StrLess(a, a)
    decreases |a|
  {
    if |a| > 0 { StrLessIrreflexive(a[1..]); }
  }

  lemma {:induction false} StrLessTransitive(a: string, b: string, c: string)
    requires StrLess(a, b) && StrLess(b, c)
    ensures StrLess(a, c)
    decreases |a|
  {
    if |a| > 0 && |b| > 0 && |c| > 0 && a[0] == b[0] && b[0] == c[0] {
      StrLessTransitive(a[1..], b[1..], c[1..]);
    }
  }

  lemma {:induction false} StrLessTotal(a: string, b: string)
    requires a != b
    ensures StrLess(a, b) || StrLess(b, a)
    decreases |a|
  {
    if |a| > 0 && |b| > 0 && a[0] == b[0] {
      assert a == [a[0]] + a[1..] && b == [b[0]] + b[1..];
      StrLessTotal(a[1..], b[1..]);
    }
  }

  lemma StrLessIsStrictTotalOrder()
    ensures IsStrictTotalOrder(StrLess)
  {
    forall a ensures !StrLess(a, a) { StrLessIrreflexive(a); }
    forall a, b, c | StrLess(a, b) && StrLess(b, c) ensures StrLess(a, c) {
      StrLessTransitive(a, b, c);
    }
    forall a, b | a != b ensures StrLess(a, b) || StrLess(b, a) { StrLessTotal(a, b); }
  }

  /** The attribute names of `s` in the order a std::set<string> iterates them. */
  function SortedAttrs(s: set<string>): (r: seq<string>)
    ensures |r| == |s|
    ensures forall i :: 0 <= i < |r| ==> r[i] in s
    ensures forall x :: x in s ==> x in r
    ensures forall i, j :: 0 <= i < j < |r| ==> StrLess(r[i], r[j])
  {
    StrLessIsStrictTotalOrder();
    Ascending(s, StrLess)
  }

  /** The first name of a non-empty set in ascending order. */
  function LeastName(s: set<string>): (m: string)
    requires s != {}
    ensures m in s
    ensures forall y :: y in s && y != m ==> StrLess(m, y)
  {
    StrLessIsStrictTotalOrder();
    MinBy(s, StrLess)
  }

  /** The ascending enumeration of a set of names repeats no name. */
  lemma SortedAttrsDistinct(s: set<string>, i: nat, j: nat)
    requires i < j < |SortedAttrs(s)|
    ensures SortedAttrs(s)[i] != SortedAttrs(s)[j]
  {
    StrLessIrreflexive(SortedAttrs(s)[i]);
  }

  /** Lexicographic order of two name sequences of one length. */
  predicate LexLess(x: seq<string>, y: seq<string>)
    requires |x| == |y|
  {
    |x| > 0 && (StrLess(x[0], y[0]) || (x[0] == y[0] && LexLess(x[1..], y[1..])))
  }

  /** setstr_compare::less, stated over the ascending enumerations. */
  predicate SetLess(a: set<string>, b: set<string>) {
    |a| < |b| || (|a| == |b| && LexLess(SortedAttrs(a), SortedAttrs(b)))
  }

  /** setstr_compare::less as written: a size test, then one pass over both
      sets in ascending order that stops at the first differing name. */
  method Less(lhs: set<string>, rhs: set<string>) returns (r: bool)
    ensures r == SetLess(lhs, rhs)
  {
    if |lhs| < |rhs| {
      return true;
    }
    if |lhs| == |rhs| {
      var x, y := SortedAttrs(lhs), SortedAttrs(rhs);
      var k := 0;
      while k < |x|
        invariant 0 <= k <= |x|
        invariant LexLess(x, y) == LexLess(x[k..], y[k..])
      {
        LexLessAt(x, y, k);
        if StrLess(x[k], y[k]) {
          return true;
        }
        if StrLess(y[k], x[k]) {
          return false;
        }
        k := k + 1;
      }
      return false;
    }
    return false;
  }

  /** The comparison at position `k`: a smaller name there decides, and equal
      names pass the decision to the next position. */
  lemma LexLessAt(x: seq<string>, y: seq<string>, k: nat)
    requires |x| == |y| && k < |x|
    ensures StrLess(x[k], y[k]) ==> LexLess(x[k..], y[k..])
    ensures StrLess(y[k], x[k]) ==> !LexLess(x[k..], y[k..])
    ensures !StrLess(x[k], y[k]) && !StrLess(y[k], x[k]) ==> LexLess(x[k..], y[k..]) == LexLess(x[k + 1..], y[k + 1..])
  {
    assert x[k..][1..] == x[k + 1..] && y[k..][1..] == y[k + 1..];
    StrLessIrreflexive(x[k]);
    if StrLess(y[k], x[k]) && StrLess(x[k], y[k]) {
      StrLessTransitive(x[k], y[k], x[k]);
    }
    if !StrLess(x[k], y[k]) && !StrLess(y[k], x[k]) && x[k] != y[k] {
      StrLessTotal(x[k], y[k]);
    }
  }

  lemma {:induction false} LexLessIrreflexive(x: seq<string>)
    ensures !LexLess(x, x)
    decreases |x|
  {
    if |x| > 0 {
      StrLessIrreflexive(x[0]);
      LexLessIrreflexive(x[1..]);
    }
  }

  lemma {:induction false} LexLessTransitive(x: seq<string>, y: seq<string>, z: seq<string>)
    requires |x| == |y| == |z|
    requires LexLess(x, y) && LexLess(y, z)
    ensures LexLess(x, z)
    decreases |x|
  {
    if StrLess(x[0], y[0]) && StrLess(y[0], z[0]) {
      StrLessTransitive(x[0], y[0], z[0]);
    } else if x[0] == y[0] && y[0] == z[0] {
      LexLessTransitive(x[1..], y[1..], z[1..]);
    }
  }

  lemma {:induction false} LexLessTotal(x: seq<string>, y: seq<string>)
    requires |x| == |y|
    requires x != y
    ensures LexLess(x, y) || LexLess(y, x)
    decreases |x|
  {
    if x[0] == y[0] {
      assert x == [x[0]] + x[1..] && y == [y[0]] + y[1..];
      LexLessTotal(x[1..], y[1..]);
    } else {
      StrLessTotal(x[0], y[0]);
    }
  }

  /** No attribute set is less than itself (setstr_compare.cc:30). */
  lemma SetLessIrreflexive(a: set<string>)
    ensures !SetLess(a, a)
  {
    LexLessIrreflexive(SortedAttrs(a));
  }

  lemma SetLessTransitive(a: set<string>, b: set<string>, c: set<string>)
    requires SetLess(a, b) && SetLess(b, c)
    ensures SetLess(a, c)
  {
    if |a| == |b| == |c| {
      LexLessTransitive(SortedAttrs(a), SortedAttrs(b), SortedAttrs(c));
    }
  }

  lemma SetLessTotal(a: set<string>, b: set<string>)
    requires a != b
    ensures SetLess(a, b) || SetLess(b, a)
  {
    if |a| == |b| {
      StrLessIsStrictTotalOrder();
      if SortedAttrs(a) == SortedAttrs(b) {
        AscendingInjective(a, b, StrLess);
      }
      LexLessTotal(SortedAttrs(a), SortedAttrs(b));
    }
  }

  /** setstr_compare::less is a strict total order, so it can key an ordered set. */
  lemma SetLessIsStrictTotalOrder()
    ensures IsStrictTotalOrder(SetLess)
  {
    forall a ensures !SetLess(a, a) { SetLessIrreflexive(a); }
    forall a, b, c | SetLess(a, b) && SetLess(b, c) ensures SetLess(a, c) {
      SetLessTransitive(a, b, c);
    }
    forall a, b | a != b ensures SetLess(a, b) || SetLess(b, a) { SetLessTotal(a, b); }
  }

  /** Cardinality decides first: a smaller set is less and a larger one never is
      (setstr_compare.cc:21-22, 32). */
  lemma SetLessBySize(a: set<string>, b: set<string>)
    ensures |a| < |b| ==> SetLess(a, b)
    ensures |a| > |b| ==> !SetLess(a, b)
  {
  }

  /** A set is never less than one of its own subsets. */
  lemma SetLessNotOfSuperset(a: set<string>, b: set<string>)
    requires b <= a
    ensures !SetLess(a, b)
  {
    SubsetCardinality(b, a);
    if a == b {
      SetLessIrreflexive(a);
    }
  }

  /** Three names in ascending order are enumerated in that order. */
  lemma SortedThree(p: string, q: string, t: string)
    requires StrLess(p, q) && StrLess(q, t)
    ensures SortedAttrs({p, q, t}) == [p, q, t]
  {
    StrLessIsStrictTotalOrder();
    var r := SortedAttrs({p, q, t});
    assert p != q && q != t && p != t;
    assert |r| == 3;
    assert p in r && q in r && t in r;
    var i :| 0 <= i < 3 && r[i] == p;
    var j :| 0 <= j < 3 && r[j] == q;
    var k :| 0 <= k < 3 && r[k] == t;
    assert !StrLess(q, p) && !StrLess(t, q);
    assert i < j < k;
  }

  /** Two names in ascending order are enumerated in that order. */
  lemma SortedTwo(p: string, q: string)
    requires StrLess(p, q)
    ensures SortedAttrs({p, q}) == [p, q]
  {
    StrLessIsStrictTotalOrder();
    var r := SortedAttrs({p, q});
    assert p != q;
    assert |r| == 2;
    assert p in r && q in r;
    var i :| 0 <= i < 2 && r[i] == p;
    var j :| 0 <= j < 2 && r[j] == q;
    assert i < j;
  }

  /** The unit-test example: {a,b,c} is less than {a,b,d}. */
  lemma AbcLessThanAbd()
    ensures SetLess({"a", "b", "c"}, {"a", "b", "d"})
  {
    assert StrLess("a", "b") && StrLess("b", "c") && StrLess("b", "d");
    SortedThree("a", "b", "c");
    SortedThree("a", "b", "d");
    assert StrLess("c", "d");
    assert LexLess(["c"], ["d"]);
    assert ["a", "b", "c"][1..] == ["b", "c"] && ["a", "b", "d"][1..] == ["b", "d"];
    assert ["b", "c"][1..] == ["c"] && ["b", "d"][1..] == ["d"];
    assert LexLess(["b", "c"], ["b", "d"]);
    assert LexLess(["a", "b", "c"], ["a", "b", "d"]);
  }
}
