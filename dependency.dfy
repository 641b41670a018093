/** Functional dependencies lhs -> rhs over attribute names.

    A relation stores its dependencies by value in an ordered set, so the
    value form `Dependency` is what the rest of the model uses. The in-place
    mutators of a stand-alone dependency object are modelled on the class
    `DependencyObject`, whose `Value()` is the dependency it currently holds. */
module Dependencies {
  import opened Ordering
  import opened Sets
  import opened SetStrCompare
  import opened TemplateDef
  import opened Utility

  datatype Dependency = Dependency(lhs: AttrSet, rhs: AttrSet)
  {
    /** isPresentLhs: the name occurs on the left (dependency.cc:101-103). */
    function IsPresentLhs(s: string): (r: bool)
      ensures r <==> s in lhs
    {
      Contains(lhs, s)
    }

    /** isPresentRhs: the name occurs on the right (dependency.cc:110-112). */
    function IsPresentRhs(s: string): (r: bool)
      ensures r <==> s in rhs
    {
      Contains(rhs, s)
    }

    /** isPresent: the name occurs on either side (dependency.cc:121-123). */
    function IsPresent(s: string): (r: bool)
      ensures r <==> IsPresentLhs(s) || IsPresentRhs(s)
      ensures r <==> s in lhs + rhs
    {
      Contains(lhs, s) || Contains(rhs, s)
    }

    /** size: the number of names on both sides counted separately
        (dependency.cc:130-132). */
    function Size(): (r: nat)
      ensures r == |lhs + rhs| + |lhs * rhs|
      ensures lhs == {} && rhs == {} <==> r == 0
    {
      UnionCardinality(lhs, rhs);
      |lhs| + |rhs|
    }

    /** getAttribs: every name the dependency mentions (dependency.cc:211-216). */
    function Attribs(): (r: AttrSet)
      ensures forall s :: s in r <==> IsPresent(s)
      ensures |r| <= Size()
      ensures |r| == Size() <==> lhs * rhs == {}
    {
      UnionCardinality(lhs, rhs);
      lhs + rhs
    }

    /** The names a dependency mentions are those of its two sides. */
    lemma AttribsAreSides()
      ensures Attribs() == lhs + rhs
    {
    }

    /** operator==: both sides are equal sets (dependency.cc:176-178). */
    function Equals(right: Dependency): (r: bool)
      ensures r <==> this == right
    {
      IsEqual(lhs, right.lhs) && IsEqual(rhs, right.rhs)
    }

    /** operator!=: the negation of operator== (dependency.cc:141-143). */
    function NotEquals(right: Dependency): (r: bool)
      ensures r <==> this != right
    {
      !Equals(right)
    }
  }

  /** operator< as written (dependency.cc:158-167): a shorter left side, or a
      different left side that setstr_compare::less puts first, or a left side
      not after the other's and a right side before it. It is the
      lexicographic order on (lhs, rhs). */
  function DepLess(a: Dependency, b: Dependency): (r: bool)
    ensures r <==> SetLess(a.lhs, b.lhs) || (a.lhs == b.lhs && SetLess(a.rhs, b.rhs))
  {
    SetLessIsStrictTotalOrder();
    || |a.lhs| < |b.lhs|
    || (!IsEqual(a.lhs, b.lhs) && SetLess(a.lhs, b.lhs))
    || (!SetLess(b.lhs, a.lhs) && SetLess(a.rhs, b.rhs))
  }

  /** operator>: the converse of operator< (dependency.cc:187-189). */
  function DepGreater(a: Dependency, b: Dependency): (r: bool)
    ensures r <==> SetLess(b.lhs, a.lhs) || (a.lhs == b.lhs && SetLess(b.rhs, a.rhs))
  {
    DepLess(b, a)
  }

  /** Dependency::operator< is a strict total order, so it keys the relation's
      ordered dependency set. */
  lemma DepLessIsStrictTotalOrder()
    ensures IsStrictTotalOrder(DepLess)
  {
    SetLessIsStrictTotalOrder();
  }

  /** The dependencies of a set in ascending operator< order: the order a
      std::set of dependencies iterates in. */
  function SortedDeps(f: set<Dependency>): (r: seq<Dependency>)
    ensures |r| == |f|
    ensures forall i :: 0 <= i < |r| ==> r[i] in f
    ensures forall x :: x in f ==> x in r
    ensures forall i, j :: 0 <= i < j < |r| ==> DepLess(r[i], r[j]) && r[i] != r[j]
  {
    DepLessIsStrictTotalOrder();
    Ascending(f, DepLess)
  }

  /** The first dependency of a non-empty set in operator< order. */
  function LeastDep(f: set<Dependency>): (m: Dependency)
    requires f != {}
    ensures m in f
    ensures forall y :: y in f && y != m ==> DepLess(m, y)
  {
    DepLessIsStrictTotalOrder();
    MinBy(f, DepLess)
  }

  /** The unit-test example: {a,b}->{c,d} precedes {c,d}->{a,b}, and not the
      other way round. */
  lemma DepLessExample()
    ensures DepLess(Dependency({"a", "b"}, {"c", "d"}), Dependency({"c", "d"}, {"a", "b"}))
    ensures !DepLess(Dependency({"c", "d"}, {"a", "b"}), Dependency({"a", "b"}, {"c", "d"}))
    ensures DepGreater(Dependency({"c", "d"}, {"a", "b"}), Dependency({"a", "b"}, {"c", "d"}))
  {
    assert StrLess("a", "b") && StrLess("c", "d") && StrLess("a", "c");
    SortedTwo("a", "b");
    SortedTwo("c", "d");
    assert LexLess(["a", "b"], ["c", "d"]);
    SetLessIsStrictTotalOrder();
  }

  /** A dependency object whose two sides are updated in place. */
  class DependencyObject {
    var lhs: AttrSet
    var rhs: AttrSet

    /** The dependency the object currently holds. */
    function Value(): (d: Dependency)
      reads this
      ensures d.lhs == lhs && d.rhs == rhs
    {
      Dependency(lhs, rhs)
    }

    /** Dependency(lhs, rhs) (dependency.cc:24-26). */
    constructor (lhs: AttrSet, rhs: AttrSet)
      ensures this.lhs == lhs && this.rhs == rhs
    {
      this.lhs := lhs;
      this.rhs := rhs;
    }

    /** addLhs: inserts the name on the left; true iff it was not already there
        (dependency.cc:56-58). */
    method AddLhs(s: string) returns (inserted: bool)
      modifies this
      ensures lhs == old(lhs) + {s} && rhs == old(rhs)
      ensures inserted <==> s !in old(lhs)
    {
      inserted := !Contains(lhs, s);
      lhs := lhs + {s};
    }

    /** addRhs: inserts the name on the right; true iff it was not already
        there (dependency.cc:67-69). */
    method AddRhs(s: string) returns (inserted: bool)
      modifies this
      ensures rhs == old(rhs) + {s} && lhs == old(lhs)
      ensures inserted <==> s !in old(rhs)
    {
      inserted := !Contains(rhs, s);
      rhs := rhs + {s};
    }

    /** removeLhs: erases the name from the left; true iff it was there
        (dependency.cc:80-82). */
    method RemoveLhs(s: string) returns (erased: bool)
      modifies this
      ensures lhs == old(lhs) - {s} && rhs == old(rhs)
      ensures erased <==> s in old(lhs)
    {
      erased := Contains(lhs, s);
      lhs := lhs - {s};
    }

    /** removeRhs: erases the name from the right; true iff it was there
        (dependency.cc:92-94). */
    method RemoveRhs(s: string) returns (erased: bool)
      modifies this
      ensures rhs == old(rhs) - {s} && lhs == old(lhs)
      ensures erased <==> s in old(rhs)
    {
      erased := Contains(rhs, s);
      rhs := rhs - {s};
    }

    /** operator+=: when both left sides are equal, the right side of `right`
        is added to this one's; the left side never changes. Adding an object
        to itself changes nothing, with or without the identity check
        (dependency.cc:199-204). */
    method PlusAssign(right: DependencyObject)
      modifies this
      ensures lhs == old(lhs)
      ensures old(lhs == right.lhs) ==> rhs == old(rhs + right.rhs)
      ensures old(lhs != right.lhs) ==> rhs == old(rhs)
      ensures right == this ==> rhs == old(rhs)
    {
      if right != this && IsEqual(lhs, right.lhs) {
        rhs := rhs + right.rhs;
      }
    }
  }
}
