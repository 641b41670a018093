/** Sets of functional dependencies: the attribute closure, derivability and
    equivalence of dependency sets, the merging of dependencies with one left
    side, and the projection of a dependency onto an attribute set. These are
    the reference definitions the Relation operations are proved against. */
module DependencySets {
  import opened Ordering
  import opened Sets
  import opened SetStrCompare
  import opened TemplateDef
  import opened Utility
  import opened Dependencies

  datatype Option<T> = None | Some(value: T)

  type DepSet = set<Dependency>

  /** Every name some dependency of `f` mentions. */
  function DepAttribs(f: DepSet): AttrSet {
    set d, a | d in f && a in d.lhs + d.rhs :: a
  }

  /** Every name on the right side of some dependency of `f`. */
  function AllRhs(f: DepSet): AttrSet {
    set d, a | d in f && a in d.rhs :: a
  }

  /** The right sides of the dependencies whose left side lies within `x`. */
  function RhsFired(x: AttrSet, f: DepSet): AttrSet {
    set d, a | d in f && d.lhs <= x && a in d.rhs :: a
  }

  /** `y` is closed under `f`: no dependency leads out of it. */
  predicate Closed(y: AttrSet, f: DepSet) {
    forall d :: d in f && d.lhs <= y ==> d.rhs <= y
  }

  /** The attribute closure x+ under `f`: `x` grown by firing dependencies
      until nothing more is added. */
  function Closure(x: AttrSet, f: DepSet): (r: AttrSet)
    ensures x <= r
    ensures r <= x + AllRhs(f)
    ensures Closed(r, f)
    decreases |AllRhs(f) - x|
  {
    var y := x + RhsFired(x, f);
    if y == x then
      x
    else
      var a :| a in y && a !in x;
      assert a in AllRhs(f) - x && a !in AllRhs(f) - y;
      SubsetCardinality(AllRhs(f) - y, AllRhs(f) - x);
      Closure(y, f)
  }

  /** The closure is the least closed superset. */
  lemma {:induction false} ClosureLeast(x: AttrSet, y: AttrSet, f: DepSet)
    requires x <= y && Closed(y, f)
    ensures Closure(x, f) <= y
    decreases |AllRhs(f) - x|
  {
    var s := x + RhsFired(x, f);
    assert s <= y;
    if s != x {
      var a :| a in s && a !in x;
      assert a in AllRhs(f) - x && a !in AllRhs(f) - s;
      SubsetCardinality(AllRhs(f) - s, AllRhs(f) - x);
      ClosureLeast(s, y, f);
    }
  }

  /** A larger set has a larger closure. */
  lemma ClosureMonotone(x: AttrSet, y: AttrSet, f: DepSet)
    requires x <= y
    ensures Closure(x, f) <= Closure(y, f)
  {
    ClosureLeast(x, Closure(y, f), f);
  }

  /** A closed set is its own closure; in particular closure is idempotent. */
  lemma ClosureOfClosed(y: AttrSet, f: DepSet)
    requires Closed(y, f)
    ensures Closure(y, f) == y
    ensures Closure(Closure(y, f), f) == Closure(y, f)
  {
    ClosureLeast(y, y, f);
  }

  /** Every dependency of `g` follows from `f` (Armstrong derivability). */
  ghost predicate Implies(f: DepSet, g: DepSet) {
    forall d :: d in g ==> d.rhs <= Closure(d.lhs, f)
  }

  /** `f` and `g` determine the same closure of every attribute set. */
  ghost predicate Equivalent(f: DepSet, g: DepSet) {
    forall x :: Closure(x, f) == Closure(x, g)
  }

  /** What `g` derives, `f` derives when `f` implies `g`. */
  lemma ClosureUnderImplied(f: DepSet, g: DepSet, x: AttrSet)
    requires Implies(f, g)
    ensures Closure(x, g) <= Closure(x, f)
  {
    var c := Closure(x, f);
    forall d | d in g && d.lhs <= c
      ensures d.rhs <= c
    {
      ClosureMonotone(d.lhs, c, f);
      ClosureOfClosed(c, f);
    }
    ClosureLeast(x, c, g);
  }

  /** Two dependency sets that imply each other are equivalent, and only those. */
  lemma ImpliesBothWays(f: DepSet, g: DepSet)
    ensures Equivalent(f, g) <==> Implies(f, g) && Implies(g, f)
  {
    if Implies(f, g) && Implies(g, f) {
      forall x ensures Closure(x, f) == Closure(x, g) {
        ClosureUnderImplied(f, g, x);
        ClosureUnderImplied(g, f, x);
      }
    }
    if Equivalent(f, g) {
      forall d | d in g ensures d.rhs <= Closure(d.lhs, f) {
        assert Closure(d.lhs, f) == Closure(d.lhs, g);
      }
      forall d | d in f ensures d.rhs <= Closure(d.lhs, g) {
        assert Closure(d.lhs, f) == Closure(d.lhs, g);
      }
    }
  }

  /** A set implies each of its subsets. */
  lemma ImpliesSubset(f: DepSet, g: DepSet)
    requires g <= f
    ensures Implies(f, g)
  {
    forall d | d in g ensures d.rhs <= Closure(d.lhs, f) {
      assert d in f;
    }
  }

  /** Derivability is transitive. */
  lemma ImpliesTransitive(f: DepSet, g: DepSet, h: DepSet)
    requires Implies(f, g) && Implies(g, h)
    ensures Implies(f, h)
  {
    forall d | d in h ensures d.rhs <= Closure(d.lhs, f) {
      ClosureUnderImplied(f, g, d.lhs);
    }
  }

  /** The union of the right sides of the dependencies of `f` with left side `l`. */
  function Group(f: DepSet, l: AttrSet): AttrSet {
    set d, a | d in f && d.lhs == l && a in d.rhs :: a
  }

  /** Both sides are non-empty and no right-side name is also on the left
      (addDependency(lhs, rhs) drops those, relation.cc:198-205, and no
      other path creates one). */
  predicate Proper(d: Dependency) {
    d.lhs != {} && d.rhs != {} && d.lhs * d.rhs == {}
  }

  /** Every dependency of `f` is proper. */
  predicate ProperSides(f: DepSet) {
    forall d :: d in f ==> Proper(d)
  }

  /** No two dependencies share a left side. */
  predicate UniqueLhs(f: DepSet) {
    forall d, e :: d in f && e in f && d.lhs == e.lhs ==> d == e
  }

  /** The left sides of `f`. */
  function Lhss(f: DepSet): set<AttrSet> {
    set d | d in f :: d.lhs
  }

  /** The dependencies of `f` with equal left sides merged into one, whose
      right side is the union of theirs. */
  function Merge(f: DepSet): (r: DepSet)
    ensures UniqueLhs(r)
  {
    set d | d in f :: Dependency(d.lhs, Group(f, d.lhs))
  }

  /** Merging leaves one dependency per left side of `f`, holding the whole
      group of that left side. */
  lemma MergeMembers(f: DepSet)
    ensures forall d :: d in f ==> Dependency(d.lhs, Group(f, d.lhs)) in Merge(f)
    ensures forall e :: e in Merge(f) ==> e.rhs == Group(f, e.lhs) && e.lhs in Lhss(f)
  {
  }

  /** Merging keeps every dependency proper. */
  lemma MergeProper(f: DepSet)
    requires ProperSides(f)
    ensures ProperSides(Merge(f))
  {
    forall e | e in Merge(f) ensures Proper(e) {
      var d :| d in f && d.lhs == e.lhs;
      var a :| a in d.rhs;
      assert a in Group(f, e.lhs);
    }
  }

  /** Merging a set whose left sides are already unique changes nothing. */
  lemma MergeIdentity(f: DepSet)
    requires UniqueLhs(f)
    ensures Merge(f) == f
  {
    forall d | d in f ensures Group(f, d.lhs) == d.rhs {
      forall a | a in Group(f, d.lhs) ensures a in d.rhs {
        var e :| e in f && e.lhs == d.lhs && a in e.rhs;
      }
    }
    forall e | e in Merge(f) ensures e in f {
      var d :| d in f && d.lhs == e.lhs;
    }
  }

  /** Merge depends only on the left sides present and the group of each. */
  lemma MergeCongruence(f: DepSet, g: DepSet)
    requires Lhss(f) == Lhss(g)
    requires forall l :: l in Lhss(f) ==> Group(f, l) == Group(g, l)
    ensures Merge(f) == Merge(g)
  {
    forall e | e in Merge(f) ensures e in Merge(g) {
      var d :| d in f && d.lhs == e.lhs;
      assert e.lhs in Lhss(f);
      var d' :| d' in g && d'.lhs == e.lhs;
    }
    forall e | e in Merge(g) ensures e in Merge(f) {
      var d :| d in g && d.lhs == e.lhs;
      assert e.lhs in Lhss(g);
      var d' :| d' in f && d'.lhs == e.lhs;
    }
  }

  /** Merging part of a set first makes no difference:
      Merge(Merge(f) + g) == Merge(f + g). */
  lemma MergeAbsorb(f: DepSet, g: DepSet)
    ensures Merge(Merge(f) + g) == Merge(f + g)
  {
    var h := Merge(f) + g;
    forall l ensures Group(h, l) == Group(f + g, l) {
      forall a | a in Group(h, l) ensures a in Group(f + g, l) {
        var e :| e in h && e.lhs == l && a in e.rhs;
        if e !in g {
          var d :| d in f && d.lhs == e.lhs && a in d.rhs;
        }
      }
      forall a | a in Group(f + g, l) ensures a in Group(h, l) {
        var e :| e in f + g && e.lhs == l && a in e.rhs;
        if e in g {
          assert e in h;
        } else {
          assert a in Group(f, l);
          assert Dependency(l, Group(f, l)) in h;
        }
      }
    }
    forall l | l in Lhss(h) ensures l in Lhss(f + g) {
      var e :| e in h && e.lhs == l;
      if e !in g {
        var d :| d in f && d.lhs == e.lhs;
      }
    }
    forall l | l in Lhss(f + g) ensures l in Lhss(h) {
      var e :| e in f + g && e.lhs == l;
      if e !in g {
        assert Dependency(e.lhs, Group(f, e.lhs)) in h;
      }
    }
    MergeCongruence(h, f + g);
  }

  /** Merging preserves the attributes mentioned. */
  lemma MergeAttribs(f: DepSet)
    ensures DepAttribs(Merge(f)) == DepAttribs(f)
  {
    forall a | a in DepAttribs(Merge(f)) ensures a in DepAttribs(f) {
      var e :| e in Merge(f) && a in e.lhs + e.rhs;
      var d :| d in f && d.lhs == e.lhs;
      if a in e.lhs {
        assert a in d.lhs + d.rhs;
      } else {
        var d' :| d' in f && d'.lhs == e.lhs && a in d'.rhs;
        assert a in d'.lhs + d'.rhs;
      }
    }
    forall a | a in DepAttribs(f) ensures a in DepAttribs(Merge(f)) {
      var d :| d in f && a in d.lhs + d.rhs;
      var e := Dependency(d.lhs, Group(f, d.lhs));
      assert e in Merge(f);
      if a !in d.lhs {
        assert a in e.rhs;
      }
      assert a in e.lhs + e.rhs;
    }
  }

  /** Merging preserves what a dependency set derives. */
  lemma MergeEquivalent(f: DepSet)
    ensures Equivalent(Merge(f), f)
  {
    forall e | e in Merge(f) ensures e.rhs <= Closure(e.lhs, f) {
      forall a | a in e.rhs ensures a in Closure(e.lhs, f) {
        var d :| d in f && d.lhs == e.lhs && a in d.rhs;
      }
    }
    forall d | d in f ensures d.rhs <= Closure(d.lhs, Merge(f)) {
      assert Dependency(d.lhs, Group(f, d.lhs)) in Merge(f);
    }
    ImpliesBothWays(Merge(f), f);
  }

  /** addDependency with update = false keeps a dependency when its left side
      lies within `attrs` and its right side does too or at least meets it
      (relation.cc:244-262). */
  predicate Accepts(attrs: AttrSet, d: Dependency) {
    d.lhs <= attrs && (d.rhs <= attrs || d.rhs * attrs != {})
  }

  /** The dependency with its right side cut down to `attrs`. */
  function Projected(attrs: AttrSet, d: Dependency): Dependency {
    Dependency(d.lhs, d.rhs * attrs)
  }

  /** The accepted dependencies of `ds`, each cut down to `attrs`. Projection
      keeps left sides, so it keeps them unique. */
  function ProjectAll(attrs: AttrSet, ds: DepSet): (r: DepSet)
    ensures DepAttribs(r) <= attrs
    ensures UniqueLhs(ds) ==> UniqueLhs(r)
    ensures ProperSides(ds) ==> ProperSides(r)
  {
    set d | d in ds && Accepts(attrs, d) :: Projected(attrs, d)
  }

  /** Dependencies already within `attrs` are kept as they are. */
  lemma ProjectAllIdentity(attrs: AttrSet, ds: DepSet)
    requires DepAttribs(ds) <= attrs
    ensures ProjectAll(attrs, ds) == ds
  {
    forall d | d in ds ensures Accepts(attrs, d) && Projected(attrs, d) == d {
      assert forall a :: a in d.lhs + d.rhs ==> a in DepAttribs(ds);
    }
  }

  /** The names mentioned after adding one dependency. */
  lemma DepAttribsAdd(f: DepSet, d: Dependency)
    ensures DepAttribs(f + {d}) == DepAttribs(f) + d.lhs + d.rhs
  {
    forall a | a in DepAttribs(f + {d}) ensures a in DepAttribs(f) + d.lhs + d.rhs {
      var e :| e in f + {d} && a in e.lhs + e.rhs;
    }
    forall a | a in DepAttribs(f) + d.lhs + d.rhs ensures a in DepAttribs(f + {d}) {
      if a !in d.lhs + d.rhs {
        var e :| e in f && a in e.lhs + e.rhs;
        assert e in f + {d};
      }
    }
  }

  /** The names mentioned by a subset are mentioned by the whole. */
  lemma DepAttribsSubset(f: DepSet, g: DepSet)
    requires g <= f
    ensures DepAttribs(g) <= DepAttribs(f)
  {
  }

  /** Two sets with unique and disjoint left sides need no merging. */
  lemma MergeDisjoint(f: DepSet, g: DepSet)
    requires UniqueLhs(f) && UniqueLhs(g)
    requires forall d, e :: d in f && e in g ==> d.lhs != e.lhs
    ensures Merge(f + g) == f + g
  {
    MergeIdentity(f + g);
  }

  /** One step of reducedDependencies: adding the merged form of `i` and
      erasing `i` keeps every left side and every group. */
  lemma MergeStep(f: DepSet, i: Dependency)
    requires i in f && i.rhs != Group(f, i.lhs)
    ensures var g := (f + {Dependency(i.lhs, Group(f, i.lhs))}) - {i};
      Lhss(g) == Lhss(f) && forall l :: Group(g, l) == Group(f, l)
  {
    var m := Dependency(i.lhs, Group(f, i.lhs));
    var g := (f + {m}) - {i};
    assert m in g;
    forall l ensures Group(g, l) == Group(f, l) {
      forall a | a in Group(f, l) ensures a in Group(g, l) {
        var e :| e in f && e.lhs == l && a in e.rhs;
        if e == i {
          assert a in m.rhs;
        }
      }
    }
    forall l | l in Lhss(f) ensures l in Lhss(g) {
      var e :| e in f && e.lhs == l;
      if e == i {
        assert m.lhs == l;
      }
    }
    assert Lhss(g) <= Lhss(f);
  }

  /** removeDependency: whether it finds something to remove (relation.cc:310-329):
      the dependency itself, or one with the same left side sharing part of
      its right side. */
  predicate RemoveFinds(f: DepSet, dep: Dependency) {
    dep in f || (FindDepLhs(f, dep.lhs).Some? && FindDepLhs(f, dep.lhs).value.rhs * dep.rhs != {})
  }

  /** What is left of `e` once the right-side attributes of `dep` are taken
      off it: nothing when its right side empties. */
  function Remainder(e: Dependency, dep: Dependency): (r: DepSet)
    ensures forall d :: d in r ==> d.lhs == e.lhs && d.rhs <= e.rhs && d.rhs * dep.rhs == {} && d.rhs != {}
    ensures e.rhs - dep.rhs != {} ==> Dependency(e.lhs, e.rhs - dep.rhs) in r
  {
    if e.rhs - dep.rhs == {} then {} else {Dependency(e.lhs, e.rhs - dep.rhs)}
  }

  /** removeDependency's result on a set with unique left sides: the
      dependency itself is erased; otherwise the one with its left side loses
      the named right-side attributes and is erased when none remain. */
  function Removed(f: DepSet, dep: Dependency): (r: DepSet)
    ensures RemoveFinds(f, dep) <==> r != f
    ensures ProperSides(f) ==> ProperSides(r)
  {
    if dep in f then
      f - {dep}
    else if !RemoveFinds(f, dep) then
      f
    else
      var e := FindDepLhs(f, dep.lhs).value;
      assert e in f && e !in f - {e};
      (f - {e}) + Remainder(e, dep)
  }

  /** The partial-removal case of Removed, named. */
  lemma RemovedPartial(f: DepSet, dep: Dependency) returns (e: Dependency)
    requires dep !in f && RemoveFinds(f, dep)
    ensures e in f && e.lhs == dep.lhs && e.rhs * dep.rhs != {}
    ensures Removed(f, dep) == (f - {e}) + Remainder(e, dep)
  {
    e := FindDepLhs(f, dep.lhs).value;
  }

  /** Removing only weakens a dependency set: the original derives the result. */
  lemma RemovedWeakens(f: DepSet, dep: Dependency)
    ensures Implies(f, Removed(f, dep))
  {
    if dep !in f && RemoveFinds(f, dep) {
      var e := RemovedPartial(f, dep);
      var g := Removed(f, dep);
      forall d | d in g ensures d.rhs <= Closure(d.lhs, f) {
        if d !in f {
          assert d in Remainder(e, dep);
          assert e.rhs <= Closure(e.lhs, f);
        }
      }
    } else {
      ImpliesSubset(f, Removed(f, dep));
    }
  }

  /** Adding back what was removed derives the original set again. */
  lemma RemovedPlusImplies(f: DepSet, dep: Dependency)
    requires UniqueLhs(f)
    ensures Implies(Removed(f, dep) + {dep}, f)
  {
    if dep !in f && RemoveFinds(f, dep) {
      var e := RemovedPartial(f, dep);
      RemainderPlusImplies(f, dep, e);
    } else {
      ImpliesSubset(Removed(f, dep) + {dep}, f);
    }
  }

  /** The partial case of RemovedPlusImplies. */
  lemma RemainderPlusImplies(f: DepSet, dep: Dependency, e: Dependency)
    requires e in f && e.lhs == dep.lhs
    ensures Implies((f - {e}) + Remainder(e, dep) + {dep}, f)
  {
    var g := (f - {e}) + Remainder(e, dep) + {dep};
    var c := Closure(e.lhs, g);
    assert dep in g && dep.lhs <= c;
    assert dep.rhs <= c;
    forall a | a in e.rhs ensures a in c {
      if a !in dep.rhs {
        var m := Dependency(e.lhs, e.rhs - dep.rhs);
        assert m in g && m.lhs <= c && a in m.rhs;
      }
    }
    forall d | d in f ensures d.rhs <= Closure(d.lhs, g) {
      if d != e {
        assert d in g;
      }
    }
  }

  /** Replacing `e` by dependencies with its left side whose right sides
      together make up its right side changes nothing once merged. */
  lemma MergeSplit(f: DepSet, e: Dependency, h: DepSet)
    requires UniqueLhs(f) && e in f
    requires h != {} && forall d :: d in h ==> d.lhs == e.lhs
    requires Group(h, e.lhs) == e.rhs
    ensures Merge((f - {e}) + h) == f
  {
    var g := (f - {e}) + h;
    forall l ensures Group(g, l) == Group(f, l) {
      if l == e.lhs {
        forall a | a in Group(f, l) ensures a in Group(g, l) {
          var d :| d in f && d.lhs == l && a in d.rhs;
          assert d == e;
          var d' :| d' in h && d'.lhs == l && a in d'.rhs;
          assert d' in g;
        }
        forall a | a in Group(g, l) ensures a in Group(f, l) {
          var d :| d in g && d.lhs == l && a in d.rhs;
          assert d in h;
          assert a in Group(h, e.lhs);
        }
      } else {
        forall a | a in Group(f, l) ensures a in Group(g, l) {
          var d :| d in f && d.lhs == l && a in d.rhs;
          assert d in g;
        }
      }
    }
    var x :| x in h;
    forall l | l in Lhss(f) ensures l in Lhss(g) {
      var d :| d in f && d.lhs == l;
      if d == e {
        assert x in g && x.lhs == l;
      } else {
        assert d in g;
      }
    }
    forall l | l in Lhss(g) ensures l in Lhss(f) {
      var d :| d in g && d.lhs == l;
      if d in h {
        assert e.lhs == l;
      }
    }
    MergeCongruence(g, f);
    MergeIdentity(f);
  }

  /** Removing a part of a dependency's right side and adding that part back
      restores the set. */
  lemma RemoveThenAdd(f: DepSet, dep: Dependency, e: Dependency)
    requires UniqueLhs(f)
    requires e in f && e.lhs == dep.lhs && dep.rhs <= e.rhs
    ensures Merge(Removed(f, dep) + {dep}) == f
  {
    if dep in f {
      assert Removed(f, dep) + {dep} == f;
      MergeIdentity(f);
    } else if RemoveFinds(f, dep) {
      var e' := RemovedPartial(f, dep);
      assert e' == e;
      RemainderThenAdd(f, dep, e);
    } else {
      assert Removed(f, dep) == f;
      assert FindDepLhs(f, dep.lhs) == Some(e);
      EmptyThenAdd(f, dep, e);
    }
  }

  /** Adding a dependency with nothing on its right to a left side already
      present changes nothing once merged. */
  lemma EmptyThenAdd(f: DepSet, dep: Dependency, e: Dependency)
    requires UniqueLhs(f)
    requires e in f && e.lhs == dep.lhs && dep.rhs <= e.rhs && e.rhs * dep.rhs == {}
    ensures Merge(f + {dep}) == f
  {
    var h := {e, dep};
    assert f + {dep} == (f - {e}) + h;
    MergeSplit(f, e, h);
  }

  /** The partial case of RemoveThenAdd. */
  lemma RemainderThenAdd(f: DepSet, dep: Dependency, e: Dependency)
    requires UniqueLhs(f)
    requires e in f && e.lhs == dep.lhs && dep.rhs <= e.rhs
    ensures Merge((f - {e}) + Remainder(e, dep) + {dep}) == f
  {
    var h := Remainder(e, dep) + {dep};
    assert (f - {e}) + Remainder(e, dep) + {dep} == (f - {e}) + h;
    forall a | a in e.rhs ensures a in Group(h, e.lhs) {
      if a !in dep.rhs {
        assert a in e.rhs - dep.rhs;
        var m := Dependency(e.lhs, e.rhs - dep.rhs);
        assert m in h && a in m.rhs;
      } else {
        assert dep in h && a in dep.rhs;
      }
    }
    MergeSplit(f, e, h);
  }

  /** removeAtributte's result: every dependency with `a` on its left is
      dropped, `a` is taken off every right side, and a dependency whose right
      side that empties is dropped. */
  function DropAttribute(f: DepSet, a: string): (r: DepSet)
    ensures a !in DepAttribs(r)
    ensures DepAttribs(r) <= DepAttribs(f)
    ensures ProperSides(f) ==> ProperSides(r)
    ensures forall d :: d in f && a !in d.lhs + d.rhs ==> d in r
  {
    var r := set d | d in f && a !in d.lhs && (a !in d.rhs || d.rhs != {a}) :: Dependency(d.lhs, d.rhs - {a});
    assert forall d :: d in f && a !in d.lhs + d.rhs ==> d == Dependency(d.lhs, d.rhs - {a});
    r
  }

  /** The original set derives what is left after dropping an attribute. */
  lemma DropAttributeImplied(f: DepSet, a: string)
    ensures Implies(f, DropAttribute(f, a))
  {
    forall e | e in DropAttribute(f, a) ensures e.rhs <= Closure(e.lhs, f) {
      var d :| d in f && a !in d.lhs && (a !in d.rhs || d.rhs != {a}) && e == Dependency(d.lhs, d.rhs - {a});
    }
  }

  /** Replacing L -> R by a smaller left side T -> R, when the closure of T
      already contains R, keeps the set equivalent (relation.cc:583-587). */
  lemma ReplaceLhsEquivalent(f: DepSet, e: Dependency, t: AttrSet)
    requires e in f && t <= e.lhs && e.rhs <= Closure(t, f)
    ensures Equivalent((f - {e}) + {Dependency(t, e.rhs)}, f)
  {
    var n := Dependency(t, e.rhs);
    var g := (f - {e}) + {n};
    assert Implies(g, f) by {
      forall d | d in f ensures d.rhs <= Closure(d.lhs, g) {
        var c := Closure(d.lhs, g);
        if d == e {
          assert n in g && n.lhs <= c;
          assert Closed(c, g);
        } else {
          assert d in g && d.lhs <= c;
          assert Closed(c, g);
        }
      }
    }
    assert Implies(f, g) by {
      forall d | d in g ensures d.rhs <= Closure(d.lhs, f) {
        if d != n {
          assert d in f && d.lhs <= Closure(d.lhs, f);
          assert Closed(Closure(d.lhs, f), f);
        }
      }
    }
    ImpliesBothWays(g, f);
  }

  /** findDepLHS: the first dependency in Dependency::operator< order whose
      left side equals `l` (relation.cc:137-142). */
  function FindDepLhs(f: DepSet, l: AttrSet): (r: Option<Dependency>)
    ensures r.Some? <==> exists d :: d in f && d.lhs == l
    ensures r.Some? ==> r.value in f && r.value.lhs == l
    ensures r.Some? ==> forall d :: d in f && d.lhs == l && d != r.value ==> DepLess(r.value, d)
  {
    DepLessIsStrictTotalOrder();
    var x := Ascending(f, DepLess);
    var p := (d: Dependency) => IsEqual(d.lhs, l);
    var i := FindIf(x, p);
    FindIfAscending(f, DepLess, p);
    assert forall d :: p(d) <==> d.lhs == l;
    if i == |x| then None else Some(x[i])
  }

  /** Under unique left sides, the dependency found for `l` is the only one. */
  lemma FindDepLhsUnique(f: DepSet, l: AttrSet)
    requires UniqueLhs(f)
    ensures forall d :: d in f && d.lhs == l ==> FindDepLhs(f, l) == Some(d)
  {
  }

  /** The dependencies of `f` split into one per right-side name: the form
      in which a cover's redundancy is judged. */
  function Atoms(f: DepSet): (r: DepSet)
    ensures forall e :: e in r ==> |e.rhs| == 1
  {
    set d, a | d in f && a in d.rhs :: Dependency(d.lhs, {a})
  }

  /** Splitting into atoms keeps the set equivalent. */
  lemma AtomsEquivalent(f: DepSet)
    ensures Equivalent(Atoms(f), f)
  {
    forall e | e in Atoms(f) ensures e.rhs <= Closure(e.lhs, f) {
      var d, a :| d in f && a in d.rhs && e == Dependency(d.lhs, {a});
      assert Closed(Closure(d.lhs, f), f);
    }
    forall d | d in f ensures d.rhs <= Closure(d.lhs, Atoms(f)) {
      forall a | a in d.rhs ensures a in Closure(d.lhs, Atoms(f)) {
        assert Dependency(d.lhs, {a}) in Atoms(f);
        assert Closed(Closure(d.lhs, Atoms(f)), Atoms(f));
      }
    }
    ImpliesBothWays(Atoms(f), f);
  }

  /** The atoms of proper dependencies are proper. */
  lemma AtomsProper(f: DepSet)
    requires ProperSides(f)
    ensures ProperSides(Atoms(f))
  {
    forall e | e in Atoms(f) ensures Proper(e) {
      var d, a :| d in f && a in d.rhs && e == Dependency(d.lhs, {a});
      assert a !in d.lhs * d.rhs;
    }
  }

  /** A set whose right sides hold one name each is its own atoms. */
  lemma AtomsOfSingles(f: DepSet)
    requires forall d :: d in f ==> |d.rhs| == 1
    ensures Atoms(f) == f
  {
    forall d | d in f ensures d in Atoms(f) {
      var a :| a in d.rhs;
      assert |d.rhs - {a}| == 0;
      assert d.rhs == {a};
    }
  }

  /** Merging does not change the atoms. */
  lemma AtomsMerge(f: DepSet)
    ensures Atoms(Merge(f)) == Atoms(f)
  {
    MergeMembers(f);
    forall e | e in Atoms(Merge(f)) ensures e in Atoms(f) {
      var m, a :| m in Merge(f) && a in m.rhs && e == Dependency(m.lhs, {a});
      var d :| d in f && d.lhs == m.lhs && a in d.rhs;
    }
    forall e | e in Atoms(f) ensures e in Atoms(Merge(f)) {
      var d, a :| d in f && a in d.rhs && e == Dependency(d.lhs, {a});
      assert Dependency(d.lhs, Group(f, d.lhs)) in Merge(f);
    }
  }

  /** Adding an atom adds it to the atoms. */
  lemma AtomsAdd(f: DepSet, d: Dependency)
    requires |d.rhs| == 1
    ensures Atoms(f + {d}) == Atoms(f) + {d}
  {
    var a :| a in d.rhs;
    assert |d.rhs - {a}| == 0;
    assert d.rhs == {a};
    assert d == Dependency(d.lhs, {a});
  }

  /** Under unique left sides, removing one of its atoms (removeDependency
      on a one-name right side) takes exactly that atom away. */
  lemma AtomsRemoved(f: DepSet, d: Dependency)
    requires UniqueLhs(f) && d in Atoms(f)
    ensures Atoms(Removed(f, d)) == Atoms(f) - {d}
  {
    var e, a :| e in f && a in e.rhs && d == Dependency(e.lhs, {a});
    AtomsWithout(f, e);
    if d in f {
      assert d == e;
      AtomsOfSingles({e});
    } else {
      RemovedShape(f, d, e, a);
      AtomsRemovedPart(f, d, e, a);
    }
  }

  /** The partial-removal case of AtomsRemoved: `e` loses the name `a`. */
  lemma AtomsRemovedPart(f: DepSet, d: Dependency, e: Dependency, a: string)
    requires e in f && a in e.rhs && d == Dependency(e.lhs, {a}) && e.rhs != {a}
    requires Atoms(f - {e}) == Atoms(f) - Atoms({e})
    ensures Atoms((f - {e}) + {Dependency(e.lhs, e.rhs - {a})}) == Atoms(f) - {d}
  {
    var n := Dependency(e.lhs, e.rhs - {a});
    AtomsUnion(f - {e}, {n});
    AtomsSplitOff(e, a);
    AtomsUnion(f - {e}, {e});
    assert (f - {e}) + {e} == f;
    SwapOut(Atoms(f), Atoms({e}), Atoms({n}), d);
  }

  /** What removeDependency leaves when `e` loses the name `a`. */
  lemma RemovedShape(f: DepSet, d: Dependency, e: Dependency, a: string)
    requires UniqueLhs(f) && e in f && a in e.rhs && d == Dependency(e.lhs, {a}) && d !in f
    ensures e.rhs != {a}
    ensures Removed(f, d) == (f - {e}) + {Dependency(e.lhs, e.rhs - {a})}
  {
    FindDepLhsUnique(f, d.lhs);
    assert e.rhs * d.rhs != {};
    var e' := RemovedPartial(f, d);
    assert e' == e;
    RemainderShape(e, d, a);
  }

  /** The atom `d` of `e`, taken off `e`, leaves the rest of its right side. */
  lemma RemainderShape(e: Dependency, d: Dependency, a: string)
    requires a in e.rhs && d == Dependency(e.lhs, {a}) && e != d
    ensures e.rhs != {a}
    ensures Remainder(e, d) == {Dependency(e.lhs, e.rhs - {a})}
  {
    assert !(e.rhs <= d.rhs);
    assert e.rhs - d.rhs != {};
  }

  /** Taking the part `big` out of `all` and putting back `small`, which is
      `big` without `x`, takes out `x` alone. */
  lemma SwapOut<T>(all: set<T>, big: set<T>, small: set<T>, x: T)
    requires big <= all && big == small + {x} && x !in small
    ensures (all - big) + small == all - {x}
  {
  }

  /** The atoms of a union are the union of the atoms. */
  lemma AtomsUnion(f: DepSet, g: DepSet)
    ensures Atoms(f + g) == Atoms(f) + Atoms(g)
  {
  }

  /** The atoms of `e` are those of `e` without the name `a` on its right
      side, and the atom for `a`. */
  lemma AtomsSplitOff(e: Dependency, a: string)
    requires a in e.rhs && e.rhs != {a}
    ensures Atoms({e}) == Atoms({Dependency(e.lhs, e.rhs - {a})}) + {Dependency(e.lhs, {a})}
    ensures Dependency(e.lhs, {a}) !in Atoms({Dependency(e.lhs, e.rhs - {a})})
  {
  }

  /** The atoms of `f` without the member `e` are those of `f` less the
      atoms of `e`, when no other member shares its left side. */
  lemma AtomsWithout(f: DepSet, e: Dependency)
    requires UniqueLhs(f) && e in f
    ensures Atoms(f - {e}) == Atoms(f) - Atoms({e})
    ensures forall x :: x in Atoms(f - {e}) ==> x.lhs != e.lhs
  {
  }

  /** Fewer dependencies derive less. */
  lemma ClosureFewer(x: AttrSet, g: DepSet, f: DepSet)
    requires g <= f
    ensures Closure(x, g) <= Closure(x, f)
  {
    ImpliesSubset(f, g);
    ClosureUnderImplied(f, g, x);
  }
}
