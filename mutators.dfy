/** The mutators of a relation, on its attribute and dependency sets as
    values: insertion with merging of same-left-side dependencies, removal of
    dependencies and of attributes. The class Relation applies them to its
    fields. */
module Mutators {
  import opened Ordering
  import opened Sets
  import opened SetStrCompare
  import opened TemplateDef
  import opened Utility
  import opened Dependencies
  import opened DependencySets

  /** The dependencies of `t` not yet holding the whole group of their left
      side in `f`: what is left for reducedDependencies to merge. */
  ghost function Unmerged(t: DepSet, f: DepSet): DepSet {
    set x | x in t && x.rhs != Group(f, x.lhs)
  }

  /** The accepted dependencies of `ds`: those addDependency keeps without
      adding attributes. */
  function AcceptedOf(attrs: AttrSet, ds: DepSet): DepSet {
    set d | d in ds && Accepts(attrs, d)
  }

  /** Projection distributes over adding one dependency. */
  lemma ProjectAllAdd(attrs: AttrSet, p: DepSet, d: Dependency)
    ensures ProjectAll(attrs, p + {d}) ==
      ProjectAll(attrs, p) + (if Accepts(attrs, d) then {Projected(attrs, d)} else {})
  {
  }

  /** Every dependency outside `todo` is the only one with its left side. */
  ghost predicate VisitedUnique(deps: DepSet, todo: DepSet) {
    forall v, e :: v in deps && v !in todo && e in deps && e.lhs == v.lhs ==> e == v
  }

  /** In a merging step of reducedDependencies, `i`, the least dependency not
      yet visited, shares its left side with another, so it does not yet hold
      the whole group: the merged form differs from it and comes after it. */
  lemma MergeOneDiffers(deps: DepSet, todo: DepSet, i: Dependency, e: Dependency)
    requires todo <= deps && i in todo && VisitedUnique(deps, todo)
    requires forall y :: y in todo && y != i ==> DepLess(i, y)
    requires e in deps && e != i && e.lhs == i.lhs
    ensures i.rhs != Group(deps, i.lhs)
    ensures DepLess(i, Dependency(i.lhs, Group(deps, i.lhs)))
  {
    var d := Dependency(i.lhs, Group(deps, i.lhs));
    assert i.rhs != Group(deps, i.lhs) by {
      assert e in todo;
      assert SetLess(i.rhs, e.rhs) by {
        assert DepLess(i, e);
      }
      assert e.rhs <= Group(deps, i.lhs);
      if i.rhs == Group(deps, i.lhs) {
        SetLessNotOfSuperset(i.rhs, e.rhs);
      }
    }
    assert i.rhs <= d.rhs;
    SubsetCardinality(i.rhs, d.rhs);
    SetLessBySize(i.rhs, d.rhs);
  }

  /** The merged form of a visited dependency's group leaves the visited
      dependencies unique. */
  lemma MergeOneVisited(deps: DepSet, todo: DepSet, i: Dependency, d: Dependency)
    requires todo <= deps && i in todo && VisitedUnique(deps, todo) && d.lhs == i.lhs
    ensures VisitedUnique((deps + {d}) - {i}, (todo - {i}) + {d})
  {
    var deps', todo' := (deps + {d}) - {i}, (todo - {i}) + {d};
    forall v, x | v in deps' && v !in todo' && x in deps' && x.lhs == v.lhs ensures x == v {
      assert v in deps && v !in todo;
      assert x != d;
    }
  }

  /** A merging step keeps the merged set, shrinks the unvisited set or else
      leaves one fewer dependency to merge. */
  lemma MergeOneMeasure(deps: DepSet, todo: DepSet, i: Dependency)
    requires todo <= deps && i in todo && i.rhs != Group(deps, i.lhs)
    ensures var d := Dependency(i.lhs, Group(deps, i.lhs));
      var deps', todo' := (deps + {d}) - {i}, (todo - {i}) + {d};
      && Merge(deps') == Merge(deps)
      && |todo'| + |Unmerged(todo', deps')| < |todo| + |Unmerged(todo, deps)|
  {
    var d := Dependency(i.lhs, Group(deps, i.lhs));
    var deps', todo' := (deps + {d}) - {i}, (todo - {i}) + {d};
    MergeStep(deps, i);
    MergeCongruence(deps', deps);
    MergeOneShrinks(deps, todo, i);
  }

  /** The measure half of MergeOneMeasure, given that the step keeps every
      group. */
  lemma MergeOneShrinks(deps: DepSet, todo: DepSet, i: Dependency)
    requires todo <= deps && i in todo && i.rhs != Group(deps, i.lhs)
    requires forall l :: Group((deps + {Dependency(i.lhs, Group(deps, i.lhs))}) - {i}, l) == Group(deps, l)
    ensures var d := Dependency(i.lhs, Group(deps, i.lhs));
      var deps', todo' := (deps + {d}) - {i}, (todo - {i}) + {d};
      |todo'| + |Unmerged(todo', deps')| < |todo| + |Unmerged(todo, deps)|
  {
    var d := Dependency(i.lhs, Group(deps, i.lhs));
    var deps', todo' := (deps + {d}) - {i}, (todo - {i}) + {d};
    if d in todo {
      assert todo' == todo - {i};
      assert Unmerged(todo', deps') <= Unmerged(todo, deps);
      SubsetCardinality(Unmerged(todo', deps'), Unmerged(todo, deps));
    } else {
      assert |todo'| == |todo|;
      assert Unmerged(todo', deps') == Unmerged(todo, deps) - {i};
      assert i in Unmerged(todo, deps);
    }
  }

  /** The facts about a kept dependency once it is merged in. */
  lemma MergedInsert(f: DepSet, attrs: AttrSet, d: Dependency)
    requires DepAttribs(f) <= attrs && d.lhs + d.rhs <= attrs
    requires ProperSides(f) && Proper(d)
    ensures UniqueLhs(Merge(f + {d})) && DepAttribs(Merge(f + {d})) <= attrs
    ensures ProperSides(Merge(f + {d}))
    ensures FindDepLhs(Merge(f + {d}), d.lhs).Some?
    ensures d.rhs <= FindDepLhs(Merge(f + {d}), d.lhs).value.rhs
  {
    var g := f + {d};
    assert DepAttribs(Merge(g)) <= attrs by {
      MergeAttribs(g);
      DepAttribsAdd(f, d);
    }
    assert ProperSides(Merge(g)) by {
      MergeProper(g);
    }
    assert Dependency(d.lhs, Group(g, d.lhs)) in Merge(g);
    var r := FindDepLhs(Merge(g), d.lhs).value;
    assert r.rhs == Group(g, d.lhs);
    assert d.rhs <= Group(g, d.lhs);
  }


  /** One merging step of reducedDependencies keeps the loop's invariant and
      decreases its measure. */
  lemma MergeOne(deps: DepSet, todo: DepSet, i: Dependency, same: DepSet)
    requires todo <= deps && i in todo && VisitedUnique(deps, todo)
    requires forall y :: y in todo && y != i ==> DepLess(i, y)
    requires same == set d | d in deps && IsEqual(d.lhs, i.lhs)
    requires |same| > 1
    ensures var d := Dependency(i.lhs, i.rhs + Group(deps, i.lhs));
      var deps', todo' := (deps + {d}) - {i}, (todo - {i}) + {d};
      && todo' <= deps'
      && Merge(deps') == Merge(deps)
      && VisitedUnique(deps', todo')
      && |todo'| + |Unmerged(todo', deps')| < |todo| + |Unmerged(todo, deps)|
  {
    var d := Dependency(i.lhs, Group(deps, i.lhs));
    assert i.rhs != Group(deps, i.lhs) by {
      assert i in same;
      assert |same - {i}| == |same| - 1;
      var e :| e in same - {i};
      MergeOneDiffers(deps, todo, i, e);
    }
    assert i.rhs + Group(deps, i.lhs) == Group(deps, i.lhs);
    assert VisitedUnique((deps + {d}) - {i}, (todo - {i}) + {d}) by {
      MergeOneVisited(deps, todo, i, d);
    }
    MergeOneMeasure(deps, todo, i);
  }

  /** A dependency alone with its left side is left as it is. */
  lemma SkipOne(deps: DepSet, todo: DepSet, i: Dependency, same: DepSet)
    requires todo <= deps && i in todo && VisitedUnique(deps, todo)
    requires same == set d | d in deps && IsEqual(d.lhs, i.lhs)
    requires |same| <= 1
    ensures VisitedUnique(deps, todo - {i})
    ensures |todo - {i}| + |Unmerged(todo - {i}, deps)| < |todo| + |Unmerged(todo, deps)|
  {
    assert Unmerged(todo - {i}, deps) <= Unmerged(todo, deps);
    SubsetCardinality(Unmerged(todo - {i}, deps), Unmerged(todo, deps));
    assert i in same;
    forall e | e in deps && e.lhs == i.lhs ensures e == i {
      if e != i {
        assert {i, e} <= same;
        SubsetCardinality({i, e}, same);
      }
    }
  }

  /** The loop of addDependency that erases, in ascending order, the names of
      `s` outside `attrs` (relation.cc:251-256). */
  method RetainWithin(s: AttrSet, attrs: AttrSet) returns (r: AttrSet)
    ensures r == s * attrs
  {
    var x := SortedAttrs(s);
    r := s;
    for k := 0 to |x|
      invariant forall v :: v in r <==> v in s && (v in attrs || v !in x[..k])
    {
      if !Contains(attrs, x[k]) {
        r := r - {x[k]};
      }
    }
    assert x[..|x|] == x;
  }

  /** The loop of addDependency(lhs, rhs) that erases, in ascending order, the
      names of `s` that lie in `lhs` (relation.cc:198-205). */
  method EraseWithin(s: AttrSet, lhs: AttrSet) returns (r: AttrSet)
    ensures r == s - lhs
  {
    var x := SortedAttrs(s);
    r := s;
    for k := 0 to |x|
      invariant forall v :: v in r <==> v in s && !(v in lhs && v in x[..k])
    {
      if Contains(lhs, x[k]) {
        r := r - {x[k]};
      }
    }
    assert x[..|x|] == x;
  }

  /** The loop of reducedDependencies (relation.cc:149-172): the dependencies
      are walked in ascending order, and one that shares its left side with
      another is replaced by one whose right side is the union of theirs. It
      ends with the merged set. */
  method MergeLoop(start: DepSet) returns (deps: DepSet)
    ensures deps == Merge(start)
  {
    deps := start;
    var todo := deps;
    while todo != {}
      invariant todo <= deps
      invariant Merge(deps) == Merge(start)
      invariant VisitedUnique(deps, todo)
      decreases |todo| + |Unmerged(todo, deps)|
    {
      var i := LeastDep(todo);
      var same := set d | d in deps && IsEqual(d.lhs, i.lhs);
      var count := |same|;
      if count > 1 {
        var lhs := i.lhs;
        var rhs := i.rhs + Group(deps, lhs);
        MergeOne(deps, todo, i, same);
        deps := deps + {Dependency(lhs, rhs)};
        deps := deps - {i};
        todo := (todo - {i}) + {Dependency(lhs, rhs)};
      } else {
        SkipOne(deps, todo, i, same);
        todo := todo - {i};
      }
    }
    MergeIdentity(deps);
  }

  /** The checks of addDependency(dep, update) (relation.cc:243-263). When
      the dependency mentions a name outside the attributes: with update the
      names are added to them, and without it the dependency is cut down to
      them by `Restrict`. The result is the dependency to insert, or None. */
  method Admit(attrs: AttrSet, dep: Dependency, update: bool) returns (attrs': AttrSet, d: Option<Dependency>)
    ensures update ==> attrs' == attrs + dep.lhs + dep.rhs && d.Some?
    ensures !update ==> attrs' == attrs
    ensures d.Some? <==> Accepts(attrs', dep)
    ensures d.Some? ==> d.value == Projected(attrs', dep)
  {
    var all := dep.Attribs();
    dep.AttribsAreSides();
    if IsSubset(attrs, all) {
      WithinAttributes(attrs, dep);
      return attrs, Some(dep);
    } else if update {
      attrs' := attrs + all;
      Widened(attrs, dep);
      return attrs', Some(dep);
    }
    d := Restrict(attrs, dep);
    attrs' := attrs;
  }

  /** Adding the names of a dependency to the attributes leaves it within
      them, kept whole. */
  lemma Widened(attrs: AttrSet, d: Dependency)
    ensures attrs + (d.lhs + d.rhs) == attrs + d.lhs + d.rhs
    ensures Accepts(attrs + (d.lhs + d.rhs), d) && Projected(attrs + (d.lhs + d.rhs), d) == d
  {
    WithinAttributes(attrs + (d.lhs + d.rhs), d);
  }

  /** A dependency within the attributes is kept whole, and adding its names
      to them changes nothing. */
  lemma WithinAttributes(attrs: AttrSet, d: Dependency)
    requires d.lhs + d.rhs <= attrs
    ensures attrs + d.lhs + d.rhs == attrs
    ensures Accepts(attrs, d) && Projected(attrs, d) == d
  {
    assert d.rhs * attrs == d.rhs;
  }

  /** addDependency(dep, false) for a dependency mentioning a name outside
      the attributes (relation.cc:249-261): it is dropped when its left side
      is not within the attributes; otherwise its right side is cut down to
      them, and it is dropped when nothing remains. */
  method Restrict(attrs: AttrSet, dep: Dependency) returns (d: Option<Dependency>)
    requires !(dep.lhs + dep.rhs <= attrs)
    ensures d.Some? <==> Accepts(attrs, dep)
    ensures d.Some? ==> d.value == Projected(attrs, dep)
  {
    if !IsSubset(attrs, dep.lhs) {
      return None;
    }
    var rhs := RetainWithin(dep.rhs, attrs);
    if rhs == {} {
      return None;
    }
    d := Some(Dependency(dep.lhs, rhs));
  }

  /** addDependency(dep, update) (relation.cc:241-267) on the attribute and
      dependency sets of a relation: a dependency `Admit` keeps is inserted
      and the set merged, and the result is the dependency now holding its
      left side; a dropped one changes nothing and gives None. */
  method Insert(attrs: AttrSet, deps: DepSet, dep: Dependency, update: bool)
    returns (attrs': AttrSet, deps': DepSet, r: Option<Dependency>)
    requires UniqueLhs(deps) && ProperSides(deps) && DepAttribs(deps) <= attrs
    requires Proper(dep)
    ensures UniqueLhs(deps') && ProperSides(deps') && DepAttribs(deps') <= attrs'
    ensures update ==> attrs' == attrs + dep.lhs + dep.rhs && Accepts(attrs', dep)
    ensures !update ==> attrs' == attrs
    ensures Accepts(attrs', dep) ==> deps' == Merge(deps + {Projected(attrs', dep)})
    ensures !Accepts(attrs', dep) ==> deps' == deps
    ensures r.Some? <==> Accepts(attrs', dep)
    ensures r.Some? ==> r.value in deps' && r.value.lhs == dep.lhs && dep.rhs * attrs' <= r.value.rhs
  {
    var d;
    attrs', d := Admit(attrs, dep, update);
    if d == None {
      return attrs', deps, None;
    }
    assert DepAttribs(deps) <= attrs';
    MergedInsert(deps, attrs', d.value);
    deps' := MergeLoop(deps + {d.value});
    r := FindDepLhs(deps', dep.lhs);
  }

  /** One step of addDependencies with update: the names join the
      attributes and the dependency joins the merged set. */
  lemma UpdateStep(attrs: AttrSet, deps: DepSet, p: DepSet, e: Dependency,
                   a1: AttrSet, d1: DepSet, a2: AttrSet, d2: DepSet)
    requires a1 == attrs + DepAttribs(p) && d1 == Merge(deps + p)
    requires a2 == a1 + e.lhs + e.rhs && d2 == Merge(d1 + {Projected(a2, e)})
    ensures a2 == attrs + DepAttribs(p + {e}) && d2 == Merge(deps + (p + {e}))
  {
    assert a2 == attrs + DepAttribs(p + {e}) by {
      DepAttribsAdd(p, e);
    }
    assert Projected(a2, e) == e by {
      WithinAttributes(a2, e);
    }
    assert d2 == Merge(deps + (p + {e})) by {
      MergeAbsorb(deps + p, {e});
      assert deps + p + {e} == deps + (p + {e});
    }
  }

  /** One step of addDependencies without update: an accepted dependency
      joins the merged set cut down to the attributes; any other changes
      nothing. */
  lemma ProjectStep(attrs: AttrSet, deps: DepSet, p: DepSet, e: Dependency, d1: DepSet, d2: DepSet)
    requires d1 == Merge(deps + ProjectAll(attrs, p))
    requires Accepts(attrs, e) ==> d2 == Merge(d1 + {Projected(attrs, e)})
    requires !Accepts(attrs, e) ==> d2 == d1
    ensures d2 == Merge(deps + ProjectAll(attrs, p + {e}))
  {
    var q := ProjectAll(attrs, p);
    if Accepts(attrs, e) {
      assert ProjectAll(attrs, p + {e}) == q + {Projected(attrs, e)} by {
        ProjectAllAdd(attrs, p, e);
      }
      assert d2 == Merge(deps + (q + {Projected(attrs, e)})) by {
        MergeAbsorb(deps + q, {Projected(attrs, e)});
        assert deps + q + {Projected(attrs, e)} == deps + (q + {Projected(attrs, e)});
      }
    } else {
      assert ProjectAll(attrs, p + {e}) == q by {
        ProjectAllAdd(attrs, p, e);
      }
    }
  }

  /** One step of the count of addDependencies without update: it grows by
      one exactly when the new dependency is accepted. */
  lemma AcceptedStep(attrs: AttrSet, p: DepSet, e: Dependency)
    requires e !in p
    ensures |AcceptedOf(attrs, p + {e})| == |AcceptedOf(attrs, p)| + (if Accepts(attrs, e) then 1 else 0)
  {
    if Accepts(attrs, e) {
      assert AcceptedOf(attrs, p + {e}) == AcceptedOf(attrs, p) + {e};
    } else {
      assert AcceptedOf(attrs, p + {e}) == AcceptedOf(attrs, p);
    }
  }

  /** The sets of a relation after addDependencies(ds, true) from `attrs` and
      `deps`, with `count` dependencies kept. */
  predicate InsertedUpdate(attrs: AttrSet, deps: DepSet, ds: DepSet, attrs': AttrSet, deps': DepSet, count: nat) {
    && attrs' == attrs + DepAttribs(ds)
    && deps' == Merge(deps + ds)
    && count == |ds|
  }

  /** The sets of a relation after addDependencies(ds, false) from `attrs` and
      `deps`, with `count` dependencies kept. */
  predicate InsertedProject(attrs: AttrSet, deps: DepSet, ds: DepSet, attrs': AttrSet, deps': DepSet, count: nat) {
    && attrs' == attrs
    && deps' == Merge(deps + ProjectAll(attrs, ds))
    && count == |AcceptedOf(attrs, ds)|
  }

  /** A merged set of dependencies with proper sides within `attrs` meets
      the class invariant. */
  lemma MergedValid(f: DepSet, attrs: AttrSet)
    requires ProperSides(f) && DepAttribs(f) <= attrs
    ensures UniqueLhs(Merge(f)) && ProperSides(Merge(f)) && DepAttribs(Merge(f)) <= attrs
  {
    MergeProper(f);
    MergeAttribs(f);
  }

  /** The names of a union of dependency sets are those of the two. */
  lemma DepAttribsUnion(f: DepSet, g: DepSet)
    ensures DepAttribs(f + g) == DepAttribs(f) + DepAttribs(g)
  {
    forall a | a in DepAttribs(f + g) ensures a in DepAttribs(f) + DepAttribs(g) {
      var d :| d in f + g && a in d.lhs + d.rhs;
    }
  }

  /** After addDependencies with update the class invariant holds. */
  lemma UpdateValid(attrs: AttrSet, deps: DepSet, ds: DepSet, a1: AttrSet, d1: DepSet, c1: nat)
    requires ProperSides(deps) && DepAttribs(deps) <= attrs && ProperSides(ds)
    requires InsertedUpdate(attrs, deps, ds, a1, d1, c1)
    ensures UniqueLhs(d1) && ProperSides(d1) && DepAttribs(d1) <= a1
  {
    DepAttribsUnion(deps, ds);
    MergedValid(deps + ds, a1);
  }

  /** After addDependencies without update the class invariant holds. */
  lemma ProjectValid(attrs: AttrSet, deps: DepSet, ds: DepSet, a1: AttrSet, d1: DepSet, c1: nat)
    requires ProperSides(deps) && DepAttribs(deps) <= attrs && ProperSides(ds)
    requires InsertedProject(attrs, deps, ds, a1, d1, c1)
    ensures UniqueLhs(d1) && ProperSides(d1) && DepAttribs(d1) <= a1
  {
    var q := ProjectAll(attrs, ds);
    DepAttribsUnion(deps, q);
    MergedValid(deps + q, a1);
  }

  /** Adding no dependency changes nothing. */
  lemma InsertedNone(attrs: AttrSet, deps: DepSet)
    requires UniqueLhs(deps)
    ensures InsertedUpdate(attrs, deps, {}, attrs, deps, 0)
    ensures InsertedProject(attrs, deps, {}, attrs, deps, 0)
  {
    assert ProjectAll(attrs, {}) == {} && deps + {} == deps;
    assert DepAttribs({}) == {};
    MergeIdentity(deps);
  }

  /** One step of addDependencies with update: the least dependency not yet
      added is added, which extends the outcome of those already added by
      that of the new one. */
  method InsertLeast(attrs: AttrSet, deps: DepSet, ds: DepSet, todo: DepSet,
                     a1: AttrSet, d1: DepSet, c1: nat)
    returns (todo': DepSet, a2: AttrSet, d2: DepSet, c2: nat)
    requires ProperSides(deps) && DepAttribs(deps) <= attrs && ProperSides(ds)
    requires todo <= ds && todo != {}
    requires InsertedUpdate(attrs, deps, ds - todo, a1, d1, c1)
    ensures todo' <= ds && |todo'| < |todo|
    ensures InsertedUpdate(attrs, deps, ds - todo', a2, d2, c2)
  {
    var e := LeastDep(todo);
    ghost var seen := ds - todo;
    TakeOne(ds, todo, e);
    UpdateValid(attrs, deps, seen, a1, d1, c1);
    var r;
    a2, d2, r := Insert(a1, d1, e, true);
    assert r.Some?;
    c2 := c1 + 1;
    UpdateStep(attrs, deps, seen, e, a1, d1, a2, d2);
    AddNewCardinality(seen, e);
    todo' := todo - {e};
  }

  /** One step of addDependencies without update: the least dependency not
      yet added is added, which extends the outcome of those already added
      by that of the new one. */
  method ProjectLeast(attrs: AttrSet, deps: DepSet, ds: DepSet, todo: DepSet,
                      a1: AttrSet, d1: DepSet, c1: nat)
    returns (todo': DepSet, a2: AttrSet, d2: DepSet, c2: nat)
    requires ProperSides(deps) && DepAttribs(deps) <= attrs && ProperSides(ds)
    requires todo <= ds && todo != {}
    requires InsertedProject(attrs, deps, ds - todo, a1, d1, c1)
    ensures todo' <= ds && |todo'| < |todo|
    ensures InsertedProject(attrs, deps, ds - todo', a2, d2, c2)
  {
    var e := LeastDep(todo);
    ghost var seen := ds - todo;
    TakeOne(ds, todo, e);
    ProjectValid(attrs, deps, seen, a1, d1, c1);
    var r;
    a2, d2, r := Insert(a1, d1, e, false);
    c2 := if r.Some? then c1 + 1 else c1;
    ProjectStep(attrs, deps, seen, e, d1, d2);
    AcceptedStep(attrs, seen, e);
    todo' := todo - {e};
  }

  /** Before the walk over `ds` nothing is added, and after it everything. */
  lemma NoneOrAllTaken(ds: DepSet)
    ensures ds - ds == {} && ds - {} == ds
  {
  }

  /** Taking `e` from the dependencies left to add moves it to those added. */
  lemma TakeOne(ds: DepSet, todo: DepSet, e: Dependency)
    requires todo <= ds && e in todo && ProperSides(ds)
    ensures e !in ds - todo && (ds - todo) + {e} == ds - (todo - {e})
    ensures ProperSides(ds - todo) && Proper(e)
    ensures |todo - {e}| < |todo|
  {
  }

  /** The loop of addDependencies(ds, true) (relation.cc:804-808): adds each
      dependency in ascending order and counts those kept. Every one is kept
      and its names join the attributes. */
  method InsertEach(attrs: AttrSet, deps: DepSet, ds: DepSet)
    returns (attrs': AttrSet, deps': DepSet, count: nat)
    requires UniqueLhs(deps) && ProperSides(deps) && DepAttribs(deps) <= attrs
    requires ProperSides(ds)
    ensures InsertedUpdate(attrs, deps, ds, attrs', deps', count)
    ensures UniqueLhs(deps') && ProperSides(deps') && DepAttribs(deps') <= attrs'
  {
    var todo := ds;
    NoneOrAllTaken(ds);
    InsertedNone(attrs, deps);
    attrs', deps', count := attrs, deps, 0;
    while todo != {}
      invariant todo <= ds
      invariant InsertedUpdate(attrs, deps, ds - todo, attrs', deps', count)
      decreases |todo|
    {
      todo, attrs', deps', count := InsertLeast(attrs, deps, ds, todo, attrs', deps', count);
    }
    NoneOrAllTaken(ds);
    UpdateValid(attrs, deps, ds, attrs', deps', count);
  }

  /** The loop of addDependencies(ds, false) (relation.cc:804-808): adds each
      dependency in ascending order and counts those kept. The set gains the
      projections of the accepted ones. */
  method ProjectEach(attrs: AttrSet, deps: DepSet, ds: DepSet)
    returns (attrs': AttrSet, deps': DepSet, count: nat)
    requires UniqueLhs(deps) && ProperSides(deps) && DepAttribs(deps) <= attrs
    requires ProperSides(ds)
    ensures InsertedProject(attrs, deps, ds, attrs', deps', count)
    ensures UniqueLhs(deps') && ProperSides(deps') && DepAttribs(deps') <= attrs'
  {
    var todo := ds;
    NoneOrAllTaken(ds);
    InsertedNone(attrs, deps);
    attrs', deps', count := attrs, deps, 0;
    while todo != {}
      invariant todo <= ds
      invariant InsertedProject(attrs, deps, ds - todo, attrs', deps', count)
      decreases |todo|
    {
      todo, attrs', deps', count := ProjectLeast(attrs, deps, ds, todo, attrs', deps', count);
    }
    NoneOrAllTaken(ds);
    ProjectValid(attrs, deps, ds, attrs', deps', count);
  }

  /** One step of the loop of removeDependency over the names of `names`:
      the least name not yet visited is erased, and the flag is raised when
      it was there. */
  method EraseLeastName(rhs: AttrSet, names: AttrSet, todo: AttrSet, r1: AttrSet, e1: bool)
    returns (todo': AttrSet, r2: AttrSet, e2: bool)
    requires todo <= names && todo != {}
    requires r1 == rhs - (names - todo) && (e1 <==> rhs * (names - todo) != {})
    ensures todo' <= names && |todo'| < |todo|
    ensures r2 == rhs - (names - todo') && (e2 <==> rhs * (names - todo') != {})
  {
    var v := LeastName(todo);
    TakeElement(names, todo, v);
    EraseStep(rhs, names - todo, v);
    var removed := Contains(r1, v);
    r2 := r1 - {v};
    e2 := if removed && !e1 then true else e1;
    todo' := todo - {v};
  }

  /** Erasing one more name `v`: it is erased when it is on the right side,
      and the right side met the names exactly when it met those before or
      holds `v`. */
  lemma EraseStep(rhs: AttrSet, done: AttrSet, v: string)
    requires v !in done
    ensures (rhs - done) - {v} == rhs - (done + {v})
    ensures v in rhs - done <==> v in rhs
    ensures rhs * (done + {v}) != {} <==> rhs * done != {} || v in rhs
  {
    if rhs * (done + {v}) != {} {
      var w :| w in rhs * (done + {v});
    }
    if rhs * done != {} {
      var w :| w in rhs * done;
      assert w in rhs * (done + {v});
    }
    if v in rhs {
      assert v in rhs * (done + {v});
    }
  }

  /** The loop of removeDependency over the names of `names`
      (relation.cc:317-319): each is erased from `rhs`, and the flag records
      whether any erasure took place. */
  method EraseNames(rhs: AttrSet, names: AttrSet) returns (rhs': AttrSet, erased: bool)
    ensures rhs' == rhs - names
    ensures erased <==> rhs * names != {}
  {
    var todo := names;
    rhs', erased := rhs, false;
    assert names - todo == {};
    while todo != {}
      invariant todo <= names
      invariant rhs' == rhs - (names - todo) && (erased <==> rhs * (names - todo) != {})
      decreases |todo|
    {
      todo, rhs', erased := EraseLeastName(rhs, names, todo, rhs', erased);
    }
    assert names - todo == names;
  }

  /** Putting back a dependency with the left side of one just erased leaves
      the left sides unique, so merging changes nothing. */
  lemma ReplaceUnique(f: DepSet, e: Dependency, d: Dependency)
    requires UniqueLhs(f) && e in f && d.lhs == e.lhs
    ensures UniqueLhs((f - {e}) + {d})
    ensures Merge((f - {e}) + {d}) == (f - {e}) + {d}
  {
    MergeIdentity((f - {e}) + {d});
  }

  /** removeDependency(dep) (relation.cc:310-329) on the dependency set of a
      relation: an exact match is erased; otherwise the dependency with the
      same left side loses the named right-side attributes, and what remains
      of it is added back when not empty. The flag says whether anything was
      found to remove. */
  method Remove(attrs: AttrSet, deps: DepSet, dep: Dependency) returns (deps': DepSet, r: bool)
    requires UniqueLhs(deps) && ProperSides(deps) && DepAttribs(deps) <= attrs
    ensures deps' == Removed(deps, dep)
    ensures r <==> RemoveFinds(deps, dep)
  {
    if dep in deps {
      return deps - {dep}, true;
    }
    var i := FindDepLhs(deps, dep.lhs);
    if i == None {
      return deps, false;
    }
    deps', r := RemoveSameLhs(attrs, deps, dep, i.value);
    if r {
      var e := RemovedPartial(deps, dep);
    }
  }

  /** What removeDependency leaves meets the class invariant again. */
  lemma RemovedValid(f: DepSet, dep: Dependency, attrs: AttrSet)
    requires UniqueLhs(f) && ProperSides(f) && DepAttribs(f) <= attrs
    ensures UniqueLhs(Removed(f, dep)) && ProperSides(Removed(f, dep)) && DepAttribs(Removed(f, dep)) <= attrs
  {
    if dep !in f && RemoveFinds(f, dep) {
      var e := RemovedPartial(f, dep);
      RemainderValid(f, e, dep, attrs);
    } else {
      DepAttribsSubset(f, Removed(f, dep));
    }
  }

  /** The partial case of RemovedValid. */
  lemma RemainderValid(f: DepSet, e: Dependency, dep: Dependency, attrs: AttrSet)
    requires UniqueLhs(f) && DepAttribs(f) <= attrs && e in f
    ensures UniqueLhs((f - {e}) + Remainder(e, dep))
    ensures DepAttribs((f - {e}) + Remainder(e, dep)) <= attrs
  {
    var r := Remainder(e, dep);
    assert DepAttribs(r) <= e.lhs + e.rhs;
    assert e.lhs + e.rhs <= attrs;
    DepAttribsUnion(f - {e}, r);
    DepAttribsSubset(f, f - {e});
  }

  /** The second case of removeDependency (relation.cc:313-326): `e` holds
      the left side of `dep`; it loses the right-side names of `dep`, and when
      it loses any it is erased, and added back when something of its right
      side remains. */
  method RemoveSameLhs(attrs: AttrSet, deps: DepSet, dep: Dependency, e: Dependency) returns (deps': DepSet, r: bool)
    requires UniqueLhs(deps) && ProperSides(deps) && DepAttribs(deps) <= attrs
    requires e in deps && e.lhs == dep.lhs
    ensures r <==> e.rhs * dep.rhs != {}
    ensures r ==> deps' == (deps - {e}) + Remainder(e, dep)
    ensures !r ==> deps' == deps
  {
    var rhs;
    rhs, r := EraseNames(e.rhs, dep.rhs);
    if !r {
      return deps, r;
    }
    deps' := deps - {e};
    if rhs == {} {
      assert deps' + Remainder(e, dep) == deps';
      return;
    }
    var d := Dependency(e.lhs, rhs);
    DepAttribsSubset(deps, deps');
    assert d.lhs + d.rhs <= e.lhs + e.rhs;
    WithinAttributes(attrs, d);
    ReplaceUnique(deps, e, d);
    var attrs', found;
    attrs', deps', found := Insert(attrs, deps', d, true);
  }

  /** The dependencies of `f` that mention `a`. */
  function Mentioning(f: DepSet, a: string): DepSet {
    set d | d in f && a in d.lhs + d.rhs
  }

  /** The dependencies of `f` with `a` on the right only, with `a` taken off
      their right side, when something remains of it. */
  function Stripped(f: DepSet, a: string): DepSet {
    set d | d in f && a !in d.lhs && a in d.rhs && d.rhs - {a} != {} :: Dependency(d.lhs, d.rhs - {a})
  }

  /** One step of the erasing loop of removeAtributte: visiting `i` erases
      it when it mentions `a`, and sets it aside without `a` when `a` is on
      its right only and something else is. */
  lemma DropStep(deps: DepSet, seen: DepSet, a: string, i: Dependency, kept: DepSet, temp: DepSet)
    requires kept == deps - Mentioning(seen, a) && temp == Stripped(seen, a)
    ensures a in i.lhs + i.rhs ==> kept - {i} == deps - Mentioning(seen + {i}, a)
    ensures a !in i.lhs + i.rhs ==> kept == deps - Mentioning(seen + {i}, a)
    ensures a !in i.lhs && a in i.rhs && i.rhs - {a} != {} ==>
      temp + {Dependency(i.lhs, i.rhs - {a})} == Stripped(seen + {i}, a)
    ensures !(a !in i.lhs && a in i.rhs && i.rhs - {a} != {}) ==> temp == Stripped(seen + {i}, a)
  {
    if a in i.lhs + i.rhs {
      assert Mentioning(seen + {i}, a) == Mentioning(seen, a) + {i};
    } else {
      assert Mentioning(seen + {i}, a) == Mentioning(seen, a);
    }
  }

  /** What the erasing loop of removeAtributte leaves, with what it sets
      aside to add back, is the set with the attribute dropped. */
  lemma DropSplit(f: DepSet, a: string)
    requires UniqueLhs(f)
    ensures (f - Mentioning(f, a)) + Stripped(f, a) == DropAttribute(f, a)
    ensures UniqueLhs(f - Mentioning(f, a)) && UniqueLhs(DropAttribute(f, a))
    ensures forall d, e :: d in f - Mentioning(f, a) && e in Stripped(f, a) ==> d.lhs != e.lhs
  {
    var g := (f - Mentioning(f, a)) + Stripped(f, a);
    forall x | x in DropAttribute(f, a) ensures x in g {
      var d :| d in f && a !in d.lhs && (a !in d.rhs || d.rhs != {a}) && x == Dependency(d.lhs, d.rhs - {a});
      if a !in d.rhs {
        assert x == d;
      } else {
        assert d.rhs == (d.rhs - {a}) + {a};
      }
    }
    forall x | x in g ensures x in DropAttribute(f, a) {
      if x in f - Mentioning(f, a) {
        assert x == Dependency(x.lhs, x.rhs - {a});
      } else {
        var d :| d in f && a !in d.lhs && a in d.rhs && d.rhs - {a} != {} && x == Dependency(d.lhs, d.rhs - {a});
        assert d.rhs != {a};
      }
    }
  }

  /** The loop of removeAtributte (relation.cc:373-385): every dependency
      mentioning `a` is erased, and one with `a` on its right only is set
      aside with `a` taken off, when something remains of its right side. */
  method EraseMentioning(deps: DepSet, a: string) returns (kept: DepSet, temp: DepSet)
    requires ProperSides(deps)
    ensures kept == deps - Mentioning(deps, a)
    ensures temp == Stripped(deps, a)
  {
    var todo := deps;
    NoneOrAllTaken(deps);
    kept, temp := deps, {};
    while todo != {}
      invariant todo <= deps
      invariant kept == deps - Mentioning(deps - todo, a)
      invariant temp == Stripped(deps - todo, a)
      decreases |todo|
    {
      var i := LeastDep(todo);
      TakeOne(deps, todo, i);
      DropStep(deps, deps - todo, a, i, kept, temp);
      if i.IsPresent(a) {
        if !i.IsPresentLhs(a) {
          var d := Dependency(i.lhs, i.rhs - {a});
          if d.rhs != {} {
            temp := temp + {d};
          }
        }
        kept := kept - {i};
      }
      todo := todo - {i};
    }
    NoneOrAllTaken(deps);
  }

  /** removeAtributte(a) (relation.cc:371-392) on the sets of a relation:
      the dependencies mentioning `a` are erased, those set aside are added
      back without update, and then `a` is erased from the attributes. The
      flag says whether `a` was an attribute. */
  method RemoveName(attrs: AttrSet, deps: DepSet, a: string) returns (attrs': AttrSet, deps': DepSet, r: bool)
    requires UniqueLhs(deps) && ProperSides(deps) && DepAttribs(deps) <= attrs
    ensures attrs' == attrs - {a}
    ensures deps' == DropAttribute(deps, a)
    ensures r <==> a in attrs
  {
    var kept, temp := EraseMentioning(deps, a);
    DropSplit(deps, a);
    deps' := kept;
    if temp != {} {
      assert ProperSides(temp) && DepAttribs(temp) <= attrs by {
        StrippedWithin(deps, a);
      }
      DepAttribsSubset(deps, kept);
      var attrs'', count;
      attrs'', deps', count := ProjectEach(attrs, kept, temp);
      ProjectAllIdentity(attrs, temp);
      MergeDisjoint(kept, temp);
    } else {
      assert kept + temp == kept;
    }
    r := Contains(attrs, a);
    attrs' := attrs - {a};
  }

  /** The dependencies set aside by removeAtributte have proper sides and
      mention only names the original set mentions. */
  lemma StrippedWithin(f: DepSet, a: string)
    requires ProperSides(f)
    ensures ProperSides(Stripped(f, a)) && DepAttribs(Stripped(f, a)) <= DepAttribs(f)
  {
    forall x, b | x in Stripped(f, a) && b in x.lhs + x.rhs ensures b in DepAttribs(f) {
      var d :| d in f && a !in d.lhs && a in d.rhs && d.rhs - {a} != {} && x == Dependency(d.lhs, d.rhs - {a});
      assert b in d.lhs + d.rhs;
    }
  }

  /** Inserting a name not yet inserted counts once exactly when it is new
      to the attributes. */
  lemma NewNameCount(attrs: AttrSet, names: AttrSet, todo: AttrSet, v: string)
    requires todo <= names && v in todo
    ensures (attrs + (names - todo)) + {v} == attrs + (names - (todo - {v}))
    ensures v in attrs + (names - todo) <==> v in attrs
    ensures v !in attrs ==> |(names - (todo - {v})) - attrs| == |(names - todo) - attrs| + 1
    ensures v in attrs ==> (names - (todo - {v})) - attrs == (names - todo) - attrs
  {
    TakeElement(names, todo, v);
    if v !in attrs {
      assert (names - (todo - {v})) - attrs == ((names - todo) - attrs) + {v};
    }
  }

  /** One step of addAtributtes: the least name not yet inserted is
      inserted, and counted when it is new. */
  method InsertLeastName(attrs: AttrSet, names: AttrSet, todo: AttrSet, a1: AttrSet, c1: nat)
    returns (todo': AttrSet, a2: AttrSet, c2: nat)
    requires todo <= names && todo != {}
    requires a1 == attrs + (names - todo) && c1 == |(names - todo) - attrs|
    ensures todo' <= names && |todo'| < |todo|
    ensures a2 == attrs + (names - todo') && c2 == |(names - todo') - attrs|
  {
    var v := LeastName(todo);
    NewNameCount(attrs, names, todo, v);
    var inserted := !Contains(a1, v);
    c2 := if inserted then c1 + 1 else c1;
    a2 := a1 + {v};
    todo' := todo - {v};
  }

  /** addAtributtes(as) (relation.cc:352-356): each name is inserted in
      ascending order, counting those that were new. */
  method InsertNames(attrs: AttrSet, names: AttrSet) returns (attrs': AttrSet, count: nat)
    ensures attrs' == attrs + names
    ensures count == |names - attrs|
  {
    var todo := names;
    attrs', count := attrs, 0;
    assert names - todo == {};
    while todo != {}
      invariant todo <= names
      invariant attrs' == attrs + (names - todo)
      invariant count == |(names - todo) - attrs|
      decreases |todo|
    {
      todo, attrs', count := InsertLeastName(attrs, names, todo, attrs', count);
    }
    assert names - todo == names;
  }


}
