/** What losslessness of decompose means for the data a relation holds: an
    instance of a relation is a set of tuples, each mapping every attribute
    to a value, and it satisfies the dependencies when two tuples agreeing on
    a left side agree on its right side. Projecting such an instance onto the
    relations decompose returns and joining the projections back gives
    exactly the instance. */
module Lossless {
  import opened Utility
  import opened Dependencies
  import opened DependencySets
  import opened MinimalCover
  import opened Decomposition

  /** A row: a value, written as a string, for each attribute. */
  type Tuple = map<string, string>

  /** The row cut down to the attributes `x`. */
  function Restrict(t: Tuple, x: AttrSet): (u: Tuple)
    ensures u.Keys == t.Keys * x
  {
    map a | a in t && a in x :: t[a]
  }

  /** The projection of an instance onto `x`. */
  function Project(inst: set<Tuple>, x: AttrSet): set<Tuple> {
    set t | t in inst :: Restrict(t, x)
  }

  /** Two rows hold the same value for every attribute of `x`. */
  predicate Agree(t: Tuple, u: Tuple, x: AttrSet) {
    forall a :: a in x ==> a in t && a in u && t[a] == u[a]
  }

  /** Every row of the instance is over exactly the attributes `attrs`. */
  predicate Over(inst: set<Tuple>, attrs: AttrSet) {
    forall t :: t in inst ==> t.Keys == attrs
  }

  /** The instance satisfies every dependency of `f`. */
  predicate Satisfies(inst: set<Tuple>, f: DepSet) {
    forall t, u, d :: t in inst && u in inst && d in f && Agree(t, u, d.lhs) ==> Agree(t, u, d.rhs)
  }

  /** `t` is a row of the natural join, over `attrs`, of the projections of
      `inst` onto the relations of `parts`. */
  predicate InJoin(inst: set<Tuple>, parts: set<RelValue>, attrs: AttrSet, t: Tuple) {
    && t.Keys == attrs
    && forall l :: l in parts ==> Restrict(t, l.attributes) in Project(inst, l.attributes)
  }

  /** Two rows of an instance that agree on `x` agree on its closure: the
      names they agree on form a closed set. */
  lemma AgreeOnClosure(inst: set<Tuple>, f: DepSet, t: Tuple, u: Tuple, x: AttrSet)
    requires Satisfies(inst, f) && t in inst && u in inst && Agree(t, u, x)
    ensures Agree(t, u, Closure(x, f))
  {
    var same := set a | a in t && a in u && t[a] == u[a];
    assert x <= same;
    forall d | d in f && d.lhs <= same ensures d.rhs <= same {
      assert Agree(t, u, d.lhs);
    }
    ClosureLeast(x, same, f);
  }

  /** A row over `x` is its own restriction to `x`. */
  lemma RestrictWhole(t: Tuple, x: AttrSet)
    requires t.Keys == x
    ensures Restrict(t, x) == t
  {
  }

  /** Restricting twice is restricting to the smaller set. */
  lemma RestrictTwice(t: Tuple, x: AttrSet, y: AttrSet)
    requires y <= x
    ensures Restrict(Restrict(t, x), y) == Restrict(t, y)
  {
  }

  /** Projecting twice is projecting onto the smaller set. */
  lemma ProjectTwice(inst: set<Tuple>, x: AttrSet, y: AttrSet)
    requires y <= x
    ensures Project(Project(inst, x), y) == Project(inst, y)
  {
    forall t | t in inst ensures Restrict(Restrict(t, x), y) == Restrict(t, y) {
      RestrictTwice(t, x, y);
    }
    forall s | s in Project(Project(inst, x), y) ensures s in Project(inst, y) {
      var p :| p in Project(inst, x) && s == Restrict(p, y);
      var t :| t in inst && p == Restrict(t, x);
    }
    forall s | s in Project(inst, y) ensures s in Project(Project(inst, x), y) {
      var t :| t in inst && s == Restrict(t, y);
      assert Restrict(t, x) in Project(inst, x);
    }
  }

  /** The projection onto `x` of an instance over `attrs` is over `x`, and it
      satisfies every dependency within `x` that the instance's
      dependencies derive. */
  lemma ProjectSatisfies(inst: set<Tuple>, attrs: AttrSet, f: DepSet, x: AttrSet, g: DepSet)
    requires Over(inst, attrs) && Satisfies(inst, f)
    requires x <= attrs && Implies(f, g) && DepAttribs(g) <= x
    ensures Over(Project(inst, x), x)
    ensures Satisfies(Project(inst, x), g)
  {
    var p := Project(inst, x);
    forall s, s', d | s in p && s' in p && d in g && Agree(s, s', d.lhs) ensures Agree(s, s', d.rhs) {
      var t :| t in inst && s == Restrict(t, x);
      var t' :| t' in inst && s' == Restrict(t', x);
      NamesOfMember(g, d);
      assert Agree(t, t', d.lhs);
      AgreeOnClosure(inst, f, t, t', d.lhs);
    }
  }

  /** Every row of the instance is in the join of its projections. */
  lemma RowsInJoin(inst: set<Tuple>, parts: set<RelValue>, attrs: AttrSet, t: Tuple)
    requires Over(inst, attrs) && t in inst
    ensures InJoin(inst, parts, attrs, t)
  {
    forall l | l in parts ensures Restrict(t, l.attributes) in Project(inst, l.attributes) { }
  }

  /** decompose is lossless: for every instance of `r` satisfying its
      dependencies, joining the projections of the instance onto the
      relations decompose returns gives back exactly the instance. */
  lemma DecomposeLossless(r: RelValue, inst: set<Tuple>)
    requires ValidRel(r) && Over(inst, r.attributes) && Satisfies(inst, r.dependencies)
    ensures forall t :: InJoin(inst, Decompose(r), r.attributes, t) <==> t in inst
  {
    forall t | t in inst ensures InJoin(inst, Decompose(r), r.attributes, t) {
      RowsInJoin(inst, Decompose(r), r.attributes, t);
    }
    forall t | InJoin(inst, Decompose(r), r.attributes, t) ensures t in inst {
      JoinInInstance(r, inst, t);
    }
  }

  /** The join direction of DecomposeLossless, by induction on decompose. */
  lemma {:induction false} JoinInInstance(r: RelValue, inst: set<Tuple>, t: Tuple)
    requires ValidRel(r) && Over(inst, r.attributes) && Satisfies(inst, r.dependencies)
    requires InJoin(inst, Decompose(r), r.attributes, t)
    ensures t in inst
    decreases |r.attributes|
  {
    if InBcnf(r) {
      assert r in Decompose(r);
      var u :| u in inst && Restrict(u, r.attributes) == Restrict(t, r.attributes);
      RestrictWhole(u, r.attributes);
      RestrictWhole(t, r.attributes);
    } else {
      ChildrenShrink(r);
      SplitLossless(r);
      var (r1, r2) := Children(r);
      var u1 := HalfRow(r, r1, inst, t);
      var u2 := HalfRow(r, r2, inst, t);
      var x := r1.attributes * r2.attributes;
      assert Agree(u1, u2, x);
      AgreeOnClosure(inst, r.dependencies, u1, u2, x);
      assert Over(inst, r.attributes);
      RowFromHalves(t, u1, u2, r1.attributes, r2.attributes);
    }
  }

  /** A row over x1 + x2 that agrees with `u1` on x1 and with `u2` on x2,
      where `u1` (over x1 + x2) and `u2` agree on x2, is `u1`. */
  lemma RowFromHalves(t: Tuple, u1: Tuple, u2: Tuple, x1: AttrSet, x2: AttrSet)
    requires t.Keys == x1 + x2 && u1.Keys == x1 + x2
    requires Agree(u1, t, x1) && Agree(u2, t, x2) && Agree(u1, u2, x2)
    ensures t == u1
  {
    forall a | a in t ensures t[a] == u1[a] {
      if a !in x1 {
        assert a in x2;
      }
    }
  }

  /** For one half `h` of the split of `r`: the row of the join, cut down to
      `h`, is a row of the join of the projections onto the relations
      decompose returns for `h`, so by induction some row of the instance
      agrees with it on `h`. */
  lemma {:induction false} HalfRow(r: RelValue, h: RelValue, inst: set<Tuple>, t: Tuple) returns (u: Tuple)
    requires ValidRel(r) && Over(inst, r.attributes) && Satisfies(inst, r.dependencies)
    requires !InBcnf(r) && (h == Children(r).0 || h == Children(r).1)
    requires InJoin(inst, Decompose(r), r.attributes, t)
    ensures u in inst && Agree(u, t, h.attributes)
    decreases |r.attributes|, 0
  {
    ChildrenShrink(r);
    var d := LeastViolation(r);
    if h == Children(r).0 {
      SubImplied(r.name + "1", r.attributes - d.rhs, r.dependencies);
    } else {
      SubImplied(r.name + "2", d.lhs + d.rhs, r.dependencies);
    }
    var x := h.attributes;
    var p := Project(inst, x);
    ProjectSatisfies(inst, r.attributes, r.dependencies, x, h.dependencies);
    var s := Restrict(t, x);
    forall l | l in Decompose(h) ensures Restrict(s, l.attributes) in Project(p, l.attributes) {
      assert l in Decompose(r);
      RestrictTwice(t, x, l.attributes);
      ProjectTwice(inst, x, l.attributes);
    }
    assert InJoin(p, Decompose(h), x, s);
    JoinInInstance(h, p, s);
    u :| u in inst && s == Restrict(u, x);
  }
}
