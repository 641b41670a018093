/** Third normal form of what decomposePreserving returns, under the
    violation test of third normal form (no key within the left side and no
    single key holding the whole right side). Each relation built for a
    dependency L -> R of the minimal cover has L as a key, and every other
    dependency projected onto L + R has its right side inside L; the
    relation built on a key has no dependency at all. */
module ThirdNormal {
  import opened Utility
  import opened Dependencies
  import opened DependencySets
  import opened Keys
  import opened NormalForms
  import opened Mutators
  import opened MinimalCover
  import opened Decomposition

  /** A set of dependencies is a minimal cover in the sense MinimalCoverMinimal
      proves: one dependency per left side, proper sides, every atom needed
      and irreducible. */
  predicate IsMinimal(mc: DepSet) {
    && UniqueLhs(mc) && ProperSides(mc)
    && (forall e :: e in Atoms(mc) ==> Needed(mc, e))
    && (forall e :: e in Atoms(mc) ==> LhsIrreducible(mc, e))
  }

  /** Every dependency of the relation on L + R, for the member L -> R of a
      minimal cover, other than the one with left side L has its right side
      inside L: a name of R it derived would make the atom of L -> R for
      that name derivable from the other atoms. */
  lemma OtherRhsInLhs(name: string, mc: DepSet, u: Dependency, v: Dependency)
    requires IsMinimal(mc) && u in mc
    requires v in Sub(name, u.lhs + u.rhs, mc).dependencies && v.lhs != u.lhs
    ensures v.rhs <= u.lhs
  {
    var x := u.lhs + u.rhs;
    var p := ProjectAll(x, mc);
    MergeMembers(p);
    forall a | a in v.rhs ensures a in u.lhs {
      var q :| q in p && q.lhs == v.lhs && a in q.rhs;
      var w :| w in mc && Accepts(x, w) && Projected(x, w) == q;
      if a !in u.lhs {
        assert Proper(w) && a !in w.lhs * w.rhs;
        assert a in u.rhs;
        AtomDerived(mc, u, w, a);
        assert false;
      }
    }
  }

  /** The heart of OtherRhsInLhs: another member `w` of the cover with its
      left side inside u.lhs + u.rhs, `a` on its right side and not on its
      left, derives the atom of `u` for `a` from the other atoms. */
  lemma AtomDerived(mc: DepSet, u: Dependency, w: Dependency, a: string)
    requires u in mc && w in mc && w.lhs != u.lhs
    requires w.lhs <= u.lhs + u.rhs && a in w.rhs && a !in w.lhs && a in u.rhs
    ensures Dependency(u.lhs, {a}) in Atoms(mc)
    ensures !Needed(mc, Dependency(u.lhs, {a}))
  {
    var e := Dependency(u.lhs, {a});
    var rest := Atoms(mc) - {e};
    var c := Closure(u.lhs, rest);
    forall b | b in u.rhs - {a} ensures b in c {
      assert Dependency(u.lhs, {b}) in rest;
      assert Closed(c, rest);
    }
    assert w.lhs <= c;
    assert Dependency(w.lhs, {a}) in rest;
    assert Closed(c, rest);
  }

  /** The left side L of a member L -> R of a minimal cover is a candidate
      key of the relation built on L + R. */
  lemma LhsIsKey(name: string, mc: DepSet, u: Dependency)
    requires IsMinimal(mc) && u in mc
    ensures u.lhs in CandidateKeys(u.lhs + u.rhs, Sub(name, u.lhs + u.rhs, mc).dependencies)
  {
    var x := u.lhs + u.rhs;
    var g := Sub(name, x, mc).dependencies;
    assert Proper(u);
    SubKeeps(name, x, mc, u);
    LhsDetermines(name, mc, u);
    LhsMeetsSeed(name, mc, u);
    forall y | y in u.lhs ensures !Determines(x, g, u.lhs - {y}) {
      LhsMinimal(name, mc, u, y);
    }
  }

  /** The left side determines the relation built on it. */
  lemma LhsDetermines(name: string, mc: DepSet, u: Dependency)
    requires u in mc && u.lhs * u.rhs == {}
    ensures Determines(u.lhs + u.rhs, Sub(name, u.lhs + u.rhs, mc).dependencies, u.lhs)
  {
    SubKeeps(name, u.lhs + u.rhs, mc, u);
  }

  /** The left side meets the seed of the relation built on it: the seed is
      the whole relation, or holds a name of L, since all of R is on a right
      side there. */
  lemma LhsMeetsSeed(name: string, mc: DepSet, u: Dependency)
    requires u in mc && Proper(u)
    ensures Tested(u.lhs + u.rhs, Sub(name, u.lhs + u.rhs, mc).dependencies, u.lhs)
  {
    RhsOnRight(name, mc, u);
    SeedMeetsLhs(u.lhs, u.rhs, Sub(name, u.lhs + u.rhs, mc).dependencies);
  }

  /** A non-empty `l` meets the seed of the relation on l + r when all of
      `r` is on some right side. */
  lemma SeedMeetsLhs(l: AttrSet, r: AttrSet, g: DepSet)
    requires l != {} && r <= AllRhs(g)
    ensures Tested(l + r, g, l)
  {
    var x := l + r;
    if x - AllRhs(g) != {} {
      var b :| b in x - AllRhs(g);
      assert b in l * Seed(x, g);
    } else {
      var b :| b in l;
      assert b in l * Seed(x, g);
    }
  }

  /** The right side R is on a right side of the relation built on L + R. */
  lemma RhsOnRight(name: string, mc: DepSet, u: Dependency)
    requires u in mc && u.lhs * u.rhs == {}
    ensures u.rhs <= AllRhs(Sub(name, u.lhs + u.rhs, mc).dependencies)
  {
    var x := u.lhs + u.rhs;
    var p := ProjectAll(x, mc);
    var g := Merge(p);
    WithinAttributes(x, u);
    assert u in p;
    MergeMembers(p);
    var m := Dependency(u.lhs, Group(p, u.lhs));
    assert m in g;
    forall b | b in u.rhs ensures b in AllRhs(g) {
      assert b in Group(p, u.lhs);
      assert b in m.rhs;
    }
  }

  /** No name can be dropped from the left side: without it the closure
      misses part of the right side already under the whole cover. */
  lemma LhsMinimal(name: string, mc: DepSet, u: Dependency, y: string)
    requires IsMinimal(mc) && u in mc && y in u.lhs
    ensures !Determines(u.lhs + u.rhs, Sub(name, u.lhs + u.rhs, mc).dependencies, u.lhs - {y})
  {
    var x := u.lhs + u.rhs;
    var g := Sub(name, x, mc).dependencies;
    assert Proper(u);
    var a :| a in u.rhs;
    var e := Dependency(u.lhs, {a});
    assert e in Atoms(mc);
    assert LhsIrreducible(mc, e);
    SubImplied(name, x, mc);
    ClosureUnderImplied(mc, g, u.lhs - {y});
  }

  /** The relation built on a member of a minimal cover is in third normal
      form: a dependency with left side L has the key L inside its left
      side, and every other one has its right side inside the key L. */
  lemma CoverRelationThird(name: string, mc: DepSet, u: Dependency)
    requires IsMinimal(mc) && u in mc
    ensures IsNormal(u.lhs + u.rhs, Sub(name, u.lhs + u.rhs, mc).dependencies, Third)
  {
    var x := u.lhs + u.rhs;
    var g := Sub(name, x, mc).dependencies;
    LhsIsKey(name, mc, u);
    forall v | v in g ensures !Violation(x, g, Third, v) {
      if v.lhs != u.lhs {
        OtherRhsInLhs(name, mc, u, v);
      }
    }
    assert Violations(x, g, Third) == {};
  }

  /** The relation built on a candidate key of `r` has no dependency: a
      member of the cover projected onto the key would let the key without
      one name determine the relation. */
  lemma KeyRelationEmpty(r: RelValue, mc: DepSet, name: string, k: AttrSet)
    requires ProperSides(mc) && Equivalent(mc, r.dependencies)
    requires k in CandidateKeys(r.attributes, r.dependencies)
    ensures Sub(name, k, mc).dependencies == {}
  {
    if ProjectAll(k, mc) != {} {
      var q :| q in ProjectAll(k, mc);
      var w :| w in mc && Accepts(k, w) && Projected(k, w) == q;
      assert Proper(w);
      var a :| a in w.rhs * k;
      KeyLosesName(r.attributes, r.dependencies, mc, k, w, a);
      KeyIsMinimal(r.attributes, r.dependencies, k, k - {a});
      assert false;
    }
  }

  /** A visited set `k` that determines the relation and holds the whole
      left side of a member `w` of an equivalent cover, and a name `a` of
      its right side, is still visited and determining without `a`. */
  lemma KeyLosesName(attrs: AttrSet, f: DepSet, mc: DepSet, k: AttrSet, w: Dependency, a: string)
    requires Equivalent(mc, f) && Tested(attrs, f, k) && Determines(attrs, f, k)
    requires w in mc && Proper(w) && w.lhs <= k && a in w.rhs && a in k
    ensures Tested(attrs, f, k - {a}) && Determines(attrs, f, k - {a})
  {
    var t := k - {a};
    var c := Closure(t, f);
    assert a !in w.lhs * w.rhs;
    assert w.lhs <= t;
    assert Closed(Closure(t, mc), mc);
    assert a in Closure(t, mc);
    assert a in c;
    assert k <= c;
    ClosureLeast(k, c, f);
    assert a in AllRhs(f);
    if attrs - AllRhs(f) != {} {
      var b :| b in k * Seed(attrs, f);
      assert b in t * Seed(attrs, f);
    } else {
      var b :| b in w.lhs;
      assert b in t * Seed(attrs, f);
    }
  }

  /** Each relation the loop of decomposePreserving adds is built on the
      names of a member of the cover. */
  lemma {:induction false} PreservingPassFrom(ret: set<RelValue>, i: nat, mc: DepSet, todo: DepSet)
    requires todo <= mc
    ensures forall l :: l in PreservingPass(ret, i, mc, todo) && l !in ret ==>
      exists d :: d in mc && l == Sub(l.name, d.lhs + d.rhs, mc)
    decreases |todo|
  {
    if todo != {} {
      var d := LeastDep(todo);
      var x := d.lhs + d.rhs;
      if CountCovering(ret, x) < 1 {
        PreservingPassFrom(ret + {Sub("R" + NatStr(i + 1), x, mc)}, i + 1, mc, todo - {d});
      } else {
        PreservingPassFrom(ret, i, mc, todo - {d});
      }
    }
  }

  /** decomposePreserving returns relations in third normal form. */
  lemma PreservingThird(r: RelValue)
    requires ValidRel(r)
    ensures forall l :: l in Preserving(r) ==> IsNormal(l.attributes, l.dependencies, Third)
  {
    var f := r.dependencies;
    var mc := MinimalCoverOf(f);
    var keys := CandidateKeys(r.attributes, f);
    MinimalCoverEquivalent(f);
    MinimalCoverMinimal(f);
    assert IsMinimal(mc);
    var start := KeyRelation(r.name, mc, keys);
    PreservingPassFrom(start, |start|, mc, mc);
    PreservingFromShape(r, mc, keys);
    forall l | l in Preserving(r) ensures IsNormal(l.attributes, l.dependencies, Third) {
      if l in start {
        KeyRelationEmpty(r, mc, l.name, l.attributes);
        assert Violations(l.attributes, l.dependencies, Third) == {};
      } else if l in PreservingPass(start, |start|, mc, mc) {
        var d :| d in mc && l == Sub(l.name, d.lhs + d.rhs, mc);
        CoverRelationThird(l.name, mc, d);
      } else {
        ReturnedWhole(r, mc, keys);
        assert Violations(l.attributes, l.dependencies, Third) == {};
      }
    }
  }

  /** `r` itself is returned only when it has no attributes, and so no
      dependency. */
  lemma ReturnedWhole(r: RelValue, mc: DepSet, keys: KeySet)
    requires ValidRel(r) && keys == CandidateKeys(r.attributes, r.dependencies)
    requires PreservingPass(KeyRelation(r.name, mc, keys), |KeyRelation(r.name, mc, keys)|, mc, mc) == {}
    ensures r.dependencies == {}
  {
    var start := KeyRelation(r.name, mc, keys);
    PreservingPassCovers(start, |start|, mc, mc);
    assert mc == {};
    assert !HasKeyDependency(keys, mc);
    KeysExistIffAttributes(r.attributes, r.dependencies);
  }
}
