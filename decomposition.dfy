/** Decomposition of a relation into sub-relations: the recursive BCNF
    decomposition (decompose / decomposeNotPreserving) and the
    dependency-preserving synthesis from a minimal cover
    (decomposePreserving).

    A sub-relation is a value here. A set of relations in the source uses
    Relation::operator< (relation.cc:823-842), which compares attributes,
    then dependencies, then names, and does not always give a strict order;
    the one property relied on is that two relations are equivalent under it
    exactly when all three agree, as they are equal here. */
module Decomposition {
  import opened Ordering
  import opened Sets
  import opened TemplateDef
  import opened Utility
  import opened Dependencies
  import opened DependencySets
  import opened Keys
  import opened NormalForms
  import opened Mutators
  import opened Queries
  import opened MinimalCover

  /** A relation as a value: name, attributes, dependencies. */
  datatype RelValue = RelValue(name: string, attributes: AttrSet, dependencies: DepSet)

  /** The class invariant of a relation, on a value. */
  predicate ValidRel(r: RelValue) {
    UniqueLhs(r.dependencies) && ProperSides(r.dependencies) && DepAttribs(r.dependencies) <= r.attributes
  }

  /** `Relation s(name, attrs); s.addDependencies(ds, false)`: a relation on
      `attrs` holding the dependencies of `ds` projected onto `attrs`. */
  function Sub(name: string, attrs: AttrSet, ds: DepSet): RelValue {
    RelValue(name, attrs, Merge(ProjectAll(attrs, ds)))
  }

  /** Every dependency of all the relations of `s`. */
  function AllDeps(s: set<RelValue>): DepSet {
    set l, d | l in s && d in l.dependencies :: d
  }

  /** std::to_string on an unsigned number: its decimal digits. */
  function NatStr(n: nat): (s: string)
    ensures |s| >= 1
    ensures forall i :: 0 <= i < |s| ==> '0' <= s[i] <= '9'
    decreases n
  {
    if n < 10 then ["0123456789"[n]] else NatStr(n / 10) + ["0123456789"[n % 10]]
  }

  /** Different numbers are written differently, so the relations numbered
      by the loop of decomposePreserving get different names. */
  lemma {:induction false} NatStrInjective(m: nat, n: nat)
    requires NatStr(m) == NatStr(n)
    ensures m == n
    decreases m
  {
    var digits := "0123456789";
    assert forall i, j :: 0 <= i < 10 && 0 <= j < 10 && digits[i] == digits[j] ==> i == j;
    if m >= 10 && n >= 10 {
      var s, t := NatStr(m), NatStr(n);
      assert s[|s| - 1] == digits[m % 10] && t[|t| - 1] == digits[n % 10];
      assert s[..|s| - 1] == NatStr(m / 10) && t[..|t| - 1] == NatStr(n / 10);
      NatStrInjective(m / 10, n / 10);
    }
  }

  /** A sub-relation built from dependencies with proper sides meets the
      class invariant. */
  lemma SubValid(name: string, attrs: AttrSet, ds: DepSet)
    requires ProperSides(ds)
    ensures ValidRel(Sub(name, attrs, ds))
    ensures Sub(name, attrs, ds).attributes == attrs
  {
    var p := ProjectAll(attrs, ds);
    MergeProper(p);
    MergeAttribs(p);
  }

  /** The dependencies of a sub-relation follow from those it was projected
      from. */
  lemma SubImplied(name: string, attrs: AttrSet, ds: DepSet)
    ensures Implies(ds, Sub(name, attrs, ds).dependencies)
  {
    var p := ProjectAll(attrs, ds);
    forall e | e in p ensures e.rhs <= Closure(e.lhs, ds) {
      var d :| d in ds && Accepts(attrs, d) && Projected(attrs, d) == e;
      MemberImplied(ds, d);
    }
    MergeEquivalent(p);
    ImpliesBothWays(Merge(p), p);
    ImpliesTransitive(ds, p, Merge(p));
  }

  /** A dependency lying within `attrs` survives into the sub-relation on
      `attrs`: its right side follows from its left there. */
  lemma SubKeeps(name: string, attrs: AttrSet, ds: DepSet, d: Dependency)
    requires d in ds && d.lhs + d.rhs <= attrs
    ensures d.rhs <= Closure(d.lhs, Sub(name, attrs, ds).dependencies)
  {
    var p := ProjectAll(attrs, ds);
    WithinAttributes(attrs, d);
    assert d in p;
    MergeMembers(p);
    var e := Dependency(d.lhs, Group(p, d.lhs));
    assert e in Merge(p);
    MemberImplied(Merge(p), e);
  }

  /** `Relation s(name, attrs); s.addDependencies(ds, false)` run on the
      relation's own mutators. */
  method SubRelation(name: string, attrs: AttrSet, ds: DepSet) returns (s: RelValue)
    requires ProperSides(ds)
    ensures s == Sub(name, attrs, ds) && ValidRel(s)
  {
    var a, deps, _ := ProjectEach(attrs, {}, ds);
    assert {} + ProjectAll(attrs, ds) == ProjectAll(attrs, ds);
    s := RelValue(name, a, deps);
    SubValid(name, attrs, ds);
  }

  // ---------------------------------------------------------------------
  // decompose (relation.cc:35-64)
  // ---------------------------------------------------------------------

  /** The test decompose starts with, `r.isNormal(BCNF)`: no dependency
      violates BCNF (IsNormal decides the same by scanning). */
  predicate InBcnf(r: RelValue) {
    Violations(r.attributes, r.dependencies, BoyceCodd) == {}
  }

  /** `*v.begin()` for the BCNF violations `v` of `r`: the least of them. */
  function LeastViolation(r: RelValue): (d: Dependency)
    requires !InBcnf(r)
    ensures d in Violations(r.attributes, r.dependencies, BoyceCodd)
    ensures forall e :: e in Violations(r.attributes, r.dependencies, BoyceCodd) && e != d ==> DepLess(d, e)
  {
    LeastDep(Violations(r.attributes, r.dependencies, BoyceCodd))
  }

  /** The two halves decompose splits a relation not in BCNF into: with `d`
      the least violating dependency, one relation drops the right side of
      `d`, the other keeps only the names of `d`; both get the relation's
      dependencies projected onto their attributes. */
  function Children(r: RelValue): (RelValue, RelValue)
    requires !InBcnf(r)
  {
    var d := LeastViolation(r);
    (Sub(r.name + "1", r.attributes - d.rhs, r.dependencies),
     Sub(r.name + "2", d.lhs + d.rhs, r.dependencies))
  }

  /** The names of a member are among the names of the set. */
  lemma NamesOfMember(f: DepSet, d: Dependency)
    requires d in f
    ensures d.lhs + d.rhs <= DepAttribs(f)
  {
    forall a | a in d.lhs + d.rhs ensures a in DepAttribs(f) { }
  }

  /** A dependency of a valid relation whose left side misses some attribute
      in its closure splits the relation into two strictly smaller parts. */
  lemma SplitShrinks(attrs: AttrSet, f: DepSet, d: Dependency)
    requires d in f && ProperSides(f) && DepAttribs(f) <= attrs
    requires !(attrs <= Closure(d.lhs, f))
    ensures d.lhs <= attrs && d.lhs != {}
    ensures |attrs - d.rhs| < |attrs| && |d.lhs + d.rhs| < |attrs|
  {
    NamesOfMember(f, d);
    MemberImplied(f, d);
    SubsetCardinality(d.lhs + d.rhs, attrs);
    var a :| a in d.rhs;
    SubsetCardinality(attrs - d.rhs, attrs);
  }

  /** The left side of a BCNF violation of a valid relation does not
      determine the relation. */
  lemma ViolationMisses(r: RelValue, d: Dependency)
    requires ValidRel(r) && d in r.dependencies
    requires Violation(r.attributes, r.dependencies, BoyceCodd, d)
    ensures !(r.attributes <= Closure(d.lhs, r.dependencies))
  {
    NamesOfMember(r.dependencies, d);
    BoyceCoddViolationIff(r.attributes, r.dependencies, d);
  }

  /** Both halves of a valid relation are valid and strictly smaller: the
      right side of the violation is a non-empty part of the relation, and
      the names of the violation lie in the closure of its left side, which
      (the left side not being a superkey) misses some attribute. */
  lemma ChildrenShrink(r: RelValue)
    requires ValidRel(r) && !InBcnf(r)
    ensures ValidRel(Children(r).0) && ValidRel(Children(r).1)
    ensures Children(r).0.attributes <= r.attributes && Children(r).1.attributes <= r.attributes
    ensures r.attributes <= Children(r).0.attributes + Children(r).1.attributes
    ensures |Children(r).0.attributes| < |r.attributes|
    ensures |Children(r).1.attributes| < |r.attributes|
  {
    var d := LeastViolation(r);
    assert d in r.dependencies && Violation(r.attributes, r.dependencies, BoyceCodd, d);
    ViolationMisses(r, d);
    SplitShrinks(r.attributes, r.dependencies, d);
    SubValid(r.name + "1", r.attributes - d.rhs, r.dependencies);
    SubValid(r.name + "2", d.lhs + d.rhs, r.dependencies);
  }

  /** Each split is lossless (Heath's condition): the two halves share
      exactly the left side of the violation, which determines every name
      of the second half, and together they hold every attribute. */
  lemma SplitLossless(r: RelValue)
    requires ValidRel(r) && !InBcnf(r)
    ensures Children(r).0.attributes * Children(r).1.attributes == LeastViolation(r).lhs
    ensures Children(r).1.attributes <= Closure(Children(r).0.attributes * Children(r).1.attributes, r.dependencies)
    ensures Children(r).0.attributes + Children(r).1.attributes == r.attributes
  {
    var d := LeastViolation(r);
    NamesOfMember(r.dependencies, d);
    MemberImplied(r.dependencies, d);
    HalvesMeet(r.attributes, d.lhs, d.rhs);
  }

  /** The set algebra of a split on l -> s, with disjoint sides within `attrs`. */
  lemma HalvesMeet(attrs: AttrSet, l: AttrSet, s: AttrSet)
    requires l + s <= attrs && l * s == {}
    ensures (attrs - s) * (l + s) == l
    ensures (attrs - s) + (l + s) == attrs
  {
    forall a | a in l ensures a in attrs - s {
      assert a !in l * s;
    }
  }

  /** The relations decompose inserts for `r`: at least one, each on
      attributes of `r` (see DecomposeLeaves for what else holds of them). */
  function Decompose(r: RelValue): (res: set<RelValue>)
    requires ValidRel(r)
    ensures res != {}
    ensures forall l :: l in res ==> l.attributes <= r.attributes
    decreases |r.attributes|
  {
    if InBcnf(r) then {r}
    else
      var (r1, r2) := Children(r);
      ChildrenShrink(r);
      var s1, s2 := Decompose(r1), Decompose(r2);
      UnionWithin(s1, s2, r1.attributes, r2.attributes, r.attributes);
      s1 + s2
  }

  /** Relations on attributes of `x1` and relations on attributes of `x2`
      are together relations on attributes of any `x` holding both. */
  lemma UnionWithin(s1: set<RelValue>, s2: set<RelValue>, x1: AttrSet, x2: AttrSet, x: AttrSet)
    requires forall l :: l in s1 ==> l.attributes <= x1
    requires forall l :: l in s2 ==> l.attributes <= x2
    requires x1 <= x && x2 <= x
    ensures forall l :: l in s1 + s2 ==> l.attributes <= x
  {
  }

  /** The two halves as decompose builds them: the violations found by
      getViolation, the first of them, and two relations filled by
      addDependencies without update. */
  method Split(r: RelValue) returns (r1: RelValue, r2: RelValue)
    requires ValidRel(r) && !InBcnf(r)
    ensures (r1, r2) == Children(r)
    ensures ValidRel(r1) && |r1.attributes| < |r.attributes|
    ensures ValidRel(r2) && |r2.attributes| < |r.attributes|
  {
    ChildrenShrink(r);
    var v := ViolationScan(r.attributes, r.dependencies, BoyceCodd);
    var d := LeastDep(v);
    var list := SubtractStr(r.attributes, d.rhs);
    r1 := SubRelation(r.name + "1", list, r.dependencies);
    r2 := SubRelation(r.name + "2", d.lhs + d.rhs, r.dependencies);
  }

  /** decompose(rset, r) (relation.cc:35-64): `r` itself when in BCNF, else
      the decompositions of its two halves, each added to `rset`. */
  method DecomposeInto(rset: set<RelValue>, r: RelValue) returns (res: set<RelValue>)
    requires ValidRel(r)
    ensures res == rset + Decompose(r)
    decreases |r.attributes|
  {
    if InBcnf(r) {
      return rset + {r};
    }
    var r1, r2 := Split(r);
    res := DecomposeInto(rset, r1);
    res := DecomposeInto(res, r2);
  }

  /** decomposeNotPreserving (relation.cc:459-464). */
  method DecomposeNotPreserving(r: RelValue) returns (res: set<RelValue>)
    requires ValidRel(r)
    ensures res == Decompose(r)
  {
    res := DecomposeInto({}, r);
  }

  /** Every relation decompose inserts is in BCNF and meets the class
      invariant. */
  lemma {:induction false} DecomposeLeaves(r: RelValue)
    requires ValidRel(r)
    ensures forall l :: l in Decompose(r) ==> ValidRel(l) && IsNormal(l.attributes, l.dependencies, BoyceCodd)
    decreases |r.attributes|
  {
    if !InBcnf(r) {
      ChildrenShrink(r);
      DecomposeLeaves(Children(r).0);
      DecomposeLeaves(Children(r).1);
    }
  }

  /** No attribute is lost: each attribute of `r` is in some sub-relation. */
  lemma {:induction false} DecomposeCovers(r: RelValue)
    requires ValidRel(r)
    ensures forall a :: a in r.attributes ==> exists l :: l in Decompose(r) && a in l.attributes
    decreases |r.attributes|
  {
    if !InBcnf(r) {
      ChildrenShrink(r);
      var (r1, r2) := Children(r);
      DecomposeCovers(r1);
      DecomposeCovers(r2);
      forall a | a in r.attributes ensures exists l :: l in Decompose(r) && a in l.attributes {
        if a in r1.attributes {
          var l :| l in Decompose(r1) && a in l.attributes;
          assert l in Decompose(r);
        } else {
          assert a in r2.attributes;
          var l :| l in Decompose(r2) && a in l.attributes;
          assert l in Decompose(r);
        }
      }
    }
  }

  /** Decomposition invents no dependency: every dependency of a
      sub-relation follows from those of `r`. */
  lemma {:induction false} DecomposeSound(r: RelValue)
    requires ValidRel(r)
    ensures forall l :: l in Decompose(r) ==> Implies(r.dependencies, l.dependencies)
    decreases |r.attributes|
  {
    if InBcnf(r) {
      ImpliesSubset(r.dependencies, r.dependencies);
    } else {
      ChildrenShrink(r);
      var (r1, r2) := Children(r);
      var d := LeastViolation(r);
      SubImplied(r.name + "1", r.attributes - d.rhs, r.dependencies);
      SubImplied(r.name + "2", d.lhs + d.rhs, r.dependencies);
      DecomposeSound(r1);
      DecomposeSound(r2);
      forall l | l in Decompose(r) ensures Implies(r.dependencies, l.dependencies) {
        if l in Decompose(r1) {
          ImpliesTransitive(r.dependencies, r1.dependencies, l.dependencies);
        } else {
          ImpliesTransitive(r.dependencies, r2.dependencies, l.dependencies);
        }
      }
    }
  }

  /** With an empty left side (which the source's addDependency accepts),
      decompose never ends: on the relation {x} with {} -> x, the only
      violation is {} -> x, and the second half has the same attributes and
      dependencies as the relation it came from. */
  lemma DecomposeLoopsOnEmptyLhs(n: string, x: string)
    ensures var r := RelValue(n, {x}, {Dependency({}, {x})});
      && !InBcnf(r)
      && Children(r).1.attributes == r.attributes
      && Children(r).1.dependencies == r.dependencies
  {
    var e := Dependency({}, {x});
    var r := RelValue(n, {x}, {e});
    EmptyLhsViolates(x);
    assert LeastViolation(r) == e;
    EmptyLhsProjection(n + "2", x);
    assert e.lhs + e.rhs == {x};
  }

  /** No key is empty, so {} -> x is the one violation of BCNF on {x}. */
  lemma EmptyLhsViolates(x: string)
    ensures Violations({x}, {Dependency({}, {x})}, BoyceCodd) == {Dependency({}, {x})}
  {
    var e := Dependency({}, {x});
    var f := {e};
    assert Violation({x}, f, BoyceCodd, e) by {
      forall k | k in CandidateKeys({x}, f) ensures !(k <= e.lhs) {
        assert k * Seed({x}, f) != {};
      }
    }
  }

  /** Projecting {} -> x onto {x} gives it back. */
  lemma EmptyLhsProjection(n: string, x: string)
    ensures Sub(n, {x}, {Dependency({}, {x})}) == RelValue(n, {x}, {Dependency({}, {x})})
  {
    var f := {Dependency({}, {x})};
    ProjectAllIdentity({x}, f);
    MergeIdentity(f);
  }

  // ---------------------------------------------------------------------
  // decomposePreserving (relation.cc:405-445)
  // ---------------------------------------------------------------------

  /** Some key of `keys` lies within the names of `d`. */
  predicate HoldsKey(keys: KeySet, d: Dependency) {
    exists k :: k in keys && k <= d.lhs + d.rhs
  }

  /** The find_if of decomposePreserving: some dependency of `mc` has all of
      a key among its names. */
  function HasKeyDependency(keys: KeySet, mc: DepSet): (r: bool)
    ensures r <==> exists d :: d in mc && HoldsKey(keys, d)
  {
    DepLessIsStrictTotalOrder();
    var x := Ascending(mc, DepLess);
    var p := (d: Dependency) => TestSet(keys, d.lhs + d.rhs, true);
    FindIfAscending(mc, DepLess, p);
    FindIf(x, p) < |x|
  }

  /** The count_if of decomposePreserving: how many relations of `s` hold
      every name of `x`. */
  function CountCovering(s: set<RelValue>, x: AttrSet): (c: nat)
    ensures c <= |s|
    ensures c == 0 <==> forall l :: l in s ==> !(x <= l.attributes)
  {
    var t := set l | l in s && x <= l.attributes;
    SubsetCardinality(t, s);
    assert forall l :: l in s && x <= l.attributes ==> l in t;
    |t|
  }

  /** The relations before the loop (the counter then equals their number):
      when no dependency of `mc` holds a key, a relation on the first key.
      With no key at all the source reads the first element of an empty set;
      here nothing is added (see KeyRelationAsWritten). */
  function KeyRelation(name: string, mc: DepSet, keys: KeySet): (start: set<RelValue>)
    ensures start != {} <==> keys != {} && !HasKeyDependency(keys, mc)
    ensures forall l :: l in start ==> l == Sub(l.name, l.attributes, mc) && l.attributes in keys
  {
    if HasKeyDependency(keys, mc) || keys == {} then {}
    else {Sub(name + NatStr(1), LeastKey(keys), mc)}
  }

  /** The loop of decomposePreserving over `todo`, in ascending order: a
      dependency whose names no relation so far holds gets a relation of
      its own, named "R" and the next count. */
  function PreservingPass(ret: set<RelValue>, i: nat, mc: DepSet, todo: DepSet): set<RelValue>
    decreases |todo|
  {
    if todo == {} then ret
    else
      var d := LeastDep(todo);
      var x := d.lhs + d.rhs;
      if CountCovering(ret, x) < 1 then
        PreservingPass(ret + {Sub("R" + NatStr(i + 1), x, mc)}, i + 1, mc, todo - {d})
      else
        PreservingPass(ret, i, mc, todo - {d})
  }

  /** The relations decomposePreserving returns for the minimal cover `mc`
      and the candidate keys `keys`: the key relation and the relations of
      the loop over `mc`, or `r` itself when there are none. */
  function PreservingFrom(r: RelValue, mc: DepSet, keys: KeySet): (res: set<RelValue>)
    ensures res != {}
  {
    var start := KeyRelation(r.name, mc, keys);
    var ret := PreservingPass(start, |start|, mc, mc);
    if ret == {} then {r} else ret
  }

  /** The relations decomposePreserving returns for `r`. */
  function Preserving(r: RelValue): (res: set<RelValue>)
    requires ValidRel(r)
    ensures res != {}
  {
    PreservingFrom(r, MinimalCoverOf(r.dependencies), CandidateKeys(r.attributes, r.dependencies))
  }

  /** The minimal cover has no empty side and is equivalent to the set it
      covers. */
  lemma CoverFacts(f: DepSet)
    requires ProperSides(f)
    ensures ProperSides(MinimalCoverOf(f)) && Equivalent(MinimalCoverOf(f), f)
  {
    MinimalCoverEquivalent(f);
  }

  /** The relations of `mc` that the loop adds are projections of `mc`, the
      ones before it stay, and every dependency of `todo` ends up with all
      of its names in some relation. */
  lemma {:induction false} PreservingPassCovers(ret: set<RelValue>, i: nat, mc: DepSet, todo: DepSet)
    ensures ret <= PreservingPass(ret, i, mc, todo)
    ensures forall l :: l in PreservingPass(ret, i, mc, todo) && l !in ret ==>
      l == Sub(l.name, l.attributes, mc)
    ensures forall d :: d in todo ==>
      exists l :: l in PreservingPass(ret, i, mc, todo) && d.lhs + d.rhs <= l.attributes
    decreases |todo|
  {
    if todo != {} {
      var d := LeastDep(todo);
      var x := d.lhs + d.rhs;
      var rest := todo - {d};
      if CountCovering(ret, x) < 1 {
        var n := Sub("R" + NatStr(i + 1), x, mc);
        PreservingPassCovers(ret + {n}, i + 1, mc, rest);
        assert n in PreservingPass(ret, i, mc, todo);
      } else {
        PreservingPassCovers(ret, i, mc, rest);
        var l :| l in ret && x <= l.attributes;
        assert l in PreservingPass(ret, i, mc, todo);
      }
    }
  }

  /** Each relation returned is `r` or a projection of `mc`, and each
      dependency of `mc` has all its names in one of them (not `r`: it is
      returned only when `mc` is empty). */
  lemma PreservingFromShape(r: RelValue, mc: DepSet, keys: KeySet)
    ensures KeyRelation(r.name, mc, keys) <= PreservingFrom(r, mc, keys)
    ensures forall l :: l in PreservingFrom(r, mc, keys) ==> l == r || l == Sub(l.name, l.attributes, mc)
    ensures forall d :: d in mc ==>
      exists l :: l in PreservingFrom(r, mc, keys) && d.lhs + d.rhs <= l.attributes && l == Sub(l.name, l.attributes, mc)
  {
    var start := KeyRelation(r.name, mc, keys);
    PreservingPassCovers(start, |start|, mc, mc);
  }

  /** The relations returned meet the class invariant. */
  lemma PreservingFromValid(r: RelValue, mc: DepSet, keys: KeySet)
    requires ValidRel(r) && ProperSides(mc)
    ensures forall l :: l in PreservingFrom(r, mc, keys) ==> ValidRel(l)
  {
    PreservingFromShape(r, mc, keys);
    forall l | l in PreservingFrom(r, mc, keys) ensures ValidRel(l) {
      if l != r {
        SubValid(l.name, l.attributes, mc);
      }
    }
  }

  /** The dependencies of the relations returned together are equivalent to
      `mc`. */
  lemma PreservingFromEquivalent(r: RelValue, mc: DepSet, keys: KeySet)
    requires Equivalent(mc, r.dependencies)
    ensures Equivalent(AllDeps(PreservingFrom(r, mc, keys)), mc)
  {
    PreservingFromShape(r, mc, keys);
    var s := PreservingFrom(r, mc, keys);
    var all := AllDeps(s);
    ImpliesBothWays(mc, r.dependencies);
    forall e | e in all ensures e.rhs <= Closure(e.lhs, mc) {
      var l :| l in s && e in l.dependencies;
      if l == r {
        ImpliesSubset(r.dependencies, r.dependencies);
        ImpliesTransitive(mc, r.dependencies, r.dependencies);
      } else {
        SubImplied(l.name, l.attributes, mc);
      }
    }
    assert Implies(mc, all);
    forall d | d in mc ensures d.rhs <= Closure(d.lhs, all) {
      var l :| l in s && d.lhs + d.rhs <= l.attributes && l == Sub(l.name, l.attributes, mc);
      SubKeeps(l.name, l.attributes, mc, d);
      ImpliesSubset(all, l.dependencies);
      ClosureUnderImplied(all, l.dependencies, d.lhs);
    }
    assert Implies(all, mc);
    ImpliesBothWays(all, mc);
  }

  /** With some key, one of the relations returned holds a key. */
  lemma PreservingFromHasKey(r: RelValue, mc: DepSet, keys: KeySet)
    requires keys != {}
    ensures exists l, k :: l in PreservingFrom(r, mc, keys) && k in keys && k <= l.attributes
  {
    PreservingFromShape(r, mc, keys);
    var s := PreservingFrom(r, mc, keys);
    if HasKeyDependency(keys, mc) {
      var d :| d in mc && HoldsKey(keys, d);
      var k :| k in keys && k <= d.lhs + d.rhs;
      var l :| l in s && d.lhs + d.rhs <= l.attributes && l == Sub(l.name, l.attributes, mc);
      assert k <= l.attributes;
    } else {
      var l :| l in KeyRelation(r.name, mc, keys);
      assert l.attributes in keys;
    }
  }

  /** Every relation decomposePreserving returns meets the class invariant. */
  lemma PreservingValid(r: RelValue)
    requires ValidRel(r)
    ensures forall l :: l in Preserving(r) ==> ValidRel(l)
  {
    CoverFacts(r.dependencies);
    PreservingFromValid(r, MinimalCoverOf(r.dependencies), CandidateKeys(r.attributes, r.dependencies));
  }

  /** Dependency preservation: the dependencies of the sub-relations
      together determine exactly the closures the relation's own do. */
  lemma PreservingEquivalent(r: RelValue)
    requires ValidRel(r)
    ensures Equivalent(AllDeps(Preserving(r)), r.dependencies)
  {
    var mc := MinimalCoverOf(r.dependencies);
    CoverFacts(r.dependencies);
    PreservingFromEquivalent(r, mc, CandidateKeys(r.attributes, r.dependencies));
    EquivalentTransitive(AllDeps(Preserving(r)), mc, r.dependencies);
  }

  /** Two sets equivalent to a third are equivalent. */
  lemma EquivalentTransitive(f: DepSet, g: DepSet, h: DepSet)
    requires Equivalent(f, g) && Equivalent(g, h)
    ensures Equivalent(f, h)
  {
  }

  /** Some sub-relation holds a candidate key of the relation, whenever the
      relation has attributes (and so candidate keys). */
  lemma PreservingHasKey(r: RelValue)
    requires ValidRel(r) && r.attributes != {}
    ensures exists l, k :: l in Preserving(r) && k in CandidateKeys(r.attributes, r.dependencies) && k <= l.attributes
  {
    KeysExistIffAttributes(r.attributes, r.dependencies);
    PreservingFromHasKey(r, MinimalCoverOf(r.dependencies), CandidateKeys(r.attributes, r.dependencies));
  }

  /** The step before the loop as written: with no key, `*keys.begin()`
      reads past the end of an empty set (None). */
  function KeyRelationAsWritten(name: string, mc: DepSet, keys: KeySet): (start: Option<set<RelValue>>)
    ensures keys != {} ==> start == Some(KeyRelation(name, mc, keys))
    ensures start.None? <==> keys == {}
  {
    if HasKeyDependency(keys, mc) then Some({})
    else if keys == {} then None
    else Some({Sub(name + NatStr(1), LeastKey(keys), mc)})
  }

  /** A relation without attributes has no candidate key, no dependency holds
      one, and the source dereferences the first key of the empty key set. */
  lemma PreservingAsWrittenFails(r: RelValue)
    requires r.attributes == {}
    ensures KeyRelationAsWritten(r.name, MinimalCoverOf(r.dependencies),
                                 CandidateKeys(r.attributes, r.dependencies)).None?
  {
    KeysExistIffAttributes(r.attributes, r.dependencies);
  }

  /** One turn of the loop of decomposePreserving. */
  method PlaceDependency(ret: set<RelValue>, i: nat, mc: DepSet, todo: DepSet)
    returns (ret': set<RelValue>, i': nat, todo': DepSet)
    requires todo != {} && ProperSides(mc)
    ensures PreservingPass(ret', i', mc, todo') == PreservingPass(ret, i, mc, todo)
    ensures todo' < todo
  {
    var d := LeastDep(todo);
    var x := d.lhs + d.rhs;
    var c := CountCovering(ret, x);
    ret', i' := ret, i;
    if c < 1 {
      i' := i + 1;
      var l := SubRelation("R" + NatStr(i'), x, mc);
      ret' := ret + {l};
    }
    todo' := todo - {d};
  }

  /** The relation decomposePreserving builds on the first key before its
      loop, when no dependency of `mc` holds a key (and there is a key). */
  method StartRelations(name: string, mc: DepSet, keys: KeySet) returns (ret: set<RelValue>, i: nat)
    requires ProperSides(mc)
    ensures ret == KeyRelation(name, mc, keys) && i == |ret|
  {
    var found := HasKeyDependency(keys, mc);
    ret, i := {}, 0;
    if !found && keys != {} {
      i := i + 1;
      var l := SubRelation(name + NatStr(i), LeastKey(keys), mc);
      ret := {l};
    }
  }

  /** The loop of decomposePreserving over the minimal cover. */
  method PlaceAll(start: set<RelValue>, mc: DepSet) returns (ret: set<RelValue>)
    requires ProperSides(mc)
    ensures ret == PreservingPass(start, |start|, mc, mc)
  {
    var i: nat := |start|;
    var todo := mc;
    ret := start;
    while todo != {}
      invariant PreservingPass(ret, i, mc, todo) == PreservingPass(start, |start|, mc, mc)
      decreases todo
    {
      ret, i, todo := PlaceDependency(ret, i, mc, todo);
    }
  }

  /** decomposePreserving (relation.cc:405-445), on a relation value. */
  method DecomposePreserving(r: RelValue) returns (ret: set<RelValue>)
    requires ValidRel(r)
    ensures ret == Preserving(r)
  {
    var mc := MinimalCover.GetMinimalCover(r.dependencies);
    CoverFacts(r.dependencies);
    var keys := SearchKeys(r.attributes, r.dependencies);
    var start, _ := StartRelations(r.name, mc, keys);
    ret := PlaceAll(start, mc);
    if ret == {} {
      ret := {r};
    }
  }
}
