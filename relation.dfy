/** A relation schema: a name, a set of attributes and a set of functional
    dependencies, updated in place by its mutators.

    Every mutator keeps the class invariant `Valid()`: no two dependencies
    share a left side (same-left-side dependencies are merged), every
    dependency has non-empty sides with no name on both, and every name a
    dependency mentions is an attribute of the relation. */
module Relations {
  import opened Ordering
  import opened Sets
  import opened SetStrCompare
  import opened TemplateDef
  import opened Utility
  import opened Dependencies
  import opened DependencySets
  import opened Keys
  import opened NormalForms
  import opened Mutators
  import opened Queries
  import opened MinimalCover
  import opened Decomposition
  import opened Lossless
  import opened ThirdNormal

  class Relation {
    var name: string
    var attributes: AttrSet
    var dependencies: DepSet

    /** The class invariant. */
    predicate Valid()
      reads this
    {
      UniqueLhs(dependencies) && ProperSides(dependencies) && DepAttribs(dependencies) <= attributes
    }

    /** Relation(name, attribs, deps): the attributes given, then every
        dependency added with update = true (relation.cc:102-105). */
    constructor (name: string, attribs: AttrSet, deps: DepSet)
      requires ProperSides(deps)
      ensures Valid()
      ensures this.name == name
      ensures attributes == attribs + DepAttribs(deps)
      ensures dependencies == Merge(deps)
    {
      this.name := name;
      attributes := attribs;
      dependencies := {};
      new;
      var _ := AddDependencies(deps, true);
      assert {} + deps == deps;
    }

    /** reducedDependencies: walks the dependencies in ascending order; a
        dependency sharing its left side with another is replaced by one whose
        right side is the union of all of theirs (relation.cc:149-172). The
        result is the merged set, whatever the state before. */
    method ReducedDependencies()
      modifies this
      ensures dependencies == Merge(old(dependencies))
      ensures attributes == old(attributes) && name == old(name)
    {
      var deps := MergeLoop(dependencies);
      dependencies := deps;
    }

    /** addDependency(dep, update) (relation.cc:241-267), on the fields. */
    method AddDependency(dep: Dependency, update: bool) returns (r: Option<Dependency>)
      requires Valid()
      requires Proper(dep)
      modifies this
      ensures Valid() && name == old(name)
      ensures update ==> attributes == old(attributes) + dep.lhs + dep.rhs
      ensures !update ==> attributes == old(attributes)
      ensures Accepts(attributes, dep) ==> dependencies == Merge(old(dependencies) + {Projected(attributes, dep)})
      ensures !Accepts(attributes, dep) ==> dependencies == old(dependencies)
      ensures r.Some? <==> Accepts(attributes, dep)
      ensures r.Some? ==> r.value in dependencies && r.value.lhs == dep.lhs && dep.rhs * attributes <= r.value.rhs
    {
      var attrs, deps;
      attrs, deps, r := Insert(attributes, dependencies, dep, update);
      attributes, dependencies := attrs, deps;
    }

    /** addDependency(lhs, rhs, update): the right-side names that are on the
        left are dropped first; when none remain nothing is added and the
        result is None (relation.cc:197-210). A dependency with an empty left
        side is refused as well (see the findings in the README: the source
        accepts it, and decomposition then never ends). */
    method AddDependencyPair(lhs: AttrSet, rhs: AttrSet, update: bool) returns (r: Option<Dependency>)
      requires Valid()
      modifies this
      ensures Valid() && name == old(name)
      ensures rhs - lhs == {} || lhs == {} ==> r == None && unchanged(this)
      ensures rhs - lhs != {} && lhs != {} ==>
        var dep := Dependency(lhs, rhs - lhs);
        && (update ==> attributes == old(attributes) + lhs + rhs)
        && (!update ==> attributes == old(attributes))
        && (Accepts(attributes, dep) ==> dependencies == Merge(old(dependencies) + {Projected(attributes, dep)}))
        && (!Accepts(attributes, dep) ==> dependencies == old(dependencies))
        && (r.Some? <==> Accepts(attributes, dep))
    {
      var temp := EraseWithin(rhs, lhs);
      if temp == {} || lhs == {} {
        return None;
      }
      r := AddDependency(Dependency(lhs, temp), update);
    }

    /** addDependencies(ds, update) (relation.cc:804-808), on the fields. */
    method AddDependencies(ds: DepSet, update: bool) returns (count: nat)
      requires Valid() && ProperSides(ds)
      modifies this
      ensures Valid() && name == old(name)
      ensures update ==> InsertedUpdate(old(attributes), old(dependencies), ds, attributes, dependencies, count)
      ensures !update ==> InsertedProject(old(attributes), old(dependencies), ds, attributes, dependencies, count)
    {
      var attrs, deps;
      if update {
        attrs, deps, count := InsertEach(attributes, dependencies, ds);
      } else {
        attrs, deps, count := ProjectEach(attributes, dependencies, ds);
      }
      attributes, dependencies := attrs, deps;
    }

    /** removeDependency(lhs, rhs) (relation.cc:293-296): removes the
        dependency lhs -> rhs as removeDependency(dep) does. */
    method RemoveDependencyPair(lhs: AttrSet, rhs: AttrSet) returns (r: bool)
      requires Valid()
      modifies this
      ensures Valid() && name == old(name) && attributes == old(attributes)
      ensures dependencies == Removed(old(dependencies), Dependency(lhs, rhs))
      ensures r <==> RemoveFinds(old(dependencies), Dependency(lhs, rhs))
    {
      r := RemoveDependency(Dependency(lhs, rhs));
    }

    /** removeDependency(dep) (relation.cc:310-329), on the fields: the
        attributes stay, and the dependencies lose `dep` or, failing an exact
        match, the named right-side names of the one with its left side. */
    method RemoveDependency(dep: Dependency) returns (r: bool)
      requires Valid()
      modifies this
      ensures Valid() && name == old(name) && attributes == old(attributes)
      ensures dependencies == Removed(old(dependencies), dep)
      ensures r <==> RemoveFinds(old(dependencies), dep)
      ensures r <==> dependencies != old(dependencies)
    {
      RemovedValid(dependencies, dep, attributes);
      var deps;
      deps, r := Remove(attributes, dependencies, dep);
      dependencies := deps;
    }

    /** addAtributte(s) (relation.cc:339-343): a non-empty name is inserted;
        true iff it is non-empty and was not an attribute. */
    method AddAttribute(s: string) returns (r: bool)
      requires Valid()
      modifies this
      ensures Valid() && name == old(name) && dependencies == old(dependencies)
      ensures s != "" ==> attributes == old(attributes) + {s}
      ensures s == "" ==> attributes == old(attributes)
      ensures r <==> s != "" && s !in old(attributes)
    {
      if s != "" {
        r := !Contains(attributes, s);
        attributes := attributes + {s};
      } else {
        r := false;
      }
    }

    /** addAtributtes(as) (relation.cc:352-356): every name is inserted, the
        empty one too; the count is that of the names that were new. */
    method AddAttributes(names: AttrSet) returns (count: nat)
      requires Valid()
      modifies this
      ensures Valid() && name == old(name) && dependencies == old(dependencies)
      ensures attributes == old(attributes) + names
      ensures count == |names - old(attributes)|
    {
      var attrs;
      attrs, count := InsertNames(attributes, names);
      attributes := attrs;
    }

    /** removeAtributte(a) (relation.cc:371-392), on the fields: `a` leaves
        the attributes and every dependency, and a dependency left with an
        empty side is dropped; true iff `a` was an attribute. */
    method RemoveAttribute(a: string) returns (r: bool)
      requires Valid()
      modifies this
      ensures Valid() && name == old(name)
      ensures attributes == old(attributes) - {a}
      ensures dependencies == DropAttribute(old(dependencies), a)
      ensures r <==> a in old(attributes)
    {
      DropSplit(dependencies, a);
      var attrs, deps;
      attrs, deps, r := RemoveName(attributes, dependencies, a);
      attributes, dependencies := attrs, deps;
    }

    /** clearDependencies (relation.cc:518-521). */
    method ClearDependencies()
      modifies this
      ensures Valid() && name == old(name) && attributes == old(attributes)
      ensures dependencies == {}
    {
      dependencies := {};
    }

    /** clearAttributes (relation.cc:527-531): both sets are emptied. */
    method ClearAttributes()
      modifies this
      ensures Valid() && name == old(name)
      ensures attributes == {} && dependencies == {}
    {
      dependencies := {};
      attributes := {};
    }

    /** setDependencies(ds) (relation.cc:538-542): the dependencies are
        cleared and `ds` added with update, so their names join the
        attributes and same-left-side dependencies are merged. */
    method SetDependencies(ds: DepSet)
      requires Valid() && ProperSides(ds)
      modifies this
      ensures Valid() && name == old(name)
      ensures attributes == old(attributes) + DepAttribs(ds)
      ensures dependencies == Merge(ds)
    {
      ClearDependencies();
      var _ := AddDependencies(ds, true);
      assert {} + ds == ds;
    }

    /** setAttributes(as) (relation.cc:552-559): the attributes are replaced
        and the old dependencies added back without update, so only those
        within the new attributes survive, cut down to them. */
    method SetAttributes(attrs: AttrSet)
      requires Valid()
      modifies this
      ensures Valid() && name == old(name)
      ensures attributes == attrs
      ensures dependencies == ProjectAll(attrs, old(dependencies))
    {
      var temp := dependencies;
      ClearAttributes();
      attributes := attrs;
      ClearDependencies();
      var _ := AddDependencies(temp, false);
      assert {} + ProjectAll(attrs, temp) == ProjectAll(attrs, temp);
      MergeIdentity(ProjectAll(attrs, temp));
    }

    /** getClosure(lhs) (relation.cc:475-490): the closure of `lhs` under the
        relation's dependencies. */
    method GetClosure(lhs: AttrSet) returns (r: AttrSet)
      ensures r == Closure(lhs, dependencies)
    {
      r := ClosureOf(lhs, dependencies);
    }

    /** getCandidatekey (relation.cc:748-776): every candidate key. */
    method GetCandidatekey() returns (keys: set<AttrSet>)
      ensures keys == CandidateKeys(attributes, dependencies)
    {
      keys := SearchKeys(attributes, dependencies);
    }

    /** getMinimalCover (relation.cc:608-624): the minimal cover of the
        relation's dependencies, equivalent to them and minimal: no atom of
        it follows from the others, and none has a left-side name that can
        be dropped. */
    method GetMinimalCover() returns (r: DepSet)
      requires Valid()
      ensures r == MinimalCoverOf(dependencies)
      ensures Equivalent(r, dependencies) && UniqueLhs(r) && ProperSides(r)
      ensures forall e :: e in Atoms(r) ==> Needed(r, e) && LhsIrreducible(r, e)
    {
      r := MinimalCover.GetMinimalCover(dependencies);
      MinimalCoverEquivalent(dependencies);
      MinimalCoverMinimal(dependencies);
    }

    /** The relation as a value, the element type of a set of relations. */
    function Value(): (v: RelValue)
      reads this
      ensures Valid() ==> ValidRel(v)
    {
      RelValue(name, attributes, dependencies)
    }

    /** decomposeNotPreserving (relation.cc:459-464): sub-relations in BCNF
        that together keep every attribute, and whose projections of any
        instance satisfying the dependencies join back to exactly that
        instance. */
    method DecomposeNotPreserving() returns (res: set<RelValue>)
      requires Valid()
      ensures res == Decompose(Value())
      ensures forall l :: l in res ==> ValidRel(l) && IsNormal(l.attributes, l.dependencies, BoyceCodd)
      ensures forall a :: a in attributes ==> exists l :: l in res && a in l.attributes
      ensures forall inst, t :: Over(inst, attributes) && Satisfies(inst, dependencies) ==>
        (InJoin(inst, res, attributes, t) <==> t in inst)
    {
      res := Decomposition.DecomposeNotPreserving(Value());
      DecomposeLeaves(Value());
      DecomposeCovers(Value());
      forall inst | Over(inst, attributes) && Satisfies(inst, dependencies)
        ensures forall t :: InJoin(inst, res, attributes, t) <==> t in inst
      {
        DecomposeLossless(Value(), inst);
      }
    }

    /** decomposePreserving (relation.cc:405-445): sub-relations in third
        normal form whose dependencies together are equivalent to the
        relation's. */
    method DecomposePreserving() returns (res: set<RelValue>)
      requires Valid()
      ensures res == Preserving(Value())
      ensures Equivalent(AllDeps(res), dependencies)
      ensures forall l :: l in res ==> ValidRel(l)
      ensures forall l :: l in res ==> IsNormal(l.attributes, l.dependencies, Third)
    {
      res := Decomposition.DecomposePreserving(Value());
      PreservingEquivalent(Value());
      PreservingValid(Value());
      PreservingThird(Value());
    }

    /** getViolation(form) (relation.cc:500-513): the dependencies violating
        `form`. */
    method GetViolation(form: NormalForm) returns (dep: DepSet)
      ensures dep == Violations(attributes, dependencies, form)
    {
      dep := ViolationScan(attributes, dependencies, form);
    }
  }
}
