# Decomposer: the functional-dependency engine, in Dafny

This project models the core of Decomposer, a relational-schema normaliser.
- An attribute is a string, and an attribute set is a `set<string>`.
- A functional dependency `lhs -> rhs` is a pair of attribute sets.
- A relation holds a name, an attribute set and a set of dependencies.

On top of these sit:
- the attribute closure;
- the candidate-key search;
- the 2NF/3NF/BCNF violation test;
- the three-phase minimal-cover reduction;
- two decompositions: a recursive BCNF split and a dependency-preserving synthesis.

Files, bottom up:

- `ordering.dfy`, `sets.dfy`: strict total orders, least elements, ascending listing of a finite set, and cardinality facts.
- `setstr_compare.dfy`: `setstr_compare::less`, which compares attribute sets first by size and then lexicographically over their sorted names. It is proved to be a strict total order, so it orders every container correctly.
- `template_def.dfy`: `contains`, `isEqual` and `isSubset` (with the source's argument order), and the `find_if`/`count_if`/`includes` scans.
- `utility.dfy`: the two `operator-=` loops and `testSet`.
- `dependency.dfy`: the `Dependency` value and its queries, and its order `operator<`, proved lexicographic.
  - The class `DependencyObject` holds the in-place mutators `addLhs`, `addRhs`, `removeLhs`, `removeRhs` and `+=`.
- `dependency_sets.dfy`: the specification layer over dependency sets. It covers:
  - closure as a least closed superset;
  - implication and equivalence of dependency sets;
  - the merge of same-left-side dependencies;
  - projection onto an attribute set;
  - what `removeDependency` and `removeAtributte` leave;
  - `findDepLHS`.
- `keys.dfy`: candidate keys. A key is a minimal determining set among the sets the search visits, which are those meeting the seed. The levels of the subset lattice that `getNextIteration` walks are defined here too.
- `violation.dfy`: `isSuperkey`, `isPartialkey`, `isPrime`, the `Violation` functor, `getViolation` and `isNormal`, plus the hierarchy BCNF ⇒ 3NF ⇒ 2NF.
- `mutators.dfy`, `queries.dfy`: the loops of the `Relation` members, written as methods over the relation's sets. Each is proved equal to its specification function. The loops are:
  - the merge loop, insertion, removal and attribute removal;
  - closure, the key search, `getNextIteration` and the violation scan.
- `minimal_cover.dfy`: `reduceRHS`, `processLHS`, `reduceLHS`, `reduceRules` and `getMinimalCover`, each a loop proved against a pass function. The minimal cover is proved equivalent to the dependencies it came from, and minimal:
  - no single-name dependency it holds (an atom) follows from its other atoms;
  - no atom has a left-side name that can be dropped.
- `decomposition.dfy`: the two decompositions.
  - A relation is the value `RelValue` inside a set of relations.
  - `decompose` is proved to terminate (measure: the number of attributes). Its leaves are in BCNF, cover every attribute, and hold only implied dependencies. Each split is lossless by Heath's condition.
  - `decomposePreserving` is proved to yield relations whose dependencies together are equivalent to the original. When the relation has attributes, one of those relations holds a candidate key.
- `lossless.dfy`: instances of a relation (sets of rows), their projections and the natural join. For every instance satisfying the dependencies, joining its projections onto the relations `decompose` returns gives back exactly the instance.
- `third_normal.dfy`: every relation `decomposePreserving` returns is in 3NF under the source's own violation test. A relation built on a minimal-cover dependency L -> R has L as a candidate key, and each of its other dependencies has its right side within L. The key relation has no dependencies at all.
- `relation.dfy`: the class `Relation`, whose fields the mutators update in place. Every mutator keeps the class invariant `Valid()`:
  - no two dependencies share a left side;
  - every dependency has non-empty sides with no name on both (proper sides);
  - every name a dependency mentions is an attribute.
- `fixture.dfy`: the relation R(a..h) with a -> bf, ac -> dg and bcd -> eh used by the unit tests. On it, the model gives the keys, superkeys, partial keys, prime sets, closures and 2NF violations the tests expect.

Where `std::set` iteration order matters, the model follows it:
- `decompose` splits on the least violation;
- `findDepLHS` returns the least match;
- `reduceLHS` and `reduceRules` visit dependencies in ascending order;
- `decomposePreserving` names its relations by visiting order.

That order is the source's own `Dependency::operator<` and `setstr_compare::less`.

## Model

| member | source | states |
|---|---|---|
| TemplateDef.Contains | template_def.h:24-27 | true iff the value is a member of the set |
| TemplateDef.IsEqual | template_def.h:37-42 | true iff the two sets are equal (same size, each within the other) |
| TemplateDef.IsSubset | template_def.h:54-57 | true iff the second argument lies within the first (the source's argument order) |
| TemplateDef.Includes | template_def.h:54-57 | the one-pass merge over two ascending ranges is true iff every element of the second occurs in the first |
| TemplateDef.FindIf | relation.cc:138-141 | `find_if`: the first position whose element satisfies the predicate, or the length when none does |
| TemplateDef.FindIfAscending | relation.cc:727-735 | scanning a set in ascending order finds nothing iff no member satisfies the predicate, else the least member that does |
| SetStrCompare.Less | setstr_compare.cc:20-33 | the loop as written returns `SetLess`: a smaller set is less; sets of equal size are decided by the first differing name in ascending order |
| SetStrCompare.SortedAttrs | setstr_compare.cc:24 | ascending iteration over a name set lists exactly its members, strictly ascending |
| SetStrCompare.SetLessBySize | setstr_compare.cc:21-32 | a set of smaller size is always less; a set of larger size never is |
| SetStrCompare.SetLessIrreflexive | setstr_compare.cc:30 | no set is less than itself |
| SetStrCompare.SetLessTransitive | setstr_compare.cc:20-33 | the order is transitive |
| SetStrCompare.SetLessTotal | setstr_compare.cc:20-33 | two different sets are ordered one way or the other |
| SetStrCompare.SetLessIsStrictTotalOrder | setstr_compare.cc:20-33 | the comparator is a strict total order, so sets of keys are well ordered |
| SetStrCompare.SetLessNotOfSuperset | setstr_compare.cc:20-33 | a superset is never less than one of its subsets |
| SetStrCompare.StrLessIsStrictTotalOrder | setstr_compare.cc:25-28 | the name comparison used inside is a strict total order |
| SetStrCompare.AbcLessThanAbd | tests/setstr_compare_test.cc:29-35 | {a,b,c} is less than {a,b,d} |
| Utility.SubtractStr | utility.cc:151-157 | after the erase loop the set is lhs minus rhs |
| Utility.SubtractKeys | utility.cc:135-142 | after the erase loop the key set has exactly the member sets of rhs removed |
| Utility.TestSet | utility.cc:171-177 | with super false: true iff s lies within some member; with super true: true iff some member lies within s; false on no members |
| Dependencies.Dependency.IsPresentLhs | dependency.cc:101-103 | true iff the name is on the left |
| Dependencies.Dependency.IsPresentRhs | dependency.cc:110-112 | true iff the name is on the right |
| Dependencies.Dependency.IsPresent | dependency.cc:121-123 | true iff the name is on either side, i.e. isPresentLhs or isPresentRhs |
| Dependencies.Dependency.Size | dependency.cc:130-132 | the names of both sides counted once, plus those on both sides counted again; zero iff both sides are empty |
| Dependencies.Dependency.Attribs | dependency.cc:211-216 | exactly the names isPresent accepts; its size equals size() iff the sides are disjoint |
| Dependencies.Dependency.Equals | dependency.cc:176-178 | true iff both sides are equal |
| Dependencies.Dependency.NotEquals | dependency.cc:141-143 | the negation of equality |
| Dependencies.DepLess | dependency.cc:158-167 | the comparison as written is lexicographic on (lhs, rhs) under setstr_compare::less |
| Dependencies.DepGreater | dependency.cc:187-189 | greater is less with the arguments swapped |
| Dependencies.DepLessIsStrictTotalOrder | dependency.cc:158-167 | the dependency order is a strict total order |
| Dependencies.SortedDeps | dependency.cc:158-167 | ascending iteration over a dependency set lists exactly its members, strictly ascending |
| Dependencies.LeastDep | relation.cc:52 | `*v.begin()`: a member that precedes every other member |
| Dependencies.DepLessExample | tests/dependency_test.cc:143-151 | {a,b} -> {c,d} is less than {c,d} -> {a,b}, and the latter is greater |
| Dependencies.DependencyObject.constructor | dependency.cc:24-26 | the object holds the two sides given |
| Dependencies.DependencyObject.AddLhs | dependency.cc:56-58 | the name joins the left side, the right is unchanged, and the result is true iff the name was new |
| Dependencies.DependencyObject.AddRhs | dependency.cc:67-69 | the name joins the right side, the left is unchanged, and the result is true iff the name was new |
| Dependencies.DependencyObject.RemoveLhs | dependency.cc:80-82 | the name leaves the left side, and the result is true iff it was there |
| Dependencies.DependencyObject.RemoveRhs | dependency.cc:92-94 | the name leaves the right side, and the result is true iff it was there |
| Dependencies.DependencyObject.PlusAssign | dependency.cc:199-204 | the left side never changes; the right side gains the other's right side only when the left sides are equal; adding an object to itself changes nothing |
| DependencySets.Closure | relation.cc:475-490 | the closure contains the start set, adds only right-side names, and is closed: every dependency whose left side lies within it has its right side within it |
| DependencySets.ClosureLeast | relation.cc:475-490 | the closure lies within every closed superset of the start set |
| DependencySets.ClosureMonotone | relation.cc:475-490 | a larger start set has a larger closure |
| DependencySets.ClosureOfClosed | relation.cc:475-490 | a closed set is its own closure, so closure is idempotent |
| DependencySets.ImpliesBothWays | relation.cc:608-624 | two dependency sets are equivalent (equal closures everywhere) iff each implies the other |
| DependencySets.Merge | relation.cc:149-172 | the merged set has no two dependencies with the same left side |
| DependencySets.MergeMembers | relation.cc:155-166 | each merged dependency has as right side the union of the right sides of its group, and every group is present |
| DependencySets.MergeIdentity | relation.cc:149-172 | merging a set with unique left sides changes nothing |
| DependencySets.MergeAbsorb | relation.cc:149-172 | merging after a merge is the same as merging once |
| DependencySets.MergeEquivalent | relation.cc:149-172 | merging keeps every closure |
| DependencySets.MergeAttribs | relation.cc:149-172 | merging keeps the names mentioned |
| DependencySets.ProjectAll | relation.cc:249-261 | the dependencies kept without update mention only the relation's names, and keep unique left sides and proper sides |
| DependencySets.Removed | relation.cc:310-329 | the result differs from the input iff the removal finds something, and no side becomes empty |
| DependencySets.RemovedWeakens | relation.cc:310-329 | what remains after a removal is implied by what was there |
| DependencySets.RemovedPlusImplies | relation.cc:310-329 | what remains plus the removed dependency implies what was there |
| DependencySets.RemoveThenAdd | relation.cc:310-329 | removing part of a right side and adding it back restores the set |
| DependencySets.DropAttribute | relation.cc:371-392 | after removing an attribute no dependency mentions it, no new name appears, and every dependency not mentioning it survives |
| DependencySets.DropAttributeImplied | relation.cc:371-392 | what survives the attribute removal is implied by what was there |
| DependencySets.ReplaceLhsEquivalent | relation.cc:583-589 | replacing a left side by a subset whose closure still gives the right side keeps every closure |
| DependencySets.FindDepLhs | relation.cc:137-142 | found iff some dependency has exactly that left side; the one found is the least such |
| DependencySets.FindDepLhsUnique | relation.cc:137-142 | with unique left sides, the one found is the only one |
| Keys.Seed | relation.cc:749-758 | the seed names lie within the attributes, and are not empty unless the attributes are |
| Keys.NextLevel | relation.cc:77-88 | each grown set is a working set plus exactly one attribute it lacked |
| Keys.ExistsKeyBelow | relation.cc:748-776 | every visited set that determines the relation contains a candidate key |
| Keys.KeyIsMinimal | relation.cc:765 | no visited proper subset of a key determines the relation |
| Keys.KeyCharacterization | relation.cc:763-772 | a visited set is a key iff it determines the relation and contains no other key: the superset pruning loses nothing |
| Keys.KeysExistIffAttributes | relation.cc:748-776 | there is no candidate key iff the relation has no attributes |
| Keys.FirstLevel | relation.cc:759-761 | the first working set is the singletons of the seed |
| Keys.NextLevelOfLevel | relation.cc:770 | getNextIteration takes the visited sets of one size to those of the next size |
| Keys.LevelBeyondAttributes | relation.cc:763-772 | no set is larger than the attributes, so the search ends |
| NormalForms.IsSuperkey | relation.cc:702-705 | true iff some candidate key lies within the set |
| NormalForms.IsPartialkey | relation.cc:714-717 | true iff the set lies within some candidate key and contains none |
| NormalForms.IsPrime | relation.cc:727-735 | the ascending scan of the keys is true iff the set lies within some candidate key |
| NormalForms.Violation | violation.h:76-87 | 2NF: a partial-key left side and a right side within no key; 3NF: a non-superkey left side and a right side within no key; BCNF: a non-superkey left side; any other form: never |
| NormalForms.IsNormal | relation.cc:788-793 | in the normal form iff getViolation is empty |
| NormalForms.SuperkeyIffDetermines | relation.cc:702-705 | for a set of attributes that is non-empty or has a seed: a superkey iff its closure covers the relation |
| NormalForms.BoyceCoddViolationIff | violation.h:82-83 | a dependency with a non-empty left side violates BCNF iff its left side does not determine the relation |
| NormalForms.NormalFormHierarchy | violation.h:78-85 | BCNF implies 3NF, 3NF implies 2NF, and an unrecognised form always holds |
| Queries.ClosurePass | relation.cc:480-487 | one pass grows the set within the closure; when nothing was added the set is closed |
| Queries.ClosureOf | relation.cc:475-490 | the do/while loop returns the closure |
| Queries.NextIteration | relation.cc:77-88 | the nested loop yields NextLevel of the working sets |
| Queries.EraseIfOnRhs | relation.cc:751-755 | a name on some right side leaves the seed, any other stays |
| Queries.SeedOf | relation.cc:749-758 | the seed loop and its fallback compute Seed |
| Queries.Singletons | relation.cc:759-761 | the first working set is the singletons of the seed |
| Queries.Passes | relation.cc:765 | a set is kept iff its closure covers the relation and it holds no key found so far |
| Queries.ScanLevel | relation.cc:764-768 | scanning one level adds exactly that level's candidate keys |
| Queries.KeyRound | relation.cc:763-772 | one round moves to the next level and to the keys of all smaller sizes |
| Queries.KeysAllBelow | relation.cc:772 | once a level is empty every candidate key has been found |
| Queries.SearchKeys | relation.cc:748-776 | the key search returns exactly the candidate keys |
| Queries.LeastKey | relation.cc:414 | `*keys.begin()`: the key that precedes every other key |
| Queries.CollectIf | relation.cc:503-510 | the repeated find_if collects exactly the members that satisfy the predicate |
| Queries.ViolationScan | relation.cc:500-513 | getViolation returns exactly the violating dependencies |
| Queries.IsDepAttribPresent | relation.cc:276-281 | true iff some name of the dependency (not all of them) is an attribute |
| Queries.IsDepAttribPresentExamples | tests/relation_test.cc:215-227 | on the fixture, a -> bf and a -> x are present, y -> x is not |
| Mutators.MergeLoop | relation.cc:149-172 | the erase-while-iterating merge loop returns the merged set |
| Mutators.EraseWithin | relation.cc:198-205 | the right-side names that are on the left are dropped |
| Mutators.RetainWithin | relation.cc:251-256 | the right-side names outside the relation are dropped |
| Mutators.Admit | relation.cc:243-263 | with update, the names join the attributes and the dependency is accepted; without, it is accepted iff its left side is within the attributes and some right-side name survives, and it is then cut down to the attributes |
| Mutators.Insert | relation.cc:241-267 | addDependency keeps the invariant; an accepted dependency is merged into the set and the result names the dependency now holding its left side; a refused one changes nothing |
| Mutators.MergedInsert | relation.cc:264-265 | after the merge a dependency with the new left side exists and holds the new right side |
| Mutators.InsertEach | relation.cc:804-808 | adding with update gains every name, merges every dependency, and counts all of them |
| Mutators.ProjectEach | relation.cc:804-808 | adding without update keeps the attributes, merges the projections of the accepted dependencies, and counts the accepted ones |
| Mutators.EraseNames | relation.cc:317-319 | the named right-side names are erased, and the flag says whether any was there |
| Mutators.RemoveSameLhs | relation.cc:313-326 | the dependency with the same left side loses the named names and is kept when something remains; the result is true iff it shared a name |
| Mutators.Remove | relation.cc:310-329 | removeDependency returns Removed, and is true iff it finds an exact match or a same-left-side dependency sharing a right-side name |
| Mutators.RemovedValid | relation.cc:310-329 | removal keeps the class invariant |
| Mutators.EraseMentioning | relation.cc:373-385 | the erase loop keeps exactly the dependencies not mentioning the name, and sets aside those with it on the right only, without it |
| Mutators.DropSplit | relation.cc:371-392 | what the loop keeps plus what it sets aside is DropAttribute, with unique left sides |
| Mutators.RemoveName | relation.cc:371-392 | the name leaves the attributes and every dependency; the result is true iff it was an attribute |
| Mutators.InsertNames | relation.cc:352-356 | every name joins the attributes; the count is that of the names that were new |
| MinimalCover.SplitNames | relation.cc:638-643 | one right side becomes one dependency per name |
| MinimalCover.ReduceRhs | relation.cc:634-650 | reduceRHS returns the split set |
| MinimalCover.SplitRhsSingle | relation.cc:634-650 | after reduceRHS every right side is a single name, and the names are kept |
| MinimalCover.SplitRhsEquivalent | relation.cc:634-650 | the split set is equivalent to the original |
| MinimalCover.TestName | relation.cc:583-584 | a name can go when the closure of the rest is non-empty and gives the right side |
| MinimalCover.ScanNames | relation.cc:577-593 | the inner loop stops at the first name that can go, in ascending order |
| MinimalCover.ScanReducible | relation.cc:579-593 | the scan finds DropAt of the current left side |
| MinimalCover.ReplaceLhs | relation.cc:585-587 | removing the dependency and adding the reduced one keeps the invariant and yields Replaced |
| MinimalCover.ReducedEquivalent | relation.cc:583-589 | one left-side reduction keeps every closure |
| MinimalCover.ProcessRound | relation.cc:572-595 | one round keeps the invariant and what the rest of processLHS yields, and shortens the left side when it changes something |
| MinimalCover.ProcessLhs | relation.cc:568-598 | processLHS leaves ProcessSpec and keeps the invariant; it always returns false, since it compares the size of the unchanged argument |
| MinimalCover.ProcessSpecEquivalent | relation.cc:568-598 | processLHS keeps every closure |
| MinimalCover.ProcessSpecLosesLhs | relation.cc:568-598 | once a left side has been reduced, no dependency keeps it |
| MinimalCover.LhsRound | relation.cc:663-667 | one visit of reduceLHS applies processLHS to left sides of two or more names, when they are still present |
| MinimalCover.LhsPassEquivalent | relation.cc:660-670 | the reduceLHS pass keeps every closure |
| MinimalCover.LhsPassAsWrittenAgrees | relation.cc:660-670 | whenever the as-written pass never reaches a missing left side, it agrees with the corrected pass |
| MinimalCover.ReduceLhsAsWrittenFails | relation.cc:581-584 | on a -> b, ab -> c, ab -> d the as-written pass reaches processLHS for a left side already reduced away, while the corrected pass stays equivalent |
| MinimalCover.Scratch | relation.cc:661-662 | the scratch relation's attributes are the names mentioned and its dependencies the merged set |
| MinimalCover.ReduceLhs | relation.cc:660-670 | reduceLHS returns the split result of the pass, with proper sides and no new names |
| MinimalCover.RuleStepEquivalent | relation.cc:683-690 | removing a dependency and adding it back only if the rest no longer gives its right side keeps every closure |
| MinimalCover.DropRedundant | relation.cc:684-687 | a dependency is dropped only when the closure of its left side over the rest still covers its right side |
| MinimalCover.KeepNeeded | relation.cc:687-689 | a dependency still needed is restored |
| MinimalCover.RuleRound | relation.cc:684-690 | one visit of reduceRules keeps the invariant and computes RuleStep |
| MinimalCover.RulesTurn | relation.cc:683-691 | one loop turn keeps the invariant and what the rest of the pass yields |
| MinimalCover.RulesPassEquivalent | relation.cc:680-693 | the reduceRules pass keeps every closure, unique left sides and proper sides |
| MinimalCover.ReduceRules | relation.cc:680-693 | reduceRules returns the pass over the merged set, with unique left sides and proper sides |
| MinimalCover.RulesPassNeeded | relation.cc:680-693 | after the reduceRules pass over all atoms, no atom of the result follows from its other atoms, and no atom was added |
| MinimalCover.RuleStepAtoms | relation.cc:683-690 | one visit drops exactly the visited atom or keeps the atoms; a kept atom does not follow from the others |
| MinimalCover.NeededFewer | relation.cc:683-690 | an atom that does not follow from the others still does not once atoms are dropped, so later visits keep earlier decisions |
| MinimalCover.StopIrreducible | relation.cc:579-595 | where processLHS stops, no left-side name of the dependency can be dropped |
| MinimalCover.ProcessSpecIrreducible | relation.cc:568-598 | after processLHS the dependency it reduced, and every other irreducible one, is irreducible |
| MinimalCover.LhsPassIrreducible | relation.cc:660-670 | after the reduceLHS pass over every left side, no dependency has a left-side name that can be dropped |
| MinimalCover.AtomIrreducible | relation.cc:608-624 | an atom that does not follow from the others, taken from an irreducible dependency of an equivalent set, is irreducible |
| MinimalCover.MinimalCoverEquivalent | relation.cc:608-624 | the minimal cover is equivalent to the dependencies, with unique left sides and proper sides |
| MinimalCover.MinimalCoverMinimal | relation.cc:608-624 | no atom of the minimal cover follows from its other atoms, and no atom has a left-side name that can be dropped |
| MinimalCover.GetMinimalCover | relation.cc:608-624 | getMinimalCover returns MinimalCoverOf |
| DependencySets.AtomsEquivalent | relation.cc:634-650 | the single-name dependencies of a set are equivalent to it |
| DependencySets.AtomsMerge | relation.cc:149-172 | merging keeps the single-name dependencies |
| DependencySets.AtomsRemoved | relation.cc:310-329 | removing one atom from a set with unique left sides removes exactly that atom from its atoms |
| Decomposition.NatStr | relation.cc:414 | `std::to_string` yields at least one digit and nothing else |
| Decomposition.NatStrInjective | relation.cc:415-430 | different numbers give different names, so the relations decomposePreserving numbers are distinct |
| Decomposition.SubValid | relation.cc:55-60 | a sub-relation built from an attribute set and projected dependencies meets the invariant and has exactly those attributes |
| Decomposition.SubImplied | relation.cc:55-60 | every dependency of a sub-relation is implied by the dependencies it was projected from |
| Decomposition.SubKeeps | relation.cc:55-60 | a dependency whose names all lie within the sub-relation is still derivable in it |
| Decomposition.SubRelation | relation.cc:55-60 | building and filling the sub-relation yields Sub and meets the invariant |
| Decomposition.LeastViolation | relation.cc:45-52 | the split dependency is a BCNF violation that precedes every other |
| Decomposition.SplitShrinks | relation.cc:53-54 | a violating dependency has a non-empty left side within the relation, and both halves are smaller than the relation |
| Decomposition.ViolationMisses | violation.h:82-83 | a BCNF violation's left side does not determine the relation |
| Decomposition.ChildrenShrink | relation.cc:52-60 | both halves meet the invariant, lie within the relation, are smaller, and together keep every attribute |
| Decomposition.SplitLossless | relation.cc:52-60 | the halves share exactly the violation's left side, which determines the whole second half, and together hold every attribute (Heath's condition) |
| Decomposition.Decompose | relation.cc:35-64 | decompose terminates and yields a non-empty set of relations within the original attributes |
| Decomposition.Split | relation.cc:45-60 | the split step computes the two halves, each valid and smaller |
| Decomposition.DecomposeInto | relation.cc:35-64 | the recursive method adds exactly the leaves of Decompose to the set |
| Decomposition.DecomposeNotPreserving | relation.cc:459-464 | decomposeNotPreserving returns Decompose |
| Lossless.AgreeOnClosure | relation.cc:475-490 | two rows of an instance satisfying the dependencies that agree on a set agree on its closure |
| Lossless.ProjectSatisfies | relation.cc:55-60 | projecting an instance onto a sub-relation's attributes gives an instance of the sub-relation satisfying its projected dependencies |
| Lossless.DecomposeLossless | relation.cc:35-64 | for every instance satisfying the dependencies, a row is in the join of its projections onto the relations decompose returns iff it is in the instance |
| Decomposition.DecomposeLeaves | relation.cc:36-43 | every leaf meets the invariant and is in BCNF |
| Decomposition.DecomposeCovers | relation.cc:53-63 | every attribute of the relation is in some leaf |
| Decomposition.DecomposeSound | relation.cc:56-60 | every leaf's dependencies are implied by the relation's |
| Decomposition.DecomposeLoopsOnEmptyLhs | relation.cc:52-63 | with {} -> x the relation is not in BCNF, and its second half is the relation itself, so the source recursion never ends |
| Decomposition.HasKeyDependency | relation.cc:410-412 | true iff some cover dependency mentions all of some candidate key |
| Decomposition.CountCovering | relation.cc:423-426 | the count is zero iff no relation so far holds all the names of the dependency |
| Decomposition.KeyRelation | relation.cc:409-420 | a key relation is added iff there are keys and no cover dependency holds one; it is the projection onto a key |
| Decomposition.KeyRelationAsWritten | relation.cc:414-415 | as written, the key relation is undefined exactly when there are no keys, and otherwise agrees with KeyRelation |
| Decomposition.PreservingAsWrittenFails | relation.cc:414-415 | on a relation with no attributes the source dereferences the first of no keys |
| Decomposition.PreservingFrom | relation.cc:405-445 | the synthesis never returns an empty set |
| Decomposition.PreservingPassCovers | relation.cc:421-438 | the loop only adds projections of the cover, and afterwards every cover dependency lies within some relation |
| Decomposition.PreservingFromShape | relation.cc:405-445 | each result is the relation itself or a projection of the cover; every cover dependency lies within a projection |
| Decomposition.PreservingFromValid | relation.cc:405-445 | every resulting relation meets the invariant |
| Decomposition.PreservingFromEquivalent | relation.cc:405-445 | the dependencies of the result together are equivalent to the cover |
| Decomposition.PreservingFromHasKey | relation.cc:409-420 | when there are keys, some result holds a whole key |
| Decomposition.Preserving | relation.cc:405-445 | decomposePreserving on a valid relation never returns an empty set |
| Decomposition.PreservingValid | relation.cc:405-445 | every relation of decomposePreserving meets the invariant |
| Decomposition.PreservingEquivalent | relation.cc:405-445 | the dependencies of decomposePreserving together are equivalent to the relation's |
| Decomposition.PreservingHasKey | relation.cc:405-445 | on a relation with attributes, some result holds a whole candidate key |
| Decomposition.StartRelations | relation.cc:407-420 | the start of decomposePreserving computes KeyRelation and numbers it |
| Decomposition.PlaceDependency | relation.cc:423-437 | one loop turn keeps what the rest of the pass yields and consumes one dependency |
| Decomposition.PlaceAll | relation.cc:421-438 | the loop over the cover computes the pass |
| Decomposition.DecomposePreserving | relation.cc:405-445 | decomposePreserving returns Preserving |
| ThirdNormal.LhsIsKey | relation.cc:428-431 | the left side of a minimal-cover dependency L -> R is a candidate key of the relation built on L and R |
| ThirdNormal.OtherRhsInLhs | relation.cc:428-431 | in that relation, every other projected dependency has its right side within L, so its right side is prime |
| ThirdNormal.CoverRelationThird | relation.cc:428-431 | the relation built on a minimal-cover dependency is in 3NF |
| ThirdNormal.KeyRelationEmpty | relation.cc:414-417 | the relation built on a candidate key holds no dependency |
| ThirdNormal.PreservingPassFrom | relation.cc:421-438 | each relation the loop adds is built on the names of one cover dependency |
| ThirdNormal.PreservingThird | relation.cc:405-445 | every relation decomposePreserving returns is in 3NF under the violation test of violation.h:80-81 |
| Relations.Relation.constructor | relation.cc:102-105 | the new relation meets the invariant, has the given names plus every dependency name, and the merged dependencies |
| Relations.Relation.ReducedDependencies | relation.cc:149-172 | the dependencies become their merge, and nothing else changes |
| Relations.Relation.AddDependency | relation.cc:241-267 | the invariant holds; with update the names join the attributes; an accepted dependency is merged in after projection and reported; a refused one changes nothing |
| Relations.Relation.AddDependencyPair | relation.cc:197-210 | right-side names on the left are dropped; when none remain nothing changes and the result is None; otherwise it behaves as addDependency |
| Relations.Relation.AddDependencies | relation.cc:804-808 | adding a set with update gains all its names and merges all of it; without, only the accepted projections are merged; the count is of the ones added |
| Relations.Relation.RemoveDependencyPair | relation.cc:293-296 | removes lhs -> rhs as the dependency overload does |
| Relations.Relation.RemoveDependency | relation.cc:310-329 | the dependencies become Removed; the result is true iff something was found, iff the set changed |
| Relations.Relation.AddAttribute | relation.cc:339-343 | a non-empty name joins the attributes; the result is true iff it is non-empty and new |
| Relations.Relation.AddAttributes | relation.cc:352-356 | every name joins the attributes; the count is of the new ones |
| Relations.Relation.RemoveAttribute | relation.cc:371-392 | the name leaves the attributes and every dependency; the result is true iff it was an attribute |
| Relations.Relation.ClearDependencies | relation.cc:518-521 | the dependencies are emptied, the attributes kept |
| Relations.Relation.ClearAttributes | relation.cc:527-531 | both sets are emptied |
| Relations.Relation.SetDependencies | relation.cc:538-542 | the dependencies become the merge of the new ones, whose names join the attributes |
| Relations.Relation.SetAttributes | relation.cc:552-559 | the attributes are replaced, and only the old dependencies within them survive, cut down to them |
| Relations.Relation.GetClosure | relation.cc:475-490 | returns the closure under the relation's dependencies |
| Relations.Relation.GetCandidatekey | relation.cc:748-776 | returns exactly the candidate keys |
| Relations.Relation.GetMinimalCover | relation.cc:608-624 | returns the minimal cover: equivalent to the dependencies, with unique left sides and proper sides; no atom follows from the others and none has a left-side name that can be dropped |
| Relations.Relation.GetViolation | relation.cc:500-513 | returns exactly the dependencies violating the form |
| Relations.Relation.DecomposeNotPreserving | relation.cc:459-464 | returns Decompose: relations in BCNF, each valid, together keeping every attribute, and lossless: for every instance satisfying the dependencies, the join of its projections is exactly the instance |
| Relations.Relation.DecomposePreserving | relation.cc:405-445 | returns Preserving: valid relations in 3NF whose dependencies together are equivalent to the relation's |
| Fixture.ClosureOfAC | tests/relation_test.cc:261-267 | the closure of {a,c} is every attribute |
| Fixture.ClosureOfB | tests/relation_test.cc:261-267 | the closure of {b} is {b} |
| Fixture.FixtureKeys | tests/relation_test.cc:269-275 | the candidate keys are exactly {{a,c}} |
| Fixture.FixtureSuperkeys | tests/relation_test.cc:229-238 | {a} and {c,d} are not superkeys, {a,c} and {a,b,c,d} are |
| Fixture.FixturePartialkeys | tests/relation_test.cc:240-249 | only {a} is a partial key among {a}, {a,c}, {c,d}, {a,b,c,d} |
| Fixture.FixturePrimes | tests/relation_test.cc:251-259 | {a} and {a,c} are prime, {c,d} and {a,b,c,d} are not |
| Fixture.FixtureSecondViolations | tests/relation_test.cc:277-293 | the 2NF violations are exactly a -> bf |

## Left out

- The stream printers, `printSet`, the interactive interface and `main` are input and output only.
- The `details` printing branches inside the relation members are left out, so the model is the `details = false` behaviour.
- The comparison operators of `Relation` are left out. A relation inside a set is the value `RelValue`, and its equality (name, attributes and dependencies) is the one `operator==` defines.
- Destructors, copy constructors and the default-argument allocations of the header are left out.
- The seed loop of `getCandidatekey` erases from the set it iterates. That is undefined behaviour, so the model takes its evident intent: the attributes on no right side, or all attributes when none remain.
- The pruning `working -= keys` in `getCandidatekey` removes nothing, because the keys are smaller than the next working sets. The model keeps the pruning done by `testSet` instead; Queries.SubtractNothing proves that removing the keys changes nothing.
- Scratch relations (`Relation temp`) inside `processLHS`, `reduceLHS`, `reduceRules` and `getMinimalCover` are modelled by their attribute and dependency sets, not as objects.
- `addDependencies` defaults to `update = true`, as the header declares, not to `false` as the comment in relation.cc says. The model has no default arguments: callers pass the flag.
- MinimalCover.ProcessLhs: requires the dependency's left side to be present. The source dereferences `findDepLHS` unchecked; when it is not present, see the first finding.
- Decomposition.Decompose: requires proper sides. The source recurses forever on a dependency with an empty left side (third finding).
- Relations.Relation.AddDependencyPair: refuses a dependency with an empty left side, which the source accepts (third finding).
- Relations.Relation.AddDependency: requires proper sides: both non-empty, with no name on both. The source accepts a dependency with an empty side here; the model keeps such dependencies out of every relation (third finding). Overlapping sides cannot reach it: the `Dependency` constructor is private to `Relation` (dependency.h:37, 79-110), and `addDependency(lhs, rhs)`, the entry the interface uses, drops the right-side names that are on the left (relation.cc:197-209). The other places that build a dependency split or shrink one that already has disjoint sides (relation.cc:587, 640).
- Relations.Relation.AddDependencies, Relations.Relation.SetDependencies, Relations.Relation.constructor: require every given dependency to have proper sides, for the same reasons.
- 3NF is proved under the source's test (violation.h:80-81): a dependency violates 3NF when its left side is no superkey and its whole right side lies within no single candidate key. This is the test `getViolation` and `isNormal` apply, so it is the property stated.
- The expected values of the minimal-cover and decomposition tests in tests/relation_test.cc (from line 295) are not restated as lemmas on the fixture.

## Findings

| source | as written | input that shows it | evidently intended | confidence | as-written member | corrected member |
|---|---|---|---|---|---|---|
| relation.cc:581-584, 663-667 | `reduceLHS` calls `processLHS` for every dependency of the original set. `processLHS` dereferences `findDepLHS(temp)` without checking for `end()`. | The dependencies a -> b, ab -> c, ab -> d. After ab -> cd is reduced to a -> cd, the second visit of an ab dependency finds no dependency with left side ab and dereferences `end()`. | Skip a dependency whose left side has already been reduced away. | not executed | MinimalCover.ReduceLhsAsWrittenFails | MinimalCover.ReduceLhs |
| relation.cc:414-415 | `decomposePreserving` builds its key relation from `*keys.begin()` whenever no cover dependency holds a key. | A relation with no attributes: it has no candidate keys, so `keys.begin()` is `end()`. | Add a key relation only when there is a key. | not executed | Decomposition.PreservingAsWrittenFails | Decomposition.KeyRelation |
| relation.cc:197-210, 52-63 | `addDependency(lhs, rhs)` accepts an empty left side, and `decompose` then splits on it. | The relation R(x) with {} -> x. The dependency violates BCNF, and the second half of the split, on `{} ∪ {x}`, is R itself, so the recursion never ends. | Refuse a dependency with an empty left side. | not executed | Decomposition.DecomposeLoopsOnEmptyLhs | Relations.Relation.AddDependencyPair |
