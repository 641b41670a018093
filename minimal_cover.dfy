/** The minimal cover of a dependency set (getMinimalCover): right sides
    split into single names (reduceRHS), extraneous left-side names removed
    (reduceLHS with processLHS), redundant dependencies dropped
    (reduceRules), and the result merged. Every phase keeps the set
    equivalent to the one it started from. */
module MinimalCover {
  import opened Ordering
  import opened Sets
  import opened SetStrCompare
  import opened TemplateDef
  import opened Utility
  import opened Dependencies
  import opened DependencySets
  import opened Mutators
  import opened Queries

  // ---------------------------------------------------------------------
  // reduceRHS (relation.cc:634-650)
  // ---------------------------------------------------------------------

  /** What reduceRHS makes of one dependency: one dependency per right-side
      name when there are several, the dependency itself otherwise. */
  function SplitOne(d: Dependency): DepSet {
    if |d.rhs| > 1 then set a | a in d.rhs :: Dependency(d.lhs, {a}) else {d}
  }

  /** reduceRHS(dep): every dependency split into single right sides. */
  function SplitRhs(f: DepSet): DepSet {
    set d, e | d in f && e in SplitOne(d) :: e
  }

  /** A piece of a dependency of `f` is in the split set. */
  lemma InSplit(f: DepSet, d: Dependency, e: Dependency)
    requires d in f && e in SplitOne(d)
    ensures e in SplitRhs(f)
  {
  }

  /** The pieces of a dependency: itself, or one per right-side name. */
  lemma PieceOf(d: Dependency, a: string)
    requires a in d.rhs
    ensures |d.rhs| > 1 ==> Dependency(d.lhs, {a}) in SplitOne(d)
    ensures |d.rhs| <= 1 ==> d in SplitOne(d)
  {
  }

  /** Splitting one more dependency adds its pieces. */
  lemma SplitRhsAdd(done: DepSet, d: Dependency)
    ensures SplitRhs(done + {d}) == SplitRhs(done) + SplitOne(d)
  {
  }

  /** The inner for_each of reduceRHS: one single-name dependency per
      right-side name, in ascending order. */
  method SplitNames(d: Dependency, base: DepSet) returns (ret: DepSet)
    ensures ret == base + set a | a in d.rhs :: Dependency(d.lhs, {a})
  {
    var todo := d.rhs;
    ret := base;
    while todo != {}
      invariant todo <= d.rhs
      invariant ret == base + set a | a in d.rhs - todo :: Dependency(d.lhs, {a})
      decreases |todo|
    {
      var a := LeastName(todo);
      TakeElement(d.rhs, todo, a);
      ret := ret + {Dependency(d.lhs, {a})};
      todo := todo - {a};
    }
    assert d.rhs - todo == d.rhs;
  }

  /** reduceRHS(dep) (relation.cc:634-650): each dependency in ascending
      order is split when its right side has several names and copied
      otherwise. */
  method ReduceRhs(f: DepSet) returns (ret: DepSet)
    ensures ret == SplitRhs(f)
  {
    var todo := f;
    ret := {};
    assert SplitRhs(f - todo) == {};
    while todo != {}
      invariant todo <= f
      invariant ret == SplitRhs(f - todo)
      decreases |todo|
    {
      var d := LeastDep(todo);
      TakeElement(f, todo, d);
      SplitRhsAdd(f - todo, d);
      if |d.rhs| > 1 {
        ret := SplitNames(d, ret);
      } else {
        ret := ret + {d};
      }
      todo := todo - {d};
    }
    assert f - todo == f;
  }

  /** After reduceRHS, a set without empty sides has exactly one name on
      every right side, and mentions the same names. */
  lemma SplitRhsSingle(f: DepSet)
    requires ProperSides(f)
    ensures forall d :: d in SplitRhs(f) ==> d.lhs != {} && |d.rhs| == 1
    ensures ProperSides(SplitRhs(f))
    ensures DepAttribs(SplitRhs(f)) == DepAttribs(f)
  {
    forall e | e in SplitRhs(f) ensures e.lhs != {} && |e.rhs| == 1 {
      var d :| d in f && e in SplitOne(d);
      if |d.rhs| <= 1 {
        assert e == d;
        var a :| a in d.rhs;
        assert d.rhs == {a} by {
          SubsetCardinality({a}, d.rhs);
        }
      }
    }
    forall a | a in DepAttribs(f) ensures a in DepAttribs(SplitRhs(f)) {
      var d :| d in f && a in d.lhs + d.rhs;
      var b :| b in d.rhs && (a in d.rhs ==> b == a);
      PieceOf(d, b);
      if |d.rhs| > 1 {
        InSplit(f, d, Dependency(d.lhs, {b}));
        assert a in Dependency(d.lhs, {b}).lhs + Dependency(d.lhs, {b}).rhs;
      } else {
        InSplit(f, d, d);
      }
    }
    forall a | a in DepAttribs(SplitRhs(f)) ensures a in DepAttribs(f) {
      var e :| e in SplitRhs(f) && a in e.lhs + e.rhs;
      var d :| d in f && e in SplitOne(d);
      assert e.lhs == d.lhs && e.rhs <= d.rhs;
      assert a in d.lhs + d.rhs;
    }
  }

  /** Splitting right sides keeps the set equivalent. */
  lemma SplitRhsEquivalent(f: DepSet)
    ensures Equivalent(SplitRhs(f), f)
  {
    var g := SplitRhs(f);
    forall e | e in g ensures e.rhs <= Closure(e.lhs, f) {
      var d :| d in f && e in SplitOne(d);
      assert e.lhs == d.lhs && e.rhs <= d.rhs;
    }
    forall d | d in f ensures d.rhs <= Closure(d.lhs, g) {
      forall a | a in d.rhs ensures a in Closure(d.lhs, g) {
        PieceOf(d, a);
        if |d.rhs| > 1 {
          InSplit(f, d, Dependency(d.lhs, {a}));
        } else {
          InSplit(f, d, d);
        }
      }
    }
    ImpliesBothWays(g, f);
  }
  // ---------------------------------------------------------------------
  // processLHS (relation.cc:568-598)
  // ---------------------------------------------------------------------

  /** The test processLHS applies to the name `a` of the left side `t`,
      whose dependency is `e` (relation.cc:584-586): the closure of `t`
      without `a` is not empty and holds the right side of `e`. */
  function ReducibleAt(f: DepSet, e: Dependency, t: AttrSet): string -> bool {
    a => Closure(t - {a}, f) != {} && e.rhs <= Closure(t - {a}, f)
  }

  /** `e` replaced by the dependency with left side `t` and the same right
      side, and the set merged (relation.cc:587-589). */
  function Replaced(f: DepSet, e: Dependency, t: AttrSet): DepSet {
    Merge((f - {e}) + {Dependency(t, e.rhs)})
  }

  /** The replacement holds a dependency with the new left side. */
  lemma ReplacedHasLhs(f: DepSet, e: Dependency, t: AttrSet)
    ensures FindDepLhs(Replaced(f, e, t), t).Some?
  {
    var h := (f - {e}) + {Dependency(t, e.rhs)};
    assert Dependency(t, Group(h, t)) in Merge(h);
  }

  /** Where the scan of processLHS stops on the left side `t`: the index,
      in ascending order, of the first name the test accepts, or |t|. */
  function DropAt(f: DepSet, t: AttrSet): (i: nat)
    requires FindDepLhs(f, t).Some?
    ensures i <= |t|
  {
    FindIf(SortedAttrs(t), ReducibleAt(f, FindDepLhs(f, t).value, t))
  }

  /** The left side `t` without its `i`-th name in ascending order. */
  function Shrink(t: AttrSet, i: nat): (r: AttrSet)
    requires i < |t|
    ensures r <= t && |r| == |t| - 1
  {
    t - {SortedAttrs(t)[i]}
  }

  /** The set after one replacement: the dependency with left side `t`
      gets the left side Shrink(t, i). */
  function Reduced(f: DepSet, t: AttrSet, i: nat): (r: DepSet)
    requires FindDepLhs(f, t).Some? && i < |t|
    ensures FindDepLhs(r, Shrink(t, i)).Some?
  {
    ReplacedHasLhs(f, FindDepLhs(f, t).value, Shrink(t, i));
    Replaced(f, FindDepLhs(f, t).value, Shrink(t, i))
  }

  /** What processLHS makes of the set for the left side `t`: while `t`
      has more than one name, the first name in ascending order that the
      test accepts is dropped from the left side of its dependency, and the
      search starts again from the smaller left side. */
  function ProcessSpec(f: DepSet, t: AttrSet): (r: DepSet)
    requires FindDepLhs(f, t).Some?
    decreases |t|
  {
    if |t| <= 1 then f
    else
      var i := DropAt(f, t);
      if i == |t| then f
      else ProcessSpec(Reduced(f, t, i), Shrink(t, i))
  }

  /** The inner for loop of processLHS (relation.cc:579-593): the names of
      `t` are tried in ascending order, each erased from a copy of `t` whose
      closure is computed, and put back when the test fails; the loop breaks
      at the first name the test accepts. */
  method ScanReducible(f: DepSet, t: AttrSet) returns (i: nat)
    requires FindDepLhs(f, t).Some?
    ensures i == DropAt(f, t)
  {
    i := ScanNames(f, FindDepLhs(f, t).value, t);
  }

  /** The scan of ScanReducible for the dependency `e`. */
  method ScanNames(f: DepSet, e: Dependency, t: AttrSet) returns (i: nat)
    ensures i == FindIf(SortedAttrs(t), ReducibleAt(f, e, t))
  {
    var v := SortedAttrs(t);
    var p := ReducibleAt(f, e, t);
    i := 0;
    assert v[0..] == v;
    while i < |v|
      invariant i <= |v|
      invariant FindIf(v, p) == i + FindIf(v[i..], p)
      decreases |v| - i
    {
      var found := TestName(f, e, t, v[i]);
      FindIfSuffix(v, p, i);
      if found {
        return;
      }
      i := i + 1;
    }
  }

  /** The body of the inner for loop of processLHS for the name `a`: the
      closure of `t` without `a`, and the test on it. */
  method TestName(f: DepSet, e: Dependency, t: AttrSet, a: string) returns (r: bool)
    ensures r == ReducibleAt(f, e, t)(a)
  {
    var temp := t - {a};
    var clr1 := ClosureOf(temp, f);
    r := clr1 != {} && IsSubset(clr1, e.rhs);
  }

  /** The replacement of processLHS (relation.cc:587-589): the dependency
      `e` is removed by removeDependency, which erases it, and the one with
      the smaller left side is added with update, which merges it in. */
  method ReplaceLhs(attrs: AttrSet, deps: DepSet, e: Dependency, t: AttrSet) returns (deps': DepSet)
    requires UniqueLhs(deps) && ProperSides(deps) && DepAttribs(deps) <= attrs
    requires e in deps && t <= e.lhs && t != {}
    ensures deps' == Replaced(deps, e, t)
    ensures UniqueLhs(deps') && ProperSides(deps') && DepAttribs(deps') <= attrs
  {
    var mod := Dependency(t, e.rhs);
    var removed, found;
    removed, found := Remove(attrs, deps, e);
    assert removed == deps - {e};
    DepAttribsSubset(deps, removed);
    assert mod.lhs + mod.rhs <= e.lhs + e.rhs;
    assert e.lhs + e.rhs <= attrs;
    WithinAttributes(attrs, mod);
    var attrs', r;
    attrs', deps', r := Insert(attrs, removed, mod, true);
  }

  /** Reduced is the replacement of the dependency with left side `t`. */
  lemma ReducedIs(f: DepSet, t: AttrSet, i: nat)
    requires FindDepLhs(f, t).Some? && i < |t|
    ensures Reduced(f, t, i) == Replaced(f, FindDepLhs(f, t).value, Shrink(t, i))
  {
  }

  /** ProcessSpec stops where the scan finds no name. */
  lemma ProcessSpecStop(f: DepSet, t: AttrSet)
    requires FindDepLhs(f, t).Some? && (|t| <= 1 || DropAt(f, t) == |t|)
    ensures ProcessSpec(f, t) == f
  {
  }

  /** ProcessSpec goes on from the reduced set where the scan finds a name. */
  lemma ProcessSpecNext(f: DepSet, t: AttrSet, i: nat)
    requires FindDepLhs(f, t).Some? && 1 < |t| && i == DropAt(f, t) && i < |t|
    ensures ProcessSpec(f, t) == ProcessSpec(Reduced(f, t, i), Shrink(t, i))
  {
  }

  /** One round of the do/while of processLHS: when the left side has more
      than one name, the scan runs, and the first name it accepts is dropped. */
  method ProcessRound(attrs: AttrSet, deps: DepSet, t: AttrSet) returns (deps': DepSet, t': AttrSet, change: bool)
    requires UniqueLhs(deps) && ProperSides(deps) && DepAttribs(deps) <= attrs
    requires FindDepLhs(deps, t).Some?
    ensures UniqueLhs(deps') && ProperSides(deps') && DepAttribs(deps') <= attrs
    ensures FindDepLhs(deps', t').Some?
    ensures ProcessSpec(deps', t') == ProcessSpec(deps, t)
    ensures change ==> |t'| < |t|
    ensures !change ==> ProcessSpec(deps', t') == deps' && t' == t
  {
    deps', t', change := deps, t, false;
    if |t| <= 1 {
      ProcessSpecStop(deps, t);
      return;
    }
    var i := ScanReducible(deps, t);
    if i == |t| {
      ProcessSpecStop(deps, t);
      return;
    }
    ProcessSpecNext(deps, t, i);
    ReducedIs(deps, t, i);
    t' := Shrink(t, i);
    deps' := ReplaceLhs(attrs, deps, FindDepLhs(deps, t).value, t');
    change := true;
  }

  /** processLHS(d) (relation.cc:568-598) on the dependency set of a scratch
      relation: the do/while repeats the scan until it drops no name. The
      dependency with the left side of `d` must exist: the source
      dereferences what findDepLHS returns without comparing it to end().
      The result compares the size of the left side of `d` with itself, so
      it is always false. */
  method ProcessLhs(attrs: AttrSet, deps: DepSet, d: Dependency) returns (deps': DepSet, r: bool)
    requires UniqueLhs(deps) && ProperSides(deps) && DepAttribs(deps) <= attrs
    requires FindDepLhs(deps, d.lhs).Some?
    ensures deps' == ProcessSpec(deps, d.lhs)
    ensures UniqueLhs(deps') && ProperSides(deps') && DepAttribs(deps') <= attrs
    ensures !r
  {
    var size := |d.lhs|;
    var t := d.lhs;
    deps' := deps;
    var change := true;
    while change
      invariant UniqueLhs(deps') && ProperSides(deps') && DepAttribs(deps') <= attrs
      invariant FindDepLhs(deps', t).Some?
      invariant ProcessSpec(deps', t) == ProcessSpec(deps, d.lhs)
      invariant !change ==> ProcessSpec(deps', t) == deps'
      decreases |t| + (if change then 1 else 0)
    {
      deps', t, change := ProcessRound(attrs, deps', t);
    }
    r := size != |d.lhs|;
  }

  /** One replacement keeps the set equivalent: the name dropped passed the
      test, so the smaller left side still determines the right side. */
  lemma ReducedEquivalent(f: DepSet, t: AttrSet, i: nat)
    requires FindDepLhs(f, t).Some? && i == DropAt(f, t) && i < |t|
    ensures Equivalent(Reduced(f, t, i), f)
  {
    var e := FindDepLhs(f, t).value;
    var t' := Shrink(t, i);
    var h := (f - {e}) + {Dependency(t', e.rhs)};
    assert ReducibleAt(f, e, t)(SortedAttrs(t)[i]);
    assert e.rhs <= Closure(t', f);
    ReplaceLhsEquivalent(f, e, t');
    MergeEquivalent(h);
  }

  /** processLHS keeps the dependency set equivalent. */
  lemma {:induction false} ProcessSpecEquivalent(f: DepSet, t: AttrSet)
    requires FindDepLhs(f, t).Some?
    ensures Equivalent(ProcessSpec(f, t), f)
    decreases |t|
  {
    if |t| > 1 && DropAt(f, t) < |t| {
      var i := DropAt(f, t);
      ProcessSpecNext(f, t, i);
      ReducedEquivalent(f, t, i);
      ProcessSpecEquivalent(Reduced(f, t, i), Shrink(t, i));
    } else {
      ProcessSpecStop(f, t);
    }
  }

  /** When processLHS drops a name, no dependency with the original left
      side remains: its dependency was replaced by one with a smaller left
      side, and every later replacement only shrinks left sides further. */
  lemma {:induction false} ProcessSpecLosesLhs(f: DepSet, t: AttrSet, s: AttrSet)
    requires UniqueLhs(f) && FindDepLhs(f, t).Some? && t <= s
    requires t == s ==> 1 < |t| && DropAt(f, t) < |t|
    requires t != s ==> FindDepLhs(f, s).None?
    ensures FindDepLhs(ProcessSpec(f, t), s).None?
    decreases |t|
  {
    if |t| > 1 && DropAt(f, t) < |t| {
      var i := DropAt(f, t);
      ProcessSpecNext(f, t, i);
      ReducedLoses(f, t, i, s);
      ProcessSpecLosesLhs(Reduced(f, t, i), Shrink(t, i), s);
    } else {
      ProcessSpecStop(f, t);
    }
  }

  /** After a replacement on the left side `t`, no dependency has a left
      side `s` that holds `t`, when `s` is `t` itself or was absent. */
  lemma ReducedLoses(f: DepSet, t: AttrSet, i: nat, s: AttrSet)
    requires UniqueLhs(f) && FindDepLhs(f, t).Some? && i < |t| && t <= s
    requires t != s ==> FindDepLhs(f, s).None?
    ensures FindDepLhs(Reduced(f, t, i), s).None?
  {
    var e := FindDepLhs(f, t).value;
    var t' := Shrink(t, i);
    SubsetCardinality(t, s);
    assert t' != s;
    OthersLack(f, e, s);
    ReducedIs(f, t, i);
    LhssAbsent(f - {e}, Dependency(t', e.rhs), s);
  }

  /** Helper of ReducedLoses: with `e` gone, no dependency has left side
      `s`, when that was the left side of `e` or of none. */
  lemma OthersLack(f: DepSet, e: Dependency, s: AttrSet)
    requires UniqueLhs(f) && e in f
    requires e.lhs != s ==> FindDepLhs(f, s).None?
    ensures forall d :: d in f - {e} ==> d.lhs != s
  {
  }

  /** Helper of ReducedLoses: the left sides of the replacement. */
  lemma LhssAbsent(g: DepSet, n: Dependency, s: AttrSet)
    requires n.lhs != s && forall d :: d in g ==> d.lhs != s
    ensures FindDepLhs(Merge(g + {n}), s).None?
  {
    assert s !in Lhss(g + {n});
    AbsentFromMerge(g + {n}, s);
  }

  /** A left side no dependency of `h` has is not one of its merge either. */
  lemma AbsentFromMerge(h: DepSet, s: AttrSet)
    requires s !in Lhss(h)
    ensures FindDepLhs(Merge(h), s).None?
  {
    MergeMembers(h);
  }

  // ---------------------------------------------------------------------
  // reduceLHS (relation.cc:660-670)
  // ---------------------------------------------------------------------

  /** What reduceLHS does with the dependency `d` of its argument: when its
      left side has more than one name, processLHS runs on it. The source
      runs it whether or not a dependency with that left side is still in
      the scratch relation; here it is skipped when there is none (see the
      findings in the README). */
  function LhsStep(g: DepSet, d: Dependency): DepSet {
    if 1 < |d.lhs| && FindDepLhs(g, d.lhs).Some? then ProcessSpec(g, d.lhs) else g
  }

  /** The for_each of reduceLHS over the dependencies `todo`, in ascending
      order, starting from the scratch dependency set `g`. */
  function LhsPass(g: DepSet, todo: DepSet): DepSet
    decreases |todo|
  {
    if todo == {} then g
    else
      var d := LeastDep(todo);
      LhsPass(LhsStep(g, d), todo - {d})
  }

  /** reduceLHS keeps the set equivalent. */
  lemma {:induction false} LhsPassEquivalent(g: DepSet, todo: DepSet)
    ensures Equivalent(LhsPass(g, todo), g)
    decreases |todo|
  {
    if todo != {} {
      var d := LeastDep(todo);
      LhsPassNext(g, todo, d);
      LhsStepEquivalent(g, d);
      LhsPassEquivalent(LhsStep(g, d), todo - {d});
    }
  }

  /** One step of reduceLHS keeps the set equivalent. */
  lemma LhsStepEquivalent(g: DepSet, d: Dependency)
    ensures Equivalent(LhsStep(g, d), g)
  {
    if 1 < |d.lhs| && FindDepLhs(g, d.lhs).Some? {
      ProcessSpecEquivalent(g, d.lhs);
    }
  }

  /** reduceLHS as written: processLHS dereferences what findDepLHS
      returns, so a dependency whose left side (of more than one name) is
      no longer in the scratch relation makes the pass undefined, here
      None. */
  function LhsPassAsWritten(g: DepSet, todo: DepSet): Option<DepSet>
    decreases |todo|
  {
    if todo == {} then Some(g)
    else
      var d := LeastDep(todo);
      if 1 < |d.lhs| && FindDepLhs(g, d.lhs).None? then None
      else LhsPassAsWritten(LhsStep(g, d), todo - {d})
  }

  /** Wherever reduceLHS as written is defined, the corrected pass gives
      the same set. */
  lemma {:induction false} LhsPassAsWrittenAgrees(g: DepSet, todo: DepSet)
    ensures LhsPassAsWritten(g, todo).Some? ==> LhsPassAsWritten(g, todo).value == LhsPass(g, todo)
    decreases |todo|
  {
    if todo != {} {
      var d := LeastDep(todo);
      LhsPassAsWrittenAgrees(LhsStep(g, d), todo - {d});
    }
  }

  /** A dependency whose left side has at most one name is skipped. */
  lemma AsWrittenSkip(g: DepSet, todo: DepSet, d: Dependency)
    requires todo != {} && d == LeastDep(todo) && |d.lhs| <= 1
    ensures LhsPassAsWritten(g, todo) == LhsPassAsWritten(g, todo - {d})
  {
  }

  /** Once the left side `s` is gone from the scratch set, a dependency
      with that left side still to be processed makes reduceLHS as written
      undefined, when every other dependency still to come has a left side
      of at most one name. */
  lemma {:induction false} AsWrittenMissing(g: DepSet, todo: DepSet, s: AttrSet, d2: Dependency)
    requires 1 < |s| && FindDepLhs(g, s).None?
    requires d2 in todo && d2.lhs == s
    requires forall d :: d in todo && 1 < |d.lhs| ==> d.lhs == s
    ensures LhsPassAsWritten(g, todo).None?
    decreases |todo|
  {
    var d := LeastDep(todo);
    if |d.lhs| <= 1 {
      AsWrittenSkip(g, todo, d);
      AsWrittenMissing(g, todo - {d}, s, d2);
    }
  }

  /** The first of two dependencies with left side `s` drops a name from
      it, and the second then finds no dependency with left side `s`. */
  lemma AsWrittenFirst(g: DepSet, todo: DepSet, s: AttrSet, d: Dependency, other: Dependency)
    requires 1 < |s| && FindDepLhs(g, s).Some? && FindDepLhs(ProcessSpec(g, s), s).None?
    requires todo != {} && d == LeastDep(todo) && d.lhs == s
    requires other in todo && other != d && other.lhs == s
    requires forall d :: d in todo && 1 < |d.lhs| ==> d.lhs == s
    ensures LhsPassAsWritten(g, todo).None?
  {
    assert LhsPassAsWritten(g, todo) == LhsPassAsWritten(ProcessSpec(g, s), todo - {d});
    AsWrittenMissing(ProcessSpec(g, s), todo - {d}, s, other);
  }

  /** The dependency with the one-name left side comes first. */
  lemma FirstTwoNames(f: DepSet, a: string, b: string, c: string, d: string)
    requires a != b && f == {Dependency({a}, {b}), Dependency({a, b}, {c}), Dependency({a, b}, {d})}
    ensures LeastDep(f) == Dependency({a}, {b})
    ensures |{a, b}| == 2
    ensures f - {Dependency({a}, {b})} == {Dependency({a, b}, {c}), Dependency({a, b}, {d})}
  {
    assert |{a, b}| == 2;
    assert {a} != {a, b} by { assert b !in {a}; }
  }

  /** The merge of a -> b, ab -> c, ab -> d holds a -> b, and ab -> cd is
      its dependency with left side ab. */
  lemma ExampleMerged(f: DepSet, a: string, b: string, c: string, d: string)
    requires a != b && f == {Dependency({a}, {b}), Dependency({a, b}, {c}), Dependency({a, b}, {d})}
    ensures Dependency({a}, {b}) in Merge(f)
    ensures FindDepLhs(Merge(f), {a, b}) == Some(Dependency({a, b}, {c, d}))
  {
    assert {a} != {a, b} by { assert b !in {a}; }
    MergeMembers(f);
    assert Group(f, {a}) == {b};
    assert Group(f, {a, b}) == {c, d};
    FindDepLhsUnique(Merge(f), {a, b});
  }

  /** In that merge, processLHS on ab finds b reducible: the closure of a
      holds b, hence c and d. */
  lemma ExampleReducible(g: DepSet, a: string, b: string, c: string, d: string)
    requires StrLess(a, b)
    requires Dependency({a}, {b}) in g && FindDepLhs(g, {a, b}) == Some(Dependency({a, b}, {c, d}))
    ensures DropAt(g, {a, b}) < 2
  {
    var s := {a, b};
    PairFacts(a, b);
    ClosureOfA(g, a, b, c, d);
    SortedTwo(a, b);
    DropAtBelow(g, s, 1);
  }

  /** Two names in ascending order. */
  lemma PairFacts(a: string, b: string)
    requires StrLess(a, b)
    ensures {a, b} - {b} == {a} && |{a, b}| == 2
  {
    StrLessIrreflexive(a);
  }

  /** The scan stops no later than a name the test accepts. */
  lemma DropAtBelow(f: DepSet, t: AttrSet, j: nat)
    requires FindDepLhs(f, t).Some? && j < |t|
    requires ReducibleAt(f, FindDepLhs(f, t).value, t)(SortedAttrs(t)[j])
    ensures DropAt(f, t) <= j
  {
  }

  /** The closure of a under a -> b and ab -> cd holds c and d. */
  lemma ClosureOfA(g: DepSet, a: string, b: string, c: string, d: string)
    requires Dependency({a}, {b}) in g && Dependency({a, b}, {c, d}) in g
    ensures {c, d} <= Closure({a}, g) && Closure({a}, g) != {}
  {
    var x := Closure({a}, g);
    assert Closed(x, g);
    assert b in x;
  }

  /** The dependencies a -> b, ab -> c, ab -> d, which reduceRHS makes of
      a -> b, ab -> cd: processLHS on ab -> c drops b (the closure of a
      holds c and d), so ab -> d then finds no dependency with left side
      ab, and reduceLHS as written dereferences findDepLHS's end(). The
      corrected pass is defined on them and keeps them equivalent. */
  lemma ReduceLhsAsWrittenFails(a: string, b: string, c: string, d: string)
    requires StrLess(a, b) && c != d
    ensures var f := {Dependency({a}, {b}), Dependency({a, b}, {c}), Dependency({a, b}, {d})};
      && LhsPassAsWritten(Merge(f), f).None?
      && Equivalent(LhsPass(Merge(f), f), f)
  {
    var f := {Dependency({a}, {b}), Dependency({a, b}, {c}), Dependency({a, b}, {d})};
    var g := Merge(f);
    var s := {a, b};
    StrLessIrreflexive(a);
    FirstTwoNames(f, a, b, c, d);
    ExampleMerged(f, a, b, c, d);
    ExampleReducible(g, a, b, c, d);
    ProcessSpecLosesLhs(g, s, s);
    AsWrittenSkip(g, f, Dependency({a}, {b}));
    ExampleRest(g, {Dependency(s, {c}), Dependency(s, {d})}, s, c, d);
    LhsPassEquivalent(g, f);
    MergeEquivalent(f);
  }

  /** After the skipped a -> b, the first of ab -> c and ab -> d removes
      the left side ab and the second finds none. */
  lemma ExampleRest(g: DepSet, rest: DepSet, s: AttrSet, c: string, d: string)
    requires c != d && 1 < |s|
    requires rest == {Dependency(s, {c}), Dependency(s, {d})}
    requires FindDepLhs(g, s).Some? && FindDepLhs(ProcessSpec(g, s), s).None?
    ensures LhsPassAsWritten(g, rest).None?
  {
    var first, other := RestShape(rest, s, c, d);
    AsWrittenFirst(g, rest, s, first, other);
  }

  /** Both dependencies left have the left side `s`. */
  lemma RestShape(rest: DepSet, s: AttrSet, c: string, d: string) returns (first: Dependency, other: Dependency)
    requires c != d && rest == {Dependency(s, {c}), Dependency(s, {d})}
    ensures rest != {} && first == LeastDep(rest)
    ensures other in rest && other != first && first.lhs == s && other.lhs == s
    ensures forall x :: x in rest ==> x.lhs == s
  {
    first := LeastDep(rest);
    other := if first == Dependency(s, {c}) then Dependency(s, {d}) else Dependency(s, {c});
  }

  /** One dependency of the for_each of reduceLHS. */
  method LhsRound(attrs: AttrSet, deps: DepSet, d: Dependency) returns (deps': DepSet)
    requires UniqueLhs(deps) && ProperSides(deps) && DepAttribs(deps) <= attrs
    ensures deps' == LhsStep(deps, d)
    ensures UniqueLhs(deps') && ProperSides(deps') && DepAttribs(deps') <= attrs
  {
    deps' := deps;
    if 1 < |d.lhs| && FindDepLhs(deps, d.lhs).Some? {
      var reduced;
      deps', reduced := ProcessLhs(attrs, deps, d);
    }
  }

  /** One unfolding of LhsPass. */
  lemma LhsPassNext(g: DepSet, todo: DepSet, d: Dependency)
    requires todo != {} && d == LeastDep(todo)
    ensures LhsPass(g, todo) == LhsPass(LhsStep(g, d), todo - {d})
  {
  }

  /** A scratch relation given the dependencies `f` with update, as
      reduceLHS, reduceRules and getMinimalCover build one
      (relation.cc:661-662, 703-704, 622-623): its attributes are those the
      dependencies mention and its dependencies are `f` merged. */
  method Scratch(f: DepSet) returns (attrs: AttrSet, deps: DepSet)
    requires ProperSides(f)
    ensures attrs == DepAttribs(f) && deps == Merge(f)
    ensures UniqueLhs(deps) && ProperSides(deps) && DepAttribs(deps) <= attrs
  {
    var count;
    attrs, deps, count := InsertEach({}, {}, f);
    assert {} + f == f;
  }

  /** reduceLHS(dep) (relation.cc:660-670): a scratch relation takes the
      dependencies with update, processLHS runs on each dependency of the
      argument in ascending order, and the right sides of the result are
      split. */
  method ReduceLhs(f: DepSet) returns (r: DepSet)
    requires ProperSides(f)
    ensures r == SplitRhs(LhsPass(Merge(f), f))
    ensures ProperSides(r) && DepAttribs(r) <= DepAttribs(f)
  {
    var attrs, deps := Scratch(f);
    var todo := f;
    while todo != {}
      invariant UniqueLhs(deps) && ProperSides(deps) && DepAttribs(deps) <= attrs
      invariant LhsPass(deps, todo) == LhsPass(Merge(f), f)
      decreases |todo|
    {
      var d := LeastDep(todo);
      LhsPassNext(deps, todo, d);
      deps := LhsRound(attrs, deps, d);
      todo := todo - {d};
    }
    r := ReduceRhs(deps);
    SplitRhsSingle(deps);
  }

  /** Replacing a left side by a smaller non-empty one keeps both sides of
      every dependency non-empty. */
  lemma ReducedNonEmpty(f: DepSet, t: AttrSet, i: nat)
    requires ProperSides(f) && FindDepLhs(f, t).Some? && 1 < |t| && i < |t|
    ensures ProperSides(Reduced(f, t, i))
  {
    var e := FindDepLhs(f, t).value;
    ReducedIs(f, t, i);
    assert Shrink(t, i) != {};
    NonEmptyReplacement(f - {e}, Dependency(Shrink(t, i), e.rhs));
  }

  /** A dependency with proper sides merged into a set whose sides are
      proper. */
  lemma NonEmptyReplacement(g: DepSet, n: Dependency)
    requires ProperSides(g) && Proper(n)
    ensures ProperSides(Merge(g + {n}))
  {
    MergeProper(g + {n});
  }

  /** processLHS keeps both sides of every dependency non-empty. */
  lemma {:induction false} ProcessSpecNonEmpty(f: DepSet, t: AttrSet)
    requires ProperSides(f) && FindDepLhs(f, t).Some?
    ensures ProperSides(ProcessSpec(f, t))
    decreases |t|
  {
    if |t| > 1 && DropAt(f, t) < |t| {
      var i := DropAt(f, t);
      ProcessSpecNext(f, t, i);
      ReducedNonEmpty(f, t, i);
      ProcessSpecNonEmpty(Reduced(f, t, i), Shrink(t, i));
    } else {
      ProcessSpecStop(f, t);
    }
  }

  /** reduceLHS keeps both sides of every dependency non-empty. */
  lemma {:induction false} LhsPassNonEmpty(g: DepSet, todo: DepSet)
    requires ProperSides(g)
    ensures ProperSides(LhsPass(g, todo))
    decreases |todo|
  {
    if todo != {} {
      var d := LeastDep(todo);
      LhsPassNext(g, todo, d);
      LhsStepNonEmpty(g, d);
      LhsPassNonEmpty(LhsStep(g, d), todo - {d});
    }
  }

  /** One step of reduceLHS keeps both sides of every dependency non-empty. */
  lemma LhsStepNonEmpty(g: DepSet, d: Dependency)
    requires ProperSides(g)
    ensures ProperSides(LhsStep(g, d))
  {
    if 1 < |d.lhs| && FindDepLhs(g, d.lhs).Some? {
      ProcessSpecNonEmpty(g, d.lhs);
    }
  }

  // ---------------------------------------------------------------------
  // reduceRules (relation.cc:680-693)
  // ---------------------------------------------------------------------

  /** What reduceRules does with the dependency `d` of its argument: `d` is
      removed from the scratch relation, and added back (with update, so
      merged) unless the closure of its left side under what remains
      still holds its right side. */
  function RuleStep(g: DepSet, d: Dependency): DepSet {
    var h := Removed(g, d);
    if d.rhs <= Closure(d.lhs, h) then h else Merge(h + {d})
  }

  /** The loop of reduceRules over the dependencies `todo`, in ascending
      order, starting from the scratch dependency set `g`. */
  function RulesPass(g: DepSet, todo: DepSet): DepSet
    decreases |todo|
  {
    if todo == {} then g
    else
      var d := LeastDep(todo);
      RulesPass(RuleStep(g, d), todo - {d})
  }

  /** One unfolding of RulesPass. */
  lemma RulesPassNext(g: DepSet, todo: DepSet, d: Dependency)
    requires todo != {} && d == LeastDep(todo)
    ensures RulesPass(g, todo) == RulesPass(RuleStep(g, d), todo - {d})
  {
  }

  /** A dependency the set derives can be dropped or put back without
      changing what the set derives. */
  lemma RuleStepEquivalent(g: DepSet, d: Dependency)
    requires UniqueLhs(g) && d.rhs <= Closure(d.lhs, g)
    ensures Equivalent(RuleStep(g, d), g)
  {
    var h := Removed(g, d);
    if d.rhs <= Closure(d.lhs, h) {
      DropRedundant(g, d, h);
    } else {
      KeepNeeded(g, d, h);
    }
  }

  /** Dropping a dependency the others derive keeps the set equivalent. */
  lemma DropRedundant(g: DepSet, d: Dependency, h: DepSet)
    requires UniqueLhs(g) && h == Removed(g, d) && d.rhs <= Closure(d.lhs, h)
    ensures Equivalent(h, g)
  {
    RemovedWeakens(g, d);
    RemovedPlusImplies(g, d);
    forall x | x in h + {d} ensures x.rhs <= Closure(x.lhs, h) {
      if x in h {
        MemberImplied(h, x);
      }
    }
    ImpliesTransitive(h, h + {d}, g);
    ImpliesBothWays(h, g);
  }

  /** Putting back a dependency the set derives keeps it equivalent. */
  lemma KeepNeeded(g: DepSet, d: Dependency, h: DepSet)
    requires UniqueLhs(g) && h == Removed(g, d) && d.rhs <= Closure(d.lhs, g)
    ensures Equivalent(Merge(h + {d}), g)
  {
    RemovedWeakens(g, d);
    RemovedPlusImplies(g, d);
    assert Implies(g, h + {d});
    ImpliesBothWays(h + {d}, g);
    MergeEquivalent(h + {d});
  }

  /** A dependency of `f` follows from `f`. */
  lemma MemberImplied(f: DepSet, d: Dependency)
    requires d in f
    ensures d.rhs <= Closure(d.lhs, f)
  {
    assert Closed(Closure(d.lhs, f), f);
  }

  /** One step of reduceRules keeps the scratch set valid. */
  lemma RuleStepValid(g: DepSet, d: Dependency)
    requires UniqueLhs(g) && ProperSides(g) && Proper(d)
    ensures UniqueLhs(RuleStep(g, d)) && ProperSides(RuleStep(g, d))
  {
    var h := Removed(g, d);
    RemovedValid(g, d, DepAttribs(g));
    MergeProper(h + {d});
  }

  /** reduceRules keeps the set equivalent to the one it started from: each
      dependency it drops is derived by those that remain. */
  lemma {:induction false} RulesPassEquivalent(g: DepSet, todo: DepSet, f: DepSet)
    requires UniqueLhs(g) && ProperSides(g) && ProperSides(f)
    requires Equivalent(g, f) && todo <= f
    ensures Equivalent(RulesPass(g, todo), f)
    ensures UniqueLhs(RulesPass(g, todo)) && ProperSides(RulesPass(g, todo))
    decreases |todo|
  {
    if todo != {} {
      var d := LeastDep(todo);
      RuleStepKeeps(g, d, f);
      RulesPassEquivalent(RuleStep(g, d), todo - {d}, f);
    }
  }

  /** One step of reduceRules on a member `d` of `f` keeps the set
      equivalent to `f`, with unique left sides and proper sides. */
  lemma RuleStepKeeps(g: DepSet, d: Dependency, f: DepSet)
    requires UniqueLhs(g) && ProperSides(g) && ProperSides(f)
    requires Equivalent(g, f) && d in f
    ensures Equivalent(RuleStep(g, d), f)
    ensures UniqueLhs(RuleStep(g, d)) && ProperSides(RuleStep(g, d))
  {
    MemberImplied(f, d);
    assert Closure(d.lhs, g) == Closure(d.lhs, f);
    RuleStepEquivalent(g, d);
    RuleStepValid(g, d);
  }

  /** One dependency of the loop of reduceRules: removeDependency, the
      closure of its left side, and addDependency when the closure does not
      hold its right side. */
  method RuleRound(attrs: AttrSet, deps: DepSet, d: Dependency) returns (attrs': AttrSet, deps': DepSet)
    requires UniqueLhs(deps) && ProperSides(deps) && DepAttribs(deps) <= attrs
    requires Proper(d)
    ensures deps' == RuleStep(deps, d)
    ensures UniqueLhs(deps') && ProperSides(deps') && DepAttribs(deps') <= attrs'
  {
    RemovedValid(deps, d, attrs);
    var h, found := Remove(attrs, deps, d);
    var c := ClosureOf(d.lhs, h);
    attrs', deps' := attrs, h;
    if !IsSubset(c, d.rhs) {
      Widened(attrs, d);
      var r;
      attrs', deps', r := Insert(attrs, h, d, true);
    }
  }

  /** One turn of the loop of reduceRules: the least dependency left in
      `todo` is handled. */
  method RulesTurn(attrs: AttrSet, deps: DepSet, todo: DepSet, f: DepSet) returns (attrs': AttrSet, deps': DepSet, todo': DepSet)
    requires todo != {} && todo <= f && ProperSides(f)
    requires UniqueLhs(deps) && ProperSides(deps) && DepAttribs(deps) <= attrs
    ensures todo' <= f && |todo'| < |todo|
    ensures UniqueLhs(deps') && ProperSides(deps') && DepAttribs(deps') <= attrs'
    ensures RulesPass(deps', todo') == RulesPass(deps, todo)
  {
    var d := LeastDep(todo);
    RulesPassNext(deps, todo, d);
    attrs', deps' := RuleRound(attrs, deps, d);
    todo' := todo - {d};
  }

  /** reduceRules(dep) (relation.cc:680-693): a scratch relation takes the
      dependencies with update, and each dependency of the argument, in
      ascending order, is removed and put back only when the others do not
      derive it. */
  method ReduceRules(f: DepSet) returns (r: DepSet)
    requires ProperSides(f)
    ensures r == RulesPass(Merge(f), f)
    ensures UniqueLhs(r) && ProperSides(r)
  {
    var attrs, deps := Scratch(f);
    var todo := f;
    while todo != {}
      invariant todo <= f
      invariant UniqueLhs(deps) && ProperSides(deps) && DepAttribs(deps) <= attrs
      invariant RulesPass(deps, todo) == RulesPass(Merge(f), f)
      decreases |todo|
    {
      attrs, deps, todo := RulesTurn(attrs, deps, todo, f);
    }
    r := deps;
  }

  // ---------------------------------------------------------------------
  // getMinimalCover (relation.cc:608-624)
  // ---------------------------------------------------------------------

  /** The minimal cover of `f`: right sides split, left sides reduced,
      redundant dependencies dropped. */
  function MinimalCoverOf(f: DepSet): DepSet {
    var s := SplitRhs(f);
    var l := SplitRhs(LhsPass(Merge(s), s));
    RulesPass(Merge(l), l)
  }

  /** The minimal cover determines the same closures as the dependencies it
      was computed from, has one dependency per left side, and no empty
      side. */
  lemma MinimalCoverEquivalent(f: DepSet)
    requires ProperSides(f)
    ensures Equivalent(MinimalCoverOf(f), f)
    ensures UniqueLhs(MinimalCoverOf(f)) && ProperSides(MinimalCoverOf(f))
  {
    var s := SplitRhs(f);
    SplitRhsEquivalent(f);
    SplitRhsSingle(f);
    MergeEquivalent(s);
    MergeProper(s);
    var p := LhsPass(Merge(s), s);
    LhsPassEquivalent(Merge(s), s);
    LhsPassNonEmpty(Merge(s), s);
    var l := SplitRhs(p);
    SplitRhsEquivalent(p);
    SplitRhsSingle(p);
    MergeEquivalent(l);
    MergeProper(l);
    RulesPassEquivalent(Merge(l), l, l);
    forall x ensures Closure(x, MinimalCoverOf(f)) == Closure(x, f) {
      assert Closure(x, l) == Closure(x, p);
      assert Closure(x, p) == Closure(x, Merge(s));
      assert Closure(x, Merge(s)) == Closure(x, s);
    }
  }

  // ---------------------------------------------------------------------
  // Minimality of the cover
  // ---------------------------------------------------------------------

  /** The atom `e` of `f` is needed: the other atoms of `f` do not derive it. */
  predicate Needed(f: DepSet, e: Dependency) {
    !(e.rhs <= Closure(e.lhs, Atoms(f) - {e}))
  }

  /** No name can be taken off the left side of `u`: without any one of
      them, the closure under `f` misses part of its right side. */
  predicate LhsIrreducible(f: DepSet, u: Dependency) {
    forall a :: a in u.lhs ==> !(u.rhs <= Closure(u.lhs - {a}, f))
  }

  /** One step of reduceRules on one of the atoms: the atom is dropped when
      the rest derives it, and otherwise kept, and then needed. */
  lemma RuleStepAtoms(g: DepSet, d: Dependency)
    requires UniqueLhs(g) && d in Atoms(g)
    ensures d.rhs <= Closure(d.lhs, Removed(g, d)) ==> Atoms(RuleStep(g, d)) == Atoms(g) - {d}
    ensures !(d.rhs <= Closure(d.lhs, Removed(g, d))) ==> Atoms(RuleStep(g, d)) == Atoms(g)
    ensures d in Atoms(RuleStep(g, d)) ==> Needed(RuleStep(g, d), d)
  {
    var h := Removed(g, d);
    AtomsRemoved(g, d);
    if !(d.rhs <= Closure(d.lhs, h)) {
      KeptAtom(h, d, Atoms(g));
    }
  }

  /** The kept case of RuleStepAtoms, on the set `h` left by the removal. */
  lemma KeptAtom(h: DepSet, d: Dependency, all: DepSet)
    requires d in all && |d.rhs| == 1 && Atoms(h) == all - {d}
    requires !(d.rhs <= Closure(d.lhs, h))
    ensures Atoms(Merge(h + {d})) == all
    ensures Needed(Merge(h + {d}), d)
  {
    var m := Merge(h + {d});
    PutBackAtoms(h, d, all);
    assert Atoms(m) - {d} == Atoms(h);
    AtomsEquivalent(h);
    NeededFrom(m, h, d);
  }

  /** Putting the atom `d` back into `h` and merging restores the atoms. */
  lemma PutBackAtoms(h: DepSet, d: Dependency, all: DepSet)
    requires d in all && |d.rhs| == 1 && Atoms(h) == all - {d}
    ensures Atoms(Merge(h + {d})) == all
  {
    var a := h + {d};
    AtomsAdd(h, d);
    assert Atoms(a) == all;
    AtomsMerge(a);
  }

  /** An atom is needed when the atoms of `m` other than it are those of a
      set that does not derive it. */
  lemma NeededFrom(m: DepSet, h: DepSet, d: Dependency)
    requires Atoms(m) - {d} == Atoms(h) && Equivalent(Atoms(h), h)
    requires !(d.rhs <= Closure(d.lhs, h))
    ensures Needed(m, d)
  {
    assert Closure(d.lhs, Atoms(h)) == Closure(d.lhs, h);
  }

  /** An atom needed in a set stays needed when atoms are taken away. */
  lemma NeededFewer(g: DepSet, g': DepSet, e: Dependency)
    requires Atoms(g') <= Atoms(g) && Needed(g, e)
    ensures Needed(g', e)
  {
    ClosureFewer(e.lhs, Atoms(g') - {e}, Atoms(g) - {e});
  }

  /** reduceRules leaves only needed atoms: each atom it visits is kept
      only when the others do not derive it, and one that is needed stays
      needed as later atoms are dropped. */
  lemma {:induction false} RulesPassNeeded(g: DepSet, todo: DepSet)
    requires UniqueLhs(g) && ProperSides(g) && todo <= Atoms(g)
    requires forall e :: e in Atoms(g) && e !in todo ==> Needed(g, e)
    ensures Atoms(RulesPass(g, todo)) <= Atoms(g)
    ensures forall e :: e in Atoms(RulesPass(g, todo)) ==> Needed(RulesPass(g, todo), e)
    decreases |todo|
  {
    if todo != {} {
      var d := LeastDep(todo);
      RuleStepNeeded(g, todo, d);
      RulesPassNeeded(RuleStep(g, d), todo - {d});
    }
  }

  /** One step of RulesPassNeeded: the invariant holds of the set after the
      step and the atoms left to visit. */
  lemma RuleStepNeeded(g: DepSet, todo: DepSet, d: Dependency)
    requires UniqueLhs(g) && ProperSides(g) && todo <= Atoms(g) && d in todo
    requires forall e :: e in Atoms(g) && e !in todo ==> Needed(g, e)
    ensures UniqueLhs(RuleStep(g, d)) && ProperSides(RuleStep(g, d))
    ensures todo - {d} <= Atoms(RuleStep(g, d)) <= Atoms(g)
    ensures forall e :: e in Atoms(RuleStep(g, d)) && e !in todo - {d} ==> Needed(RuleStep(g, d), e)
  {
    AtomsProper(g);
    assert Proper(d);
    RuleStepValid(g, d);
    RuleStepAtoms(g, d);
    StillNeeded(g, RuleStep(g, d), todo, d);
  }

  /** The visited atoms of `g` stay needed in `g'`, which has no atoms
      besides those of `g`, and in which `d` is needed if present. */
  lemma StillNeeded(g: DepSet, g': DepSet, todo: DepSet, d: Dependency)
    requires Atoms(g') <= Atoms(g) && (d in Atoms(g') ==> Needed(g', d))
    requires forall e :: e in Atoms(g) && e !in todo ==> Needed(g, e)
    ensures forall e :: e in Atoms(g') && e !in todo - {d} ==> Needed(g', e)
  {
    forall e | e in Atoms(g') && e !in todo - {d} ensures Needed(g', e) {
      if e != d {
        NeededFewer(g, g', e);
      }
    }
  }

  /** With no empty left side, the closure of the empty set is empty. */
  lemma ClosureOfNothing(f: DepSet)
    requires ProperSides(f)
    ensures Closure({}, f) == {}
  {
    ClosureLeast({}, {}, f);
  }

  /** After one replacement, a dependency whose left side is not the new
      one was already in the set, with a left side other than `t`. */
  lemma ReducedKeeps(f: DepSet, t: AttrSet, i: nat, u: Dependency)
    requires UniqueLhs(f) && FindDepLhs(f, t).Some? && i < |t|
    requires u in Reduced(f, t, i) && u.lhs != Shrink(t, i)
    ensures u in f && u.lhs != t
  {
    var e := FindDepLhs(f, t).value;
    ReducedIs(f, t, i);
    ReplacedKeeps(f, e, Dependency(Shrink(t, i), e.rhs), u);
  }

  /** Replacing the member `e` of a set with unique left sides by `n` and
      merging leaves every dependency with another left side than `n`'s as
      it was. */
  lemma ReplacedKeeps(f: DepSet, e: Dependency, n: Dependency, u: Dependency)
    requires UniqueLhs(f) && e in f
    requires u in Merge((f - {e}) + {n}) && u.lhs != n.lhs
    ensures u in f && u.lhs != e.lhs
  {
    var h := (f - {e}) + {n};
    MergeMembers(h);
    var w :| w in h && w.lhs == u.lhs;
    assert w in f - {e};
    forall a ensures a in Group(h, u.lhs) <==> a in w.rhs {
      if a in Group(h, u.lhs) {
        var x :| x in h && x.lhs == u.lhs && a in x.rhs;
        assert x in f;
      }
    }
    assert u.rhs == w.rhs;
  }

  /** Where processLHS stops on `t`, the dependency with left side `t` has
      no name that can be dropped: the scan tried every one. */
  lemma StopIrreducible(f: DepSet, t: AttrSet)
    requires UniqueLhs(f) && ProperSides(f) && FindDepLhs(f, t).Some?
    requires |t| <= 1 || DropAt(f, t) == |t|
    ensures forall u :: u in f && u.lhs == t ==> LhsIrreducible(f, u)
  {
    forall u, a | u in f && u.lhs == t && a in t ensures !(u.rhs <= Closure(t - {a}, f)) {
      StopMissed(f, t, u, a);
    }
  }

  /** One name `a` of the left side where processLHS stops cannot be
      dropped: without it nothing, or too little, is determined. */
  lemma StopMissed(f: DepSet, t: AttrSet, u: Dependency, a: string)
    requires UniqueLhs(f) && ProperSides(f) && FindDepLhs(f, t).Some?
    requires |t| <= 1 || DropAt(f, t) == |t|
    requires u in f && u.lhs == t && a in t
    ensures !(u.rhs <= Closure(t - {a}, f))
  {
    if |t| <= 1 {
      SmallLhsMissed(f, u, a);
    } else {
      FindDepLhsUnique(f, t);
      ScanMissed(f, t, a);
      assert FindDepLhs(f, t).value == u;
      assert Proper(u);
    }
  }

  /** A left side of one name cannot lose it: nothing determines nothing. */
  lemma SmallLhsMissed(f: DepSet, u: Dependency, a: string)
    requires ProperSides(f) && u in f && |u.lhs| <= 1 && a in u.lhs
    ensures !(u.rhs <= Closure(u.lhs - {a}, f))
  {
    assert |u.lhs - {a}| == 0;
    ClosureOfNothing(f);
    assert Proper(u);
  }

  /** A scan that runs to the end rejected every name of `t`. */
  lemma ScanMissed(f: DepSet, t: AttrSet, a: string)
    requires FindDepLhs(f, t).Some? && DropAt(f, t) == |t| && a in t
    ensures !ReducibleAt(f, FindDepLhs(f, t).value, t)(a)
  {
    var v := SortedAttrs(t);
    assert a in v;
    var j :| 0 <= j < |v| && v[j] == a;
  }

  /** processLHS on `t` leaves every dependency it touches, and every one
      with a left side other than `t` that was irreducible, irreducible;
      those with a left side in `P` are not followed. */
  lemma {:induction false} ProcessSpecIrreducible(f: DepSet, t: AttrSet, P: set<AttrSet>)
    requires UniqueLhs(f) && ProperSides(f) && FindDepLhs(f, t).Some?
    requires forall u :: u in f && u.lhs != t && u.lhs !in P ==> LhsIrreducible(f, u)
    ensures UniqueLhs(ProcessSpec(f, t))
    ensures forall u :: u in ProcessSpec(f, t) && u.lhs !in P ==> LhsIrreducible(ProcessSpec(f, t), u)
    decreases |t|
  {
    if |t| > 1 && DropAt(f, t) < |t| {
      var i := DropAt(f, t);
      ProcessSpecNext(f, t, i);
      ReducedIrreducible(f, t, i, P);
      ProcessSpecIrreducible(Reduced(f, t, i), Shrink(t, i), P);
    } else {
      ProcessSpecStop(f, t);
      StopIrreducible(f, t);
    }
  }

  /** Irreducibility depends only on the closures the set determines. */
  lemma IrreducibleEquivalent(f: DepSet, g: DepSet, u: Dependency)
    requires Equivalent(f, g) && LhsIrreducible(g, u)
    ensures LhsIrreducible(f, u)
  {
    forall a | a in u.lhs ensures !(u.rhs <= Closure(u.lhs - {a}, f)) {
      assert Closure(u.lhs - {a}, f) == Closure(u.lhs - {a}, g);
    }
  }

  /** One replacement of processLHS keeps the irreducible dependencies
      with other left sides irreducible. */
  lemma ReducedIrreducible(f: DepSet, t: AttrSet, i: nat, P: set<AttrSet>)
    requires UniqueLhs(f) && ProperSides(f) && FindDepLhs(f, t).Some?
    requires 1 < |t| && i == DropAt(f, t) && i < |t|
    requires forall u :: u in f && u.lhs != t && u.lhs !in P ==> LhsIrreducible(f, u)
    ensures UniqueLhs(Reduced(f, t, i)) && ProperSides(Reduced(f, t, i))
    ensures forall u :: u in Reduced(f, t, i) && u.lhs != Shrink(t, i) && u.lhs !in P ==> LhsIrreducible(Reduced(f, t, i), u)
  {
    var f' := Reduced(f, t, i);
    ReducedEquivalent(f, t, i);
    ReducedNonEmpty(f, t, i);
    forall u | u in f' && u.lhs != Shrink(t, i) && u.lhs !in P ensures LhsIrreducible(f', u) {
      ReducedKeeps(f, t, i, u);
      IrreducibleEquivalent(f', f, u);
    }
  }

  /** One step of reduceLHS: the dependency with the left side of `d`, and
      every other irreducible one outside `P`, is irreducible afterwards. */
  lemma LhsStepIrreducible(g: DepSet, d: Dependency, P: set<AttrSet>)
    requires UniqueLhs(g) && ProperSides(g)
    requires forall u :: u in g && u.lhs != d.lhs && u.lhs !in P ==> LhsIrreducible(g, u)
    ensures UniqueLhs(LhsStep(g, d))
    ensures forall u :: u in LhsStep(g, d) && u.lhs !in P ==> LhsIrreducible(LhsStep(g, d), u)
  {
    if 1 < |d.lhs| && FindDepLhs(g, d.lhs).Some? {
      ProcessSpecIrreducible(g, d.lhs, P);
    } else if FindDepLhs(g, d.lhs).Some? {
      StopIrreducible(g, d.lhs);
    }
  }

  /** reduceLHS leaves no dependency with a name that can be dropped from
      its left side, once every left side is among those it visits. */
  lemma {:induction false} LhsPassIrreducible(g: DepSet, todo: DepSet)
    requires UniqueLhs(g) && ProperSides(g)
    requires forall u :: u in g && u.lhs !in Lhss(todo) ==> LhsIrreducible(g, u)
    ensures UniqueLhs(LhsPass(g, todo))
    ensures forall u :: u in LhsPass(g, todo) ==> LhsIrreducible(LhsPass(g, todo), u)
    decreases |todo|
  {
    if todo != {} {
      var d := LeastDep(todo);
      LhsPassStep(g, todo, d);
      LhsPassIrreducible(LhsStep(g, d), todo - {d});
    }
  }

  /** After the first step of reduceLHS, the dependencies whose left sides
      are not left to visit are irreducible. */
  lemma LhsPassStep(g: DepSet, todo: DepSet, d: Dependency)
    requires UniqueLhs(g) && ProperSides(g) && d in todo
    requires forall u :: u in g && u.lhs !in Lhss(todo) ==> LhsIrreducible(g, u)
    ensures UniqueLhs(LhsStep(g, d)) && ProperSides(LhsStep(g, d))
    ensures forall u :: u in LhsStep(g, d) && u.lhs !in Lhss(todo - {d}) ==> LhsIrreducible(LhsStep(g, d), u)
  {
    assert Lhss(todo) == Lhss(todo - {d}) + {d.lhs};
    LhsStepIrreducible(g, d, Lhss(todo - {d}));
    LhsStepNonEmpty(g, d);
  }

  /** A needed atom `e` of `m` that comes from an irreducible dependency `u`
      of an equivalent set `p` is itself irreducible: if the closure of the
      left side without `a` held `e`'s right side, then either it holds `a`
      too, and so all of `u`'s right side, or the atom `e` never fires in
      it, and the other atoms derive `e`. */
  lemma AtomIrreducible(p: DepSet, m: DepSet, u: Dependency, e: Dependency)
    requires Equivalent(m, p) && u in p && LhsIrreducible(p, u)
    requires e in Atoms(m) && Needed(m, e) && e.lhs == u.lhs
    ensures LhsIrreducible(m, e)
  {
    forall a | a in e.lhs ensures !(e.rhs <= Closure(e.lhs - {a}, m)) {
      var c := Closure(e.lhs - {a}, m);
      if a in c {
        WholeLhsInside(p, m, u, a);
      } else if e.rhs <= c {
        AtomNeverFires(m, e, a);
      }
    }
  }

  /** The first case of AtomIrreducible: a closure that holds the left side
      holds its closure. */
  lemma WholeLhsInside(p: DepSet, m: DepSet, u: Dependency, a: string)
    requires Equivalent(m, p) && u in p && a in Closure(u.lhs - {a}, m)
    ensures u.rhs <= Closure(u.lhs - {a}, p)
  {
    var c := Closure(u.lhs - {a}, m);
    ClosureLeast(u.lhs, c, m);
    MemberImplied(p, u);
    assert Closure(u.lhs, m) == Closure(u.lhs, p);
  }

  /** The second case of AtomIrreducible: when the closure of the left side
      without `a` misses `a`, the atom `e` does not fire in it, so the other
      atoms reach the same closure. */
  lemma AtomNeverFires(m: DepSet, e: Dependency, a: string)
    requires e in Atoms(m) && a in e.lhs && a !in Closure(e.lhs - {a}, m)
    ensures Closure(e.lhs - {a}, m) <= Closure(e.lhs, Atoms(m) - {e})
  {
    var x := e.lhs - {a};
    var rest := Atoms(m) - {e};
    var dd := Closure(x, rest);
    AtomsEquivalent(m);
    ClosureFewer(x, rest, Atoms(m));
    assert Closed(dd, Atoms(m));
    ClosureLeast(x, dd, Atoms(m));
    ClosureMonotone(x, e.lhs, rest);
  }

  /** The set reduceLHS returns in getMinimalCover: left sides reduced
      after the right sides are split. */
  function LhsReduced(f: DepSet): DepSet {
    var s := SplitRhs(f);
    LhsPass(Merge(s), s)
  }

  /** After reduceLHS no dependency has a name that can be dropped from its
      left side, and the set is still equivalent to the one given. */
  lemma LhsReducedIrreducible(f: DepSet)
    requires ProperSides(f)
    ensures forall u :: u in LhsReduced(f) ==> LhsIrreducible(LhsReduced(f), u)
    ensures Equivalent(LhsReduced(f), f) && ProperSides(LhsReduced(f))
  {
    var s := SplitRhs(f);
    SplitRhsSingle(f);
    MergeProper(s);
    MergeMembers(s);
    LhsPassIrreducible(Merge(s), s);
    LhsPassNonEmpty(Merge(s), s);
    SplitRhsEquivalent(f);
    MergeEquivalent(s);
    LhsPassEquivalent(Merge(s), s);
  }

  /** After reduceRules every atom of the cover is needed, and each is a
      piece of a dependency reduceLHS returned. */
  lemma RulesPassAtomsNeeded(f: DepSet)
    requires ProperSides(f)
    ensures MinimalCoverOf(f) == RulesPass(Merge(SplitRhs(LhsReduced(f))), SplitRhs(LhsReduced(f)))
    ensures Atoms(MinimalCoverOf(f)) <= SplitRhs(LhsReduced(f))
    ensures forall e :: e in Atoms(MinimalCoverOf(f)) ==> Needed(MinimalCoverOf(f), e)
  {
    var p := LhsReduced(f);
    LhsReducedIrreducible(f);
    var l := SplitRhs(p);
    SplitRhsSingle(p);
    AtomsOfSingles(l);
    AtomsMerge(l);
    assert Atoms(Merge(l)) == l;
    MergeProper(l);
    RulesPassNeeded(Merge(l), l);
  }

  /** The minimal cover is minimal: no atom of it follows from the others,
      and no name can be taken off the left side of any atom without losing
      its right side. */
  lemma MinimalCoverMinimal(f: DepSet)
    requires ProperSides(f)
    ensures forall e :: e in Atoms(MinimalCoverOf(f)) ==> Needed(MinimalCoverOf(f), e)
    ensures forall e :: e in Atoms(MinimalCoverOf(f)) ==> LhsIrreducible(MinimalCoverOf(f), e)
  {
    var p := LhsReduced(f);
    var m := MinimalCoverOf(f);
    LhsReducedIrreducible(f);
    RulesPassAtomsNeeded(f);
    MinimalCoverEquivalent(f);
    assert Equivalent(m, p) by {
      forall x ensures Closure(x, m) == Closure(x, p) {
        assert Closure(x, m) == Closure(x, f);
      }
    }
    AtomsIrreducible(p, m);
  }

  /** Every atom of `m` is irreducible when each is needed and is a piece
      of an irreducible dependency of an equivalent set `p`. */
  lemma AtomsIrreducible(p: DepSet, m: DepSet)
    requires Equivalent(m, p) && forall u :: u in p ==> LhsIrreducible(p, u)
    requires Atoms(m) <= SplitRhs(p) && forall e :: e in Atoms(m) ==> Needed(m, e)
    ensures forall e :: e in Atoms(m) ==> LhsIrreducible(m, e)
  {
    forall e | e in Atoms(m) ensures LhsIrreducible(m, e) {
      var u :| u in p && e in SplitOne(u);
      AtomIrreducible(p, m, u, e);
    }
  }

  /** getMinimalCover (relation.cc:608-624): reduceRHS, reduceLHS and
      reduceRules in turn, then a scratch relation takes the result with
      update and reducedDependencies merges it, which changes nothing. The
      dependencies must have proper sides, as those of a relation do. */
  method GetMinimalCover(f: DepSet) returns (r: DepSet)
    requires ProperSides(f)
    ensures r == MinimalCoverOf(f)
  {
    var min := ReduceRhs(f);
    SplitRhsSingle(f);
    min := ReduceLhs(min);
    min := ReduceRules(min);
    var attrs, deps := Scratch(min);
    r := MergeLoop(deps);
    MergeIdentity(min);
  }
}
