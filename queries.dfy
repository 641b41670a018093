/** The loop-based queries of a relation: the attribute closure
    (getClosure), the candidate-key search (getCandidatekey with
    getNextIteration) and the collection of violations (getViolation), each
    proved equal to its reference definition. */
module Queries {
  import opened Ordering
  import opened Sets
  import opened SetStrCompare
  import opened TemplateDef
  import opened Utility
  import opened Dependencies
  import opened DependencySets
  import opened Keys
  import opened NormalForms

  // ---------------------------------------------------------------------
  // getClosure (relation.cc:475-490)
  // ---------------------------------------------------------------------

  /** One visit of a closure pass: the least dependency not yet visited
      fires when its left side lies within `ret`, adding its right side, and
      the flag goes up when that grows `ret`. Until the flag goes up, every
      dependency visited that fires adds nothing. */
  method FireLeast(x: AttrSet, f: DepSet, r0: AttrSet, todo: DepSet, ret: AttrSet, flag: bool)
    returns (todo': DepSet, ret': AttrSet, flag': bool)
    requires todo <= f && todo != {}
    requires r0 <= ret <= Closure(x, f)
    requires flag <==> ret != r0
    requires !flag ==> forall d :: d in f - todo && d.lhs <= ret ==> d.rhs <= ret
    ensures todo' <= f && |todo'| < |todo|
    ensures r0 <= ret' <= Closure(x, f)
    ensures flag' <==> ret' != r0
    ensures !flag' ==> forall d :: d in f - todo' && d.lhs <= ret' ==> d.rhs <= ret'
  {
    var d := LeastDep(todo);
    TakeElement(f, todo, d);
    ret', flag' := ret, flag;
    if IsSubset(ret, d.lhs) {
      var size := |ret|;
      ret' := ret + d.rhs;
      SubsetCardinality(ret, ret');
      if size < |ret'| {
        flag' := true;
      }
    }
    todo' := todo - {d};
  }

  /** One pass of the do/while of getClosure: every dependency, in ascending
      order, fires when its left side lies within the set so far. The flag
      says whether the set grew; when it did not, the set is closed. */
  method ClosurePass(x: AttrSet, f: DepSet, r0: AttrSet) returns (ret: AttrSet, flag: bool)
    requires r0 <= Closure(x, f)
    ensures r0 <= ret <= Closure(x, f)
    ensures flag <==> ret != r0
    ensures !flag ==> Closed(ret, f)
  {
    var todo := f;
    ret, flag := r0, false;
    while todo != {}
      invariant todo <= f
      invariant r0 <= ret <= Closure(x, f)
      invariant flag <==> ret != r0
      invariant !flag ==> forall d :: d in f - todo && d.lhs <= ret ==> d.rhs <= ret
      decreases |todo|
    {
      todo, ret, flag := FireLeast(x, f, r0, todo, ret, flag);
    }
    assert f - todo == f;
  }

  /** A strictly larger set within the closure leaves less of it to add. */
  lemma GapShrinks(c: AttrSet, r: AttrSet, r': AttrSet)
    requires r <= r' <= c && r' != r
    ensures |c - r'| < |c - r|
  {
    var a :| a in r' && a !in r;
    assert a in c - r && a !in c - r';
    SubsetCardinality(c - r', c - r);
  }

  /** getClosure(x): `x` grown pass after pass until a pass adds nothing; the
      result is the closure of `x`. */
  method ClosureOf(x: AttrSet, f: DepSet) returns (ret: AttrSet)
    ensures ret == Closure(x, f)
  {
    ret := x;
    var flag := true;
    while flag
      invariant x <= ret <= Closure(x, f)
      invariant !flag ==> Closed(ret, f)
      decreases |Closure(x, f) - ret| + (if flag then 1 else 0)
    {
      var before := ret;
      ret, flag := ClosurePass(x, f, ret);
      if flag {
        GapShrinks(Closure(x, f), before, ret);
      }
    }
    ClosureLeast(x, ret, f);
  }

  // ---------------------------------------------------------------------
  // getNextIteration (relation.cc:77-88)
  // ---------------------------------------------------------------------

  /** `w` grown by each attribute of `attrs` it lacks. */
  function Grown(w: AttrSet, attrs: AttrSet): set<AttrSet> {
    set a | a in attrs && a !in w :: w + {a}
  }

  /** The next level of a union is the union of the next levels. */
  lemma NextLevelAdd(done: set<AttrSet>, w: AttrSet, attrs: AttrSet)
    ensures NextLevel(done + {w}, attrs) == NextLevel(done, attrs) + Grown(w, attrs)
  {
  }

  /** One step of the inner loop of getNextIteration: the least attribute
      not yet tried is inserted into a copy of `w`, which is kept when the
      insertion is new. */
  method GrowLeast(w: AttrSet, attrs: AttrSet, todo: AttrSet, ret: set<AttrSet>, base: set<AttrSet>)
    returns (todo': AttrSet, ret': set<AttrSet>)
    requires todo <= attrs && todo != {}
    requires ret == base + Grown(w, attrs - todo)
    ensures todo' <= attrs && |todo'| < |todo|
    ensures ret' == base + Grown(w, attrs - todo')
  {
    var a := LeastName(todo);
    TakeElement(attrs, todo, a);
    GrownAdd(w, attrs - todo, a);
    var inserted := !Contains(w, a);
    ret' := ret;
    if inserted {
      ret' := ret + {w + {a}};
    }
    todo' := todo - {a};
  }

  /** Trying one more attribute adds `w` grown by it, when `w` lacks it. */
  lemma GrownAdd(w: AttrSet, done: AttrSet, a: string)
    ensures a !in w ==> Grown(w, done + {a}) == Grown(w, done) + {w + {a}}
    ensures a in w ==> Grown(w, done + {a}) == Grown(w, done)
  {
  }

  /** The inner loop of getNextIteration over the attributes, in ascending
      order, for the working set `w`. */
  method GrowEach(w: AttrSet, attrs: AttrSet, base: set<AttrSet>) returns (ret: set<AttrSet>)
    ensures ret == base + Grown(w, attrs)
  {
    var todo := attrs;
    ret := base;
    assert Grown(w, attrs - todo) == {};
    while todo != {}
      invariant todo <= attrs
      invariant ret == base + Grown(w, attrs - todo)
      decreases |todo|
    {
      todo, ret := GrowLeast(w, attrs, todo, ret, base);
    }
    assert attrs - todo == attrs;
  }

  /** The first working set in setstr_compare::less order. */
  function LeastKey(s: set<AttrSet>): (m: AttrSet)
    requires s != {}
    ensures m in s
    ensures forall y :: y in s && y != m ==> SetLess(m, y)
  {
    SetLessIsStrictTotalOrder();
    MinBy(s, SetLess)
  }

  /** getNextIteration(keys, attribs): every working set grown by one
      attribute it lacks. */
  method NextIteration(keys: set<AttrSet>, attrs: AttrSet) returns (ret: set<AttrSet>)
    ensures ret == NextLevel(keys, attrs)
  {
    var todo := keys;
    ret := {};
    assert NextLevel(keys - todo, attrs) == {};
    while todo != {}
      invariant todo <= keys
      invariant ret == NextLevel(keys - todo, attrs)
      decreases |todo|
    {
      var w := LeastKey(todo);
      TakeElement(keys, todo, w);
      NextLevelAdd(keys - todo, w, attrs);
      ret := GrowEach(w, attrs, ret);
      todo := todo - {w};
    }
    assert keys - todo == keys;
  }

  // ---------------------------------------------------------------------
  // getCandidatekey (relation.cc:748-776)
  // ---------------------------------------------------------------------

  /** The names on a right side of the dependencies visited so far, once
      one more is visited. */
  lemma AllRhsAdd(done: DepSet, d: Dependency)
    ensures AllRhs(done + {d}) == AllRhs(done) + d.rhs
  {
  }

  /** The inner loop of the seed computation (relation.cc:751-755): every
      dependency, in ascending order, that has `a` on its right erases `a`
      from `ss`. */
  method EraseIfOnRhs(f: DepSet, a: string, ss: AttrSet) returns (ss': AttrSet)
    ensures a in AllRhs(f) ==> ss' == ss - {a}
    ensures a !in AllRhs(f) ==> ss' == ss
  {
    var todo := f;
    ss' := ss;
    assert AllRhs(f - todo) == {};
    while todo != {}
      invariant todo <= f
      invariant a in AllRhs(f - todo) ==> ss' == ss - {a}
      invariant a !in AllRhs(f - todo) ==> ss' == ss
      decreases |todo|
    {
      var d := LeastDep(todo);
      TakeElement(f, todo, d);
      AllRhsAdd(f - todo, d);
      if d.IsPresentRhs(a) {
        ss' := ss - {a};
      }
      todo := todo - {d};
    }
    assert f - todo == f;
  }

  /** The first loop of getCandidatekey (relation.cc:749-758): every
      attribute on some right side is erased, and all attributes are kept
      when none would remain. The loop as written erases the element under
      its own iterator; the model follows the evident intent of visiting
      every attribute once. */
  method SeedOf(attrs: AttrSet, f: DepSet) returns (ss: AttrSet)
    ensures ss == Seed(attrs, f)
  {
    var todo := attrs;
    ss := attrs;
    while todo != {}
      invariant todo <= attrs
      invariant ss == attrs - (attrs - todo) * AllRhs(f)
      decreases |todo|
    {
      var a := LeastName(todo);
      TakeElement(attrs, todo, a);
      ss := EraseIfOnRhs(f, a, ss);
      todo := todo - {a};
    }
    assert attrs - (attrs - todo) * AllRhs(f) == attrs - AllRhs(f);
    if ss == {} {
      ss := attrs;
    }
  }

  /** The working sets getCandidatekey starts from: one singleton per name
      (relation.cc:759-761). */
  method Singletons(ss: AttrSet) returns (working: set<AttrSet>)
    ensures working == set a | a in ss :: {a}
  {
    var todo := ss;
    working := {};
    while todo != {}
      invariant todo <= ss
      invariant working == set a | a in ss - todo :: {a}
      decreases |todo|
    {
      var a := LeastName(todo);
      TakeElement(ss, todo, a);
      working := working + {{a}};
      todo := todo - {a};
    }
    assert ss - todo == ss;
  }

  /** The candidate keys smaller than `n`: those a search that has finished
      the passes below `n` holds. */
  function KeysBelow(attrs: AttrSet, f: DepSet, n: nat): (r: set<AttrSet>)
    ensures r <= CandidateKeys(attrs, f)
  {
    set k | k in CandidateKeys(attrs, f) && |k| < n
  }

  /** A key holds a seed attribute, so it is not empty. */
  lemma KeysNotEmpty(attrs: AttrSet, f: DepSet)
    ensures KeysBelow(attrs, f, 1) == {}
  {
    forall k | k in CandidateKeys(attrs, f) ensures |k| >= 1 {
      var x :| x in k * Seed(attrs, f);
    }
  }

  /** The test of the level-`n` pass (relation.cc:765): a visited set of
      size `n` is a key exactly when it determines the relation and contains
      none of the keys found so far, those below `n` and those of size `n`
      met before it. */
  lemma ScanStep(attrs: AttrSet, f: DepSet, n: nat, s: AttrSet, done: set<AttrSet>)
    requires s in Level(attrs, f, n) && done <= Level(attrs, f, n) && s !in done
    ensures var keys := KeysBelow(attrs, f, n) + CandidateKeys(attrs, f) * done;
      s in CandidateKeys(attrs, f) <==>
        Determines(attrs, f, s) && !(exists k :: k in keys && k <= s)
  {
    var keys := KeysBelow(attrs, f, n) + CandidateKeys(attrs, f) * done;
    KeyCharacterization(attrs, f, s);
    if s in CandidateKeys(attrs, f) {
      forall k | k in keys && k <= s ensures false {
        if k != s {
          KeyIsMinimal(attrs, f, s, k);
        }
      }
    }
    if Determines(attrs, f, s) && !(exists k :: k in keys && k <= s) {
      forall c | c in CandidateKeys(attrs, f) && c <= s ensures c == s {
        if c != s {
          SubsetCardinality(c, s);
        }
      }
    }
  }

  /** The keys found after visiting one more set of the level. */
  lemma ScanAdd(keys: set<AttrSet>, ck: set<AttrSet>, done: set<AttrSet>, s: AttrSet)
    ensures s in ck ==> (keys + ck * done) + {s} == keys + ck * (done + {s})
    ensures s !in ck ==> keys + ck * done == keys + ck * (done + {s})
  {
  }

  /** One visit of the level-`n` pass: the least set not yet visited is
      added to the keys when its closure covers the relation and it contains
      no key found so far. */
  method ScanLeast(attrs: AttrSet, f: DepSet, n: nat, level: set<AttrSet>, todo: set<AttrSet>, keys: set<AttrSet>)
    returns (todo': set<AttrSet>, keys': set<AttrSet>)
    requires level == Level(attrs, f, n) && todo <= level && todo != {}
    requires keys == KeysBelow(attrs, f, n) + CandidateKeys(attrs, f) * (level - todo)
    ensures todo' <= level && |todo'| < |todo|
    ensures keys' == KeysBelow(attrs, f, n) + CandidateKeys(attrs, f) * (level - todo')
  {
    var s := LeastKey(todo);
    TakeElement(level, todo, s);
    ScanStep(attrs, f, n, s, level - todo);
    ScanAdd(KeysBelow(attrs, f, n), CandidateKeys(attrs, f), level - todo, s);
    var found := Passes(attrs, f, s, keys);
    keys' := keys;
    if found {
      keys' := keys + {s};
    }
    todo' := todo - {s};
  }

  /** The test of one working set (relation.cc:765): its closure covers the
      relation and no key found so far lies within it. */
  method Passes(attrs: AttrSet, f: DepSet, s: AttrSet, keys: set<AttrSet>) returns (r: bool)
    ensures r <==> Determines(attrs, f, s) && !(exists k :: k in keys && k <= s)
  {
    var c := ClosureOf(s, f);
    r := IsSubset(c, attrs) && !TestSet(keys, s, true);
  }

  /** The keys of size `n` are the keys among the visited sets of size `n`. */
  lemma KeysBelowNext(attrs: AttrSet, f: DepSet, n: nat)
    ensures KeysBelow(attrs, f, n) + CandidateKeys(attrs, f) * Level(attrs, f, n) == KeysBelow(attrs, f, n + 1)
  {
  }

  /** The level-`n` pass of getCandidatekey (relation.cc:764-768): every
      working set, in setstr_compare::less order, is tested and kept as a
      key when it passes; afterwards the keys are those of size up to `n`. */
  method ScanLevel(attrs: AttrSet, f: DepSet, n: nat, level: set<AttrSet>, keys0: set<AttrSet>)
    returns (keys: set<AttrSet>)
    requires level == Level(attrs, f, n) && keys0 == KeysBelow(attrs, f, n)
    ensures keys == KeysBelow(attrs, f, n + 1)
  {
    var todo := level;
    keys := keys0;
    assert CandidateKeys(attrs, f) * (level - todo) == {};
    while todo != {}
      invariant todo <= level
      invariant keys == KeysBelow(attrs, f, n) + CandidateKeys(attrs, f) * (level - todo)
      decreases |todo|
    {
      todo, keys := ScanLeast(attrs, f, n, level, todo, keys);
    }
    assert level - todo == level;
    KeysBelowNext(attrs, f, n);
  }

  /** `working -= keys` after getNextIteration removes nothing: every
      working set of the next level is larger than every key found. */
  lemma SubtractNothing(attrs: AttrSet, f: DepSet, n: nat)
    ensures Level(attrs, f, n + 1) - KeysBelow(attrs, f, n + 1) == Level(attrs, f, n + 1)
  {
  }

  /** One round of the do/while of getCandidatekey (relation.cc:763-772):
      the pass over level `n`, then the next level, less the keys found. */
  method KeyRound(attrs: AttrSet, f: DepSet, n: nat, working: set<AttrSet>, keys: set<AttrSet>)
    returns (working': set<AttrSet>, keys': set<AttrSet>)
    requires n >= 1 && working == Level(attrs, f, n) && keys == KeysBelow(attrs, f, n)
    ensures working' == Level(attrs, f, n + 1) && keys' == KeysBelow(attrs, f, n + 1)
  {
    keys' := ScanLevel(attrs, f, n, working, keys);
    var next := NextIteration(working, attrs);
    NextLevelOfLevel(attrs, f, n);
    SubtractNothing(attrs, f, n);
    working' := SubtractKeys(next, keys');
  }

  /** A visited set of size at least `n` has a visited subset of size `n`. */
  lemma {:induction false} LevelBelow(attrs: AttrSet, f: DepSet, k: AttrSet, n: nat)
    requires k <= attrs && Tested(attrs, f, k) && 1 <= n <= |k|
    ensures Level(attrs, f, n) != {}
    decreases |k|
  {
    if |k| == n {
      assert k in Level(attrs, f, n);
    } else {
      var x :| x in k * Seed(attrs, f);
      assert |k - {x}| == |k| - 1;
      var y :| y in k - {x};
      assert x in (k - {y}) * Seed(attrs, f);
      LevelBelow(attrs, f, k - {y}, n);
    }
  }

  /** Once a level is empty, every key has been found. */
  lemma KeysAllBelow(attrs: AttrSet, f: DepSet, n: nat)
    requires n >= 1 && Level(attrs, f, n) == {}
    ensures KeysBelow(attrs, f, n) == CandidateKeys(attrs, f)
  {
    forall k | k in CandidateKeys(attrs, f) ensures |k| < n {
      if |k| >= n {
        LevelBelow(attrs, f, k, n);
      }
    }
  }

  /** getCandidatekey: the passes over levels 1, 2, ... until the working
      sets run out. The do/while runs its first round before the test. The
      result is every candidate key. */
  method SearchKeys(attrs: AttrSet, f: DepSet) returns (keys: set<AttrSet>)
    ensures keys == CandidateKeys(attrs, f)
  {
    var ss := SeedOf(attrs, f);
    var working := Singletons(ss);
    FirstLevel(attrs, f);
    KeysNotEmpty(attrs, f);
    keys := {};
    working, keys := KeyRound(attrs, f, 1, working, keys);
    var n := 2;
    while working != {}
      invariant n >= 2 && working == Level(attrs, f, n) && keys == KeysBelow(attrs, f, n)
      decreases |attrs| + 1 - n
    {
      if n > |attrs| {
        LevelBeyondAttributes(attrs, f, n);
      }
      working, keys := KeyRound(attrs, f, n, working, keys);
      n := n + 1;
    }
    KeysAllBelow(attrs, f, n);
  }

  // ---------------------------------------------------------------------
  // getViolation (relation.cc:500-513) and isDepAttribPresent (276-281)
  // ---------------------------------------------------------------------

  /** The elements among the first `n` of `x` that satisfy `p`. */
  function Hits(x: seq<Dependency>, p: Dependency -> bool, n: nat): DepSet
    requires n <= |x|
  {
    set i | 0 <= i < n && p(x[i]) :: x[i]
  }

  /** A run of elements that fail `p` adds nothing to the hits, and the
      element after it adds itself when it satisfies `p`. */
  lemma HitsSkip(x: seq<Dependency>, p: Dependency -> bool, pos: nat, k: nat)
    requires pos + k <= |x|
    requires forall i :: 0 <= i < k ==> !p(x[pos..][i])
    ensures Hits(x, p, pos + k) == Hits(x, p, pos)
    ensures pos + k < |x| && p(x[pos + k]) ==> Hits(x, p, pos + k + 1) == Hits(x, p, pos) + {x[pos + k]}
  {
    forall i | pos <= i < pos + k ensures !p(x[i]) {
      assert x[i] == x[pos..][i - pos];
    }
  }

  /** The hits over a whole ascending enumeration are the elements of the
      set that satisfy `p`. */
  lemma HitsAll(f: DepSet, p: Dependency -> bool)
    ensures Hits(SortedDeps(f), p, |f|) == set d | d in f && p(d)
  {
    var x := SortedDeps(f);
    forall d | d in f && p(d) ensures d in Hits(x, p, |f|) {
      var i :| 0 <= i < |x| && x[i] == d;
    }
  }

  /** The loop of getViolation: repeated find_if from just past the last
      hit, every hit collected. The do/while and a while loop agree, since an
      empty range yields nothing either way. */
  method CollectIf(f: DepSet, p: Dependency -> bool) returns (dep: DepSet)
    ensures dep == set d | d in f && p(d)
  {
    var x := SortedDeps(f);
    var res := 0;
    dep := {};
    while res < |x|
      invariant res <= |x|
      invariant dep == Hits(x, p, res)
      decreases |x| - res
    {
      var k := FindIf(x[res..], p);
      HitsSkip(x, p, res, k);
      res := res + k;
      if res < |x| {
        dep := dep + {x[res]};
        res := res + 1;
      }
    }
    HitsAll(f, p);
  }

  /** getViolation(form): every dependency the Violation functor flags. */
  method ViolationScan(attrs: AttrSet, f: DepSet, form: NormalForm) returns (dep: DepSet)
    ensures dep == Violations(attrs, f, form)
  {
    dep := CollectIf(f, d => Violation(attrs, f, form, d));
  }

  /** isDepAttribPresent: the number of attributes of the relation the
      dependency mentions is not zero. It holds as soon as one name is shared,
      not only when all are. */
  function IsDepAttribPresent(attrs: AttrSet, dep: Dependency): (r: bool)
    ensures r <==> attrs * (dep.lhs + dep.rhs) != {}
  {
    var x := SortedAttrs(attrs);
    var n := CountIf(x, s => dep.IsPresent(s));
    assert n > 0 ==> exists i :: 0 <= i < |x| && x[i] in dep.lhs + dep.rhs;
    n > 0
  }

  /** The repository's own example: {a} -> {b, f} is present in the
      fixture and {y} -> {x} is not; {a} -> {x} is present too, although
      `x` is no attribute. */
  lemma IsDepAttribPresentExamples(attrs: AttrSet)
    requires attrs == {"a", "b", "c", "d", "e", "f", "g", "h"}
    ensures IsDepAttribPresent(attrs, Dependency({"a"}, {"b", "f"}))
    ensures !IsDepAttribPresent(attrs, Dependency({"y"}, {"x"}))
    ensures IsDepAttribPresent(attrs, Dependency({"a"}, {"x"}))
  {
    assert "a" in attrs * ({"a"} + {"b", "f"});
    assert "a" in attrs * ({"a"} + {"x"});
    assert attrs * ({"y"} + {"x"}) == {};
  }
}
