/** Candidate keys of a relation, as the level-by-level search of
    getCandidatekey finds them (relation.cc:748-776).

    The search starts from the "seed" attributes, those on no right side (all
    attributes when every one is on some right side). It visits the attribute
    sets of size 1, 2, ... that meet the seed, and keeps a set when its closure
    covers the relation and it contains no key found before. */
module Keys {
  import opened Sets
  import opened Utility
  import opened Dependencies
  import opened DependencySets

  /** The attributes the search grows keys from (relation.cc:749-758). */
  function Seed(attrs: AttrSet, f: DepSet): (r: AttrSet)
    ensures r <= attrs
    ensures attrs != {} ==> r != {}
  {
    var rest := attrs - AllRhs(f);
    if rest == {} then attrs else rest
  }

  /** `k` is a set the search visits: within the relation and meeting the seed. */
  predicate Tested(attrs: AttrSet, f: DepSet, k: AttrSet) {
    k <= attrs && k * Seed(attrs, f) != {}
  }

  /** The closure of `k` covers the relation (relation.cc:765). */
  predicate Determines(attrs: AttrSet, f: DepSet, k: AttrSet) {
    attrs <= Closure(k, f)
  }

  /** `k` is visited, determines the relation, and dropping any one of its
      attributes leaves a set that is not both. */
  predicate IsKey(attrs: AttrSet, f: DepSet, k: AttrSet) {
    && Tested(attrs, f, k)
    && Determines(attrs, f, k)
    && forall x :: x in k ==> !(Tested(attrs, f, k - {x}) && Determines(attrs, f, k - {x}))
  }

  /** The keys getCandidatekey returns. */
  function CandidateKeys(attrs: AttrSet, f: DepSet): set<AttrSet> {
    set k | k <= attrs && IsKey(attrs, f, k)
  }

  /** Being visited and determining the relation both survive enlarging a set
      within the relation. */
  lemma TestedDeterminesUpward(attrs: AttrSet, f: DepSet, t: AttrSet, k: AttrSet)
    requires t <= k <= attrs
    requires Tested(attrs, f, t) && Determines(attrs, f, t)
    ensures Tested(attrs, f, k) && Determines(attrs, f, k)
  {
    ClosureMonotone(t, k, f);
  }

  /** Every visited set that determines the relation contains a candidate key. */
  lemma {:induction false} ExistsKeyBelow(attrs: AttrSet, f: DepSet, t: AttrSet)
    requires Tested(attrs, f, t) && Determines(attrs, f, t)
    ensures exists k :: k in CandidateKeys(attrs, f) && k <= t
    decreases |t|
  {
    if IsKey(attrs, f, t) {
      assert t in CandidateKeys(attrs, f);
    } else {
      var x :| x in t && Tested(attrs, f, t - {x}) && Determines(attrs, f, t - {x});
      ExistsKeyBelow(attrs, f, t - {x});
      var k :| k in CandidateKeys(attrs, f) && k <= t - {x};
    }
  }

  /** No candidate key lies strictly inside another visited determining set's
      key: a key has no proper subset that is visited and determines. */
  lemma KeyIsMinimal(attrs: AttrSet, f: DepSet, k: AttrSet, t: AttrSet)
    requires k in CandidateKeys(attrs, f)
    requires t <= k && t != k
    ensures !(Tested(attrs, f, t) && Determines(attrs, f, t))
  {
    if Tested(attrs, f, t) && Determines(attrs, f, t) {
      var x :| x in k && x !in t;
      TestedDeterminesUpward(attrs, f, t, k - {x});
    }
  }

  /** The keys are exactly the visited determining sets containing no other
      key: the test the search applies level by level (relation.cc:765). */
  lemma KeyCharacterization(attrs: AttrSet, f: DepSet, k: AttrSet)
    requires Tested(attrs, f, k)
    ensures k in CandidateKeys(attrs, f) <==>
      Determines(attrs, f, k) && forall c :: c in CandidateKeys(attrs, f) && c <= k ==> c == k
  {
    if k in CandidateKeys(attrs, f) {
      forall c | c in CandidateKeys(attrs, f) && c <= k ensures c == k {
        if c != k {
          KeyIsMinimal(attrs, f, k, c);
        }
      }
    }
    if Determines(attrs, f, k) && forall c :: c in CandidateKeys(attrs, f) && c <= k ==> c == k {
      if !IsKey(attrs, f, k) {
        var x :| x in k && Tested(attrs, f, k - {x}) && Determines(attrs, f, k - {x});
        ExistsKeyBelow(attrs, f, k - {x});
        var c :| c in CandidateKeys(attrs, f) && c <= k - {x};
        assert c == k;
      }
    }
  }

  /** A relation has a candidate key exactly when it has an attribute. */
  lemma KeysExistIffAttributes(attrs: AttrSet, f: DepSet)
    ensures CandidateKeys(attrs, f) == {} <==> attrs == {}
  {
    if attrs != {} {
      assert Tested(attrs, f, attrs);
      ExistsKeyBelow(attrs, f, attrs);
    }
  }

  /** The sets of the level-`n` pass: every visited set of size `n`. */
  function Level(attrs: AttrSet, f: DepSet, n: nat): set<AttrSet> {
    set k | k <= attrs && |k| == n && Tested(attrs, f, k)
  }

  /** getNextIteration: every set of `keys` grown by one attribute of `attrs`
      it lacks (relation.cc:77-88). Each result is one larger than the set
      it was grown from. */
  function NextLevel(keys: set<AttrSet>, attrs: AttrSet): (r: set<AttrSet>)
    ensures forall s :: s in r ==> exists a :: a in s && a in attrs && s - {a} in keys
  {
    set w, a | w in keys && a in attrs && a !in w :: w + {a}
  }

  /** A set of size one is a singleton. */
  lemma SizeOne(k: AttrSet)
    requires |k| == 1
    ensures exists a :: k == {a}
  {
    var a :| a in k;
    assert |k - {a}| == 0;
  }

  /** The search starts from the singletons of the seed (relation.cc:759-761). */
  lemma FirstLevel(attrs: AttrSet, f: DepSet)
    ensures Level(attrs, f, 1) == set a | a in Seed(attrs, f) :: {a}
  {
    var seeds := set a | a in Seed(attrs, f) :: {a};
    forall k | k in Level(attrs, f, 1) ensures k in seeds {
      SizeOne(k);
      var a :| k == {a};
    }
    forall k | k in seeds ensures k in Level(attrs, f, 1) {
      var a :| a in Seed(attrs, f) && k == {a};
      assert |k| == 1;
      assert a in k * Seed(attrs, f);
    }
  }

  /** Growing each visited set of size n by one attribute gives exactly the
      visited sets of size n + 1 (relation.cc:770). */
  lemma NextLevelOfLevel(attrs: AttrSet, f: DepSet, n: nat)
    requires n >= 1
    ensures NextLevel(Level(attrs, f, n), attrs) == Level(attrs, f, n + 1)
  {
    forall s | s in NextLevel(Level(attrs, f, n), attrs) ensures s in Level(attrs, f, n + 1) {
      GrownIsVisited(attrs, f, n, s);
    }
    forall s | s in Level(attrs, f, n + 1) ensures s in NextLevel(Level(attrs, f, n), attrs) {
      VisitedIsGrown(attrs, f, n, s);
    }
  }

  /** A visited set of size n grown by one attribute is visited. */
  lemma GrownIsVisited(attrs: AttrSet, f: DepSet, n: nat, s: AttrSet)
    requires s in NextLevel(Level(attrs, f, n), attrs)
    ensures s in Level(attrs, f, n + 1)
  {
    var a :| a in s && a in attrs && s - {a} in Level(attrs, f, n);
    assert |s| == |s - {a}| + 1;
    TestedDeterminesUpwardTested(attrs, f, s - {a}, s);
  }

  /** A visited set of size n + 1 is a visited set of size n grown by one
      attribute: one keeping a name of the seed. */
  lemma VisitedIsGrown(attrs: AttrSet, f: DepSet, n: nat, s: AttrSet)
    requires n >= 1 && s in Level(attrs, f, n + 1)
    ensures s in NextLevel(Level(attrs, f, n), attrs)
  {
    var x :| x in s * Seed(attrs, f);
    assert |s - {x}| == n;
    var a :| a in s - {x};
    var w := s - {a};
    assert x in w * Seed(attrs, f);
    assert |w| == n;
    assert w in Level(attrs, f, n);
    assert s == w + {a};
  }

  /** Being visited survives enlarging a set within the relation. */
  lemma TestedDeterminesUpwardTested(attrs: AttrSet, f: DepSet, t: AttrSet, k: AttrSet)
    requires t <= k <= attrs
    requires Tested(attrs, f, t)
    ensures Tested(attrs, f, k)
  {
    var x :| x in t * Seed(attrs, f);
    assert x in k * Seed(attrs, f);
  }

  /** No set larger than the relation is visited: the search ends. */
  lemma LevelBeyondAttributes(attrs: AttrSet, f: DepSet, n: nat)
    requires n > |attrs|
    ensures Level(attrs, f, n) == {}
  {
    forall k | k in Level(attrs, f, n) ensures false {
      SubsetCardinality(k, attrs);
    }
  }
}
