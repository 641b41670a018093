/** The relation the unit tests of the normaliser are written against:
    R(a, b, c, d, e, f, g, h) with a -> bf, ac -> dg and bcd -> eh, and the
    values the tests expect of its closures, candidate keys and 2NF
    violations (tests/relation_test.cc). */
module Fixture {
  import opened Utility
  import opened Dependencies
  import opened DependencySets
  import opened Keys
  import opened NormalForms

  function Attrs(): AttrSet {
    {"a", "b", "c", "d", "e", "f", "g", "h"}
  }

  function AtoBF(): Dependency {
    Dependency({"a"}, {"b", "f"})
  }

  function ACtoDG(): Dependency {
    Dependency({"a", "c"}, {"d", "g"})
  }

  function BCDtoEH(): Dependency {
    Dependency({"b", "c", "d"}, {"e", "h"})
  }

  function Deps(): DepSet {
    {AtoBF(), ACtoDG(), BCDtoEH()}
  }

  /** Closure({a, c}) is every attribute: a gives b and f, ac gives d and g,
      and then bcd gives e and h. */
  lemma ClosureOfAC()
    ensures Closure({"a", "c"}, Deps()) == Attrs()
  {
    var c := Closure({"a", "c"}, Deps());
    assert Closed(c, Deps());
    assert AtoBF() in Deps() && AtoBF().lhs <= c;
    assert ACtoDG() in Deps() && ACtoDG().lhs <= c;
    assert BCDtoEH() in Deps() && BCDtoEH().lhs <= c;
    RhsWithin();
  }

  /** Every right-side name is an attribute; a and c are on no right side. */
  lemma RhsWithin()
    ensures AllRhs(Deps()) <= Attrs()
    ensures "a" !in AllRhs(Deps()) && "c" !in AllRhs(Deps())
  {
    forall a | a in AllRhs(Deps()) ensures a in Attrs() && a != "a" && a != "c" {
      var d :| d in Deps() && a in d.rhs;
    }
  }

  /** Closure({b}) is {b}: no left side lies within it. */
  lemma ClosureOfB()
    ensures Closure({"b"}, Deps()) == {"b"}
  {
    assert Closed({"b"}, Deps()) by {
      assert !(AtoBF().lhs <= {"b"});
      assert !(ACtoDG().lhs <= {"b"});
      assert !("c" in {"b"});
    }
    ClosureOfClosed({"b"}, Deps());
  }

  /** A name on no right side is in a closure only when it was there at the
      start. */
  lemma NotReached(z: string, x: AttrSet)
    requires z !in x && z !in AllRhs(Deps())
    ensures z !in Closure(x, Deps())
  {
  }

  /** Every key holds a and c. */
  lemma KeysHoldAC(k: AttrSet)
    requires Determines(Attrs(), Deps(), k)
    ensures "a" in k && "c" in k
  {
    RhsWithin();
    if "a" !in k {
      NotReached("a", k);
    }
    if "c" !in k {
      NotReached("c", k);
    }
  }

  /** The seed of the key search is {a, c}'s part of the attributes: a is in
      it. */
  lemma SeedHoldsA()
    ensures "a" in Seed(Attrs(), Deps())
  {
    RhsWithin();
    assert "a" in Attrs() - AllRhs(Deps());
  }

  /** A set of attributes holding a is visited by the key search. */
  lemma TestedWithA(t: AttrSet)
    requires t <= Attrs() && "a" in t
    ensures Tested(Attrs(), Deps(), t)
  {
    SeedHoldsA();
    assert "a" in t * Seed(Attrs(), Deps());
  }

  /** {a, c} is a key: it determines the relation and neither {a} nor {c}
      does. */
  lemma ACIsKey()
    ensures IsKey(Attrs(), Deps(), {"a", "c"})
  {
    var k: AttrSet := {"a", "c"};
    assert k <= Attrs();
    TestedWithA(k);
    ClosureOfAC();
    forall x | x in k ensures !Determines(Attrs(), Deps(), k - {x}) {
      LacksAOrC(k, x);
      if Determines(Attrs(), Deps(), k - {x}) {
        KeysHoldAC(k - {x});
      }
    }
  }

  /** Dropping a or c from {a, c} loses one of them. */
  lemma LacksAOrC(k: AttrSet, x: string)
    requires k == {"a", "c"} && x in k
    ensures !("a" in k - {x} && "c" in k - {x})
  {
  }

  /** Dropping another name from a set holding a and c keeps them. */
  lemma KeepsAC(k: AttrSet, y: string)
    requires "a" in k && "c" in k && y !in {"a", "c"}
    ensures {"a", "c"} <= k - {y}
  {
  }

  /** Every candidate key is {a, c}: one holding some other name would stay
      a visited, determining set without it. */
  lemma OnlyAC(k: AttrSet)
    requires k in CandidateKeys(Attrs(), Deps())
    ensures k == {"a", "c"}
  {
    var ac: AttrSet := {"a", "c"};
    KeysHoldAC(k);
    if k != ac {
      var y :| y in k && y !in ac;
      KeepsAC(k, y);
      TestedWithA(k - {y});
      ClosureOfAC();
      ClosureMonotone(ac, k - {y}, Deps());
      assert Determines(Attrs(), Deps(), k - {y});
    }
  }

  /** The candidate keys are exactly {{a, c}} (tests/relation_test.cc:269-275). */
  lemma FixtureKeys()
    ensures CandidateKeys(Attrs(), Deps()) == {{"a", "c"}}
  {
    ACIsKey();
    assert {"a", "c"} <= Attrs();
    forall k | k in CandidateKeys(Attrs(), Deps()) ensures k == {"a", "c"} {
      OnlyAC(k);
    }
  }

  /** isSuperkey on the fixture (tests/relation_test.cc:229-238). */
  lemma FixtureSuperkeys()
    ensures !IsSuperkey(Attrs(), Deps(), {"a"})
    ensures IsSuperkey(Attrs(), Deps(), {"a", "c"})
    ensures !IsSuperkey(Attrs(), Deps(), {"c", "d"})
    ensures IsSuperkey(Attrs(), Deps(), {"a", "b", "c", "d"})
  {
    FixtureKeys();
    assert !({"a", "c"} <= {"a"});
    assert !({"a", "c"} <= {"c", "d"});
  }

  /** isPartialkey on the fixture (tests/relation_test.cc:240-249). */
  lemma FixturePartialkeys()
    ensures IsPartialkey(Attrs(), Deps(), {"a"})
    ensures !IsPartialkey(Attrs(), Deps(), {"a", "c"})
    ensures !IsPartialkey(Attrs(), Deps(), {"c", "d"})
    ensures !IsPartialkey(Attrs(), Deps(), {"a", "b", "c", "d"})
  {
    FixtureKeys();
    assert !({"a", "c"} <= {"a"});
    assert !({"c", "d"} <= {"a", "c"});
    assert !({"a", "b", "c", "d"} <= {"a", "c"});
  }

  /** isPrime on the fixture (tests/relation_test.cc:251-259). */
  lemma FixturePrimes()
    ensures IsPrime(Attrs(), Deps(), {"a"})
    ensures IsPrime(Attrs(), Deps(), {"a", "c"})
    ensures !IsPrime(Attrs(), Deps(), {"c", "d"})
    ensures !IsPrime(Attrs(), Deps(), {"a", "b", "c", "d"})
  {
    FixtureKeys();
    assert !({"c", "d"} <= {"a", "c"});
    assert !({"a", "b", "c", "d"} <= {"a", "c"});
  }

  /** The 2NF violations of the fixture are exactly a -> bf: a lies within
      the key without being it and bf does not, while ac is the key itself
      and bcd lies within no key (tests/relation_test.cc:277-293). */
  lemma FixtureSecondViolations()
    ensures Violations(Attrs(), Deps(), Second) == {AtoBF()}
  {
    AtoBFViolates();
    forall e | e in Deps() && e != AtoBF() ensures !Violation(Attrs(), Deps(), Second, e) {
      NotViolating(e);
    }
    OnlyViolation(Attrs(), Deps(), Second, AtoBF());
  }

  /** A set of dependencies with exactly one violation has that one as its
      violations. */
  lemma OnlyViolation(attrs: AttrSet, f: DepSet, form: NormalForm, d: Dependency)
    requires d in f && Violation(attrs, f, form, d)
    requires forall e :: e in f && e != d ==> !Violation(attrs, f, form, e)
    ensures Violations(attrs, f, form) == {d}
  {
  }

  /** The other two dependencies do not violate 2NF. */
  lemma NotViolating(e: Dependency)
    requires e in Deps() && e != AtoBF()
    ensures !Violation(Attrs(), Deps(), Second, e)
  {
    DepsCases(e);
    OthersDoNot();
  }

  /** The three dependencies of the fixture. */
  lemma DepsCases(d: Dependency)
    requires d in Deps()
    ensures d == AtoBF() || d == ACtoDG() || d == BCDtoEH()
  {
  }

  /** a is part of the key {a, c} and bf meets no key. */
  lemma AtoBFViolates()
    ensures Violation(Attrs(), Deps(), Second, AtoBF())
  {
    FixtureKeys();
    assert {"a"} <= {"a", "c"};
    assert !({"a", "c"} <= {"a"});
    assert !({"b", "f"} <= {"a", "c"});
    SecondUnderOneKey(Attrs(), Deps(), AtoBF(), {"a", "c"});
  }

  /** ac is the key itself and bcd lies within no key. */
  lemma OthersDoNot()
    ensures !Violation(Attrs(), Deps(), Second, ACtoDG())
    ensures !Violation(Attrs(), Deps(), Second, BCDtoEH())
  {
    FixtureKeys();
    assert !({"b", "c", "d"} <= {"a", "c"});
    SecondUnderOneKey(Attrs(), Deps(), ACtoDG(), {"a", "c"});
    SecondUnderOneKey(Attrs(), Deps(), BCDtoEH(), {"a", "c"});
  }

  /** With a single candidate key, a 2NF violation is a left side within the
      key but not the whole of it, and a right side not within it. */
  lemma SecondUnderOneKey(attrs: AttrSet, f: DepSet, d: Dependency, key: AttrSet)
    requires CandidateKeys(attrs, f) == {key}
    ensures Violation(attrs, f, Second, d) <==> d.lhs <= key && !(key <= d.lhs) && !(d.rhs <= key)
  {
    PartialUnderOneKey(attrs, f, d.lhs, key);
    PrimeUnderOneKey(attrs, f, d.rhs, key);
  }

  /** With a single candidate key, a partial key lies within it and is not it. */
  lemma PartialUnderOneKey(attrs: AttrSet, f: DepSet, x: AttrSet, key: AttrSet)
    requires CandidateKeys(attrs, f) == {key}
    ensures IsPartialkey(attrs, f, x) <==> x <= key && !(key <= x)
  {
  }

  /** With a single candidate key, a prime set lies within it. */
  lemma PrimeUnderOneKey(attrs: AttrSet, f: DepSet, x: AttrSet, key: AttrSet)
    requires CandidateKeys(attrs, f) == {key}
    ensures IsPrime(attrs, f, x) <==> x <= key
  {
  }
}
