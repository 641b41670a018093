/** The normal-form violation test of one dependency (the Violation functor)
    and the key predicates it is built from (Relation::isSuperkey,
    isPartialkey and isPrime). Each is stated over the relation's attributes
    and dependencies; the candidate keys are the ones getCandidatekey finds. */
module NormalForms {
  import opened Ordering
  import opened SetStrCompare
  import opened TemplateDef
  import opened Utility
  import opened Dependencies
  import opened DependencySets
  import opened Keys

  /** Relation::Normal, plus a value outside the enumeration for the functor's
      default branch. */
  datatype NormalForm = Second | Third | BoyceCodd | Unrecognised

  /** isSuperkey: some candidate key lies within `x` (relation.cc:702-705). */
  function IsSuperkey(attrs: AttrSet, f: DepSet, x: AttrSet): (r: bool)
    ensures r <==> exists k :: k in CandidateKeys(attrs, f) && k <= x
  {
    TestSet(CandidateKeys(attrs, f), x, true)
  }

  /** isPartialkey: `x` lies within some candidate key but contains none
      (relation.cc:714-717). */
  function IsPartialkey(attrs: AttrSet, f: DepSet, x: AttrSet): (r: bool)
    ensures r <==> (exists k :: k in CandidateKeys(attrs, f) && x <= k)
                   && forall k :: k in CandidateKeys(attrs, f) ==> !(k <= x)
  {
    TestSet(CandidateKeys(attrs, f), x, false) && !TestSet(CandidateKeys(attrs, f), x, true)
  }

  /** isPrime: the scan of the candidate keys in ascending order stops at one
      that contains `x` (relation.cc:727-735). */
  function IsPrime(attrs: AttrSet, f: DepSet, x: AttrSet): (r: bool)
    ensures r <==> exists k :: k in CandidateKeys(attrs, f) && x <= k
  {
    SetLessIsStrictTotalOrder();
    var keys := CandidateKeys(attrs, f);
    var ks := Ascending(keys, SetLess);
    var p := (k: AttrSet) => IsSubset(k, x);
    FindIfAscending(keys, SetLess, p);
    FindIf(ks, p) != |ks|
  }

  /** Violation::operator(): whether `d` violates the normal form `form` in the
      relation (violation.h:76-87). A second-normal-form violation has a
      partial-key left side and a right side within no key; a third-normal-form
      violation has a left side that is no superkey and a right side within no
      key; a Boyce-Codd violation has a left side that is no superkey. */
  function Violation(attrs: AttrSet, f: DepSet, form: NormalForm, d: Dependency): (r: bool)
    ensures form == Second ==> (r <==>
      && (exists k :: k in CandidateKeys(attrs, f) && d.lhs <= k)
      && (forall k :: k in CandidateKeys(attrs, f) ==> !(k <= d.lhs))
      && (forall k :: k in CandidateKeys(attrs, f) ==> !(d.rhs <= k)))
    ensures form == Third ==> (r <==>
      && (forall k :: k in CandidateKeys(attrs, f) ==> !(k <= d.lhs))
      && (forall k :: k in CandidateKeys(attrs, f) ==> !(d.rhs <= k)))
    ensures form == BoyceCodd ==> (r <==> forall k :: k in CandidateKeys(attrs, f) ==> !(k <= d.lhs))
    ensures form == Unrecognised ==> !r
  {
    match form
    case Second => IsPartialkey(attrs, f, d.lhs) && !IsPrime(attrs, f, d.rhs)
    case Third => !IsSuperkey(attrs, f, d.lhs) && !IsPrime(attrs, f, d.rhs)
    case BoyceCodd => !IsSuperkey(attrs, f, d.lhs)
    case Unrecognised => false
  }

  /** The dependencies that violate `form`: what getViolation collects. */
  function Violations(attrs: AttrSet, f: DepSet, form: NormalForm): (r: DepSet)
    ensures r <= f
  {
    set d | d in f && Violation(attrs, f, form, d)
  }

  /** isNormal: the scan of the dependencies for a violation runs off the end
      (relation.cc:788-793). */
  function IsNormal(attrs: AttrSet, f: DepSet, form: NormalForm): (r: bool)
    ensures r <==> Violations(attrs, f, form) == {}
  {
    DepLessIsStrictTotalOrder();
    var x := Ascending(f, DepLess);
    var p := (d: Dependency) => Violation(attrs, f, form, d);
    FindIfAscending(f, DepLess, p);
    if FindIf(x, p) == |x| then
      true
    else
      assert x[FindIf(x, p)] in Violations(attrs, f, form);
      false
  }

  /** A set within the relation that is non-empty, or any set when some
      attribute is on no right side, is a superkey exactly when its closure
      covers the relation. */
  lemma SuperkeyIffDetermines(attrs: AttrSet, f: DepSet, x: AttrSet)
    requires x <= attrs
    requires x != {} || attrs - AllRhs(f) != {}
    ensures IsSuperkey(attrs, f, x) <==> attrs <= Closure(x, f)
  {
    if IsSuperkey(attrs, f, x) {
      var k :| k in CandidateKeys(attrs, f) && k <= x;
      ClosureMonotone(k, x, f);
    }
    if attrs <= Closure(x, f) {
      if attrs - AllRhs(f) != {} {
        var a :| a in attrs - AllRhs(f);
        assert a in x;
        assert a in x * Seed(attrs, f);
      } else {
        var a :| a in x;
        assert a in x * Seed(attrs, f);
      }
      ExistsKeyBelow(attrs, f, x);
    }
  }

  /** A dependency with a non-empty left side within the relation violates
      Boyce-Codd normal form exactly when its left side does not determine
      every attribute. */
  lemma BoyceCoddViolationIff(attrs: AttrSet, f: DepSet, d: Dependency)
    requires d.lhs <= attrs && d.lhs != {}
    ensures Violation(attrs, f, BoyceCodd, d) <==> !(attrs <= Closure(d.lhs, f))
  {
    SuperkeyIffDetermines(attrs, f, d.lhs);
  }

  /** Each normal form implies the weaker ones: a relation in Boyce-Codd normal
      form is in third, and one in third is in second; no relation violates
      an unrecognised form (violation.h:77-85). */
  lemma NormalFormHierarchy(attrs: AttrSet, f: DepSet)
    ensures IsNormal(attrs, f, BoyceCodd) ==> IsNormal(attrs, f, Third)
    ensures IsNormal(attrs, f, Third) ==> IsNormal(attrs, f, Second)
    ensures IsNormal(attrs, f, Unrecognised)
  {
    if IsNormal(attrs, f, BoyceCodd) {
      forall d | d in f ensures !Violation(attrs, f, Third, d) {
        assert d !in Violations(attrs, f, BoyceCodd);
      }
      assert Violations(attrs, f, Third) == {};
    }
    if IsNormal(attrs, f, Third) {
      forall d | d in f ensures !Violation(attrs, f, Second, d) {
        assert d !in Violations(attrs, f, Third);
      }
      assert Violations(attrs, f, Second) == {};
    }
    assert Violations(attrs, f, Unrecognised) == {};
  }
}
