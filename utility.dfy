/** The set utilities of the normaliser: in-place difference of attribute sets
    and of key sets, and the "subset or superset of some key" test. */
module Utility {
  import opened Ordering
  import opened SetStrCompare
  import opened TemplateDef

  /** A set of attribute sets (a set of candidate keys), ordered by SetLess. */
  type AttrSet = set<string>
  type KeySet = set<AttrSet>

  /** `lhs -= rhs` on attribute sets: each name of `rhs`, in ascending order,
      is erased from `lhs` when present (utility.cc:151-157). */
  method SubtractStr(lhs: AttrSet, rhs: AttrSet) returns (r: AttrSet)
    ensures r == lhs - rhs
  {
    var x := SortedAttrs(rhs);
    r := lhs;
    for i := 0 to |x|
      invariant forall v :: v in r <==> v in lhs && v !in x[..i]
    {
      if Contains(r, x[i]) {
        r := r - {x[i]};
      }
    }
    assert x[..|x|] == x;
  }

  /** `lhs -= rhs` on key sets: each key of `rhs`, in ascending order, is erased
      from `lhs` when it is a member of it (utility.cc:135-142). A key of `lhs`
      that only overlaps or contains a key of `rhs` stays. */
  method SubtractKeys(lhs: KeySet, rhs: KeySet) returns (r: KeySet)
    ensures r == lhs - rhs
  {
    SetLessIsStrictTotalOrder();
    var x := Ascending(rhs, SetLess);
    r := lhs;
    for i := 0 to |x|
      invariant forall v :: v in r <==> v in lhs && v !in x[..i]
    {
      if x[i] in r {
        r := r - {x[i]};
      }
    }
    assert x[..|x|] == x;
  }

  /** testSet(keys, s, super): scans the keys in ascending order for one that
      `s` lies within (super = false) or that lies within `s` (super = true)
      (utility.cc:171-177). */
  function TestSet(keys: KeySet, s: AttrSet, super: bool): (r: bool)
    ensures !super ==> (r <==> exists k :: k in keys && s <= k)
    ensures super ==> (r <==> exists k :: k in keys && k <= s)
    ensures keys == {} ==> !r
  {
    SetLessIsStrictTotalOrder();
    var x := Ascending(keys, SetLess);
    var p := k => (!super && IsSubset(k, s)) || (super && IsSubset(s, k));
    var i := FindIf(x, p);
    FindIfAscending(keys, SetLess, p);
    assert forall k :: p(k) <==> (!super && s <= k) || (super && k <= s);
    i != |x|
  }
}
