/** Cardinality facts about finite sets used across the model. */
module Sets {

  /** A subset is no larger than its superset, and a proper subset is smaller. */
  lemma {:induction false} SubsetCardinality<T>(b: set<T>, a: set<T>)
    requires b <= a
    ensures |b| <= |a|
    ensures b != a ==> |b| < |a|
    decreases a
  {
    if b != a {
      var x :| x in a && x !in b;
      SubsetCardinality(b, a - {x});
    }
  }

  /** The size of a union: elements shared by both sets count once. */
  lemma {:induction false} UnionCardinality<T>(a: set<T>, b: set<T>)
    ensures |a + b| == |a| + |b| - |a * b|
    decreases b
  {
    if b != {} {
      var x :| x in b;
      UnionCardinality(a, b - {x});
      if x in a {
        assert a + b == a + (b - {x});
        assert a * b == a * (b - {x}) + {x};
      } else {
        assert a + b == (a + (b - {x})) + {x};
        assert a * b == a * (b - {x});
      }
    }
  }

  /** Adding a new element grows a set by one. */
  lemma AddNewCardinality<T>(s: set<T>, x: T)
    requires x !in s
    ensures |s + {x}| == |s| + 1
  {
  }

  /** Taking `e` from the elements left to visit moves it to those visited. */
  lemma TakeElement<T>(all: set<T>, todo: set<T>, e: T)
    requires todo <= all && e in todo
    ensures e !in all - todo && (all - todo) + {e} == all - (todo - {e})
    ensures |todo - {e}| < |todo|
  {
  }
}
