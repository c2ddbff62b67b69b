/** Facts about sequences without repetitions and finite sets used by the board proofs. */
module Collections {

  predicate Distinct<T(==)>(s: seq<T>)
  {
    forall i, j :: 0 <= i < j < |s| ==> s[i] != s[j]
  }

  function Elems<T(==)>(s: seq<T>): set<T>
  {
    set x | x in s
  }

  /** A sequence without repetitions has as many elements as its set. */
  lemma {:induction false} DistinctCard<T>(s: seq<T>)
    requires Distinct(s)
    ensures |Elems(s)| == |s|
  {
    if s != [] {
      var init := s[..|s| - 1];
      assert Distinct(init);
      DistinctCard(init);
      assert Elems(s) == Elems(init) + {s[|s| - 1]};
      assert s[|s| - 1] !in Elems(init);
    }
  }

  /** A subset is no larger than its superset. */
  lemma {:induction false} SubsetCard<T>(a: set<T>, b: set<T>)
    requires a <= b
    ensures |a| <= |b|
    decreases a
  {
    if a != {} {
      var x :| x in a;
      SubsetCard(a - {x}, b - {x});
    }
  }

  /** Appending new elements, none already present, keeps a sequence duplicate-free. */
  lemma DistinctAppend<T>(before: seq<T>, more: seq<T>)
    requires Distinct(before) && Distinct(more)
    requires forall v :: v in more ==> v !in before
    ensures Distinct(before + more)
  {
    forall i, j | 0 <= i < j < |before + more|
      ensures (before + more)[i] != (before + more)[j]
    {
      if i < |before| <= j {
        assert (before + more)[j] in more;
      }
    }
  }

  /** Growing a subset of A strictly shrinks what remains of A. */
  lemma RestShrinks<T>(A: set<T>, V: set<T>, W: set<T>)
    requires V <= W <= A && V != W
    ensures A - W < A - V
  {
    var x :| x in W && x !in V;
    assert x in A - V && x !in A - W;
  }

  /** HashSet.ToList: the set's elements, each once, in an order the set does not fix. */
  method ListOf<T(==)>(S: set<T>) returns (xs: seq<T>)
    ensures Distinct(xs) && Elems(xs) == S
  {
    xs := [];
    var rest := S;
    while rest != {}
      invariant Distinct(xs) && Elems(xs) !! rest && Elems(xs) + rest == S
      decreases |rest|
    {
      var e :| e in rest;
      xs := xs + [e];
      rest := rest - {e};
    }
  }
}
