/** Facts about finite sets that the models share. */
module SetFacts {

  lemma {:induction false} Nonempty<T>(a: set<T>)
    ensures a != {} ==> exists x :: x in a
  {
    if forall x :: x in a ==> false {
      assert a == {};
    }
  }

  lemma {:induction false} SubsetSize<T>(a: set<T>, b: set<T>)
    requires a <= b
    ensures |a| <= |b|
    decreases |a|
  {
    Nonempty(a);
    if a != {} {
      var x :| x in a;
      SubsetSize(a - {x}, b - {x});
    }
  }

  lemma {:induction false} ProperWitness<T>(a: set<T>, b: set<T>)
    ensures a < b ==> exists x :: x in b && x !in a
  {
    if forall x :: x in b ==> x in a {
      assert b <= a;
    }
  }

  lemma {:induction false} ProperSubsetSize<T>(a: set<T>, b: set<T>)
    requires a < b
    ensures |a| < |b|
  {
    ProperWitness(a, b);
    var x :| x in b && x !in a;
    SubsetSize(a, b - {x});
  }

  /** The complement of a growing set shrinks. */
  lemma {:induction false} FewerLeft<T>(all: set<T>, a: set<T>, b: set<T>)
    requires a < b <= all
    ensures |all - b| < |all - a|
  {
    ProperWitness(a, b);
    var c :| c in b && c !in a;
    assert all - b <= (all - a) - {c};
    SubsetSize(all - b, (all - a) - {c});
  }

  /** The numbers below n. */
  function Range(n: nat): (r: set<int>)
    ensures forall i :: i in r <==> 0 <= i < n
    ensures |r| == n
  {
    if n == 0 then {} else Range(n - 1) + {n - 1}
  }
}
