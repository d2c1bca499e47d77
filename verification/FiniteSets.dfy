/** Counting arguments on finite sets of integers. */
module FiniteSets {
  ghost function Range(k: nat): set<int> {
    if k == 0 then {} else Range(k - 1) + {k}
  }

  lemma {:induction false} RangeContents(k: nat)
    ensures |Range(k)| == k
    ensures forall x: int :: x in Range(k) <==> 1 <= x <= k
  {
    if k > 0 { RangeContents(k - 1); }
  }

  /** A subset with as many elements as the whole is the whole. */
  lemma {:induction false} FullSubset<T>(a: set<T>, b: set<T>)
    requires a <= b && |a| == |b|
    ensures b <= a
  {
    if |a| > 0 {
      var x :| x in a;
      FullSubset(a - {x}, b - {x});
      forall y | y in b
        ensures y in a
      {
        assert y == x || y in b - {x};
      }
    }
  }

  /** A set that maps one-to-one into another has no more elements. */
  lemma {:induction false} ImageNoLarger(a: set<int>, b: set<int>, f: int -> int)
    requires forall x :: x in a ==> f(x) in b
    requires forall x, y :: x in a && y in a && f(x) == f(y) ==> x == y
    ensures |a| <= |b|
  {
    if a != {} {
      var x := Some(a);
      ImageNoLarger(a - {x}, b - {f(x)}, f);
    }
  }

  lemma Some<T>(a: set<T>) returns (x: T)
    requires a != {}
    ensures x in a
  {
    x :| x in a;
  }

  lemma SubsetSize(a: set<int>, b: set<int>)
    requires a <= b
    ensures |a| <= |b|
  {
    assert b == a + (b - a);
  }
}
