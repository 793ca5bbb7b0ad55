/** Sums over the entries of a finite map, and the sizes of finite sets. */
module Sums {

  ghost function MapSum<K>(m: map<K, int>): (total: int)
    decreases |m|
  {
    if m == map[] then 0 else
      var k :| k in m;
      m[k] + MapSum(m - {k})
  }

  /** The sum does not depend on the order in which entries are taken. */
  lemma {:induction false} MapSumRemove<K>(m: map<K, int>, k: K)
    requires k in m
    ensures MapSum(m) == m[k] + MapSum(m - {k})
    decreases |m|
  {
    var j :| j in m && MapSum(m) == m[j] + MapSum(m - {j});
    if j != k {
      MapSumRemove(m - {j}, k);
      MapSumRemove(m - {k}, j);
      assert m - {j} - {k} == m - {k} - {j};
    }
  }

  lemma MapSumUpdate<K>(m: map<K, int>, k: K, v: int)
    ensures MapSum(m[k := v]) == MapSum(m) + v - (if k in m then m[k] else 0)
  {
    MapSumRemove(m[k := v], k);
    if k in m {
      MapSumRemove(m, k);
      assert m[k := v] - {k} == m - {k};
    } else {
      assert m[k := v] - {k} == m;
    }
  }

  lemma {:induction false} MapSumNonNegative<K>(m: map<K, int>)
    requires forall k :: k in m ==> m[k] >= 0
    ensures MapSum(m) >= 0
    decreases |m|
  {
    if m != map[] {
      var k :| k in m;
      MapSumRemove(m, k);
      MapSumNonNegative(m - {k});
    }
  }

  /** The image of a set under a function that tells its elements apart has as many elements. */
  lemma {:induction false} SameSize<A, B>(a: set<A>, f: A -> B, image: set<B>)
    requires forall x :: x in a ==> f(x) in image
    requires forall y :: y in image ==> exists x :: x in a && y == f(x)
    requires forall x, y :: x in a && y in a && f(x) == f(y) ==> x == y
    ensures |image| == |a|
    decreases a
  {
    if a == {} {
      assert image == {};
    } else {
      var x :| x in a;
      forall y | y in image - {f(x)} ensures exists z :: z in a - {x} && y == f(z) {
        var z :| z in a && y == f(z);
        assert z in a - {x};
      }
      SameSize(a - {x}, f, image - {f(x)});
    }
  }

  lemma SubsetSize<T>(a: set<T>, b: set<T>)
    requires a <= b
    ensures |a| <= |b|
  {
    assert b == a + (b - a);
  }
}
