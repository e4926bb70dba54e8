/** Sums over finite maps. */
module Sums {

  ghost function Pick<K>(m: map<K, int>): (k: K)
    requires m != map[]
    ensures k in m
  {
    assert m.Keys == {} ==> m == map[];
    var k :| k in m.Keys; k
  }

  lemma Smaller<K>(m: map<K, int>, k: K)
    requires k in m
    ensures |m - {k}| < |m|
  {
    assert m.Keys == (m - {k}).Keys + {k};
    assert |m.Keys| == |m| && |(m - {k}).Keys| == |m - {k}|;
  }

  ghost function Sum<K>(m: map<K, int>): int
    decreases |m|
  {
    if m == map[] then 0
    else
      var k := Pick(m);
      assert |m - {k}| < |m| by { Smaller(m, k); }
      m[k] + Sum(m - {k})
  }

  /** The order of summation does not matter. */
  lemma {:induction false} SumWithout<K>(m: map<K, int>, k: K)
    requires k in m
    ensures Sum(m) == m[k] + Sum(m - {k})
    decreases |m|
  {
    var p := Pick(m);
    if p != k {
      Smaller(m, p);
      Smaller(m, k);
      SumWithout(m - {p}, k);
      SumWithout(m - {k}, p);
      assert m - {p} - {k} == m - {k} - {p};
    }
  }

  lemma SumPut<K>(m: map<K, int>, k: K, v: int)
    ensures Sum(m[k := v]) == (if k in m then Sum(m) - m[k] else Sum(m)) + v
  {
    SumWithout(m[k := v], k);
    if k in m {
      SumWithout(m, k);
      assert m[k := v] - {k} == m - {k};
    } else {
      assert m[k := v] - {k} == m;
    }
  }

  lemma {:induction false} SumBounds<K>(m: map<K, int>)
    requires forall k :: k in m ==> m[k] >= 0
    ensures Sum(m) >= 0
    ensures (forall k :: k in m ==> m[k] == 0) ==> Sum(m) == 0
    decreases |m|
  {
    if m != map[] {
      Smaller(m, Pick(m));
      SumBounds(m - {Pick(m)});
    }
  }

  lemma SumAtLeast<K>(m: map<K, int>, k: K)
    requires k in m && forall j :: j in m ==> m[j] >= 0
    ensures m[k] <= Sum(m)
  {
    SumWithout(m, k);
    SumBounds(m - {k});
  }
}
