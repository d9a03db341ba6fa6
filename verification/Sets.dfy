/** Small facts about finite sets. */
module Sets {

  lemma Choose<T>(s: set<T>) returns (x: T)
    requires s != {}
    ensures x in s
  {
    x :| x in s;
  }

  lemma MapsEqual<K(!new), V(!new)>(m: map<K, V>, m': map<K, V>)
    requires forall k | k in m :: k in m' && m[k] == m'[k]
    requires forall k | k in m' :: k in m
    ensures m == m'
  {
  }
}

/** Sums over the values of a map. */
module MapSums {

  ghost function Sum<K(!new), V(!new)>(m: map<K, V>, weight: V -> nat): nat
    decreases |m|
  {
    if m == map[] then 0
    else
      var k :| k in m;
      weight(m[k]) + Sum(m - {k}, weight)
  }

  /** The sum does not depend on the order in which the keys are taken. */
  lemma {:induction false} SumWithout<K(!new), V(!new)>(m: map<K, V>, weight: V -> nat, k: K)
    requires k in m
    ensures Sum(m, weight) == weight(m[k]) + Sum(m - {k}, weight)
    decreases |m|
  {
    var j :| j in m && Sum(m, weight) == weight(m[j]) + Sum(m - {j}, weight);
    if j != k {
      SumWithout(m - {j}, weight, k);
      SumWithout(m - {k}, weight, j);
      assert m - {j} - {k} == m - {k} - {j};
    }
  }

  lemma SumUpdate<K(!new), V(!new)>(m: map<K, V>, weight: V -> nat, k: K, v: V)
    ensures Sum(m[k := v], weight) == weight(v) + Sum(m - {k}, weight)
    ensures k in m ==> Sum(m, weight) == weight(m[k]) + Sum(m - {k}, weight)
    ensures k !in m ==> Sum(m, weight) == Sum(m - {k}, weight)
  {
    SumWithout(m[k := v], weight, k);
    assert m[k := v] - {k} == m - {k};
    if k in m { SumWithout(m, weight, k); } else { assert m - {k} == m; }
  }
}
