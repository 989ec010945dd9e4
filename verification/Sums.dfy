/** Totals over finite maps. */
module Sums {
  /** The sum of all values of a map. */
  ghost function Total<K(!new)>(m: map<K, int>): int
    decreases |m|
  {
    if m == map[] then 0
    else
      var k :| k in m;
      m[k] + Total(m - {k})
  }

  /** Any key may be taken out first. */
  lemma {:induction false} TotalRemove<K(!new)>(m: map<K, int>, k: K)
    requires k in m
    ensures Total(m) == m[k] + Total(m - {k})
    decreases |m|
  {
    var j :| j in m && Total(m) == m[j] + Total(m - {j});
    if j != k {
      TotalRemove(m - {j}, k);
      TotalRemove(m - {k}, j);
      assert m - {j} - {k} == m - {k} - {j};
    }
  }

  lemma TotalUpdate<K(!new)>(m: map<K, int>, k: K, v: int)
    requires k in m
    ensures Total(m[k := v]) == Total(m) - m[k] + v
  {
    TotalRemove(m, k);
    TotalRemove(m[k := v], k);
    assert m[k := v] - {k} == m - {k};
  }

  lemma TotalInsert<K(!new)>(m: map<K, int>, k: K, v: int)
    requires k !in m
    ensures Total(m[k := v]) == Total(m) + v
  {
    TotalRemove(m[k := v], k);
    assert m[k := v] - {k} == m;
  }
}
