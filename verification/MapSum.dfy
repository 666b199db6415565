/** The sum of a measure over the values of a finite map. */
module MapSum {
  ghost function Sum<K, E>(m: map<K, E>, f: E -> nat): nat {
    if m == map[] then 0
    else
      var k :| k in m;
      f(m[k]) + Sum(m - {k}, f)
  }

  /** Any key may be split off. */
  lemma {:induction false} SumSplit<K, E>(m: map<K, E>, f: E -> nat, k: K)
    requires k in m
    ensures Sum(m, f) == f(m[k]) + Sum(m - {k}, f)
    decreases |m|
  {
    var j :| j in m && Sum(m, f) == f(m[j]) + Sum(m - {j}, f);
    if j != k {
      SumSplit(m - {j}, f, k);
      SumSplit(m - {k}, f, j);
      assert m - {j} - {k} == m - {k} - {j};
    }
  }

  lemma SumUpdate<K, E>(m: map<K, E>, f: E -> nat, k: K, e: E)
    ensures Sum(m[k := e], f) == Sum(m, f) - (if k in m then f(m[k]) else 0) + f(e)
  {
    SumSplit(m[k := e], f, k);
    if k in m {
      SumSplit(m, f, k);
      assert m[k := e] - {k} == m - {k};
    } else {
      assert m[k := e] - {k} == m;
    }
  }
}
