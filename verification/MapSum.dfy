/** Sums over the values of a finite map, used for every "the total equals the sum of its parts" claim. */
module MapSum {
  ghost function Sum<K(!new), V>(m: map<K, V>, f: V -> nat): nat
    decreases |m|
  {
    if m == map[] then 0
    else
      var k :| k in m;
      f(m[k]) + Sum(m - {k}, f)
  }

  lemma {:induction false} Remove<K(!new), V>(m: map<K, V>, f: V -> nat, k: K)
    requires k in m
    ensures Sum(m, f) == f(m[k]) + Sum(m - {k}, f)
    decreases |m|
  {
    var j :| j in m && Sum(m, f) == f(m[j]) + Sum(m - {j}, f);
    if j != k {
      Remove(m - {j}, f, k);
      Remove(m - {k}, f, j);
      assert m - {j} - {k} == m - {k} - {j};
    }
  }

  lemma Put<K(!new), V>(m: map<K, V>, f: V -> nat, k: K, v: V)
    ensures Sum(m[k := v], f) == f(v) + Sum(m - {k}, f)
    ensures k !in m ==> Sum(m[k := v], f) == f(v) + Sum(m, f)
    ensures k in m ==> Sum(m[k := v], f) + f(m[k]) == f(v) + Sum(m, f)
  {
    Remove(m[k := v], f, k);
    assert m[k := v] - {k} == m - {k};
    if k in m {
      Remove(m, f, k);
    } else {
      assert m - {k} == m;
    }
  }
}
