/** Sums and counts over finite maps. */
module MapSums {

  ghost function Sum<K(!new), V(!new)>(m: map<K, V>, f: V -> int): int
    decreases |m|
  {
    if m == map[] then 0
    else
      var k :| k in m;
      assert |m - {k}| < |m| by { Smaller(m, k); }
      f(m[k]) + Sum(m - {k}, f)
  }

  lemma Smaller<K, V>(m: map<K, V>, k: K)
    requires k in m
    ensures |m - {k}| == |m| - 1
  {
    assert (m - {k}).Keys == m.Keys - {k};
    assert |(m - {k}).Keys| == |m - {k}| && |m.Keys| == |m|;
  }

  /** Any entry can be taken out first. */
  lemma {:induction false} SumWithout<K(!new), V(!new)>(m: map<K, V>, f: V -> int, k: K)
    requires k in m
    ensures Sum(m, f) == f(m[k]) + Sum(m - {k}, f)
    decreases |m|
  {
    var j :| j in m && Sum(m, f) == f(m[j]) + Sum(m - {j}, f);
    if j != k {
      Smaller(m, j);
      SumWithout(m - {j}, f, k);
      Smaller(m, k);
      SumWithout(m - {k}, f, j);
      assert m - {j} - {k} == m - {k} - {j};
    }
  }

  /** Setting an entry changes the sum by the difference. */
  lemma SumSet<K(!new), V(!new)>(m: map<K, V>, f: V -> int, k: K, v: V)
    ensures Sum(m[k := v], f) == Sum(m, f) - (if k in m then f(m[k]) else 0) + f(v)
  {
    SumWithout(m[k := v], f, k);
    assert m[k := v] - {k} == m - {k};
    if k in m {
      SumWithout(m, f, k);
    } else {
      assert m - {k} == m;
    }
  }

  /** Entries that are not negative bound the sum from below. */
  lemma {:induction false} SumBound<K(!new), V(!new)>(m: map<K, V>, f: V -> int)
    requires forall k | k in m :: f(m[k]) >= 0
    ensures Sum(m, f) >= 0
    decreases |m|
  {
    if m != map[] {
      var k :| k in m && Sum(m, f) == f(m[k]) + Sum(m - {k}, f);
      Smaller(m, k);
      SumBound(m - {k}, f);
    }
  }

  lemma SumAtLeast<K(!new), V(!new)>(m: map<K, V>, f: V -> int, k: K)
    requires k in m && forall j | j in m :: f(m[j]) >= 0
    ensures Sum(m, f) >= f(m[k])
  {
    SumWithout(m, f, k);
    SumBound(m - {k}, f);
  }
}
