/** Sums over the values of a finite map, and how they react to one key changing. */
module Sums {
  ghost function Total<K>(m: map<K, int>): int
    decreases m.Keys
  {
    if m == map[] then 0 else
      var k :| k in m;
      m[k] + Total(m - {k})
  }

  /** Any key may be split off, not only the one `Total` happens to pick. */
  lemma {:induction false} TotalSplit<K>(m: map<K, int>, k: K)
    requires k in m
    ensures Total(m) == m[k] + Total(m - {k})
    decreases m.Keys
  {
    var p :| p in m && Total(m) == m[p] + Total(m - {p});
    if p != k {
      TotalSplit(m - {p}, k);
      TotalSplit(m - {k}, p);
      assert m - {p} - {k} == m - {k} - {p};
    }
  }

  /** Setting a key changes the sum by the change of that key alone. */
  lemma TotalUpdate<K>(m: map<K, int>, k: K, v: int)
    ensures Total(m[k := v]) == Total(m) + v - if k in m then m[k] else 0
  {
    TotalSplit(m[k := v], k);
    assert m[k := v] - {k} == m - {k};
    if k in m { TotalSplit(m, k); } else { assert m - {k} == m; }
  }

  /** Pointwise comparison lifts to the sums, for a left side with fewer keys. */
  lemma {:induction false} TotalMonotone<K>(small: map<K, int>, big: map<K, int>)
    requires small.Keys <= big.Keys
    requires forall k :: k in small ==> small[k] <= big[k]
    requires forall k :: k in big && k !in small ==> 0 <= big[k]
    ensures Total(small) <= Total(big)
    decreases big.Keys
  {
    if big == map[] {
      assert small == map[];
    } else {
      var k :| k in big;
      TotalSplit(big, k);
      if k in small {
        TotalSplit(small, k);
      } else {
        assert small - {k} == small;
      }
      TotalMonotone(small - {k}, big - {k});
    }
  }
}
