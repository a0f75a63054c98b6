/** Totals over the rows of a table, with the laws that the conservation proofs rest on. */
module Sums {

  ghost function Sum<K(!new)>(m: map<K, int>): int
  {
    if m == map[] then 0
    else
      var k :| k in m;
      m[k] + Sum(m - {k})
  }

  /** The total does not depend on the order in which the rows are taken. */
  lemma {:induction false} SumWithout<K(!new)>(m: map<K, int>, k: K)
    requires k in m
    ensures Sum(m) == m[k] + Sum(m - {k})
    decreases |m|
  {
    var p :| p in m && Sum(m) == m[p] + Sum(m - {p});
    if p != k {
      SumWithout(m - {p}, k);
      SumWithout(m - {k}, p);
      assert m - {p} - {k} == m - {k} - {p};
    }
  }

  lemma SumUpdate<K(!new)>(m: map<K, int>, k: K, v: int)
    ensures Sum(m[k := v]) == Sum(m) - (if k in m then m[k] else 0) + v
  {
    var m' := m[k := v];
    SumWithout(m', k);
    if k in m {
      SumWithout(m, k);
      assert m' - {k} == m - {k};
    } else {
      assert m' - {k} == m;
    }
  }

  lemma {:induction false} SumNonNegative<K(!new)>(m: map<K, int>)
    requires forall k :: k in m ==> 0 <= m[k]
    ensures 0 <= Sum(m)
    decreases |m|
  {
    if m != map[] {
      var k :| k in m;
      SumNonNegative(m - {k});
      SumWithout(m, k);
    }
  }

  /** No one row exceeds a total of nonnegative rows, and no two together do. */
  lemma SumCoversTwo<K(!new)>(m: map<K, int>, j: K, k: K)
    requires forall i :: i in m ==> 0 <= m[i]
    requires j != k
    ensures (if j in m then m[j] else 0) + (if k in m then m[k] else 0) <= Sum(m)
  {
    var rest := m - {j} - {k};
    SumNonNegative(rest);
    if j in m { SumWithout(m, j); } else { assert m - {j} == m; }
    if k in m { SumWithout(m - {j}, k); } else { assert rest == m - {j}; }
  }

  lemma {:induction false} SumAdd<K(!new)>(m: map<K, int>, a: map<K, int>, b: map<K, int>)
    requires m.Keys == a.Keys == b.Keys
    requires forall k :: k in m ==> m[k] == a[k] + b[k]
    ensures Sum(m) == Sum(a) + Sum(b)
    decreases |m|
  {
    if m != map[] {
      var k :| k in m;
      SumWithout(m, k);
      SumWithout(a, k);
      SumWithout(b, k);
      SumAdd(m - {k}, a - {k}, b - {k});
    } else {
      assert a == map[] && b == map[];
    }
  }
}
