/** Sums over the numeric column of a finite table. */
module Sums {

  ghost function Total<K>(m: map<K, int>): int
    decreases |m|
  {
    if m == map[] then 0 else
      var k :| k in m;
      m[k] + Total(m - {k})
  }

  lemma {:induction false} TotalRemove<K>(m: map<K, int>, k: K)
    requires k in m
    ensures Total(m) == m[k] + Total(m - {k})
    decreases |m|
  {
    var j :| j in m && Total(m) == m[j] + Total(m - {j});
    if j != k {
      TotalRemove(m - {j}, k);
      TotalRemove(m - {k}, j);
      assert m - {j} - {k} == m - {k} - {j};
    }
  }

  lemma TotalInsert<K>(m: map<K, int>, k: K, v: int)
    requires k !in m
    ensures Total(m[k := v]) == Total(m) + v
  {
    TotalRemove(m[k := v], k);
    assert m[k := v] - {k} == m;
  }

  /** Replacing the entry of one key, present or not, by another or none. */
  lemma TotalUpdate<K>(m: map<K, int>, n: map<K, int>, k: K)
    requires m - {k} == n - {k}
    ensures Total(n) - (if k in n then n[k] else 0) == Total(m) - (if k in m then m[k] else 0)
  {
    if k in m {
      TotalRemove(m, k);
    } else {
      assert m == m - {k};
    }
    if k in n {
      TotalRemove(n, k);
    } else {
      assert n == n - {k};
    }
  }

  lemma {:induction false} TotalNonNegative<K>(m: map<K, int>)
    requires forall k :: k in m ==> m[k] >= 0
    ensures Total(m) >= 0
    ensures forall k :: k in m ==> m[k] <= Total(m)
    decreases |m|
  {
    if m != map[] {
      var k :| k in m && Total(m) == m[k] + Total(m - {k});
      TotalNonNegative(m - {k});
      forall j | j in m ensures m[j] <= Total(m) {
        assert j == k || j in m - {k};
      }
    }
  }

  /** A table splits into the rows under `keys` and the rest. */
  lemma {:induction false} TotalSplit<K>(m: map<K, int>, keys: set<K>)
    ensures Total(m) == Total(m - keys) + Total(map k | k in m && k in keys :: m[k])
    decreases |m|
  {
    var inside := map k | k in m && k in keys :: m[k];
    if m == map[] {
      assert m - keys == m && inside == m;
    } else {
      var k :| k in m;
      TotalRemove(m, k);
      TotalSplit(m - {k}, keys);
      var rest := m - {k};
      if k in keys {
        TotalRemove(inside, k);
        assert inside - {k} == map j | j in rest && j in keys :: rest[j];
        assert rest - keys == m - keys;
      } else {
        TotalRemove(m - keys, k);
        assert m - keys - {k} == rest - keys;
        assert inside == map j | j in rest && j in keys :: rest[j];
      }
    }
  }

  function Value<K>(m: map<K, int>, k: K): int {
    if k in m then m[k] else 0
  }

  function Nonzero<K>(m: map<K, int>): map<K, int> {
    map k | k in m && m[k] != 0 :: m[k]
  }

  lemma {:induction false} TotalNonzero<K>(m: map<K, int>)
    ensures Total(m) == Total(Nonzero(m))
    decreases |m|
  {
    if m != map[] {
      var k :| k in m;
      TotalRemove(m, k);
      TotalNonzero(m - {k});
      assert Nonzero(m - {k}) == Nonzero(m) - {k};
      if m[k] != 0 {
        TotalRemove(Nonzero(m), k);
      } else {
        assert Nonzero(m) - {k} == Nonzero(m);
      }
    }
  }

  /** Two columns that agree on every key but one, where a missing row counts nothing. */
  lemma TotalDiffersAt<K>(m: map<K, int>, n: map<K, int>, k: K)
    requires forall j :: j != k ==> Value(m, j) == Value(n, j)
    ensures Total(n) - Value(n, k) == Total(m) - Value(m, k)
  {
    TotalNonzero(m);
    TotalNonzero(n);
    forall j ensures j in Nonzero(m) - {k} <==> j in Nonzero(n) - {k} {
      assert j != k ==> Value(m, j) == Value(n, j);
    }
    forall j | j in Nonzero(m) - {k} ensures (Nonzero(m) - {k})[j] == (Nonzero(n) - {k})[j] {
      assert Value(m, j) == Value(n, j);
    }
    assert Nonzero(m) - {k} == Nonzero(n) - {k};
    TotalUpdate(Nonzero(m), Nonzero(n), k);
  }
}
