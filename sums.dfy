/**
 * Sums of credit values held in a map. Python adds a dict's values in insertion
 * order; on exact reals the order does not matter (SumOverRemove), so the sum
 * is defined over a set of keys.
 */
module Sums {
  /** The sum of the values `m` holds under `keys`. */
  ghost function SumOver<K>(m: map<K, real>, keys: set<K>): real
    requires keys <= m.Keys
    decreases keys
  {
    if keys == {} then 0.0 else var k :| k in keys; m[k] + SumOver(m, keys - {k})
  }

  /** The sum of all values of `m`. */
  ghost function Sum<K>(m: map<K, real>): real
  {
    SumOver(m, m.Keys)
  }

  /** Any key can be taken out first: the sum does not depend on the order of addition. */
  lemma {:induction false} SumOverRemove<K>(m: map<K, real>, keys: set<K>, k: K)
    requires keys <= m.Keys && k in keys
    ensures SumOver(m, keys) == m[k] + SumOver(m, keys - {k})
    decreases keys
  {
    var j :| j in keys && SumOver(m, keys) == m[j] + SumOver(m, keys - {j});
    if j != k {
      SumOverRemove(m, keys - {j}, k);
      SumOverRemove(m, keys - {k}, j);
      assert keys - {j} - {k} == keys - {k} - {j};
    }
  }

  /** Adding one more key to the range adds its value. */
  lemma SumOverAdd<K>(m: map<K, real>, keys: set<K>, k: K)
    requires keys <= m.Keys && k in m && k !in keys
    ensures SumOver(m, keys + {k}) == SumOver(m, keys) + m[k]
  {
    SumOverRemove(m, keys + {k}, k);
    assert keys + {k} - {k} == keys;
  }

  /** Two maps that agree on `keys` have the same sum over them. */
  lemma {:induction false} SumOverAgree<K>(m1: map<K, real>, m2: map<K, real>, keys: set<K>)
    requires keys <= m1.Keys && keys <= m2.Keys
    requires forall k :: k in keys ==> m1[k] == m2[k]
    ensures SumOver(m1, keys) == SumOver(m2, keys)
    decreases keys
  {
    if keys != {} {
      var k :| k in keys;
      SumOverRemove(m1, keys, k);
      SumOverRemove(m2, keys, k);
      SumOverAgree(m1, m2, keys - {k});
    }
  }

  /** With no negative values, the sum is at least every single value, and so at least 0. */
  lemma {:induction false} SumOverBoundsEach<K>(m: map<K, real>, keys: set<K>)
    requires keys <= m.Keys
    requires forall k :: k in keys ==> m[k] >= 0.0
    ensures SumOver(m, keys) >= 0.0
    ensures forall k :: k in keys ==> m[k] <= SumOver(m, keys)
    decreases keys
  {
    if keys != {} {
      var j :| j in keys;
      SumOverRemove(m, keys, j);
      SumOverBoundsEach(m, keys - {j});
    }
  }

  /** Taking one entry out of a map takes its value out of the sum. */
  lemma SumWithout<K>(m: map<K, real>, k: K)
    requires k in m
    ensures Sum(m) == m[k] + Sum(m - {k})
  {
    SumOverRemove(m, m.Keys, k);
    var rest := m - {k};
    assert rest.Keys == m.Keys - {k};
    SumOverAgree(m, rest, rest.Keys);
  }

  /**
   * Two maps whose values agree on shared keys, and that hold only zeros on
   * the keys the other lacks, have the same sum.
   */
  lemma {:induction false} SumAgreeOnSupport<K>(m1: map<K, real>, m2: map<K, real>)
    requires forall k :: k in m1 && k in m2 ==> m1[k] == m2[k]
    requires forall k :: k in m1 && k !in m2 ==> m1[k] == 0.0
    requires forall k :: k in m2 && k !in m1 ==> m2[k] == 0.0
    ensures Sum(m1) == Sum(m2)
    decreases |m1.Keys| + |m2.Keys|
  {
    if m1.Keys != {} {
      var k :| k in m1.Keys;
      SumWithout(m1, k);
      if k in m2 {
        SumWithout(m2, k);
        SumAgreeOnSupport(m1 - {k}, m2 - {k});
      } else {
        SumAgreeOnSupport(m1 - {k}, m2);
      }
    } else if m2.Keys != {} {
      var k :| k in m2.Keys;
      SumWithout(m2, k);
      SumAgreeOnSupport(m1, m2 - {k});
    }
  }
}
