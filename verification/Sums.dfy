/** Sums over finite maps, independent of the order in which the entries are taken. */
module Sums {
  ghost function Sum<K>(m: map<K, int>): int {
    if m == map[] then 0 else var k :| k in m; m[k] + Sum(m - {k})
  }

  lemma {:induction false} SumAt<K>(m: map<K, int>, k: K)
    requires k in m
    ensures Sum(m) == m[k] + Sum(m - {k})
    decreases |m|
  {
    var j :| j in m && Sum(m) == m[j] + Sum(m - {j});
    if j != k {
      SumAt(m - {j}, k);
      SumAt(m - {k}, j);
      assert m - {j} - {k} == m - {k} - {j};
    }
  }

  function Entry<K>(m: map<K, int>, k: K): int { if k in m then m[k] else 0 }

  lemma SumUpdate<K>(m: map<K, int>, k: K, v: int)
    ensures Sum(m[k := v]) == Sum(m) - Entry(m, k) + v
  {
    var n := m[k := v];
    SumAt(n, k);
    assert n - {k} == m - {k};
    if k in m { SumAt(m, k); } else { assert m - {k} == m; }
  }

  ghost predicate NonNegative<K>(m: map<K, int>) { forall k :: k in m ==> m[k] >= 0 }

  lemma {:induction false} SumNonNegative<K>(m: map<K, int>)
    requires NonNegative(m)
    ensures Sum(m) >= 0
    ensures forall k :: k in m ==> m[k] <= Sum(m)
    decreases |m|
  {
    if m != map[] {
      var j :| j in m && Sum(m) == m[j] + Sum(m - {j});
      SumNonNegative(m - {j});
      assert forall k :: k in m ==> k == j || k in m - {j};
    }
  }

  lemma OverlayStep<K>(m: map<K, int>, n: map<K, int>, k: K)
    requires k in n
    ensures Sum(m + n) == Sum(m + (n - {k})) - Entry(m, k) + n[k]
  {
    var rest := m + (n - {k});
    assert m + n == rest[k := n[k]];
    SumUpdate(rest, k, n[k]);
  }

  /** Overwriting entries adds what is written and loses what was there. */
  lemma {:induction false} SumOverlay<K>(m: map<K, int>, n: map<K, int>)
    ensures NonNegative(m) ==> Sum(m + n) <= Sum(m) + Sum(n)
    ensures m.Keys !! n.Keys ==> Sum(m + n) == Sum(m) + Sum(n)
    decreases |n|
  {
    if n == map[] {
      assert m + n == m;
    } else {
      var k :| k in n;
      SumAt(n, k);
      OverlayStep(m, n, k);
      SumOverlay(m, n - {k});
    }
  }

  lemma {:induction false} SumWithout<K>(m: map<K, int>, s: set<K>)
    requires s <= m.Keys
    ensures Sum(m) == Sum(m - s) + Sum(map k | k in s :: m[k])
    decreases |s|
  {
    var n := map j | j in s :: m[j];
    if s == {} {
      assert m - s == m && n == map[];
    } else {
      var k :| k in s;
      SumWithout(m, s - {k});
      SumAt(n, k);
      assert n - {k} == map j | j in s - {k} :: m[j];
      SumAt(m - (s - {k}), k);
      assert m - (s - {k}) - {k} == m - s;
    }
  }

  lemma {:induction false} AllZero<K>(m: map<K, int>)
    requires forall k :: k in m ==> m[k] == 0
    ensures Sum(m) == 0
    decreases |m|
  {
    if m != map[] {
      var k :| k in m;
      SumAt(m, k);
      AllZero(m - {k});
    }
  }

  // ---------- the same for reals ----------

  ghost function SumR<K>(m: map<K, real>): real {
    if m == map[] then 0.0 else var k :| k in m; m[k] + SumR(m - {k})
  }

  lemma {:induction false} SumRAt<K>(m: map<K, real>, k: K)
    requires k in m
    ensures SumR(m) == m[k] + SumR(m - {k})
    decreases |m|
  {
    var j :| j in m && SumR(m) == m[j] + SumR(m - {j});
    if j != k {
      SumRAt(m - {j}, k);
      SumRAt(m - {k}, j);
      assert m - {j} - {k} == m - {k} - {j};
    }
  }
}
