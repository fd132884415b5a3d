/** Arithmetic: sums of an integer weight over the values of a finite map. */
module Sums {

  ghost function Sum<K, V>(m: map<K, V>, f: V -> int): int {
    if m == map[] then 0 else var k :| k in m; f(m[k]) + Sum(m - {k}, f)
  }

  lemma {:induction false} SumRemove<K, V>(m: map<K, V>, k: K, f: V -> int)
    requires k in m
    ensures Sum(m, f) == f(m[k]) + Sum(m - {k}, f)
    decreases |m|
  {
    var j :| j in m && Sum(m, f) == f(m[j]) + Sum(m - {j}, f);
    if j != k {
      SumRemove(m - {j}, k, f);
      SumRemove(m - {k}, j, f);
      assert m - {j} - {k} == m - {k} - {j};
    }
  }

  /** Changing or adding one entry changes the sum by that entry's weight. */
  lemma SumSet<K, V>(m: map<K, V>, k: K, v: V, f: V -> int)
    ensures Sum(m[k := v], f) == Sum(m, f) - (if k in m then f(m[k]) else 0) + f(v)
  {
    SumRemove(m[k := v], k, f);
    if k in m {
      SumRemove(m, k, f);
      assert m[k := v] - {k} == m - {k};
    } else {
      assert m[k := v] - {k} == m;
    }
  }

  /** A weight that is the sum of two others entry by entry. */
  lemma {:induction false} SumSplit<K, V>(m: map<K, V>, f: V -> int, g: V -> int, h: V -> int)
    requires forall k :: k in m ==> f(m[k]) == g(m[k]) + h(m[k])
    ensures Sum(m, f) == Sum(m, g) + Sum(m, h)
    decreases |m|
  {
    if m != map[] {
      var k :| k in m;
      SumSplit(m - {k}, f, g, h);
      SumRemove(m, k, f);
      SumRemove(m, k, g);
      SumRemove(m, k, h);
    }
  }

  lemma {:induction false} SumScale<K, V>(m: map<K, V>, f: V -> int, factor: int, g: V -> int)
    requires forall k :: k in m ==> f(m[k]) == factor * g(m[k])
    ensures Sum(m, f) == factor * Sum(m, g)
    decreases |m|
  {
    if m != map[] {
      var k :| k in m;
      SumScale(m - {k}, f, factor, g);
      SumRemove(m, k, f);
      SumRemove(m, k, g);
      assert factor * (g(m[k]) + Sum(m - {k}, g)) == factor * g(m[k]) + factor * Sum(m - {k}, g);
    }
  }

  lemma {:induction false} SumNonNegative<K, V>(m: map<K, V>, f: V -> int)
    requires forall k :: k in m ==> f(m[k]) >= 0
    ensures Sum(m, f) >= 0
    decreases |m|
  {
    if m != map[] {
      var k :| k in m;
      SumRemove(m, k, f);
      SumNonNegative(m - {k}, f);
    }
  }

  lemma {:induction false} SumOnes<K, V>(m: map<K, V>, f: V -> int)
    requires forall k :: k in m ==> f(m[k]) == 1
    ensures Sum(m, f) == |m|
    decreases |m|
  {
    if m == map[] {
      assert |m| == 0;
    } else {
      var k :| k in m;
      SumRemove(m, k, f);
      SumOnes(m - {k}, f);
      assert |m| == |m - {k}| + 1;
    }
  }

  lemma TimesMonotone(a: int, b: int, q: int)
    requires a <= b && q >= 0
    ensures a * q <= b * q && q * a <= q * b
  {
    assert (b - a) * q >= 0;
  }

  lemma TimesDifference(q: int, a: int, b: int)
    ensures q * a - q * b == q * (a - b)
  {
  }

  /** A total is `q` times `a` exactly if what comes on top is nothing. */
  lemma Surplus(q: int, a: int, b: int, rest: int, total: int)
    requires total == q * (a + b) + rest
    ensures total == q * a <==> q * b + rest == 0
  {
    assert q * (a + b) == q * a + q * b;
  }

  lemma TimesPositive(q: int, a: int)
    requires q > 0 && a >= 0
    ensures q * a >= 0 && (a > 0 ==> q * a > 0)
  {
    if a > 0 { TimesMonotone(1, a, q); }
  }
}
