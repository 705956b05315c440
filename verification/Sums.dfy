/** Sums over finite sets, and the few facts about set sizes the counters need. */
module Sums {
  ghost function Sum<K(!new)>(keys: set<K>, f: K -> int): (r: int) {
    if keys == {} then 0 else
    var k :| k in keys;
    f(k) + Sum(keys - {k}, f)
  }

  lemma {:induction false} SumPick<K(!new)>(keys: set<K>, f: K -> int, k: K)
    requires k in keys
    ensures Sum(keys, f) == f(k) + Sum(keys - {k}, f)
    decreases |keys|
  {
    var j :| j in keys && Sum(keys, f) == f(j) + Sum(keys - {j}, f);
    if j != k {
      SumPick(keys - {j}, f, k);
      SumPick(keys - {k}, f, j);
      assert keys - {j} - {k} == keys - {k} - {j};
    }
  }

  lemma {:induction false} SumEqual<K(!new)>(keys: set<K>, f: K -> int, g: K -> int)
    requires forall k | k in keys :: f(k) == g(k)
    ensures Sum(keys, f) == Sum(keys, g)
    decreases |keys|
  {
    if keys != {} {
      var k :| k in keys;
      SumPick(keys, f, k);
      SumPick(keys, g, k);
      SumEqual(keys - {k}, f, g);
    }
  }

  /** Changing or adding the value at one key. */
  lemma SumUpdate<K(!new)>(keys: set<K>, f: K -> int, g: K -> int, k: K)
    requires forall j | j in keys && j != k :: f(j) == g(j)
    ensures Sum(keys + {k}, g) == Sum(keys, f) - (if k in keys then f(k) else 0) + g(k)
  {
    SumPick(keys + {k}, g, k);
    assert (keys + {k}) - {k} == keys - {k};
    SumEqual(keys - {k}, f, g);
    if k in keys {
      SumPick(keys, f, k);
    } else {
      assert keys - {k} == keys;
    }
  }

  lemma {:induction false} SumUnion<K(!new)>(a: set<K>, b: set<K>, f: K -> int)
    requires a !! b
    ensures Sum(a + b, f) == Sum(a, f) + Sum(b, f)
    decreases |b|
  {
    if b == {} {
      assert a + b == a;
    } else {
      var k :| k in b;
      SumPick(b, f, k);
      SumPick(a + b, f, k);
      assert (a + b) - {k} == a + (b - {k});
      SumUnion(a, b - {k}, f);
    }
  }

  lemma {:induction false} SumNonNegative<K(!new)>(keys: set<K>, f: K -> int)
    requires forall k | k in keys :: f(k) >= 0
    ensures Sum(keys, f) >= 0
    decreases |keys|
  {
    if keys != {} {
      var k :| k in keys;
      SumPick(keys, f, k);
      SumNonNegative(keys - {k}, f);
    }
  }

  lemma SumLess<K(!new)>(keys: set<K>, f: K -> int, g: K -> int, k: K)
    requires forall j | j in keys :: f(j) <= g(j)
    requires k in keys && f(k) < g(k)
    ensures Sum(keys, f) < Sum(keys, g)
  {
    var d := (j: K) => g(j) - f(j);
    SumPick(keys, f, k);
    SumPick(keys, g, k);
    SumDifference(keys - {k}, f, g);
    SumNonNegative(keys - {k}, d);
    SumEqual(keys - {k}, d, (j: K) => g(j) - f(j));
  }

  lemma {:induction false} SumDifference<K(!new)>(keys: set<K>, f: K -> int, g: K -> int)
    ensures Sum(keys, g) - Sum(keys, f) == Sum(keys, (j: K) => g(j) - f(j))
    decreases |keys|
  {
    var d := (j: K) => g(j) - f(j);
    if keys != {} {
      var k :| k in keys;
      SumPick(keys, f, k);
      SumPick(keys, g, k);
      SumPick(keys, d, k);
      SumDifference(keys - {k}, f, g);
    }
  }

  /** Numbers between `lo` and `lo + n - 1`: at most `n` of them. */
  lemma {:induction false} BoundedSetSize(s: set<nat>, lo: nat, n: nat)
    requires forall k | k in s :: lo <= k < lo + n
    ensures |s| <= n
    decreases n
  {
    if n == 0 {
      assert s == {};
    } else {
      var top := lo + n - 1;
      BoundedSetSize(s - {top}, lo, n - 1);
      assert top in s ==> s == (s - {top}) + {top};
      assert top !in s ==> s - {top} == s;
    }
  }

  /** Moving one more entry from one map to another. */
  lemma MoveOneMore<K, V>(m: map<K, V>, r: map<K, V>, gone: set<K>, k: K)
    requires k in m && k !in gone
    ensures var some := r + (map j | j in gone && j in m :: m[j]);
            some + (map j | j in {k} && j in m - gone :: (m - gone)[j]) == r + (map j | j in gone + {k} && j in m :: m[j])
  {
  }

  lemma SumIndicator<K(!new)>(keys: set<K>, some: set<K>, f: K -> int)
    requires some <= keys && forall k | k in keys :: f(k) == if k in some then 1 else 0
    ensures Sum(keys, f) == |some|
    decreases |keys|
  {
    if keys != {} {
      var k :| k in keys;
      SumPick(keys, f, k);
      SumIndicator(keys - {k}, some - {k}, f);
      assert some == (if k in some then some - {k} + {k} else some - {k});
    }
  }

  // ---- Totals over the values of a map ---------------------------------------------------

  ghost function Total<K(!new), V(!new)>(m: map<K, V>, f: V -> int): (r: int) {
    Sum(m.Keys, k => if k in m then f(m[k]) else 0)
  }

  lemma TotalPut<K(!new), V(!new)>(m: map<K, V>, f: V -> int, k: K, v: V)
    ensures Total(m[k := v], f) == Total(m, f) + f(v) - if k in m then f(m[k]) else 0
  {
    var m' := m[k := v];
    var g, g' := (j: K) => if j in m then f(m[j]) else 0, (j: K) => if j in m' then f(m'[j]) else 0;
    SumUpdate(m.Keys, g, g', k);
    assert m'.Keys == m.Keys + {k};
  }

  /** Moving entries from one map to a disjoint one. */
  lemma TotalMove<K(!new), V(!new)>(m: map<K, V>, r: map<K, V>, gone: set<K>, f: V -> int)
    requires m.Keys !! r.Keys && gone <= m.Keys
    ensures Total(m - gone, f) + Total(r + (map k | k in gone && k in m :: m[k]), f) == Total(m, f) + Total(r, f)
  {
    var left, right := m - gone, r + (map k | k in gone && k in m :: m[k]);
    var g := (k: K) => if k in m then f(m[k]) else if k in r then f(r[k]) else 0;
    assert left.Keys == m.Keys - gone && right.Keys == r.Keys + gone;
    assert m.Keys == left.Keys + gone;
    SumUnion(left.Keys, gone, g);
    SumUnion(r.Keys, gone, g);
    SumEqual(m.Keys, (k: K) => if k in m then f(m[k]) else 0, g);
    SumEqual(r.Keys, (k: K) => if k in r then f(r[k]) else 0, g);
    SumEqual(left.Keys, (k: K) => if k in left then f(left[k]) else 0, g);
    SumEqual(right.Keys, (k: K) => if k in right then f(right[k]) else 0, g);
  }

  lemma TotalNonNegative<K(!new), V(!new)>(m: map<K, V>, f: V -> int)
    requires forall k | k in m :: f(m[k]) >= 0
    ensures Total(m, f) >= 0
  {
    SumNonNegative(m.Keys, (k: K) => if k in m then f(m[k]) else 0);
  }

  lemma TotalOfSome<K(!new), V(!new)>(m: map<K, V>, some: map<K, V>, f: V -> int)
    requires forall k | k in some :: k in m && some[k] == m[k]
    requires forall k | k in m :: f(m[k]) >= 0
    ensures Total(some, f) <= Total(m, f)
  {
    var g, h := (k: K) => if k in m then f(m[k]) else 0, (k: K) => if k in some then f(some[k]) else 0;
    var rest := m.Keys - some.Keys;
    assert m.Keys == some.Keys + rest;
    SumUnion(some.Keys, rest, g);
    SumEqual(some.Keys, g, h);
    SumNonNegative(rest, g);
  }

  lemma TotalEqual<K(!new), V(!new)>(m: map<K, V>, f: V -> int, g: V -> int)
    requires forall k | k in m :: f(m[k]) == g(m[k])
    ensures Total(m, f) == Total(m, g)
  {
    SumEqual(m.Keys, (k: K) => if k in m then f(m[k]) else 0, (k: K) => if k in m then g(m[k]) else 0);
  }

  lemma TotalIndicator<K(!new), V(!new)>(m: map<K, V>, f: V -> int, some: set<K>)
    requires some <= m.Keys && forall k | k in m :: f(m[k]) == if k in some then 1 else 0
    ensures Total(m, f) == |some|
  {
    SumIndicator(m.Keys, some, (k: K) => if k in m then f(m[k]) else 0);
  }
}
