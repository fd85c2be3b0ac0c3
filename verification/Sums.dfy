/** Sums over finite maps. */
module Sums {
  ghost function SumOf<K>(keys: set<K>, f: map<K, nat>): nat
    requires keys <= f.Keys
  {
    if keys == {} then 0 else
      var k :| k in keys;
      f[k] + SumOf(keys - {k}, f)
  }

  ghost function Sum<K>(f: map<K, nat>): nat {
    SumOf(f.Keys, f)
  }

  lemma {:induction false} SumPick<K>(keys: set<K>, f: map<K, nat>, k: K)
    requires keys <= f.Keys && k in keys
    ensures SumOf(keys, f) == f[k] + SumOf(keys - {k}, f)
    decreases |keys|
  {
    var j :| j in keys && SumOf(keys, f) == f[j] + SumOf(keys - {j}, f);
    if j != k {
      SumPick(keys - {j}, f, k);
      SumPick(keys - {k}, f, j);
      assert keys - {j} - {k} == keys - {k} - {j};
    }
  }

  lemma {:induction false} SumAgrees<K>(keys: set<K>, f: map<K, nat>, g: map<K, nat>)
    requires keys <= f.Keys && keys <= g.Keys && forall k :: k in keys ==> f[k] == g[k]
    ensures SumOf(keys, f) == SumOf(keys, g)
    decreases |keys|
  {
    if k :| k in keys {
      SumPick(keys, f, k);
      SumPick(keys, g, k);
      SumAgrees(keys - {k}, f, g);
    }
  }

  /** Changing one summand changes the sum by as much. */
  lemma SumUpdate<K>(f: map<K, nat>, k: K, n: nat)
    ensures Sum(f[k := n]) == Sum(f) - (if k in f then f[k] else 0) + n
  {
    var g := f[k := n];
    SumPick(g.Keys, g, k);
    var others := g.Keys - {k};
    assert others == f.Keys - {k};
    SumAgrees(others, f, g);
    if k in f {
      SumPick(f.Keys, f, k);
    } else {
      assert others == f.Keys;
    }
  }
}
