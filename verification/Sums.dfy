/** The sum of the values of a map. */
module Sums {

  ghost function Sum<K>(m: map<K, nat>): nat
    decreases |m|
  {
    if m == map[] then 0
    else
      var k :| k in m;
      m[k] + Sum(m - {k})
  }

  /** Any key may be taken out first. */
  lemma {:induction false} SumWithout<K>(m: map<K, nat>, k: K)
    requires k in m
    ensures Sum(m) == m[k] + Sum(m - {k})
    decreases |m|
  {
    var first :| first in m && Sum(m) == m[first] + Sum(m - {first});
    if first != k {
      SumWithout(m - {first}, k);
      SumWithout(m - {k}, first);
      assert m - {first} - {k} == m - {k} - {first};
    }
  }

  lemma {:induction false} SumFewer<K>(some: map<K, nat>, all: map<K, nat>)
    requires some.Keys <= all.Keys && forall k :: k in some ==> some[k] <= all[k]
    ensures Sum(some) <= Sum(all)
    decreases |some|
  {
    if some == map[] {
    } else {
      var k :| k in some;
      SumWithout(some, k);
      SumWithout(all, k);
      SumFewer(some - {k}, all - {k});
    }
  }

  lemma SumInsert<K>(m: map<K, nat>, k: K, v: nat)
    ensures Sum(m[k := v]) <= Sum(m) + v
    ensures k !in m ==> Sum(m[k := v]) == Sum(m) + v
  {
    SumWithout(m[k := v], k);
    SumFewer(m[k := v] - {k}, m);
    assert k !in m ==> m[k := v] - {k} == m;
  }

  lemma {:induction false} SumBounded<K>(m: map<K, nat>, bound: nat)
    requires forall k :: k in m ==> m[k] <= bound
    ensures Sum(m) <= |m| * bound
    decreases |m|
  {
    if m == map[] {
    } else {
      var k :| k in m;
      SumWithout(m, k);
      SumBounded(m - {k}, bound);
      SizeWithout(m, k);
      OneMore(|m| - 1, bound);
    }
  }

  lemma OneMore(n: nat, bound: nat)
    ensures (n + 1) * bound == n * bound + bound
  {
  }

  lemma SizeWithout<K, V>(m: map<K, V>, k: K)
    requires k in m
    ensures |m - {k}| == |m| - 1
  {
    assert (m - {k}).Keys == m.Keys - {k};
  }
}
