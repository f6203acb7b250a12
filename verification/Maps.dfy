/** Injective finite maps, and how many elements they and sets of small numbers have. */
module Maps {

  ghost predicate Injective<K, V>(m: map<K, V>) {
    forall x, y {:trigger m[x], m[y]} :: x in m && y in m && m[x] == m[y] ==> x == y
  }

  /** The key of a value; unique when the map is injective. */
  ghost function KeyOf<K(!new), V>(m: map<K, V>, v: V): (k: K)
    requires v in m.Values
    ensures k in m && m[k] == v
  {
    var k :| k in m && m[k] == v;
    k
  }

  lemma InjectiveInsert<K, V>(m: map<K, V>, k: K, v: V)
    requires Injective(m) && k !in m && v !in m.Values
    ensures Injective(m[k := v]) && m[k := v].Values == m.Values + {v}
  {
    var r := m[k := v];
    assert k in r && r[k] == v;
    forall x | x in m.Values ensures x in r.Values {
      var y :| y in m && m[y] == x;
      assert r[y] == x;
    }
    forall y | y in m ensures m[y] in m.Values { }
  }

  lemma InjectiveRemove<K, V>(m: map<K, V>, k: K)
    requires Injective(m) && k in m
    ensures Injective(m - {k}) && (m - {k}).Values == m.Values - {m[k]}
  {
    var r := m - {k};
    forall x | x in m.Values - {m[k]} ensures x in r.Values {
      var y :| y in m && m[y] == x;
      assert y in r && r[y] == x;
    }
  }

  lemma {:induction false} InjectiveSize<K, V>(m: map<K, V>)
    requires Injective(m)
    ensures |m| == |m.Values|
    decreases |m|
  {
    if k :| k in m {
      var r := m - {k};
      InjectiveRemove(m, k);
      InjectiveSize(r);
      assert |m.Keys - {k}| == |m.Keys| - 1 && r.Keys == m.Keys - {k};
      assert m[k] in m.Values;
      assert |m.Values - {m[k]}| == |m.Values| - 1;
    } else {
      assert m == map[] && m.Values == {};
    }
  }

  /** A set of numbers below n has at most n elements, and n only when it has them all. */
  lemma {:induction false} BelowSize(s: set<int>, n: nat)
    requires forall i :: i in s ==> 0 <= i < n
    ensures |s| <= n
    ensures |s| == n <==> forall i :: 0 <= i < n ==> i in s
  {
    if n == 0 {
      assert forall i :: i !in s;
      assert s == {};
    } else {
      var r := s - {n - 1};
      BelowSize(r, n - 1);
      if n - 1 in s {
        assert s == r + {n - 1};
      } else {
        assert s == r;
      }
    }
  }
}
