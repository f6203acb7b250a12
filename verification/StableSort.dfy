/** A reference definition of sorting by C-string key: stable insertion sort on values. */
module StableSort {
  import opened CStrings

  /** A value of any kind together with the name it is ordered by. */
  datatype Keyed<+T> = Keyed(key: CString, val: T)

  /** strcmp(x, y) > 0: the two are out of order when x comes first. */
  predicate Greater<T>(x: Keyed<T>, y: Keyed<T>) {
    Strcmp(x.key, y.key) > 0
  }

  predicate Sorted<T>(s: seq<Keyed<T>>) {
    forall i, j {:trigger Greater(s[i], s[j])} :: 0 <= i < j < |s| ==> !Greater(s[i], s[j])
  }

  function Insert<T>(x: Keyed<T>, s: seq<Keyed<T>>): seq<Keyed<T>> {
    if s == [] || !Greater(x, s[0]) then [x] + s else [s[0]] + Insert(x, s[1..])
  }

  function Sort<T>(s: seq<Keyed<T>>): seq<Keyed<T>> {
    if s == [] then [] else Insert(s[0], Sort(s[1..]))
  }

  /** The elements with one given key, in the order in which they occur. */
  function WithKey<T>(s: seq<Keyed<T>>, k: CString): seq<Keyed<T>> {
    if s == [] then [] else (if s[0].key == k then [s[0]] else []) + WithKey(s[1..], k)
  }

  /** How many elements of s are strictly smaller than x. */
  function Smaller<T>(x: Keyed<T>, s: seq<Keyed<T>>): nat {
    if s == [] then 0 else (if Greater(x, s[0]) then 1 else 0) + Smaller(x, s[1..])
  }

  /** The number of pairs that are strictly out of order. */
  function Inversions<T>(s: seq<Keyed<T>>): nat {
    if s == [] then 0 else Smaller(s[0], s[1..]) + Inversions(s[1..])
  }

  /** s with the elements at i and i + 1 exchanged. */
  function Swapped<T>(s: seq<T>, i: nat): (r: seq<T>)
    requires i + 1 < |s|
    ensures |r| == |s| && multiset(r) == multiset(s)
  {
    s[i := s[i + 1]][i + 1 := s[i]]
  }

  // ---------- order ----------

  lemma GreaterTransitive<T>(x: Keyed<T>, y: Keyed<T>, z: Keyed<T>)
    ensures Greater(x, y) && !Greater(z, y) ==> Greater(x, z)
    ensures !Greater(x, y) && !Greater(y, z) ==> !Greater(x, z)
    ensures !Greater(x, y) && Greater(z, y) ==> Greater(z, x)
    ensures Greater(x, y) ==> !Greater(y, x)
  {
    StrcmpAntisymmetric(x.key, y.key);
    StrcmpAntisymmetric(y.key, z.key);
    StrcmpAntisymmetric(x.key, z.key);
    if !Greater(x, y) && !Greater(y, z) { StrcmpTransitive(x.key, y.key, z.key); }
    if Greater(x, y) && !Greater(z, y) { StrcmpTransitive(z.key, y.key, x.key); }
    if !Greater(x, y) && Greater(z, y) { StrcmpTransitive(x.key, y.key, z.key); }
  }

  /** Adjacent order is enough for order of every pair. */
  lemma {:induction false} AdjacentOrderSorts<T>(s: seq<Keyed<T>>)
    requires forall i :: 0 <= i < |s| - 1 ==> !Greater(s[i], s[i + 1])
    ensures Sorted(s)
  {
    if |s| > 1 {
      AdjacentOrderSorts(s[1..]);
      forall j | 0 < j < |s| ensures !Greater(s[0], s[j]) {
        if j > 1 {
          assert !Greater(s[1..][0], s[1..][j - 1]);
          GreaterTransitive(s[0], s[1], s[j]);
        }
      }
      forall i, j | 0 < i < j < |s| ensures !Greater(s[i], s[j]) {
        assert !Greater(s[1..][i - 1], s[1..][j - 1]);
      }
    }
  }

  /** Sorted means in dictionary order of the keys. */
  lemma SortedIsDictionaryOrder<T>(s: seq<Keyed<T>>)
    ensures Sorted(s) <==> forall i, j :: 0 <= i < j < |s| ==> !Precedes(s[j].key, s[i].key)
  {
    forall i, j | 0 <= i < j < |s| ensures Greater(s[i], s[j]) <==> Precedes(s[j].key, s[i].key) {
      StrcmpIsDictionaryOrder(s[i].key, s[j].key);
    }
  }

  // ---------- what the reference definition promises ----------

  lemma {:induction false} InsertKeepsElements<T>(x: Keyed<T>, s: seq<Keyed<T>>)
    ensures multiset(Insert(x, s)) == multiset{x} + multiset(s)
  {
    if s != [] && Greater(x, s[0]) {
      InsertKeepsElements(x, s[1..]);
      assert s == [s[0]] + s[1..];
    }
  }

  lemma {:induction false} InsertKeepsOrder<T>(x: Keyed<T>, s: seq<Keyed<T>>)
    requires Sorted(s)
    ensures Sorted(Insert(x, s))
  {
    if s == [] {
    } else if !Greater(x, s[0]) {
      forall j | 0 < j < |s| ensures !Greater(x, s[j]) { GreaterTransitive(x, s[0], s[j]); }
    } else {
      var t := Insert(x, s[1..]);
      InsertKeepsOrder(x, s[1..]);
      InsertKeepsElements(x, s[1..]);
      GreaterTransitive(x, s[0], x);
      forall j | 0 <= j < |t| ensures !Greater(s[0], t[j]) {
        assert t[j] in multiset(t);
        if t[j] != x { assert t[j] in s[1..]; }
      }
    }
  }

  lemma {:induction false} InsertIsStable<T>(x: Keyed<T>, s: seq<Keyed<T>>, k: CString)
    ensures WithKey(Insert(x, s), k) == (if x.key == k then [x] else []) + WithKey(s, k)
  {
    if s == [] || !Greater(x, s[0]) {
      WithKeyCons(x, s, k);
    } else {
      InsertIsStable(x, s[1..], k);
      WithKeyCons(s[0], Insert(x, s[1..]), k);
      StrcmpZeroIsEquality(x.key, s[0].key);
    }
  }

  lemma WithKeyCons<T>(x: Keyed<T>, s: seq<Keyed<T>>, k: CString)
    ensures WithKey([x] + s, k) == (if x.key == k then [x] else []) + WithKey(s, k)
  {
    assert ([x] + s)[1..] == s;
  }

  /** Sort permutes its input, orders it, and keeps equal names in their original order. */
  lemma {:induction false} SortFacts<T>(s: seq<Keyed<T>>, k: CString)
    ensures Sorted(Sort(s))
    ensures multiset(Sort(s)) == multiset(s)
    ensures WithKey(Sort(s), k) == WithKey(s, k)
  {
    if s != [] {
      SortFacts(s[1..], k);
      InsertKeepsOrder(s[0], Sort(s[1..]));
      InsertKeepsElements(s[0], Sort(s[1..]));
      InsertIsStable(s[0], Sort(s[1..]), k);
      assert s == [s[0]] + s[1..];
    }
  }

  lemma {:induction false} SortedIsFixed<T>(s: seq<Keyed<T>>)
    requires Sorted(s)
    ensures Sort(s) == s
  {
    if s != [] {
      SortedIsFixed(s[1..]);
      assert s == [s[0]] + s[1..];
    }
  }

  lemma {:induction false} WithKeyMembers<T>(s: seq<Keyed<T>>, k: CString)
    ensures (exists i :: 0 <= i < |s| && s[i].key == k) <==> WithKey(s, k) != []
    ensures WithKey(s, k) != [] ==> WithKey(s, k)[0] in s && WithKey(s, k)[0].key == k
  {
    if s != [] {
      WithKeyMembers(s[1..], k);
      if s[0].key != k && WithKey(s[1..], k) != [] {
        var i :| 0 <= i < |s| - 1 && s[1..][i].key == k;
        assert s[i + 1].key == k;
      }
      if i :| 0 <= i < |s| && s[i].key == k {
        if i > 0 { assert s[1..][i - 1].key == k; }
      }
    }
  }

  /** The smallest key of two sorted sequences with the same keys is the same. */
  lemma SameFirstKey<T>(s: seq<Keyed<T>>, r: seq<Keyed<T>>)
    requires Sorted(s) && Sorted(r) && s != [] && r != []
    requires exists i :: 0 <= i < |s| && s[i].key == r[0].key
    requires exists j :: 0 <= j < |r| && r[j].key == s[0].key
    ensures s[0].key == r[0].key
  {
    var i :| 0 <= i < |s| && s[i].key == r[0].key;
    var j :| 0 <= j < |r| && r[j].key == s[0].key;
    StrcmpAntisymmetric(r[0].key, s[0].key);
    StrcmpZeroIsEquality(r[0].key, s[0].key);
    assert i > 0 ==> !Greater(s[0], s[i]);
    assert j > 0 ==> !Greater(r[0], r[j]);
  }

  lemma SameHead<T>(s: seq<Keyed<T>>, r: seq<Keyed<T>>)
    requires Sorted(s) && Sorted(r) && s != []
    requires forall k: CString :: WithKey(s, k) == WithKey(r, k)
    ensures r != [] && s[0] == r[0]
  {
    var k := s[0].key;
    assert WithKey(s, k) == WithKey(r, k);
    WithKeyMembers(s, k);
    WithKeyMembers(r, k);
    var m := r[0].key;
    assert WithKey(s, m) == WithKey(r, m);
    WithKeyMembers(s, m);
    WithKeyMembers(r, m);
    SameFirstKey(s, r);
    assert s[0] == WithKey(s, k)[0] == WithKey(r, k)[0] == r[0];
  }

  lemma SameWithoutHead<T>(s: seq<Keyed<T>>, r: seq<Keyed<T>>, q: CString)
    requires s != [] && r != [] && s[0] == r[0] && WithKey(s, q) == WithKey(r, q)
    ensures WithKey(s[1..], q) == WithKey(r[1..], q)
  {
    var h := if s[0].key == q then [s[0]] else [];
    assert h + WithKey(s[1..], q) == h + WithKey(r[1..], q);
    assert (h + WithKey(s[1..], q))[|h|..] == WithKey(s[1..], q);
    assert (h + WithKey(r[1..], q))[|h|..] == WithKey(r[1..], q);
  }

  /** A sorted sequence is determined by its elements of each key, so the stable sort is unique. */
  lemma {:induction false} StableSortUnique<T>(s: seq<Keyed<T>>, r: seq<Keyed<T>>)
    requires Sorted(s) && Sorted(r)
    requires forall k: CString :: WithKey(s, k) == WithKey(r, k)
    ensures s == r
  {
    if s == [] {
      if r != [] {
        WithKeyMembers(r, r[0].key);
      }
    } else {
      SameHead(s, r);
      forall q: CString ensures WithKey(s[1..], q) == WithKey(r[1..], q) { SameWithoutHead(s, r, q); }
      StableSortUnique(s[1..], r[1..]);
      assert s == [s[0]] + s[1..] && r == [r[0]] + r[1..];
    }
  }

  // ---------- exchanging two adjacent, strictly inverted elements ----------

  lemma {:induction false} InsertCommutes<T>(x: Keyed<T>, y: Keyed<T>, s: seq<Keyed<T>>)
    requires Greater(x, y)
    ensures Insert(x, Insert(y, s)) == Insert(y, Insert(x, s))
  {
    GreaterTransitive(x, y, y);
    if s != [] {
      GreaterTransitive(x, y, s[0]);
      GreaterTransitive(y, s[0], x);
      GreaterTransitive(s[0], y, x);
      if Greater(y, s[0]) {
        InsertCommutes(x, y, s[1..]);
        GreaterTransitive(s[0], y, x);
        var t := s[1..];
        assert ([s[0]] + Insert(x, t))[1..] == Insert(x, t);
        assert ([s[0]] + Insert(y, t))[1..] == Insert(y, t);
      } else {
        assert ([y] + s)[1..] == s;
        if !Greater(x, s[0]) {
          assert ([x] + s)[1..] == s;
        } else {
          assert ([s[0]] + Insert(x, s[1..]))[0] == s[0];
        }
      }
    }
  }

  lemma {:induction false} SmallerSwapped<T>(x: Keyed<T>, s: seq<Keyed<T>>, i: nat)
    requires i + 1 < |s|
    ensures Smaller(x, Swapped(s, i)) == Smaller(x, s)
  {
    var r := Swapped(s, i);
    if i == 0 {
      assert r[1..][1..] == s[1..][1..];
    } else {
      SmallerSwapped(x, s[1..], i - 1);
      assert r[1..] == Swapped(s[1..], i - 1);
    }
  }

  /** One step of the bubble sort: the stable sort is unchanged and one inversion is gone. */
  lemma {:induction false} SwapStep<T>(s: seq<Keyed<T>>, i: nat)
    requires i + 1 < |s| && Greater(s[i], s[i + 1])
    ensures Sort(Swapped(s, i)) == Sort(s)
    ensures Inversions(Swapped(s, i)) + 1 == Inversions(s)
  {
    var r := Swapped(s, i);
    GreaterTransitive(s[i], s[i + 1], s[i]);
    if i == 0 {
      assert r[1..][1..] == s[1..][1..];
      InsertCommutes(s[0], s[1], Sort(s[2..]));
      assert s[1..][1..] == s[2..];
    } else {
      SwapStep(s[1..], i - 1);
      assert r[1..] == Swapped(s[1..], i - 1);
      SmallerSwapped(s[0], s[1..], i - 1);
    }
  }

  // ---------- sorting looks only at the keys ----------

  function Retag<T, U>(s: seq<Keyed<T>>, f: T -> U): (r: seq<Keyed<U>>)
    ensures |r| == |s| && forall i :: 0 <= i < |s| ==> r[i] == Keyed(s[i].key, f(s[i].val))
  {
    seq(|s|, i requires 0 <= i < |s| => Keyed(s[i].key, f(s[i].val)))
  }

  lemma {:induction false} InsertRetag<T, U>(x: Keyed<T>, s: seq<Keyed<T>>, f: T -> U)
    ensures Retag(Insert(x, s), f) == Insert(Keyed(x.key, f(x.val)), Retag(s, f))
  {
    if s != [] && Greater(x, s[0]) {
      InsertRetag(x, s[1..], f);
      assert Retag(s, f)[1..] == Retag(s[1..], f);
    }
  }

  lemma {:induction false} SortRetag<T, U>(s: seq<Keyed<T>>, f: T -> U)
    ensures Retag(Sort(s), f) == Sort(Retag(s, f))
  {
    if s != [] {
      SortRetag(s[1..], f);
      InsertRetag(s[0], Sort(s[1..]), f);
      assert Retag(s, f)[1..] == Retag(s[1..], f);
    }
  }
}
