/** One pass of the list's bubble sort as a function on values, and what every pass achieves. */
module BubblePass {
  import opened StableSort

  /** The elements after the rest of a pass whose cursor stands at index i. */
  function PassFrom<T>(s: seq<Keyed<T>>, i: nat): (r: seq<Keyed<T>>)
    ensures |r| == |s|
    decreases |s| - i
  {
    if i + 1 >= |s| then s
    else if Greater(s[i], s[i + 1]) then PassFrom(Swapped(s, i), i + 1)
    else PassFrom(s, i + 1)
  }

  /** How many pairs the rest of that pass exchanges. */
  function SwapsFrom<T>(s: seq<Keyed<T>>, i: nat): nat
    decreases |s| - i
  {
    if i + 1 >= |s| then 0
    else if Greater(s[i], s[i + 1]) then 1 + SwapsFrom(Swapped(s, i), i + 1)
    else SwapsFrom(s, i + 1)
  }

  /** Inside a pass over s0: the cursor is at index i, and swaps have been made. */
  ghost predicate Passing<T>(s0: seq<Keyed<T>>, s: seq<Keyed<T>>, i: nat, swaps: nat, steppedBack: bool) {
    && |s| == |s0|
    && i <= |s|
    && PassFrom(s, i) == PassFrom(s0, 0)
    && swaps + SwapsFrom(s, i) == SwapsFrom(s0, 0)
    && (steppedBack ==> i + 1 < |s| && !Greater(s[i], s[i + 1]))
  }

  /**
   * After a swap list_sort's cursor steps back onto the smaller of the two exchanged elements,
   * where the comparison is made once more, without effect.
   */
  lemma SwapInPass<T>(s0: seq<Keyed<T>>, s: seq<Keyed<T>>, i: nat, swaps: nat, steppedBack: bool)
    requires Passing(s0, s, i, swaps, steppedBack)
    requires i + 1 < |s| && Greater(s[i], s[i + 1])
    ensures !steppedBack
    ensures Passing(s0, Swapped(s, i), i, swaps + 1, true)
    ensures swaps < SwapsFrom(s0, 0)
  {
    GreaterTransitive(s[i], s[i + 1], s[i]);
  }

  lemma StepInPass<T>(s0: seq<Keyed<T>>, s: seq<Keyed<T>>, i: nat, swaps: nat, steppedBack: bool)
    requires Passing(s0, s, i, swaps, steppedBack)
    requires i < |s| && (i + 1 < |s| ==> !Greater(s[i], s[i + 1]))
    ensures Passing(s0, s, i + 1, swaps, false)
  {
  }

  // ---------- what a pass keeps ----------

  /** s comes from s0 by the given number of swaps, each of which removed one inversion. */
  ghost predicate Bubbled<T>(s0: seq<Keyed<T>>, s: seq<Keyed<T>>, swaps: nat) {
    && |s| == |s0|
    && Sort(s) == Sort(s0)
    && Inversions(s) + swaps == Inversions(s0)
  }

  lemma {:induction false} PassBubbles<T>(s: seq<Keyed<T>>, i: nat)
    ensures Bubbled(s, PassFrom(s, i), SwapsFrom(s, i))
    decreases |s| - i
  {
    if i + 1 < |s| {
      if Greater(s[i], s[i + 1]) {
        SwapStep(s, i);
        PassBubbles(Swapped(s, i), i + 1);
      } else {
        PassBubbles(s, i + 1);
      }
    }
  }

  /** A pass without a swap leaves everything where it is and finds the rest in order. */
  lemma {:induction false} QuietPass<T>(s: seq<Keyed<T>>, i: nat)
    requires SwapsFrom(s, i) == 0
    ensures PassFrom(s, i) == s
    ensures forall p :: i <= p < |s| - 1 ==> !Greater(s[p], s[p + 1])
    decreases |s| - i
  {
    if i + 1 < |s| { QuietPass(s, i + 1); }
  }

  /** The last k elements are where a sorted sequence has them. */
  predicate Settled<T>(s: seq<Keyed<T>>, k: nat) {
    forall p, q {:trigger Greater(s[p], s[q])} :: 0 <= p < q < |s| && |s| - k <= q ==> !Greater(s[p], s[q])
  }

  /** The element at m is not smaller than any before it. */
  predicate PrefixMax<T>(s: seq<Keyed<T>>, m: int) {
    0 <= m < |s| ==> forall p {:trigger Greater(s[p], s[m])} :: 0 <= p < m ==> !Greater(s[p], s[m])
  }

  /** A swap only happens before the settled elements and carries the largest one along. */
  lemma SwapKeepsSettled<T>(s: seq<Keyed<T>>, i: nat, k: nat)
    requires i + 1 < |s| && Greater(s[i], s[i + 1]) && Settled(s, k) && PrefixMax(s, i)
    ensures i + 1 < |s| - k
    ensures Settled(Swapped(s, i), k) && PrefixMax(Swapped(s, i), i + 1)
  {
    GreaterTransitive(s[i], s[i + 1], s[i]);
    var r := Swapped(s, i);
    assert i + 1 < |s| - k;
    forall p, q | 0 <= p < q < |r| && |r| - k <= q ensures !Greater(r[p], r[q]) {
      var p' := if p == i then i + 1 else if p == i + 1 then i else p;
      assert r[p] == s[p'] && r[q] == s[q];
      assert !Greater(s[p'], s[q]);
    }
    forall p | 0 <= p < i + 1 ensures !Greater(r[p], r[i + 1]) {
      if p < i { assert !Greater(s[p], s[i]); }
    }
  }

  lemma StepKeepsPrefixMax<T>(s: seq<Keyed<T>>, i: nat)
    requires i + 1 < |s| && !Greater(s[i], s[i + 1]) && PrefixMax(s, i)
    ensures PrefixMax(s, i + 1)
  {
    forall p | 0 <= p < i + 1 ensures !Greater(s[p], s[i + 1]) {
      if p < i {
        assert !Greater(s[p], s[i]);
        GreaterTransitive(s[p], s[i], s[i + 1]);
      }
    }
  }

  lemma SettlesOne<T>(s: seq<Keyed<T>>, k: nat)
    requires k < |s| && Settled(s, k) && PrefixMax(s, |s| - k - 1)
    ensures Settled(s, k + 1)
  {
  }

  /** Every pass settles one more element, and swaps only while two or more are unsettled. */
  lemma {:induction false} PassSettles<T>(s: seq<Keyed<T>>, i: nat, k: nat)
    requires Settled(s, k) && k < |s|
    requires PrefixMax(s, if i <= |s| - k - 1 then i else |s| - k - 1)
    ensures Settled(PassFrom(s, i), k + 1)
    ensures SwapsFrom(s, i) > 0 ==> k + 2 <= |s|
    decreases |s| - i
  {
    if i + 1 >= |s| {
      SettlesOne(s, k);
    } else if Greater(s[i], s[i + 1]) {
      SwapKeepsSettled(s, i, k);
      PassSettles(Swapped(s, i), i + 1, k);
    } else {
      if i + 1 <= |s| - k - 1 { StepKeepsPrefixMax(s, i); }
      PassSettles(s, i + 1, k);
    }
  }

  /** One whole pass over s when k elements were settled before it. */
  lemma WholePass<T>(s: seq<Keyed<T>>, k: nat)
    requires Settled(s, k)
    ensures Bubbled(s, PassFrom(s, 0), SwapsFrom(s, 0))
    ensures k < |s| ==> Settled(PassFrom(s, 0), k + 1)
    ensures SwapsFrom(s, 0) == 0 ==> Sorted(PassFrom(s, 0))
    ensures SwapsFrom(s, 0) > 0 ==> k + 2 <= |s|
  {
    PassBubbles(s, 0);
    if SwapsFrom(s, 0) == 0 {
      QuietPass(s, 0);
      AdjacentOrderSorts(s);
    }
    if k < |s| {
      PassSettles(s, 0, k);
    } else {
      assert Sorted(s);
      SortedPassIsQuiet(s, 0);
    }
  }

  lemma {:induction false} SortedPassIsQuiet<T>(s: seq<Keyed<T>>, i: nat)
    requires Sorted(s)
    ensures SwapsFrom(s, i) == 0
    decreases |s| - i
  {
    if i + 1 < |s| { SortedPassIsQuiet(s, i + 1); }
  }

  // ---------- the whole sort ----------

  function Times(k: nat, n: nat): nat {
    if k == 0 then 0 else Times(k - 1, n) + n
  }

  lemma {:induction false} TimesIsProduct(k: nat, n: nat)
    ensures Times(k, n) == k * n
  {
    if k > 0 {
      TimesIsProduct(k - 1, n);
      assert k * n == (k - 1) * n + n;
    }
  }

  /** Between two passes: how far s is from the sorted s0, and the work done so far. */
  ghost predicate Sorting<T>(s0: seq<Keyed<T>>, s: seq<Keyed<T>>, ended: bool,
                             passes: nat, swaps: nat, iterations: nat) {
    && Bubbled(s0, s, swaps)
    && iterations == Times(passes, |s0|) + swaps
    && (if ended
        then Sorted(s) && 1 <= passes && (s != [] ==> passes <= |s|)
        else Settled(s, passes) && (passes > 0 ==> passes + 1 <= |s|))
  }

  lemma SortingStep<T>(s0: seq<Keyed<T>>, s: seq<Keyed<T>>, passes: nat, swaps: nat, iterations: nat)
    requires Sorting(s0, s, false, passes, swaps, iterations)
    ensures var more := SwapsFrom(s, 0);
      && Sorting(s0, PassFrom(s, 0), more == 0, passes + 1, swaps + more, iterations + |s0| + more)
      && (more > 0 ==> Inversions(PassFrom(s, 0)) < Inversions(s))
  {
    WholePass(s, passes);
  }

  lemma SortingEnds<T>(s0: seq<Keyed<T>>, s: seq<Keyed<T>>, passes: nat, swaps: nat, iterations: nat)
    requires Sorting(s0, s, true, passes, swaps, iterations)
    ensures s == Sort(s0)
    ensures iterations == passes * |s0| + Inversions(s0)
  {
    SortedIsFixed(s);
    SortedHasNoInversions(s);
    TimesIsProduct(passes, |s0|);
  }

  lemma {:induction false} NothingSmaller<T>(x: Keyed<T>, s: seq<Keyed<T>>)
    requires forall j :: 0 <= j < |s| ==> !Greater(x, s[j])
    ensures Smaller(x, s) == 0
  {
    if s != [] { NothingSmaller(x, s[1..]); }
  }

  lemma {:induction false} SortedHasNoInversions<T>(s: seq<Keyed<T>>)
    requires Sorted(s)
    ensures Inversions(s) == 0
  {
    if s != [] {
      NothingSmaller(s[0], s[1..]);
      SortedHasNoInversions(s[1..]);
    }
  }
}
