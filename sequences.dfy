/**
 * Value-level vocabulary shared by every algorithm of the sorter: ascending
 * order, the element exchange performed by the swap helper, and the facts
 * about permutations that the sorts and the shuffle rely on.
 */
module Sequences {

  /** Ascending (non-decreasing) order, stated over every pair of positions. */
  ghost predicate Sorted(s: seq<int>) {
    forall i, j :: 0 <= i < j < |s| ==> s[i] <= s[j]
  }

  /** Ascending order of the window `[lo, hi)` of `s`. */
  ghost predicate SortedRange(s: seq<int>, lo: int, hi: int)
    requires 0 <= lo <= hi <= |s|
  {
    forall x, y :: lo <= x < y < hi ==> s[x] <= s[y]
  }

  /** Ascending order as the tests check it: each element is at least its predecessor. */
  ghost predicate AdjacentSorted(s: seq<int>) {
    forall i :: 0 < i < |s| ==> s[i - 1] <= s[i]
  }

  /** `t` is what a correct ascending sort returns for `s`. */
  ghost predicate SortsTo(s: seq<int>, t: seq<int>) {
    |t| == |s| && multiset(t) == multiset(s) && Sorted(t)
  }

  /** Every element equals every other one. */
  ghost predicate AllEqual(s: seq<int>) {
    forall i, j :: 0 <= i < |s| && 0 <= j < |s| ==> s[i] == s[j]
  }

  /**
   * The array that `swapValuesInIntArray(s, i1, i2)` returns: a copy of `s`
   * with positions `i1` and `i2` exchanged.
   */
  function Swap(s: seq<int>, i1: int, i2: int): (r: seq<int>)
    requires 0 <= i1 < |s| && 0 <= i2 < |s|
    ensures |r| == |s|
    ensures r[i1] == s[i2] && r[i2] == s[i1]
    ensures forall k :: 0 <= k < |s| && k != i1 && k != i2 ==> r[k] == s[k]
    ensures multiset(r) == multiset(s)
  {
    s[i1 := s[i2]][i2 := s[i1]]
  }

  /** Exchanging two positions twice gives back the original sequence. */
  lemma SwapTwice(s: seq<int>, i1: int, i2: int)
    requires 0 <= i1 < |s| && 0 <= i2 < |s|
    ensures Swap(Swap(s, i1, i2), i1, i2) == s
  {
    var t := Swap(Swap(s, i1, i2), i1, i2);
    assert forall k :: 0 <= k < |s| ==> t[k] == s[k];
  }

  /** The two readings of "ascending" agree. */
  lemma {:induction false} AdjacentSortedIsSorted(s: seq<int>)
    ensures AdjacentSorted(s) <==> Sorted(s)
  {
    if AdjacentSorted(s) {
      forall i, j | 0 <= i < j < |s| ensures s[i] <= s[j] {
        AdjacentChain(s, i, j);
      }
    }
  }

  lemma {:induction false} AdjacentChain(s: seq<int>, i: int, j: int)
    requires AdjacentSorted(s) && 0 <= i <= j < |s|
    ensures s[i] <= s[j]
    decreases j - i
  {
    if i < j {
      AdjacentChain(s, i, j - 1);
    }
  }

  /** `t` agrees with `s` outside the window `[lo, hi)`. */
  ghost predicate SameOutside(s: seq<int>, t: seq<int>, lo: int, hi: int) {
    |t| == |s| && forall k :: 0 <= k < |s| && !(lo <= k < hi) ==> t[k] == s[k]
  }

  /** A rearrangement that keeps everything outside a window rearranges the window itself. */
  lemma WindowPermuted(s: seq<int>, t: seq<int>, lo: int, hi: int)
    requires 0 <= lo <= hi <= |s| && SameOutside(s, t, lo, hi) && multiset(t) == multiset(s)
    ensures multiset(t[lo..hi]) == multiset(s[lo..hi])
  {
    assert s == s[..lo] + s[lo..hi] + s[hi..];
    assert t == t[..lo] + t[lo..hi] + t[hi..];
    assert t[..lo] == s[..lo];
    assert t[hi..] == s[hi..];
    assert multiset(s) == multiset(s[..lo]) + multiset(s[lo..hi]) + multiset(s[hi..]);
    assert multiset(t) == multiset(t[..lo]) + multiset(t[lo..hi]) + multiset(t[hi..]);
    calc {
      multiset(t[lo..hi]);
      multiset(t) - multiset(t[..lo]) - multiset(t[hi..]);
      multiset(s) - multiset(s[..lo]) - multiset(s[hi..]);
      multiset(s[lo..hi]);
    }
  }

  /** Every element of a rearranged window stays at most `v` if every original one was. */
  lemma WindowUpperBound(s: seq<int>, t: seq<int>, lo: int, hi: int, v: int)
    requires 0 <= lo <= hi <= |s| && SameOutside(s, t, lo, hi) && multiset(t) == multiset(s)
    requires forall k :: lo <= k < hi ==> s[k] <= v
    ensures forall k :: lo <= k < hi ==> t[k] <= v
  {
    WindowPermuted(s, t, lo, hi);
    forall k | lo <= k < hi ensures t[k] <= v {
      assert t[k] == t[lo..hi][k - lo];
      assert t[k] in multiset(s[lo..hi]);
      var x :| 0 <= x < hi - lo && s[lo..hi][x] == t[k];
      assert s[lo + x] == t[k];
    }
  }

  /** Every element of a rearranged window stays at least `v` if every original one was. */
  lemma WindowLowerBound(s: seq<int>, t: seq<int>, lo: int, hi: int, v: int)
    requires 0 <= lo <= hi <= |s| && SameOutside(s, t, lo, hi) && multiset(t) == multiset(s)
    requires forall k :: lo <= k < hi ==> v <= s[k]
    ensures forall k :: lo <= k < hi ==> v <= t[k]
  {
    WindowPermuted(s, t, lo, hi);
    forall k | lo <= k < hi ensures v <= t[k] {
      assert t[k] == t[lo..hi][k - lo];
      assert t[k] in multiset(s[lo..hi]);
      var x :| 0 <= x < hi - lo && s[lo..hi][x] == t[k];
      assert s[lo + x] == t[k];
    }
  }

  /**
   * A sorted arrangement of a multiset is unique: two sorted sequences that
   * are permutations of each other are equal. Hence every correct sort returns
   * the same sequence, and sorting a sorted sequence gives it back.
   */
  lemma {:induction false} SortedPermutationUnique(s: seq<int>, t: seq<int>)
    requires Sorted(s) && Sorted(t) && multiset(s) == multiset(t)
    ensures s == t
    decreases |s|
  {
    assert |s| == |multiset(s)| == |multiset(t)| == |t|;
    if |s| > 0 {
      var n := |s|;
      // the last element of each is the maximum of the common multiset
      assert s[n - 1] in multiset(t);
      assert t[n - 1] in multiset(s);
      assert s[n - 1] in t;
      assert t[n - 1] in s;
      assert s[n - 1] == t[n - 1];
      assert s == s[..n - 1] + [s[n - 1]];
      assert t == t[..n - 1] + [t[n - 1]];
      assert multiset(s[..n - 1]) == multiset(s) - multiset{s[n - 1]};
      assert multiset(t[..n - 1]) == multiset(t) - multiset{t[n - 1]};
      SortedPermutationUnique(s[..n - 1], t[..n - 1]);
    }
  }

  /** A sort whose result is correct leaves an already sorted sequence as it was. */
  lemma SortOfSortedIsIdentity(s: seq<int>, t: seq<int>)
    requires Sorted(s) && SortsTo(s, t)
    ensures t == s
  {
    SortedPermutationUnique(t, s);
  }
}
