/**
 * The number of inverted pairs of a sequence. Every exchange the sorts perform
 * swaps an inverted pair, which strictly lowers this count; that is what makes
 * gnome sort's back-steps and quicksort's partition loop and re-entrant
 * recursion terminate.
 */
module Disorder {
  import opened Sequences

  /**
   * Position pairs `(p, q)` of the window `[lo, hi)` with `p < q` whose
   * elements are out of ascending order.
   */
  ghost function InvertedPairs(s: seq<int>, lo: int, hi: int): set<(int, int)>
    requires 0 <= lo <= hi <= |s|
  {
    set p, q | lo <= p < q < hi && s[p] > s[q] :: (p, q)
  }

  /** The number of inverted pairs in the window `[lo, hi)`. */
  ghost function Inversions(s: seq<int>, lo: int, hi: int): nat
    requires 0 <= lo <= hi <= |s|
  {
    |InvertedPairs(s, lo, hi)|
  }

  /** A window is sorted exactly when it has no inverted pair. */
  lemma NoInversionsIffSorted(s: seq<int>, lo: int, hi: int)
    requires 0 <= lo <= hi <= |s|
    ensures Inversions(s, lo, hi) == 0 <==> SortedRange(s, lo, hi)
  {
    if !SortedRange(s, lo, hi) {
      var i, j :| lo <= i < j < hi && s[i] > s[j];
      assert (i, j) in InvertedPairs(s, lo, hi);
    }
  }

  /** Where position `p` comes from after positions `l` and `r` are exchanged. */
  function Moved(p: int, l: int, r: int): int {
    if p == l then r else if p == r then l else p
  }

  /**
   * Maps an inverted pair of the swapped sequence to an inverted pair of the
   * original one: pairs whose positions stay in order under the exchange follow
   * their elements; the others (one end at `l` or `r`, the other strictly
   * between them) stay where they are.
   */
  function Pullback(pq: (int, int), l: int, r: int): (int, int) {
    var (p, q) := pq;
    if Moved(p, l, r) < Moved(q, l, r) then (Moved(p, l, r), Moved(q, l, r)) else (p, q)
  }

  /**
   * Exchanging an inverted pair (`l < r`, `s[l] > s[r]`) inside a window
   * removes at least one inversion of the window: the pullback maps the
   * inversions of the result one-to-one into those of `s` other than `(l, r)`.
   */
  lemma SwapInvertedPairDecreases(s: seq<int>, l: int, r: int, lo: int, hi: int)
    requires 0 <= lo <= l < r < hi <= |s| && s[l] > s[r]
    ensures Inversions(Swap(s, l, r), lo, hi) < Inversions(s, lo, hi)
  {
    var t := Swap(s, l, r);
    var A := InvertedPairs(t, lo, hi);
    var B := InvertedPairs(s, lo, hi) - {(l, r)};
    assert (l, r) in InvertedPairs(s, lo, hi);
    forall pq | pq in A ensures Pullback(pq, l, r) in B {
      var (p, q) := pq;
      assert t[p] > t[q];
    }
    forall x, y | x in A && y in A && Pullback(x, l, r) == Pullback(y, l, r) ensures x == y {
    }
    InjectiveImageSize(A, B, l, r);
    assert |B| == |InvertedPairs(s, lo, hi)| - 1;
  }

  /** An injective map from `A` into `B` shows `|A| <= |B|`. */
  lemma {:induction false} InjectiveImageSize(A: set<(int, int)>, B: set<(int, int)>, l: int, r: int)
    requires forall x :: x in A ==> Pullback(x, l, r) in B
    requires forall x, y :: x in A && y in A && Pullback(x, l, r) == Pullback(y, l, r) ==> x == y
    ensures |A| <= |B|
    decreases |A|
  {
    if A != {} {
      var x :| x in A;
      var fx := Pullback(x, l, r);
      forall y | y in A - {x} ensures Pullback(y, l, r) in B - {fx} {
      }
      InjectiveImageSize(A - {x}, B - {fx}, l, r);
    }
  }
}
