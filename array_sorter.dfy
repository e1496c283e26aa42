/**
 * The array sorter: a shuffle and four ascending sorts over integer arrays.
 *
 * Every public operation refuses an empty array, hands a one-element array
 * back as it is, and otherwise works on a private copy of its argument, so the
 * caller's array is never written (none of them has a `modifies` clause). The
 * source re-clones the working copy at every exchange; because that copy is
 * private, the model exchanges in place on one working array, and `Swap`
 * states the exchange on values.
 */
module ArraySorter {
  import opened Sequences
  import opened Disorder

  /** The one failure the operations report: the input array has no element. */
  datatype SortError = EmptyInput

  datatype Result<T> = Ok(value: T) | Err(error: SortError)

  /** The private working copy (`intArray.clone()`). */
  method Clone(input: array<int>) returns (a: array<int>)
    ensures fresh(a) && a[..] == input[..]
  {
    a := new int[input.Length](k requires 0 <= k < input.Length reads input => input[k]);
  }

  /** `newArray = swapValuesInIntArray(newArray, i1, i2)` on the private working array. */
  method SwapAt(a: array<int>, i1: int, i2: int)
    requires 0 <= i1 < a.Length && 0 <= i2 < a.Length
    modifies a
    ensures a[..] == Swap(old(a[..]), i1, i2)
  {
    var v := a[i1];
    a[i1] := a[i2];
    a[i2] := v;
  }

  // ---------------------------------------------------------------------------
  // Shuffle
  // ---------------------------------------------------------------------------

  /**
   * The values `random.nextInt(i)` returns while the shuffle runs: step `t`
   * works on index `i = n - 1 - t` and draws from `[0, i)`.
   */
  ghost predicate DrawsFit(draws: seq<int>, n: int) {
    |draws| == n - 1 && forall t :: 0 <= t < |draws| ==> 0 <= draws[t] < n - 1 - t
  }

  /** `perm` is one-to-one. */
  ghost predicate Injective(perm: seq<int>) {
    forall p, q :: 0 <= p < q < |perm| ==> perm[p] != perm[q]
  }

  /** `t` is `s` rearranged by the bijection `perm`: position `p` of `t` holds `s[perm[p]]`. */
  ghost predicate Tracks(s: seq<int>, t: seq<int>, perm: seq<int>) {
    |t| == |s| && |perm| == |s| && Injective(perm) &&
    forall p {:trigger perm[p]} :: 0 <= p < |s| ==> 0 <= perm[p] < |s| && t[p] == s[perm[p]]
  }

  /**
   * The cycle structure the shuffle keeps while positions `0..i` are still
   * open: every cycle of `perm` holds exactly one open position. `root[p]` is
   * the open position of `p`'s cycle, and `dist[p]` the number of steps along
   * `perm` from `p` to it.
   */
  ghost predicate OneOpenPerCycle(perm: seq<int>, root: seq<int>, dist: seq<int>, i: int) {
    var n := |perm|;
    |root| == n && |dist| == n && 0 <= i < n &&
    (forall p :: 0 <= p < n ==> 0 <= perm[p] < n) &&
    (forall p :: 0 <= p < n ==> 0 <= root[p] <= i && root[perm[p]] == root[p]) &&
    (forall p :: 0 <= p <= i ==> root[p] == p && dist[p] == 0) &&
    (forall p :: i < p < n ==> dist[p] > 0 && dist[perm[p]] == dist[p] - 1)
  }

  /** Roots after the cycles of `i` and `k` are joined and `i` is closed. */
  ghost function JoinedRoots(root: seq<int>, i: int, k: int): seq<int> {
    seq(|root|, p requires 0 <= p < |root| => if root[p] == i then k else root[p])
  }

  /** Distances after the cycles of `i` and `k` are joined: `i` now leads on to `perm[k]`. */
  ghost function JoinedDist(perm: seq<int>, root: seq<int>, dist: seq<int>, i: int, k: int): seq<int>
    requires |root| == |dist| && 0 <= k < |perm| && 0 <= perm[k] < |dist|
  {
    seq(|dist|, p requires 0 <= p < |dist| => if root[p] == i then dist[p] + 1 + dist[perm[k]] else dist[p])
  }

  /** Exchanging the open position `i` with a strictly smaller open `k` joins their cycles. */
  lemma ShuffleStep(perm: seq<int>, root: seq<int>, dist: seq<int>, i: int, k: int)
    requires OneOpenPerCycle(perm, root, dist, i) && 0 <= k < i
    ensures OneOpenPerCycle(Swap(perm, k, i), JoinedRoots(root, i, k), JoinedDist(perm, root, dist, i, k), i - 1)
  {
    var perm', root', dist' := Swap(perm, k, i), JoinedRoots(root, i, k), JoinedDist(perm, root, dist, i, k);
    var n := |perm|;
    forall p | 0 <= p < n ensures 0 <= root'[p] <= i - 1 && root'[perm'[p]] == root'[p] {
      if p == k {
        assert perm'[p] == perm[i];
      } else if p == i {
        assert perm'[p] == perm[k];
      }
    }
    forall p | i - 1 < p < n ensures dist'[p] > 0 && dist'[perm'[p]] == dist'[p] - 1 {
      if p == i {
        assert perm'[p] == perm[k];
      }
    }
  }

  /**
   * The state of the shuffle with positions `0..i` still open: `t` is `s`
   * rearranged by `perm`, whose cycles each hold exactly one open position.
   */
  ghost predicate Shuffling(s: seq<int>, t: seq<int>, perm: seq<int>, root: seq<int>, dist: seq<int>, i: int) {
    Tracks(s, t, perm) && multiset(t) == multiset(s) && OneOpenPerCycle(perm, root, dist, i)
  }

  /** Before the first draw every position is open and is its own cycle. */
  lemma ShuffleStart(s: seq<int>)
    requires |s| > 0
    ensures Shuffling(s, s, Identity(|s|), Identity(|s|), seq(|s|, p => 0), |s| - 1)
  {
  }

  /**
   * One draw `k < i`: exchanging `k` and `i` closes `i` and keeps the state,
   * with `perm'` the old permutation exchanged at `k` and `i`.
   */
  lemma ShuffleAdvance(s: seq<int>, t: seq<int>, perm: seq<int>, root: seq<int>, dist: seq<int>, i: int, k: int)
    returns (perm': seq<int>, root': seq<int>, dist': seq<int>)
    requires Shuffling(s, t, perm, root, dist, i) && 0 <= k < i
    ensures perm' == Swap(perm, k, i)
    ensures Shuffling(s, Swap(t, k, i), perm', root', dist', i - 1)
  {
    ShuffleStep(perm, root, dist, i, k);
    TracksSwap(s, t, perm, k, i);
    perm', root', dist' := Swap(perm, k, i), JoinedRoots(root, i, k), JoinedDist(perm, root, dist, i, k);
  }

  /** The permutation that leaves every index in place. */
  ghost function Identity(n: nat): seq<int> {
    seq(n, p => p)
  }

  lemma TracksSwap(s: seq<int>, t: seq<int>, perm: seq<int>, k: int, i: int)
    requires Tracks(s, t, perm) && 0 <= k < |s| && 0 <= i < |s|
    ensures Tracks(s, Swap(t, k, i), Swap(perm, k, i))
  {
  }

  /**
   * When the rearranged sequence equals the original one, every element equals
   * the element at the root of its cycle.
   */
  lemma {:induction false} EqualToRoot(s: seq<int>, perm: seq<int>, root: seq<int>, dist: seq<int>, i: int, p: int)
    requires Tracks(s, s, perm) && OneOpenPerCycle(perm, root, dist, i) && 0 <= p < |s|
    ensures 0 <= root[p] <= i && s[p] == s[root[p]]
    decreases dist[p]
  {
    if p > i {
      EqualToRoot(s, perm, root, dist, i, perm[p]);
    }
  }

  /** Following `perm` from a closed position reaches its root: some closed `q` has `perm[q] == root[p]`. */
  lemma {:induction false} PredecessorOfRoot(perm: seq<int>, root: seq<int>, dist: seq<int>, i: int, p: int)
    returns (q: int)
    requires OneOpenPerCycle(perm, root, dist, i) && i < p < |perm|
    ensures i < q < |perm| && perm[q] == root[p]
    decreases dist[p]
  {
    if perm[p] <= i {
      q := p;
    } else {
      q := PredecessorOfRoot(perm, root, dist, i, perm[p]);
    }
  }

  /** At the end of the shuffle (one open position, at least two elements) no position is fixed. */
  lemma NoFixedPoint(perm: seq<int>, root: seq<int>, dist: seq<int>)
    requires OneOpenPerCycle(perm, root, dist, 0) && Injective(perm) && |perm| >= 2
    ensures forall p :: 0 <= p < |perm| ==> perm[p] != p
  {
    var q := PredecessorOfRoot(perm, root, dist, 0, 1);
    assert perm[q] == 0 && q != 0;
    forall p | 0 < p < |perm| ensures perm[p] != p {
      assert dist[perm[p]] != dist[p];
    }
  }

  /**
   * Once every position but `0` is closed, a rearrangement that gives the
   * sequence back unchanged can only be of a sequence whose elements are all
   * equal: each element equals the one at its root, and every root is `0`.
   */
  lemma UnchangedMeansAllEqual(s: seq<int>, perm: seq<int>, root: seq<int>, dist: seq<int>)
    requires Tracks(s, s, perm) && OneOpenPerCycle(perm, root, dist, 0)
    ensures AllEqual(s)
  {
    forall p | 0 <= p < |s| ensures s[p] == s[0] {
      EqualToRoot(s, perm, root, dist, 0, p);
    }
    EqualToFirst(s);
  }

  lemma EqualToFirst(s: seq<int>)
    requires forall p :: 0 <= p < |s| ==> s[p] == s[0]
    ensures AllEqual(s)
  {
  }

  /** What the finished shuffle guarantees about its result `t` of `s`. */
  lemma ShuffleOutcome(s: seq<int>, t: seq<int>, perm: seq<int>, root: seq<int>, dist: seq<int>)
    requires Shuffling(s, t, perm, root, dist, 0) && |s| >= 2
    ensures forall p :: 0 <= p < |s| ==> perm[p] != p
    ensures t == s <==> AllEqual(s)
    ensures |s| == 2 ==> t == [s[1], s[0]]
  {
    NoFixedPoint(perm, root, dist);
    if t == s {
      UnchangedMeansAllEqual(s, perm, root, dist);
    }
    if AllEqual(s) {
      forall p | 0 <= p < |s| ensures t[p] == s[p] {
        assert t[p] == s[perm[p]];
      }
    }
    if |s| == 2 {
      assert perm[0] == 1 && perm[1] == 0;
    }
  }

  /**
   * The loop of `shuffle` on the private working array: for `i` from the last
   * index down to 1, exchange `a[i]` with `a[draws[n - 1 - i]]`. It ends with
   * a single open position, so `a` is the old contents rearranged by a
   * permutation made of one cycle.
   */
  method Derange(a: array<int>, draws: seq<int>) returns (ghost perm: seq<int>, ghost root: seq<int>, ghost dist: seq<int>)
    requires a.Length > 1 && DrawsFit(draws, a.Length)
    modifies a
    ensures Shuffling(old(a[..]), a[..], perm, root, dist, 0)
  {
    var n := a.Length;
    ghost var s := a[..];
    perm, root, dist := Identity(n), Identity(n), seq(n, p => 0);
    ShuffleStart(s);
    var i := n - 1;
    while i > 0
      invariant 0 <= i < n
      invariant Shuffling(s, a[..], perm, root, dist, i)
    {
      var k := draws[n - 1 - i];
      perm, root, dist := ShuffleAdvance(s, a[..], perm, root, dist, i, k);
      SwapAt(a, k, i);
      i := i - 1;
    }
  }

  /**
   * `shuffle`: Fisher–Yates from the end, with the draw for index `i` taken
   * from `[0, i)` (Sattolo's variant). The result is a rearrangement of the
   * input by a permutation that is a single cycle through every index. So no
   * element stays at its index, the result equals the input exactly when all
   * elements are equal, and a two-element array always comes back exchanged.
   * The ghost outputs witness the single cycle: with only index `0` left open,
   * `root` and `dist` show that every index reaches `0` along `perm`.
   */
  method Shuffle(input: array<int>, draws: seq<int>)
    returns (r: Result<array<int>>, ghost perm: seq<int>, ghost root: seq<int>, ghost dist: seq<int>)
    requires input.Length > 1 ==> DrawsFit(draws, input.Length)
    ensures input.Length == 0 ==> r == Err(EmptyInput)
    ensures input.Length == 1 ==> r == Ok(input)
    ensures input.Length > 1 ==> r.Ok? && r.value != input && fresh(r.value)
    ensures r.Ok? ==> Tracks(input[..], r.value[..], perm) && multiset(r.value[..]) == multiset(input[..])
    ensures input.Length > 1 ==> OneOpenPerCycle(perm, root, dist, 0)
    ensures input.Length > 1 ==> forall p :: 0 <= p < input.Length ==> perm[p] != p
    ensures r.Ok? ==> (r.value[..] == input[..] <==> AllEqual(input[..]))
    ensures input.Length == 2 ==> r.Ok? && r.value[..] == [input[1], input[0]]
  {
    if input.Length < 1 {
      return Err(EmptyInput), [], [], [];
    } else if input.Length == 1 {
      return Ok(input), [0], [0], [0];
    }
    ghost var s := input[..];
    var a := Clone(input);
    perm, root, dist := Derange(a, draws);
    ShuffleOutcome(s, a[..], perm, root, dist);
    r := Ok(a);
  }

  // ---------------------------------------------------------------------------
  // Selection sort
  // ---------------------------------------------------------------------------

  /**
   * The inner scan of `sortSelection`: starting from `a[last]`, keep the first
   * element strictly greater than the best so far. The result holds a maximum
   * of `a[0..last]`; it moves off `last` exactly when some element is strictly
   * greater than `a[last]`, and then it is the leftmost maximum.
   */
  method MaxIndex(a: array<int>, last: int) returns (m: int)
    requires 0 <= last < a.Length
    ensures 0 <= m <= last
    ensures forall k :: 0 <= k <= last ==> a[k] <= a[m]
    ensures m != last <==> exists k :: 0 <= k <= last && a[k] > a[last]
    ensures m != last ==> forall k :: 0 <= k < m ==> a[k] < a[m]
  {
    m := last;
    var maxValue := a[m];
    var i := 0;
    while i <= last
      invariant 0 <= i <= last + 1
      invariant 0 <= m <= last && maxValue == a[m] && a[last] <= maxValue
      invariant forall k :: 0 <= k < i ==> a[k] <= maxValue
      invariant m != last ==> m < i && a[last] < maxValue && forall k :: 0 <= k < m ==> a[k] < maxValue
    {
      if a[i] > maxValue {
        maxValue := a[i];
        m := i;
      }
      i := i + 1;
    }
  }

  /** `sortSelection`: move the maximum of the open prefix `[0..lastIndex]` to `lastIndex`, then shrink it. */
  method SortSelection(input: array<int>) returns (r: Result<array<int>>)
    ensures input.Length == 0 ==> r == Err(EmptyInput)
    ensures input.Length == 1 ==> r == Ok(input)
    ensures input.Length > 1 ==> r.Ok? && r.value != input && fresh(r.value)
    ensures r.Ok? ==> SortsTo(input[..], r.value[..])
    ensures r.Ok? && Sorted(input[..]) ==> r.value[..] == input[..]
  {
    if input.Length < 1 {
      return Err(EmptyInput);
    } else if input.Length == 1 {
      return Ok(input);
    }
    var n := input.Length;
    var a := Clone(input);
    var lastIndex := n - 1;
    while lastIndex > 0
      invariant 0 <= lastIndex < n && a.Length == n
      invariant multiset(a[..]) == multiset(input[..])
      // the suffix after lastIndex is sorted and dominates everything before it
      invariant forall x, y :: 0 <= x < y < n && lastIndex < y ==> a[x] <= a[y]
    {
      var maxValueIndex := MaxIndex(a, lastIndex);
      if maxValueIndex != lastIndex {
        SwapAt(a, maxValueIndex, lastIndex);
      }
      lastIndex := lastIndex - 1;
    }
    Finish(input, a);
    r := Ok(a);
  }

  /** Closing step shared by the sorts: a sorted permutation of the input is the answer, also for sorted input. */
  lemma Finish(input: array<int>, a: array<int>)
    requires a.Length == input.Length && multiset(a[..]) == multiset(input[..]) && Sorted(a[..])
    ensures SortsTo(input[..], a[..])
    ensures Sorted(input[..]) ==> a[..] == input[..]
  {
    if Sorted(input[..]) {
      SortOfSortedIsIdentity(input[..], a[..]);
    }
  }

  // ---------------------------------------------------------------------------
  // Gnome sort
  // ---------------------------------------------------------------------------

  /**
   * `sortGnome`: compare the pair `(i, j)` with `j == i + 1`; exchange an
   * inverted pair and step back (or forward at the left end), otherwise step
   * forward. Every exchange removes an inversion, which bounds the back-steps.
   */
  method SortGnome(input: array<int>) returns (r: Result<array<int>>)
    ensures input.Length == 0 ==> r == Err(EmptyInput)
    ensures input.Length == 1 ==> r == Ok(input)
    ensures input.Length > 1 ==> r.Ok? && r.value != input && fresh(r.value)
    ensures r.Ok? ==> SortsTo(input[..], r.value[..])
    ensures r.Ok? && Sorted(input[..]) ==> r.value[..] == input[..]
  {
    if input.Length < 1 {
      return Err(EmptyInput);
    } else if input.Length == 1 {
      return Ok(input);
    }
    var n := input.Length;
    var a := Clone(input);
    var i := 0;
    var j := 1;
    while j < n
      invariant 0 <= i && j == i + 1 && j <= n && a.Length == n
      invariant multiset(a[..]) == multiset(input[..])
      invariant SortedRange(a[..], 0, j)
      decreases Inversions(a[..], 0, n), n - j
    {
      if a[i] > a[j] {
        SwapInvertedPairDecreases(a[..], i, j, 0, n);
        SwapAt(a, i, j);
        if i > 0 {
          i := i - 1;
          j := j - 1;
        } else {
          i := i + 1;
          j := j + 1;
        }
      } else {
        i := i + 1;
        j := j + 1;
      }
    }
    Finish(input, a);
    r := Ok(a);
  }

  // ---------------------------------------------------------------------------
  // Cocktail sort
  // ---------------------------------------------------------------------------

  /**
   * What the cocktail sort has finished: the prefix before `left` and the
   * suffix after `right` are sorted, and each is separated from everything
   * else (nothing after the prefix is smaller, nothing before the suffix is
   * larger).
   */
  ghost predicate Settled(s: seq<int>, left: int, right: int)
    requires 0 <= left <= right + 1 <= |s|
  {
    SortedRange(s, 0, left) && SortedRange(s, right + 1, |s|) &&
    (forall x, y :: 0 <= x < left <= y < |s| ==> s[x] <= s[y]) &&
    (forall x, y :: 0 <= x <= right < y < |s| ==> s[x] <= s[y])
  }

  /** Rearranging the open window `[left..right]` keeps what is settled. */
  lemma WindowRearranged(s: seq<int>, t: seq<int>, left: int, right: int)
    requires 0 <= left <= right + 1 <= |s| && Settled(s, left, right)
    requires SameOutside(s, t, left, right + 1) && multiset(t) == multiset(s)
    ensures Settled(t, left, right)
  {
    forall x | 0 <= x < left ensures forall k :: left <= k < right + 1 ==> t[x] <= t[k] {
      WindowLowerBound(s, t, left, right + 1, s[x]);
    }
    forall y | right < y < |s| ensures forall k :: left <= k < right + 1 ==> t[k] <= t[y] {
      WindowUpperBound(s, t, left, right + 1, s[y]);
    }
  }

  /**
   * After a forward pass over the open window `[left..right]` of a settled
   * array, position `right` is settled too; after a pass that exchanged
   * nothing the whole array is sorted.
   */
  lemma AfterForwardPass(s: seq<int>, t: seq<int>, left: int, right: int, swapped: bool)
    requires 0 <= left <= right < |s| && Settled(s, left, right)
    requires SameOutside(s, t, left, right + 1) && multiset(t) == multiset(s)
    requires forall k :: left <= k <= right ==> t[k] <= t[right]
    requires !swapped ==> t == s && SortedRange(t, left, right + 1)
    ensures Settled(t, left, right - 1)
    ensures !swapped ==> Sorted(t)
  {
    WindowRearranged(s, t, left, right);
    if !swapped {
      SettledSorted(t, left, right);
    }
  }

  /**
   * After a backward pass over the open window `[left..right]` of a settled
   * array, position `left` is settled too; after a pass that exchanged
   * nothing the whole array is sorted.
   */
  lemma AfterBackwardPass(s: seq<int>, t: seq<int>, left: int, right: int, swapped: bool)
    requires 0 <= left <= right < |s| && Settled(s, left, right)
    requires SameOutside(s, t, left, right + 1) && multiset(t) == multiset(s)
    requires forall k :: left <= k <= right ==> t[left] <= t[k]
    requires !swapped ==> t == s && SortedRange(t, left, right + 1)
    ensures Settled(t, left + 1, right)
    ensures !swapped ==> Sorted(t)
  {
    WindowRearranged(s, t, left, right);
    if !swapped {
      SettledSorted(t, left, right);
    }
  }

  /** A settled array whose open window is sorted is sorted. */
  lemma SettledSorted(s: seq<int>, left: int, right: int)
    requires 0 <= left <= right + 1 <= |s| && Settled(s, left, right)
    requires SortedRange(s, left, right + 1)
    ensures Sorted(s)
  {
  }

  /**
   * The forward pass of `sortCocktail` over the open window `[left..right]`:
   * exchange every adjacent inverted pair met left to right. It leaves a
   * maximum of the window at `right`; a pass without an exchange changed
   * nothing and found the window sorted.
   */
  method ForwardPass(a: array<int>, left: int, right: int) returns (swapped: bool)
    requires 0 <= left <= right < a.Length && Settled(a[..], left, right)
    modifies a
    ensures Settled(a[..], left, right - 1) && (!swapped ==> Sorted(a[..]))
    ensures SameOutside(old(a[..]), a[..], left, right + 1)
    ensures multiset(a[..]) == multiset(old(a[..]))
    ensures forall k :: left <= k <= right ==> a[k] <= a[right]
    ensures !swapped ==> a[..] == old(a[..]) && SortedRange(a[..], left, right + 1)
  {
    swapped := false;
    var i := left;
    while i < right
      invariant left <= i <= right
      invariant SameOutside(old(a[..]), a[..], left, right + 1)
      invariant multiset(a[..]) == multiset(old(a[..]))
      invariant forall k :: left <= k <= i ==> a[k] <= a[i]
      invariant !swapped ==> a[..] == old(a[..]) && SortedRange(a[..], left, i + 1)
    {
      if a[i] > a[i + 1] {
        SwapAt(a, i + 1, i);
        swapped := true;
      }
      i := i + 1;
    }
    AfterForwardPass(old(a[..]), a[..], left, right, swapped);
  }

  /**
   * The backward pass of `sortCocktail` over the open window `[left..right]`:
   * exchange every adjacent inverted pair met right to left. It leaves a
   * minimum of the window at `left`; a pass without an exchange changed
   * nothing and found the window sorted.
   */
  method BackwardPass(a: array<int>, left: int, right: int) returns (swapped: bool)
    requires 0 <= left <= right < a.Length && Settled(a[..], left, right)
    modifies a
    ensures Settled(a[..], left + 1, right) && (!swapped ==> Sorted(a[..]))
    ensures SameOutside(old(a[..]), a[..], left, right + 1)
    ensures multiset(a[..]) == multiset(old(a[..]))
    ensures forall k :: left <= k <= right ==> a[left] <= a[k]
    ensures !swapped ==> a[..] == old(a[..]) && SortedRange(a[..], left, right + 1)
  {
    swapped := false;
    var j := right;
    while j > left
      invariant left <= j <= right
      invariant SameOutside(old(a[..]), a[..], left, right + 1)
      invariant multiset(a[..]) == multiset(old(a[..]))
      invariant forall k :: j <= k <= right ==> a[j] <= a[k]
      invariant !swapped ==> a[..] == old(a[..]) && SortedRange(a[..], j, right + 1)
    {
      if a[j - 1] > a[j] {
        SwapAt(a, j - 1, j);
        swapped := true;
      }
      j := j - 1;
    }
    AfterBackwardPass(old(a[..]), a[..], left, right, swapped);
  }

  /**
   * The loop of `sortCocktail` on the private working array: alternate
   * forward and backward passes over the unsettled window `[left, right]`,
   * shrinking it from the right after a forward pass and from the left after a
   * backward one, and stop early after a pass without an exchange.
   */
  method Shake(a: array<int>)
    requires a.Length > 1
    modifies a
    ensures multiset(a[..]) == multiset(old(a[..])) && Sorted(a[..])
  {
    var n := a.Length;
    ghost var s := a[..];
    var left := 0;
    var right := n - 1;
    var swapped := false;
    while left < right
      invariant 0 <= left <= right + 1 <= n
      invariant multiset(a[..]) == multiset(s)
      invariant Settled(a[..], left, right)
      decreases right + 1 - left
    {
      swapped := ForwardPass(a, left, right);
      if !swapped {
        break;
      }
      right := right - 1;

      swapped := BackwardPass(a, left, right);
      if !swapped {
        break;
      }
      left := left + 1;
    }
    if left >= right {
      SettledSorted(a[..], left, right);
    }
  }

  /**
   * `sortCocktail`: alternate forward and backward passes over the shrinking
   * window `[left..right]`, stopping early after any pass without an exchange.
   */
  method SortCocktail(input: array<int>) returns (r: Result<array<int>>)
    ensures input.Length == 0 ==> r == Err(EmptyInput)
    ensures input.Length == 1 ==> r == Ok(input)
    ensures input.Length > 1 ==> r.Ok? && r.value != input && fresh(r.value)
    ensures r.Ok? ==> SortsTo(input[..], r.value[..])
    ensures r.Ok? && Sorted(input[..]) ==> r.value[..] == input[..]
  {
    if input.Length < 1 {
      return Err(EmptyInput);
    } else if input.Length == 1 {
      return Ok(input);
    }
    var a := Clone(input);
    Shake(a);
    Finish(input, a);
    r := Ok(a);
  }

  // ---------------------------------------------------------------------------
  // Quicksort
  // ---------------------------------------------------------------------------

  /**
   * The left scan of the partition: from `left`, step right past elements
   * not greater than the pivot value, stopping at the pivot's index or at the
   * first element greater than the pivot value.
   */
  method ScanUp(a: array<int>, left: int, baseIndex: int, baseValue: int) returns (l: int)
    requires 0 <= left <= baseIndex < a.Length
    ensures left <= l <= baseIndex
    ensures forall k :: left <= k < l ==> a[k] <= baseValue
    ensures l == baseIndex || a[l] > baseValue
  {
    l := left;
    var i := left;
    while i < baseIndex
      invariant l == i <= baseIndex
      invariant forall k :: left <= k < l ==> a[k] <= baseValue
    {
      if a[i] > baseValue {
        break;
      } else {
        l := l + 1;
      }
      i := i + 1;
    }
  }

  /**
   * The right scan of the partition: from `right`, step left past elements
   * not smaller than the pivot value, stopping at the pivot's index or at the
   * first element smaller than the pivot value.
   */
  method ScanDown(a: array<int>, right: int, baseIndex: int, baseValue: int) returns (r: int)
    requires 0 <= baseIndex <= right < a.Length
    ensures baseIndex <= r <= right
    ensures forall k :: r < k <= right ==> baseValue <= a[k]
    ensures r == baseIndex || a[r] < baseValue
  {
    r := right;
    var j := right;
    while j > baseIndex
      invariant baseIndex <= j == r
      invariant forall k :: r < k <= right ==> baseValue <= a[k]
    {
      if a[j] < baseValue {
        break;
      } else {
        r := r - 1;
      }
      j := j - 1;
    }
  }

  /**
   * What the partition loop keeps over `[start..end]`: the window is a
   * rearrangement of the original one, the pivot value `baseValue` sits at
   * `baseIndex` between the cursors, nothing before `left` is greater than it
   * and nothing after `right` is smaller.
   */
  ghost predicate Partitioning(orig: seq<int>, w: seq<int>, start: int, end: int,
                               left: int, right: int, baseIndex: int, baseValue: int)
  {
    |w| == |orig| && 0 <= start <= left <= baseIndex <= right <= end < |w| &&
    w[baseIndex] == baseValue &&
    SameOutside(orig, w, start, end + 1) && multiset(w) == multiset(orig) &&
    (forall k :: start <= k < left ==> w[k] <= baseValue) &&
    (forall k :: right < k <= end ==> baseValue <= w[k])
  }

  /**
   * Where the pivot is after the exchange of `left` and `right`: the index
   * that holds, after the exchange, the value the old `baseIndex` held.
   */
  function NextBase(left: int, right: int, baseIndex: int): (r: int)
    ensures forall w: seq<int> {:trigger Swap(w, left, right)} ::
      0 <= left < |w| && 0 <= right < |w| && 0 <= baseIndex < |w| ==>
        0 <= r < |w| && Swap(w, left, right)[r] == w[baseIndex]
  {
    if left == baseIndex then right else if right == baseIndex then left else baseIndex
  }

  /**
   * One exchange of the partition: with both scans stopped (each at the pivot
   * or at an element on the wrong side) and the cursors apart, the exchanged
   * pair is inverted, so the exchange removes an inversion, and the loop's
   * invariant holds again with the pivot's index followed.
   */
  lemma ExchangeStep(orig: seq<int>, w: seq<int>, start: int, end: int,
                     left: int, right: int, baseIndex: int, baseValue: int)
    requires Partitioning(orig, w, start, end, left, right, baseIndex, baseValue)
    requires left < right
    requires left == baseIndex || w[left] > baseValue
    requires right == baseIndex || w[right] < baseValue
    ensures Partitioning(orig, Swap(w, left, right), start, end, left, right,
                         NextBase(left, right, baseIndex), baseValue)
    ensures Inversions(Swap(w, left, right), start, end + 1) < Inversions(w, start, end + 1)
  {
    SwapInvertedPairDecreases(w, left, right, start, end + 1);
  }

  /**
   * The partition loop of `sortQuickDivide` over `[start..end]`, pivot taken
   * at the midpoint. `left` scans right up to the pivot's index for an element
   * greater than the pivot, `right` scans left down to it for one smaller; an
   * exchange follows the pivot when it moves. On exit both cursors have met
   * at the pivot, which sits at the returned index with nothing greater before it and nothing smaller after
   * it. The pivot can only end at `end` after some exchange, and every exchange
   * removes an inversion of the window.
   */
  method Partition(a: array<int>, start: int, end: int) returns (baseIndex: int, left: int, right: int)
    requires 0 <= start < end < a.Length
    modifies a
    ensures start <= baseIndex <= end && left == right == baseIndex
    ensures SameOutside(old(a[..]), a[..], start, end + 1)
    ensures multiset(a[..]) == multiset(old(a[..]))
    ensures a[baseIndex] == old(a[start + (end - start) / 2])
    ensures forall k :: start <= k < baseIndex ==> a[k] <= a[baseIndex]
    ensures forall k :: baseIndex < k <= end ==> a[baseIndex] <= a[k]
    ensures baseIndex == end ==> Inversions(a[..], start, end + 1) < old(Inversions(a[..], start, end + 1))
  {
    baseIndex := start + (end - start) / 2;
    var baseValue := a[baseIndex];
    ghost var orig := a[..];
    ghost var entry := Inversions(orig, start, end + 1);
    left, right := start, end;
    while left < right
      invariant Partitioning(orig, a[..], start, end, left, right, baseIndex, baseValue)
      invariant Inversions(a[..], start, end + 1) <= entry
      invariant baseIndex == end ==> Inversions(a[..], start, end + 1) < entry
      decreases Inversions(a[..], start, end + 1), right - left
    {
      left := ScanUp(a, left, baseIndex, baseValue);
      right := ScanDown(a, right, baseIndex, baseValue);

      if left < right {
        ExchangeStep(orig, a[..], start, end, left, right, baseIndex, baseValue);
        SwapAt(a, left, right);
        baseIndex := NextBase(left, right, baseIndex);
      }
    }
  }

  /**
   * Sorting the two sides of a partitioned window `[start..end]` one after
   * the other, the lower side `[start..mid]` and then the upper side
   * `(mid..end]`, sorts the whole window.
   */
  lemma SortedHalves(p0: seq<int>, p1: seq<int>, p2: seq<int>, start: int, mid: int, end: int)
    requires 0 <= start <= mid <= end < |p0|
    requires forall k :: start <= k < mid ==> p0[k] <= p0[mid]
    requires forall k :: mid < k <= end ==> p0[mid] <= p0[k]
    requires SameOutside(p0, p1, start, mid + 1) && multiset(p1) == multiset(p0)
    requires SortedRange(p1, start, mid + 1)
    requires SameOutside(p1, p2, mid + 1, end + 1) && multiset(p2) == multiset(p1)
    requires SortedRange(p2, mid + 1, end + 1)
    ensures SameOutside(p0, p2, start, end + 1) && multiset(p2) == multiset(p0)
    ensures SortedRange(p2, start, end + 1)
  {
    var pivot := p0[mid];
    // the lower side: rearranged by the first call, still bounded by the pivot
    WindowUpperBound(p0, p1, start, mid + 1, pivot);
    // the upper side: rearranged by the second call, still bounded by the pivot
    WindowLowerBound(p1, p2, mid + 1, end + 1, pivot);
  }

  /**
   * `sortQuickDivide(newArray, start, end)` on the working array: partition
   * `[start..end]`, then sort `[start..baseIndex]` and `[baseIndex+1..end]`.
   * The first part can be the whole range again (the pivot ended at `end`);
   * the partition then removed an inversion, so the recursion is measured by
   * the range size and then by the window's inversions.
   */
  method QuickDivide(a: array<int>, start: int, end: int)
    requires 0 <= start <= end + 1 <= a.Length
    modifies a
    ensures SameOutside(old(a[..]), a[..], start, end + 1)
    ensures multiset(a[..]) == multiset(old(a[..]))
    ensures SortedRange(a[..], start, end + 1)
    decreases end + 1 - start, Inversions(a[..], start, end + 1)
  {
    if end <= start {
      return;
    }
    var baseIndex, _, _ := Partition(a, start, end);
    ghost var p0 := a[..];
    QuickDivide(a, start, baseIndex);
    ghost var p1 := a[..];
    QuickDivide(a, baseIndex + 1, end);
    SortedHalves(p0, p1, a[..], start, baseIndex, end);
  }

  /** `sortQuick`: quicksort of a private copy over the whole index range. */
  method SortQuick(input: array<int>) returns (r: Result<array<int>>)
    ensures input.Length == 0 ==> r == Err(EmptyInput)
    ensures input.Length == 1 ==> r == Ok(input)
    ensures input.Length > 1 ==> r.Ok? && r.value != input && fresh(r.value)
    ensures r.Ok? ==> SortsTo(input[..], r.value[..])
    ensures r.Ok? && Sorted(input[..]) ==> r.value[..] == input[..]
  {
    if input.Length < 1 {
      return Err(EmptyInput);
    } else if input.Length == 1 {
      return Ok(input);
    }
    var a := Clone(input);
    QuickDivide(a, 0, a.Length - 1);
    Finish(input, a);
    r := Ok(a);
  }

  // ---------------------------------------------------------------------------
  // All sorts together
  // ---------------------------------------------------------------------------

  /**
   * The four sorts fail together on an empty array and otherwise return
   * arrays with the same contents, since a sorted permutation is unique.
   */
  method SortsAgree(input: array<int>)
    returns (selection: Result<array<int>>, gnome: Result<array<int>>,
             cocktail: Result<array<int>>, quick: Result<array<int>>)
    ensures input.Length == 0 ==> selection.Err? && gnome.Err? && cocktail.Err? && quick.Err?
    ensures input.Length > 0 ==> selection.Ok? && gnome.Ok? && cocktail.Ok? && quick.Ok?
    ensures input.Length > 0 ==>
      selection.value[..] == gnome.value[..] == cocktail.value[..] == quick.value[..]
  {
    selection := SortSelection(input);
    gnome := SortGnome(input);
    cocktail := SortCocktail(input);
    quick := SortQuick(input);
    if input.Length > 0 {
      SortedPermutationUnique(selection.value[..], gnome.value[..]);
      SortedPermutationUnique(gnome.value[..], cocktail.value[..]);
      SortedPermutationUnique(cocktail.value[..], quick.value[..]);
    }
  }
}
