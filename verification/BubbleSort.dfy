/** bubbleSort: passes in alternating directions over a range that shrinks at both ends, in place. The
    array is the range between the two iterators. */
module BubbleSort {

  import opened Counting
  import opened Orders

  function GreaterThan<T>(less: (T, T) -> bool, x: T): T -> bool {
    y => less(x, y)
  }

  /** The number of pairs that are in the wrong order. */
  function Inversions<T>(s: seq<T>, less: (T, T) -> bool): nat {
    if s == [] then 0
    else Inversions(s[..|s| - 1], less) + CountIf(s[..|s| - 1], GreaterThan(less, s[|s| - 1]))
  }

  /** The same elements, with equivalent ones in the same order. */
  ghost predicate StablyPermuted<T(!new)>(a: seq<T>, b: seq<T>, less: (T, T) -> bool) {
    |a| == |b| && multiset(a) == multiset(b) && forall x :: Peers(a, less, x) == Peers(b, less, x)
  }

  function Swapped<T>(s: seq<T>, i: nat): (r: seq<T>)
    requires 1 <= i < |s|
    ensures |r| == |s|
  {
    s[i := s[i - 1]][i - 1 := s[i]]
  }

  lemma SwapFront<T>(s: seq<T>, i: nat)
    requires 1 <= i < |s| - 1
    ensures Swapped(s, i)[..|s| - 1] == Swapped(s[..|s| - 1], i)
  {
  }

  lemma {:induction false} SwapCount<T>(s: seq<T>, i: nat, p: T -> bool)
    requires 1 <= i < |s|
    ensures CountIf(Swapped(s, i), p) == CountIf(s, p)
  {
    var n := |s| - 1;
    if i < n {
      SwapFront(s, i);
      SwapCount(s[..n], i, p);
    } else {
      assert Swapped(s, i)[..n][..n - 1] == s[..n][..n - 1];
    }
  }

  /** Swapping two neighbours that are in the wrong order takes away exactly one inversion. */
  lemma {:induction false} SwapInversions<T(!new)>(s: seq<T>, i: nat, less: (T, T) -> bool)
    requires StrictWeakOrder(less) && 1 <= i < |s| && less(s[i], s[i - 1])
    ensures Inversions(Swapped(s, i), less) + 1 == Inversions(s, less)
  {
    var n := |s| - 1;
    if i < n {
      SwapFront(s, i);
      SwapInversions(s[..n], i, less);
      SwapCount(s[..n], i, GreaterThan(less, s[n]));
    } else {
      var r := Swapped(s, i);
      assert r[..n][..n - 1] == s[..n][..n - 1];
      assert Law(less, s[i], s[i - 1], s[i]);
    }
  }

  lemma {:induction false} SwapPeers<T(!new)>(s: seq<T>, i: nat, less: (T, T) -> bool, x: T)
    requires StrictWeakOrder(less) && 1 <= i < |s| && less(s[i], s[i - 1])
    ensures Peers(Swapped(s, i), less, x) == Peers(s, less, x)
  {
    var n := |s| - 1;
    if i < n {
      SwapFront(s, i);
      SwapPeers(s[..n], i, less, x);
    } else {
      var r := Swapped(s, i);
      assert r[..n][..n - 1] == s[..n][..n - 1];
      assert Law(less, s[i], x, s[i - 1]);
    }
  }

  lemma SwapPermutes<T>(s: seq<T>, i: nat)
    requires 1 <= i < |s|
    ensures multiset(Swapped(s, i)) == multiset(s)
  {
  }

  lemma SwapIsStable<T(!new)>(s: seq<T>, i: nat, less: (T, T) -> bool)
    requires StrictWeakOrder(less) && 1 <= i < |s| && less(s[i], s[i - 1])
    ensures StablyPermuted(s, Swapped(s, i), less)
    ensures Inversions(Swapped(s, i), less) + 1 == Inversions(s, less)
  {
    SwapPermutes(s, i);
    SwapInversions(s, i, less);
    forall x ensures Peers(Swapped(s, i), less, x) == Peers(s, less, x) { SwapPeers(s, i, less, x); }
  }

  lemma {:induction false} OrderedHasNoInversions<T>(s: seq<T>, less: (T, T) -> bool)
    ensures Inversions(s, less) == 0 <==> Ordered(s, less)
  {
    if s != [] {
      var n := |s| - 1;
      OrderedHasNoInversions(s[..n], less);
      CountNone(s[..n], GreaterThan(less, s[n]));
      assert forall i :: 0 <= i < n ==> s[..n][i] == s[i];
    }
  }

  /** From low to high everything is at least as large as its left neighbour. */
  ghost predicate NeighboursOrdered<T>(s: seq<T>, lo: nat, hi: nat, less: (T, T) -> bool)
    requires hi <= |s|
  {
    forall i :: lo < i < hi ==> !less(s[i], s[i - 1])
  }

  lemma {:induction false} NeighboursSuffice<T(!new)>(s: seq<T>, lo: nat, hi: nat, less: (T, T) -> bool, i: nat,
                                                      j: nat)
    requires StrictWeakOrder(less) && hi <= |s| && NeighboursOrdered(s, lo, hi, less) && lo <= i < j < hi
    ensures !less(s[j], s[i])
  {
    if i < j - 1 {
      NeighboursSuffice(s, lo, hi, less, i, j - 1);
      assert Law(less, s[j], s[j - 1], s[i]);
    }
  }

  /** Everything outside the range is where it belongs. */
  ghost predicate OutsideSettled<T>(s: seq<T>, lo: nat, hi: nat, less: (T, T) -> bool)
    requires hi <= |s|
  {
    forall i, j :: 0 <= i < j < |s| && (i < lo || hi <= j) ==> !less(s[j], s[i])
  }

  lemma SwapKeepsOutside<T>(s: seq<T>, lo: nat, hi: nat, less: (T, T) -> bool, i: nat)
    requires hi <= |s| && lo < i < hi && OutsideSettled(s, lo, hi, less)
    ensures OutsideSettled(Swapped(s, i), lo, hi, less)
  {
  }

  /** n swaps of neighbours in the wrong order lead from the first contents to s. */
  ghost predicate SwapsLead<T(!new)>(first: seq<T>, s: seq<T>, n: nat, less: (T, T) -> bool)
    decreases n
  {
    if n == 0 then s == first
    else exists r, i :: SwapsLead(first, r, n - 1, less) && 1 <= i < |r| && less(r[i], r[i - 1]) && s == Swapped(r, i)
  }

  lemma StableTwice<T(!new)>(a: seq<T>, b: seq<T>, c: seq<T>, less: (T, T) -> bool)
    requires StablyPermuted(a, b, less) && StablyPermuted(b, c, less)
    ensures StablyPermuted(a, c, less)
  {
    forall x ensures Peers(a, less, x) == Peers(c, less, x) { assert Peers(a, less, x) == Peers(b, less, x); }
  }

  /** The last of the swaps. */
  lemma LastSwap<T(!new)>(first: seq<T>, s: seq<T>, n: nat, less: (T, T) -> bool) returns (r: seq<T>, i: nat)
    requires n > 0 && SwapsLead(first, s, n, less)
    ensures SwapsLead(first, r, n - 1, less) && 1 <= i < |r| && less(r[i], r[i - 1]) && s == Swapped(r, i)
  {
    r, i :| SwapsLead(first, r, n - 1, less) && 1 <= i < |r| && less(r[i], r[i - 1]) && s == Swapped(r, i);
  }

  lemma {:induction false} SwapsAreStable<T(!new)>(first: seq<T>, s: seq<T>, n: nat, less: (T, T) -> bool)
    requires StrictWeakOrder(less) && SwapsLead(first, s, n, less)
    decreases n
    ensures StablyPermuted(first, s, less) && n + Inversions(s, less) == Inversions(first, less)
  {
    if n > 0 {
      var r, i: nat := LastSwap(first, s, n, less);
      SwapsAreStable(first, r, n - 1, less);
      SwapIsStable(r, i, less);
      StableTwice(first, r, s, less);
    }
  }

  /** Something about the contents and the number of swaps that a swap of neighbours in the wrong order keeps. */
  predicate SwapKeeps<T>(kept: (seq<T>, nat) -> bool, less: (T, T) -> bool, s: seq<T>, n: nat, i: nat) {
    kept(s, n) && 1 <= i < |s| && less(s[i], s[i - 1]) ==> kept(Swapped(s, i), n + 1)
  }

  ghost predicate SwapsKeep<T(!new)>(kept: (seq<T>, nat) -> bool, less: (T, T) -> bool) {
    forall s, n, i :: SwapKeeps(kept, less, s, n, i)
  }

  /** What both passes keep. Apart from the order outside the range that is whatever is to be known of the contents
      and the number of swaps, as long as such swaps keep it. */
  ghost predicate Sorting<T(!new)>(kept: (seq<T>, nat) -> bool, s: seq<T>, swaps: nat, lo: nat, hi: nat,
                                   less: (T, T) -> bool)
  {
    lo <= hi <= |s| && kept(s, swaps) && OutsideSettled(s, lo, hi, less)
  }

  lemma SwapKeepsSorting<T(!new)>(kept: (seq<T>, nat) -> bool, s: seq<T>, swaps: nat, lo: nat, hi: nat,
                                  less: (T, T) -> bool, i: nat)
    requires SwapsKeep(kept, less) && Sorting(kept, s, swaps, lo, hi, less) && lo < i < hi && less(s[i], s[i - 1])
    ensures Sorting(kept, Swapped(s, i), swaps + 1, lo, hi, less)
  {
    assert SwapKeeps(kept, less, s, swaps, i);
    SwapKeepsOutside(s, lo, hi, less, i);
  }

  /** s[k] is as small as anything from k up to hi, and if nothing has changed that part is in order. */
  ghost predicate SmallestAt<T>(s: seq<T>, k: nat, hi: nat, changed: bool, less: (T, T) -> bool)
    requires k < hi <= |s|
  {
    && (forall j :: k <= j < hi ==> !less(s[j], s[k]))
    && (!changed ==> NeighboursOrdered(s, k, hi, less))
  }

  lemma SmallestMovesDown<T(!new)>(s: seq<T>, k: nat, hi: nat, changed: bool, less: (T, T) -> bool)
    requires StrictWeakOrder(less) && 1 <= k < hi <= |s| && SmallestAt(s, k, hi, changed, less)
    ensures if less(s[k], s[k - 1]) then SmallestAt(Swapped(s, k), k - 1, hi, true, less)
            else SmallestAt(s, k - 1, hi, changed, less)
  {
    forall j | k <= j < hi ensures Law(less, s[j], s[k], s[k - 1]) && Law(less, s[k], s[k - 1], s[k]) {}
    assert Law(less, s[k - 1], s[k], s[k - 1]);
  }

  /** s[k] is as large as anything from lo up to k, and if nothing has changed that part is in order. */
  ghost predicate LargestAt<T>(s: seq<T>, lo: nat, k: nat, changed: bool, less: (T, T) -> bool)
    requires lo <= k < |s|
  {
    && (forall j :: lo <= j <= k ==> !less(s[k], s[j]))
    && (!changed ==> NeighboursOrdered(s, lo, k + 1, less))
  }

  lemma LargestMovesUp<T(!new)>(s: seq<T>, lo: nat, k: nat, changed: bool, less: (T, T) -> bool)
    requires StrictWeakOrder(less) && lo <= k && k + 1 < |s| && LargestAt(s, lo, k, changed, less)
    ensures if less(s[k + 1], s[k]) then LargestAt(Swapped(s, k + 1), lo, k + 1, true, less)
            else LargestAt(s, lo, k + 1, changed, less)
  {
    forall j | lo <= j <= k ensures Law(less, s[k + 1], s[k], s[j]) {}
    assert Law(less, s[k], s[k + 1], s[k]) && Law(less, s[k + 1], s[k], s[k + 1]);
  }

  ghost function Leading<T(!new)>(first: seq<T>, less: (T, T) -> bool): (seq<T>, nat) -> bool {
    (s: seq<T>, n: nat) => SwapsLead(first, s, n, less)
  }

  lemma SwapsKeepLeading<T(!new)>(first: seq<T>, less: (T, T) -> bool)
    ensures SwapsKeep(Leading(first, less), less)
  {
    forall s: seq<T>, n: nat, i: nat | SwapsLead(first, s, n, less) && 1 <= i < |s| && less(s[i], s[i - 1])
      ensures SwapsLead(first, Swapped(s, i), n + 1, less)
    {}
  }

  lemma Settle<T(!new)>(first: seq<T>, s: seq<T>, swaps: nat, lo: nat, hi: nat, less: (T, T) -> bool)
    requires StrictWeakOrder(less) && Sorting(Leading(first, less), s, swaps, lo, hi, less)
    requires NeighboursOrdered(s, lo, hi, less)
    ensures Ordered(s, less) && StablyPermuted(first, s, less) && swaps == Inversions(first, less)
  {
    forall i, j | 0 <= i < j < |s| ensures !less(s[j], s[i]) {
      if lo <= i && j < hi { NeighboursSuffice(s, lo, hi, less, i, j); }
    }
    OrderedHasNoInversions(s, less);
    SwapsAreStable(first, s, swaps, less);
  }

  /** What the downward pass keeps: s is its current contents and i - 1 neighbours are still to compare. */
  ghost predicate GoingDown<T(!new)>(kept: (seq<T>, nat) -> bool, s: seq<T>, swaps: nat, lo: nat, hi: nat,
                                     changed: bool, i: nat, less: (T, T) -> bool)
  {
    && Sorting(kept, s, swaps, lo, hi, less)
    && i <= hi - lo && (i == 0 ==> lo == hi) && (changed ==> lo + 2 <= hi)
    && (i > 0 ==> SmallestAt(s, lo + i - 1, hi, changed, less))
  }

  lemma DownStep<T(!new)>(kept: (seq<T>, nat) -> bool, s: seq<T>, swaps: nat, lo: nat, hi: nat, changed: bool, i: nat,
                          less: (T, T) -> bool)
    requires StrictWeakOrder(less) && SwapsKeep(kept, less)
    requires GoingDown(kept, s, swaps, lo, hi, changed, i + 1, less) && i > 0
    ensures if less(s[lo + i], s[lo + i - 1])
            then GoingDown(kept, Swapped(s, lo + i), swaps + 1, lo, hi, true, i, less)
            else GoingDown(kept, s, swaps, lo, hi, changed, i, less)
  {
    SmallestMovesDown(s, lo + i, hi, changed, less);
    if less(s[lo + i], s[lo + i - 1]) { SwapKeepsSorting(kept, s, swaps, lo, hi, less, lo + i); }
  }

  lemma DownStart<T(!new)>(kept: (seq<T>, nat) -> bool, s: seq<T>, swaps: nat, lo: nat, hi: nat, less: (T, T) -> bool)
    requires StrictWeakOrder(less) && Sorting(kept, s, swaps, lo, hi, less)
    ensures GoingDown(kept, s, swaps, lo, hi, false, hi - lo, less)
  {
    if lo < hi { assert Law(less, s[hi - 1], s[hi - 1], s[hi - 1]); }
  }

  lemma DownEnd<T(!new)>(kept: (seq<T>, nat) -> bool, s: seq<T>, swaps: nat, lo: nat, hi: nat, changed: bool, i: nat,
                         less: (T, T) -> bool)
    requires GoingDown(kept, s, swaps, lo, hi, changed, i, less) && i <= 1
    ensures if changed then lo + 2 <= hi && Sorting(kept, s, swaps, lo + 1, hi, less)
            else Sorting(kept, s, swaps, lo, hi, less) && NeighboursOrdered(s, lo, hi, less)
  {
  }

  method SwapWithPrevious<T>(a: array<T>, i: nat)
    requires 1 <= i < a.Length
    modifies a
    ensures a[..] == Swapped(old(a[..]), i)
  {
    a[i], a[i - 1] := a[i - 1], a[i];
  }

  method PassDown<T(!new)>(a: array<T>, begin: nat, end: nat, less: (T, T) -> bool, ghost kept: (seq<T>, nat) -> bool,
                       ghost before: nat)
    returns (changed: bool, ghost swaps: nat, ghost comparisons: nat)
    requires StrictWeakOrder(less) && SwapsKeep(kept, less) && Sorting(kept, a[..], before, begin, end, less)
    modifies a
    ensures if changed then begin + 2 <= end && Sorting(kept, a[..], swaps, begin + 1, end, less)
            else Sorting(kept, a[..], swaps, begin, end, less) && NeighboursOrdered(a[..], begin, end, less)
    ensures comparisons == Compared(begin, end)
  {
    changed, swaps, comparisons := false, before, 0;
    DownStart(kept, a[..], swaps, begin, end, less);
    var i := end - begin;
    while i > 1
      invariant 0 <= i <= end - begin <= a.Length && comparisons == end - begin - i && (begin < end ==> i > 0)
      invariant GoingDown(kept, a[..], swaps, begin, end, changed, i, less)
    {
      i := i - 1;
      DownStep(kept, a[..], swaps, begin, end, changed, i, less);
      comparisons := comparisons + 1;
      if less(a[begin + i], a[begin + i - 1]) {
        SwapWithPrevious(a, begin + i);
        changed, swaps := true, swaps + 1;
      }
    }
    DownEnd(kept, a[..], swaps, begin, end, changed, i, less);
  }

  /** What the upward pass keeps: s is its current contents and element lo + i has been compared last. */
  ghost predicate GoingUp<T(!new)>(kept: (seq<T>, nat) -> bool, s: seq<T>, swaps: nat, lo: nat, hi: nat,
                                   changed: bool, i: nat, less: (T, T) -> bool)
  {
    && Sorting(kept, s, swaps, lo, hi, less)
    && (lo < hi ==> i < hi - lo) && (changed ==> lo + 2 <= hi)
    && (lo < hi ==> LargestAt(s, lo, lo + i, changed, less))
  }

  lemma UpStep<T(!new)>(kept: (seq<T>, nat) -> bool, s: seq<T>, swaps: nat, lo: nat, hi: nat, changed: bool, i: nat,
                        less: (T, T) -> bool)
    requires StrictWeakOrder(less) && SwapsKeep(kept, less)
    requires 0 < i < hi - lo && GoingUp(kept, s, swaps, lo, hi, changed, i - 1, less)
    ensures if less(s[lo + i], s[lo + i - 1])
            then GoingUp(kept, Swapped(s, lo + i), swaps + 1, lo, hi, true, i, less)
            else GoingUp(kept, s, swaps, lo, hi, changed, i, less)
  {
    LargestMovesUp(s, lo, lo + i - 1, changed, less);
    if less(s[lo + i], s[lo + i - 1]) { SwapKeepsSorting(kept, s, swaps, lo, hi, less, lo + i); }
  }

  lemma UpStart<T(!new)>(kept: (seq<T>, nat) -> bool, s: seq<T>, swaps: nat, lo: nat, hi: nat, less: (T, T) -> bool)
    requires StrictWeakOrder(less) && Sorting(kept, s, swaps, lo, hi, less)
    ensures GoingUp(kept, s, swaps, lo, hi, false, 0, less)
  {
    if lo < hi { assert Law(less, s[lo], s[lo], s[lo]); }
  }

  lemma UpEnd<T(!new)>(kept: (seq<T>, nat) -> bool, s: seq<T>, swaps: nat, lo: nat, hi: nat, changed: bool, i: nat,
                       less: (T, T) -> bool)
    requires GoingUp(kept, s, swaps, lo, hi, changed, i, less) && i + 1 >= hi - lo
    ensures if changed then lo + 2 <= hi && Sorting(kept, s, swaps, lo, hi - 1, less)
            else Sorting(kept, s, swaps, lo, hi, less) && NeighboursOrdered(s, lo, hi, less)
  {
  }

  method PassUp<T(!new)>(a: array<T>, begin: nat, end: nat, less: (T, T) -> bool, ghost kept: (seq<T>, nat) -> bool,
                       ghost before: nat)
    returns (changed: bool, ghost swaps: nat, ghost comparisons: nat)
    requires StrictWeakOrder(less) && SwapsKeep(kept, less) && Sorting(kept, a[..], before, begin, end, less)
    modifies a
    ensures if changed then begin + 2 <= end && Sorting(kept, a[..], swaps, begin, end - 1, less)
            else Sorting(kept, a[..], swaps, begin, end, less) && NeighboursOrdered(a[..], begin, end, less)
    ensures comparisons == Compared(begin, end)
  {
    changed, swaps, comparisons := false, before, 0;
    UpStart(kept, a[..], swaps, begin, end, less);
    var i := 1;
    while i < end - begin
      invariant 1 <= i && end <= a.Length && comparisons == i - 1 && (begin < end ==> i <= end - begin)
      invariant begin >= end ==> i == 1
      invariant GoingUp(kept, a[..], swaps, begin, end, changed, i - 1, less)
    {
      UpStep(kept, a[..], swaps, begin, end, changed, i, less);
      comparisons := comparisons + 1;
      if less(a[begin + i], a[begin + i - 1]) {
        SwapWithPrevious(a, begin + i);
        changed, swaps := true, swaps + 1;
      }
      i := i + 1;
    }
    UpEnd(kept, a[..], swaps, begin, end, changed, i - 1, less);
  }

  function Compared(begin: nat, end: nat): nat {
    if begin < end then end - begin - 1 else 0
  }

  /** The number of pairs of n elements. */
  function Pairs(n: nat): nat {
    if n == 0 then 0 else Pairs(n - 1) + n - 1
  }

  lemma {:induction false} PairsFormula(n: nat)
    ensures 2 * Pairs(n) == n * (n - 1)
  {
    if n > 0 { PairsFormula(n - 1); }
  }

  /** Sorts in place, stably, with exactly one swap for each inversion and no more comparisons than pairs. */
  method BubbleSort<T(!new)>(a: array<T>, less: (T, T) -> bool) returns (ghost swaps: nat, ghost comparisons: nat)
    requires StrictWeakOrder(less)
    modifies a
    ensures Ordered(a[..], less) && StablyPermuted(old(a[..]), a[..], less)
    ensures swaps == Inversions(old(a[..]), less)
    ensures comparisons <= Pairs(a.Length)
  {
    ghost var first, more := a[..], 0;
    ghost var kept := Leading(first, less);
    SwapsKeepLeading(first, less);
    var begin, end, changed := 0, a.Length, false;
    swaps, comparisons := 0, 0;
    while true
      invariant begin <= end <= a.Length
      invariant Sorting(kept, a[..], swaps, begin, end, less)
      invariant comparisons + Pairs(end - begin) <= Pairs(a.Length)
      decreases end - begin
    {
      changed, swaps, more := PassDown(a, begin, end, less, kept, swaps);
      comparisons := comparisons + more;
      if !changed {
        break;
      }
      begin := begin + 1;
      changed, swaps, more := PassUp(a, begin, end, less, kept, swaps);
      comparisons := comparisons + more;
      if !changed {
        break;
      }
      end := end - 1;
    }
    Settle(first, a[..], swaps, begin, end, less);
  }
}
