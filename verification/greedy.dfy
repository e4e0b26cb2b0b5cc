/** `greedy_assign` of `createGroups.py`: first-improvement hill climbing.
    After shuffling the order of the groups, it runs passes over every pair
    of groups (i, j) with i < j, calling `maybe_swap` on each, until a whole
    pass accepts no exchange. */
module Greedy {
  import opened Population
  import opened Diversity
  import opened Swap

  /** No single exchange between any two groups raises their summed score. */
  predicate LocalOptimum(gs: seq<Group>)
  {
    forall i, j :: 0 <= i < j < |gs| ==> NoImprovingSwap(gs[i], gs[j])
  }

  /** Whether an exchange improves does not depend on which of the two
      groups is named first. */
  lemma NoImprovingSwapSym(g1: Group, g2: Group)
    requires NoImprovingSwap(g1, g2)
    ensures NoImprovingSwap(g2, g1)
  {
    forall u, t | 0 <= u < |g2| && 0 <= t < |g1|
      ensures !Improves(g2, g1, u, t)
    {
      assert !Improves(g1, g2, t, u);
      assert Exchanged1(g2, g1, u, t) == Exchanged2(g1, g2, t, u);
      assert Exchanged2(g2, g1, u, t) == Exchanged1(g1, g2, t, u);
    }
  }

  /** A local optimum stays one in any order of its groups, so the shuffle
      at the start of `greedy_assign` cannot expose an improving exchange. */
  lemma LocalOptimumOfReordered(xs: seq<Group>, ys: seq<Group>)
    requires multiset(xs) == multiset(ys) && LocalOptimum(ys)
    ensures LocalOptimum(xs)
  {
    forall i, j | 0 <= i < j < |xs|
      ensures NoImprovingSwap(xs[i], xs[j])
    {
      var a, b := ReorderedPair(xs, ys, i, j);
      if b < a {
        NoImprovingSwapSym(ys[b], ys[a]);
      }
    }
  }

  /** Every group has the same size as in `gs`. */
  predicate SameSizes(gs: seq<Group>, hs: seq<Group>)
  {
    |gs| == |hs| && forall k :: 0 <= k < |gs| ==> |gs[k]| == |hs[k]|
  }

  /** Replacing groups i and j by an exchange of members between them keeps
      every size and the bag of students, and changes the total score by the
      change in the pair's scores. */
  lemma PairUpdate(gs: seq<Group>, i: nat, j: nat, h1: Group, h2: Group)
    requires i < j < |gs|
    requires |h1| == |gs[i]| && |h2| == |gs[j]|
    requires multiset(h1) + multiset(h2) == multiset(gs[i]) + multiset(gs[j])
    ensures SameSizes(gs[i := h1][j := h2], gs)
    ensures Bag(gs[i := h1][j := h2]) == Bag(gs)
    ensures TotalScore(gs[i := h1][j := h2])
         == TotalScore(gs) - (Score(gs[i]) + Score(gs[j])) + (Score(h1) + Score(h2))
  {
    var mid := gs[i := h1];
    BagReplace(gs, i, h1);
    BagReplace(mid, j, h2);
    assert mid[j] == gs[j];
    var fin := mid[j := h2];
    calc {
      Bag(fin) + multiset(gs[j]) + multiset(gs[i]);
      Bag(mid) + multiset(h2) + multiset(gs[i]);
      Bag(mid) + multiset(gs[i]) + multiset(h2);
      Bag(gs) + multiset(h1) + multiset(h2);
      Bag(gs) + (multiset(h1) + multiset(h2));
      Bag(gs) + (multiset(gs[j]) + multiset(gs[i]));
    }
    assert Bag(fin) + multiset(gs[j]) + multiset(gs[i]) == Bag(fin) + (multiset(gs[j]) + multiset(gs[i]));
    MultisetCancel(Bag(fin), Bag(gs), multiset(gs[j]) + multiset(gs[i]));
    TotalScoreReplace(gs, i, h1);
    TotalScoreReplace(mid, j, h2);
  }

  lemma MultisetCancel<T>(a: multiset<T>, b: multiset<T>, c: multiset<T>)
    requires a + c == b + c
    ensures a == b
  {
    assert a == a + c - c;
    assert b == b + c - c;
  }

  /** One iteration of `greedy_assign`'s `while True` loop: a pass over all
      pairs i < j, in list order. `hasSwapped` is the source's
      `has_swapped` flag. */
  method SwapPass(start: seq<Group>) returns (hasSwapped: bool, gs: seq<Group>)
    ensures SameSizes(gs, start) && Bag(gs) == Bag(start)
    ensures hasSwapped ==> TotalScore(gs) > TotalScore(start)
    ensures !hasSwapped ==> gs == start && LocalOptimum(start)
    ensures LocalOptimum(start) ==> !hasSwapped
  {
    gs := start;
    hasSwapped := false;
    var i := 0;
    while i < |gs|
      invariant 0 <= i <= |gs|
      invariant SameSizes(gs, start) && Bag(gs) == Bag(start)
      invariant hasSwapped ==> TotalScore(gs) > TotalScore(start)
      invariant !hasSwapped ==> gs == start && CheckedBefore(gs, i)
      invariant LocalOptimum(start) ==> !hasSwapped
    {
      hasSwapped, gs := PassRow(start, hasSwapped, gs, i);
      i := i + 1;
    }
  }

  /** Every pair (a, b) with a < i has been found to admit no improving
      exchange. */
  predicate CheckedBefore(gs: seq<Group>, i: nat)
  {
    forall a, b :: 0 <= a < i && a < b < |gs| ==> NoImprovingSwap(gs[a], gs[b])
  }

  /** The inner loop of a pass: `maybe_swap(group_1, group_2)` for group i
      against every later group, in order. */
  method PassRow(start: seq<Group>, swappedBefore: bool, entry: seq<Group>, i: nat)
    returns (hasSwapped: bool, gs: seq<Group>)
    requires i < |entry|
    requires SameSizes(entry, start) && Bag(entry) == Bag(start)
    requires swappedBefore ==> TotalScore(entry) > TotalScore(start)
    requires !swappedBefore ==> entry == start && CheckedBefore(entry, i)
    requires LocalOptimum(start) ==> !swappedBefore
    ensures SameSizes(gs, start) && Bag(gs) == Bag(start)
    ensures hasSwapped ==> TotalScore(gs) > TotalScore(start)
    ensures !hasSwapped ==> gs == start && CheckedBefore(gs, i + 1)
    ensures LocalOptimum(start) ==> !hasSwapped
  {
    gs, hasSwapped := entry, swappedBefore;
    var j := i + 1;
    while j < |gs|
      invariant i + 1 <= j <= |gs|
      invariant SameSizes(gs, start) && Bag(gs) == Bag(start)
      invariant hasSwapped ==> TotalScore(gs) > TotalScore(start)
      invariant !hasSwapped ==> gs == start && CheckedBefore(gs, i)
      invariant !hasSwapped ==> forall b :: i < b < j ==> NoImprovingSwap(gs[i], gs[b])
      invariant LocalOptimum(start) ==> !hasSwapped
    {
      hasSwapped, gs := PairStep(start, hasSwapped, gs, i, j);
      j := j + 1;
    }
  }

  /** One `maybe_swap(group_1, group_2)` call of the inner loop, on groups i
      and j, with the loop's invariant carried from j to j + 1. */
  method PairStep(start: seq<Group>, swappedBefore: bool, entry: seq<Group>, i: nat, j: nat)
    returns (hasSwapped: bool, gs: seq<Group>)
    requires i < j < |entry|
    requires SameSizes(entry, start) && Bag(entry) == Bag(start)
    requires swappedBefore ==> TotalScore(entry) > TotalScore(start)
    requires !swappedBefore ==> entry == start && CheckedBefore(entry, i)
    requires !swappedBefore ==> forall b :: i < b < j ==> NoImprovingSwap(entry[i], entry[b])
    requires LocalOptimum(start) ==> !swappedBefore
    ensures SameSizes(gs, start) && Bag(gs) == Bag(start)
    ensures hasSwapped ==> TotalScore(gs) > TotalScore(start)
    ensures !hasSwapped ==> gs == start && CheckedBefore(gs, i)
    ensures !hasSwapped ==> forall b :: i < b < j + 1 ==> NoImprovingSwap(gs[i], gs[b])
    ensures LocalOptimum(start) ==> !hasSwapped
  {
    var swapped, h1, h2 := MaybeSwap(entry[i], entry[j]);
    PairUpdate(entry, i, j, h1, h2);
    gs := entry[i := h1][j := h2];
    hasSwapped := swapped || swappedBefore;
  }

  /** `greedy_assign`. `shuffled` is the order `np.random.shuffle` put the
      groups in (any reordering of `groups`). The result holds the same
      students in the same number of groups, each group keeping its size,
      scores at least as well, and admits no improving exchange. A partition
      that is already a local optimum comes back unchanged. */
  method GreedyAssign(groups: seq<Group>, shuffled: seq<Group>) returns (r: seq<Group>)
    requires multiset(shuffled) == multiset(groups)
    ensures |r| == |groups| && SameSizes(r, shuffled)
    ensures Bag(r) == Bag(groups)
    ensures TotalScore(r) >= TotalScore(groups)
    ensures LocalOptimum(r)
    ensures LocalOptimum(shuffled) ==> r == shuffled
    ensures LocalOptimum(groups) ==> r == shuffled && TotalScore(r) == TotalScore(groups)
    ensures EvenSizes(groups) ==> EvenSizes(r)
  {
    if LocalOptimum(groups) {
      LocalOptimumOfReordered(shuffled, groups);
    }
    if EvenSizes(groups) {
      EvenSizesOfReordered(shuffled, groups);
    }
    assert |shuffled| == |multiset(shuffled)| == |groups|;
    BagOfReordered(shuffled, groups);
    TotalScoreOfReordered(shuffled, groups);
    r := shuffled;
    while true
      invariant SameSizes(r, shuffled) && Bag(r) == Bag(groups)
      invariant TotalScore(r) >= TotalScore(groups)
      invariant LocalOptimum(shuffled) ==> r == shuffled
      decreases -TotalScore(r)
    {
      var hasSwapped;
      hasSwapped, r := SwapPass(r);
      if !hasSwapped {
        SameSizesEven(r, shuffled);
        return;
      }
    }
  }

  /** Groups of the same sizes as an evenly sized list are evenly sized. */
  lemma SameSizesEven(gs: seq<Group>, hs: seq<Group>)
    requires SameSizes(gs, hs)
    ensures EvenSizes(hs) ==> EvenSizes(gs)
  {
  }
}
