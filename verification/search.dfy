/**
  cfsLowerBound, cfsHigherBound and cfsEqualRange: searches on a
  cache-friendly layout.

  A search walks down from the root.  At a position whose value lies before
  the key (strictly below it for the lower bound, at or below it for the
  higher bound) it moves to the right child; otherwise it records the
  position as its candidate and moves to the left child.  When it falls off
  the array it answers the last candidate, or the end position n when it
  never recorded one.
 */
module Search {
  import opened Shape
  import opened Layout
  import opened Validator

  /**
    Whether the search moves right past value x: x < key for the lower bound,
    x <= key for the higher bound.
   */
  predicate GoesRight(x: int, key: int, higher: bool)
  {
    x < key || (higher && x == key)
  }

  /** Values below one that goes right go right too. */
  lemma GoesRightDownward(x: int, y: int, key: int, higher: bool)
    requires x <= y && GoesRight(y, key, higher)
    ensures GoesRight(x, key, higher)
  {
  }

  /**
    The descent from position i with the candidate recorded so far.  Whatever
    the array holds, the answer is in range and is either the candidate passed
    in or a position whose value does not go right.
   */
  function Descend(a: seq<int>, key: int, higher: bool, i: nat, candidate: nat): (r: nat)
    requires candidate <= |a|
    ensures r <= |a|
    ensures r == candidate || (r < |a| && !GoesRight(a[r], key, higher))
    decreases |a| - i
  {
    if i >= |a| then candidate
    else if GoesRight(a[i], key, higher) then Descend(a, key, higher, 2 * i + 2, candidate)
    else Descend(a, key, higher, 2 * i + 1, i)
  }

  /** cfsLowerBound: the end position n, or a position holding a value that is not below key. */
  function CfsLowerBound(a: seq<int>, key: int): (r: nat)
    ensures r <= |a| && (r < |a| ==> key <= a[r])
  {
    Descend(a, key, false, 0, |a|)
  }

  /** cfsHigherBound: the end position n, or a position holding a value above key. */
  function CfsHigherBound(a: seq<int>, key: int): (r: nat)
    ensures r <= |a| && (r < |a| ==> key < a[r])
  {
    Descend(a, key, true, 0, |a|)
  }

  /** cfsEqualRange: the pair of the lower and the higher bound. */
  function CfsEqualRange(a: seq<int>, key: int): (r: (nat, nat))
    ensures r.0 <= |a| && (r.0 < |a| ==> key <= a[r.0])
    ensures r.1 <= |a| && (r.1 < |a| ==> key < a[r.1])
  {
    (CfsLowerBound(a, key), CfsHigherBound(a, key))
  }

  /**
    The bound on a sorted sequence (std::lower_bound for higher == false,
    std::upper_bound for higher == true): the first index whose value does not
    go right, or |s| when all do.
   */
  function SortedBound(s: seq<int>, key: int, higher: bool): (t: nat)
    ensures t <= |s|
    ensures forall i :: 0 <= i < t ==> GoesRight(s[i], key, higher)
    ensures t < |s| ==> !GoesRight(s[t], key, higher)
    decreases |s|
  {
    if |s| == 0 || !GoesRight(s[0], key, higher) then 0
    else 1 + SortedBound(s[1..], key, higher)
  }

  /** On a sorted sequence, the values that go right are exactly those before the bound. */
  lemma SortedBoundSplits(s: seq<int>, key: int, higher: bool, k: nat)
    requires Sorted(s) && k < |s|
    ensures GoesRight(s[k], key, higher) <==> k < SortedBound(s, key, higher)
  {
    var t := SortedBound(s, key, higher);
    if GoesRight(s[k], key, higher) && t <= k {
      if t < k {
        GoesRightDownward(s[t], s[k], key, higher);
      }
    }
  }

  /** The positions whose values go right are exactly those ranked before t. */
  predicate RankSplit(a: seq<int>, key: int, higher: bool, t: nat)
  {
    forall q :: 0 <= q < |a| ==> (GoesRight(a[q], key, higher) <==> Rank(|a|, q) < t)
  }

  /** On a valid layout, the sorted bound of the in-order reading splits the positions by rank. */
  lemma SortedBoundSplitsLayout(a: seq<int>, key: int, higher: bool)
    requires ValidHeap(a)
    ensures SortedBound(InOrder(a, 0), key, higher) <= |a|
    ensures RankSplit(a, key, higher, SortedBound(InOrder(a, 0), key, higher))
  {
    ValidHeapIffSorted(a);
    InOrderLength(a);
    forall q | 0 <= q < |a|
      ensures GoesRight(a[q], key, higher) <==> Rank(|a|, q) < SortedBound(InOrder(a, 0), key, higher)
    {
      InOrderAtRank(a, q);
      SortedBoundSplits(InOrder(a, 0), key, higher, Rank(|a|, q));
    }
  }

  /**
    Under the invariant of the descent at position i, the descent answers the
    position of rank t.  The invariant: t lies in the rank range of i's
    subtree, and the candidate is the position ranked right after that subtree.
   */
  lemma {:induction false} DescendFinds(a: seq<int>, key: int, higher: bool, t: nat, i: nat, candidate: nat)
    requires RankSplit(a, key, higher, t)
    requires Offset(|a|, i) <= t <= Offset(|a|, i) + SubtreeSize(|a|, i)
    requires candidate == PositionAtRank(|a|, Offset(|a|, i) + SubtreeSize(|a|, i))
    ensures Descend(a, key, higher, i, candidate) == PositionAtRank(|a|, t)
    decreases |a| - i
  {
    if i < |a| {
      var next, nextCandidate := DescendStep(a, key, higher, t, i, candidate);
      DescendFinds(a, key, higher, t, next, nextCandidate);
    }
  }

  /** One step of the descent from an occupied position keeps the invariant. */
  lemma DescendStep(a: seq<int>, key: int, higher: bool, t: nat, i: nat, candidate: nat)
      returns (next: nat, nextCandidate: nat)
    requires RankSplit(a, key, higher, t)
    requires Offset(|a|, i) <= t <= Offset(|a|, i) + SubtreeSize(|a|, i)
    requires candidate == PositionAtRank(|a|, Offset(|a|, i) + SubtreeSize(|a|, i))
    requires i < |a|
    ensures i < next && nextCandidate <= |a|
    ensures Descend(a, key, higher, i, candidate) == Descend(a, key, higher, next, nextCandidate)
    ensures Offset(|a|, next) <= t <= Offset(|a|, next) + SubtreeSize(|a|, next)
    ensures nextCandidate == PositionAtRank(|a|, Offset(|a|, next) + SubtreeSize(|a|, next))
  {
    if GoesRight(a[i], key, higher) {
      next, nextCandidate := DescendRightKeeps(a, key, higher, t, i, candidate);
    } else {
      next, nextCandidate := DescendLeftKeeps(a, key, higher, t, i, candidate);
    }
  }

  /** Moving right keeps the invariant, with the same candidate. */
  lemma DescendRightKeeps(a: seq<int>, key: int, higher: bool, t: nat, i: nat, candidate: nat)
      returns (next: nat, nextCandidate: nat)
    requires RankSplit(a, key, higher, t)
    requires Offset(|a|, i) <= t <= Offset(|a|, i) + SubtreeSize(|a|, i)
    requires candidate == PositionAtRank(|a|, Offset(|a|, i) + SubtreeSize(|a|, i))
    requires i < |a| && GoesRight(a[i], key, higher)
    ensures next == 2 * i + 2 && nextCandidate == candidate
    ensures i < next && nextCandidate <= |a|
    ensures Descend(a, key, higher, i, candidate) == Descend(a, key, higher, next, nextCandidate)
    ensures Offset(|a|, next) <= t <= Offset(|a|, next) + SubtreeSize(|a|, next)
    ensures nextCandidate == PositionAtRank(|a|, Offset(|a|, next) + SubtreeSize(|a|, next))
  {
    next, nextCandidate := 2 * i + 2, candidate;
    assert Rank(|a|, i) < t;
    RightRange(|a|, i);
  }

  /** Moving left keeps the invariant, with the current position as the new candidate. */
  lemma DescendLeftKeeps(a: seq<int>, key: int, higher: bool, t: nat, i: nat, candidate: nat)
      returns (next: nat, nextCandidate: nat)
    requires RankSplit(a, key, higher, t)
    requires Offset(|a|, i) <= t <= Offset(|a|, i) + SubtreeSize(|a|, i)
    requires candidate <= |a|
    requires i < |a| && !GoesRight(a[i], key, higher)
    ensures next == 2 * i + 1 && nextCandidate == i
    ensures i < next && nextCandidate <= |a|
    ensures Descend(a, key, higher, i, candidate) == Descend(a, key, higher, next, nextCandidate)
    ensures Offset(|a|, next) <= t <= Offset(|a|, next) + SubtreeSize(|a|, next)
    ensures nextCandidate == PositionAtRank(|a|, Offset(|a|, next) + SubtreeSize(|a|, next))
  {
    next, nextCandidate := 2 * i + 1, i;
    assert t <= Rank(|a|, i);
    LeftRange(|a|, i);
  }

  /** The rank range of the right child: from just after the parent to the end of the parent's range. */
  lemma RightRange(n: nat, i: nat)
    requires i < n
    ensures Offset(n, 2 * i + 2) == Rank(n, i) + 1
    ensures Offset(n, 2 * i + 2) + SubtreeSize(n, 2 * i + 2) == Offset(n, i) + SubtreeSize(n, i)
    ensures PositionAtRank(n, Offset(n, 2 * i + 2) + SubtreeSize(n, 2 * i + 2))
         == PositionAtRank(n, Offset(n, i) + SubtreeSize(n, i))
  {
    ChildOffsets(n, i);
  }

  /** The rank range of the left child: from the start of the parent's range up to the parent's own rank. */
  lemma LeftRange(n: nat, i: nat)
    requires i < n
    ensures Offset(n, 2 * i + 1) == Offset(n, i)
    ensures Offset(n, 2 * i + 1) + SubtreeSize(n, 2 * i + 1) == Rank(n, i)
    ensures PositionAtRank(n, Offset(n, 2 * i + 1) + SubtreeSize(n, 2 * i + 1)) == i
  {
    ChildOffsets(n, i);
    PositionAtRankInverts(n, i, Rank(n, i));
  }

  /** On a valid layout, a search answers the position of the sorted bound's rank. */
  lemma SearchFindsSortedBound(a: seq<int>, key: int, higher: bool)
    requires ValidHeap(a)
    ensures Descend(a, key, higher, 0, |a|) == PositionAtRank(|a|, SortedBound(InOrder(a, 0), key, higher))
  {
    RootSubtree(|a|);
    SortedBoundSplitsLayout(a, key, higher);
    DescendFinds(a, key, higher, SortedBound(InOrder(a, 0), key, higher), 0, |a|);
  }

  /**
    The descent as the source iterates it: a loop that keeps the current
    position and the last candidate.  It answers what the recursive descent
    answers, and on a valid layout the position of the sorted bound's rank.
   */
  method SearchLoop(a: seq<int>, key: int, higher: bool) returns (r: nat)
    ensures r == Descend(a, key, higher, 0, |a|)
    ensures ValidHeap(a) ==> r == PositionAtRank(|a|, SortedBound(InOrder(a, 0), key, higher))
  {
    var i: nat, candidate: nat := 0, |a|;
    while i < |a|
      invariant candidate <= |a|
      invariant Descend(a, key, higher, i, candidate) == Descend(a, key, higher, 0, |a|)
      decreases |a| - i
    {
      if GoesRight(a[i], key, higher) {
        i := 2 * i + 2;
      } else {
        candidate := i;
        i := 2 * i + 1;
      }
    }
    r := candidate;
    if ValidHeap(a) {
      SearchFindsSortedBound(a, key, higher);
    }
  }

  /**
    On a valid layout, the positions whose values go right are exactly those
    ranked before the answer (all positions when the answer is the end).
   */
  lemma SearchSplitsByRank(a: seq<int>, key: int, higher: bool)
    requires ValidHeap(a)
    ensures var r := Descend(a, key, higher, 0, |a|);
            forall q :: 0 <= q < |a| ==>
              (GoesRight(a[q], key, higher) <==> r == |a| || Rank(|a|, q) < Rank(|a|, r))
  {
    var n := |a|;
    var t := SortedBound(InOrder(a, 0), key, higher);
    SearchFindsSortedBound(a, key, higher);
    SortedBoundSplitsLayout(a, key, higher);
    var r := Descend(a, key, higher, 0, n);
    if t < n {
      PositionAtRankInverts(n, r, t);
    }
  }

  /**
    cfsLowerBound on a valid layout: the values below key are exactly those
    ranked before the answer, so the answer is the first position, in in-order
    order, holding a value at least key, and the end exactly when there is none.
   */
  lemma LowerBoundIsFirstNotBelow(a: seq<int>, key: int)
    requires ValidHeap(a)
    ensures var r := CfsLowerBound(a, key);
            (r == |a| <==> forall q :: 0 <= q < |a| ==> a[q] < key)
            && forall q :: 0 <= q < |a| ==> (a[q] < key <==> r == |a| || Rank(|a|, q) < Rank(|a|, r))
  {
    SearchSplitsByRank(a, key, false);
    var r := CfsLowerBound(a, key);
    if r < |a| {
      assert !(a[r] < key);
    }
  }

  /**
    cfsHigherBound on a valid layout: the values at most key are exactly those
    ranked before the answer, so the answer is the first position, in in-order
    order, holding a value above key, and the end exactly when there is none.
   */
  lemma HigherBoundIsFirstAbove(a: seq<int>, key: int)
    requires ValidHeap(a)
    ensures var r := CfsHigherBound(a, key);
            (r == |a| <==> forall q :: 0 <= q < |a| ==> a[q] <= key)
            && forall q :: 0 <= q < |a| ==> (a[q] <= key <==> r == |a| || Rank(|a|, q) < Rank(|a|, r))
  {
    SearchSplitsByRank(a, key, true);
    var r := CfsHigherBound(a, key);
    if r < |a| {
      assert !(a[r] <= key);
    }
  }

  /**
    cfsEqualRange on a valid layout: the positions holding key are exactly
    those ranked from the first answer (inclusive) up to the second (exclusive,
    with the end ranked after everything).
   */
  lemma EqualRangeHoldsKey(a: seq<int>, key: int)
    requires ValidHeap(a)
    ensures var (lo, hi) := CfsEqualRange(a, key);
            forall q :: 0 <= q < |a| ==>
              (a[q] == key <==> lo < |a| && Rank(|a|, lo) <= Rank(|a|, q) && (hi == |a| || Rank(|a|, q) < Rank(|a|, hi)))
  {
    LowerBoundIsFirstNotBelow(a, key);
    HigherBoundIsFirstAbove(a, key);
  }
}
