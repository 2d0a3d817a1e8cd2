/**
  Index arithmetic shared by the builder, the searches and the validator.

  Position p of an n-element CFS array is the root of the subtree made of p,
  its children 2p+1 and 2p+2, their children, and so on, as long as they are
  below n.  When the builder converts a sorted sequence, each position is
  handed a contiguous task (input offset, length) of the input; the element it
  receives is the one at offset + Split(length), which is its rank in the
  in-order walk of the tree.
 */
module Layout {
  import opened Shape

  /**
    Index, in the sorted input, of the first element that ends up in p's
    subtree: the root's subtree starts at 0, a left child's subtree starts where
    its parent's does, and a right child's subtree starts after its parent's
    left subtree and the parent itself.
   */
  function Offset(n: nat, p: nat): nat
    decreases p
  {
    if p == 0 then 0
    else if p % 2 == 1 then Offset(n, (p - 1) / 2)
    else Offset(n, (p - 1) / 2) + SubtreeSize(n, p - 1) + 1
  }

  /** The offsets of the two children of p, read off p's own offset. */
  lemma ChildOffsets(n: nat, p: nat)
    ensures Offset(n, 2 * p + 1) == Offset(n, p)
    ensures Offset(n, 2 * p + 2) == Offset(n, p) + SubtreeSize(n, 2 * p + 1) + 1
  {
    assert (2 * p + 1 - 1) / 2 == p && (2 * p + 1) % 2 == 1;
    assert (2 * p + 2 - 1) / 2 == p && (2 * p + 2) % 2 == 0;
  }

  /** Every position other than the root is a child of (p - 1) / 2. */
  lemma ParentOf(p: nat)
    requires p > 0
    ensures p == 2 * ((p - 1) / 2) + 1 || p == 2 * ((p - 1) / 2) + 2
  {
  }

  /** A subtree's range of the sorted input lies inside the input. */
  lemma {:induction false} OffsetBound(n: nat, p: nat)
    requires p < n
    ensures Offset(n, p) + SubtreeSize(n, p) <= n
    decreases p
  {
    if p == 0 {
      RootSubtree(n);
    } else {
      var q := (p - 1) / 2;
      ParentOf(p);
      OffsetBound(n, q);
      ChildBound(n, q, p);
    }
  }

  /** A child's subtree range lies inside its parent's. */
  lemma ChildBound(n: nat, q: nat, c: nat)
    requires c == 2 * q + 1 || c == 2 * q + 2
    ensures Offset(n, q) <= Offset(n, c)
    ensures Offset(n, c) + SubtreeSize(n, c) <= Offset(n, q) + SubtreeSize(n, q) || q >= n
  {
    ChildOffsets(n, q);
    if c == 2 * q + 1 {
      assert Offset(n, c) == Offset(n, 2 * q + 1);
    } else {
      assert Offset(n, c) == Offset(n, 2 * q + 2);
    }
  }

  /**
    In-order rank of an occupied position: the index, in the sorted input, of
    the element the builder puts there.  It follows the position's whole left
    subtree, so it lies within the position's own subtree range.
   */
  function Rank(n: nat, q: nat): (k: nat)
    requires q < n
    ensures Offset(n, q) <= k < Offset(n, q) + SubtreeSize(n, q) <= n
  {
    OffsetBound(n, q);
    Offset(n, q) + SubtreeSize(n, 2 * q + 1)
  }

  /** Positions of p's subtree in in-order order: left subtree, p, right subtree. */
  function Walk(n: nat, p: nat): seq<nat>
    decreases n - p
  {
    if p >= n then [] else Walk(n, 2 * p + 1) + [p] + Walk(n, 2 * p + 2)
  }

  /** Values of p's subtree in in-order order. */
  function InOrder<T>(a: seq<T>, p: nat): seq<T>
    decreases |a| - p
  {
    if p >= |a| then [] else InOrder(a, 2 * p + 1) + [a[p]] + InOrder(a, 2 * p + 2)
  }

  lemma WalkLength(n: nat, p: nat)
    ensures |Walk(n, p)| == SubtreeSize(n, p)
    decreases n - p
  {
  }

  /** The k-th value of p's in-order reading is the array at the k-th position of p's walk. */
  lemma {:induction false} InOrderFollowsWalkAt<T>(a: seq<T>, p: nat, k: nat)
    requires k < |Walk(|a|, p)|
    ensures |InOrder(a, p)| == |Walk(|a|, p)|
    ensures Walk(|a|, p)[k] < |a| && InOrder(a, p)[k] == a[Walk(|a|, p)[k]]
    decreases |a| - p
  {
    var wl, wr := Walk(|a|, 2 * p + 1), Walk(|a|, 2 * p + 2);
    var il, ir := InOrder(a, 2 * p + 1), InOrder(a, 2 * p + 2);
    assert Walk(|a|, p) == wl + [p] + wr;
    assert InOrder(a, p) == il + [a[p]] + ir;
    InOrderLengthBelow(a, 2 * p + 1);
    InOrderLengthBelow(a, 2 * p + 2);
    ConcatAt(wl, p, wr, k);
    ConcatAt(il, a[p], ir, k);
    if k < |wl| {
      InOrderFollowsWalkAt(a, 2 * p + 1, k);
    } else if k > |wl| {
      var j := k - |wl| - 1;
      InOrderFollowsWalkAt(a, 2 * p + 2, j);
    }
  }

  /** A subtree's in-order reading is as long as its walk. */
  lemma InOrderLengthBelow<T>(a: seq<T>, p: nat)
    ensures |InOrder(a, p)| == |Walk(|a|, p)|
    decreases |a| - p
  {
  }

  /** The in-order walk of values reads the array at the in-order walk of positions. */
  lemma InOrderFollowsWalk<T>(a: seq<T>, p: nat)
    ensures |InOrder(a, p)| == |Walk(|a|, p)|
    ensures forall k :: 0 <= k < |Walk(|a|, p)| ==>
              Walk(|a|, p)[k] < |a| && InOrder(a, p)[k] == a[Walk(|a|, p)[k]]
  {
    InOrderLengthBelow(a, p);
    forall k | 0 <= k < |Walk(|a|, p)|
      ensures Walk(|a|, p)[k] < |a| && InOrder(a, p)[k] == a[Walk(|a|, p)[k]]
    {
      InOrderFollowsWalkAt(a, p, k);
    }
  }

  /** The whole-array walk covers every position exactly once per rank: its length is n. */
  lemma WalkCoversArray(n: nat)
    ensures |Walk(n, 0)| == n
  {
    WalkLength(n, 0);
    RootSubtree(n);
  }

  /** Reading a three-part concatenation at k. */
  lemma ConcatAt<T>(l: seq<T>, x: T, r: seq<T>, k: nat)
    requires k < |l| + 1 + |r|
    ensures k < |l| ==> (l + [x] + r)[k] == l[k]
    ensures k == |l| ==> (l + [x] + r)[k] == x
    ensures k > |l| ==> (l + [x] + r)[k] == r[k - |l| - 1]
  {
  }

  /** The position listed k-th in p's walk has, as rank, p's offset plus k. */
  lemma {:induction false} RankAlongWalkAt(n: nat, p: nat, k: nat)
    requires k < |Walk(n, p)|
    ensures Walk(n, p)[k] < n && Rank(n, Walk(n, p)[k]) == Offset(n, p) + k
    decreases n - p, 1
  {
    var size := WalkSplit(n, p, k);
    if k < size {
      RankAlongLeftWalk(n, p, k);
    } else if k > size {
      RankAlongRightWalk(n, p, k - size - 1);
    } else {
      RankOfRoot(n, p);
    }
  }

  /** RankAlongWalkAt for an entry that comes from the left child's walk. */
  lemma {:induction false} RankAlongLeftWalk(n: nat, p: nat, k: nat)
    requires p < n && k < |Walk(n, 2 * p + 1)|
    ensures Walk(n, 2 * p + 1)[k] < n && Rank(n, Walk(n, 2 * p + 1)[k]) == Offset(n, p) + k
    decreases n - p, 0
  {
    RankAlongWalkAt(n, 2 * p + 1, k);
    RankThroughLeft(n, p, Walk(n, 2 * p + 1)[k], k);
  }

  /** RankAlongWalkAt for the j-th entry of the right child's walk. */
  lemma {:induction false} RankAlongRightWalk(n: nat, p: nat, j: nat)
    requires p < n && j < |Walk(n, 2 * p + 2)|
    ensures Walk(n, 2 * p + 2)[j] < n && Rank(n, Walk(n, 2 * p + 2)[j]) == Offset(n, p) + |Walk(n, 2 * p + 1)| + 1 + j
    decreases n - p, 0
  {
    RankAlongWalkAt(n, 2 * p + 2, j);
    RankThroughRight(n, p, Walk(n, 2 * p + 2)[j], j);
  }

  /** Where the k-th entry of p's walk comes from: the left child's walk, p itself, or the right child's walk. */
  lemma WalkSplit(n: nat, p: nat, k: nat) returns (size: nat)
    requires k < |Walk(n, p)|
    ensures p < n && size == |Walk(n, 2 * p + 1)|
    ensures k < size ==> Walk(n, p)[k] == Walk(n, 2 * p + 1)[k]
    ensures k == size ==> Walk(n, p)[k] == p
    ensures k > size ==> k - size - 1 < |Walk(n, 2 * p + 2)| && Walk(n, p)[k] == Walk(n, 2 * p + 2)[k - size - 1]
  {
    var wl, wr := Walk(n, 2 * p + 1), Walk(n, 2 * p + 2);
    ConcatAt(wl, p, wr, k);
    size := |wl|;
  }

  /** A rank counted from the left child's offset counts from the parent's offset too. */
  lemma RankThroughLeft(n: nat, p: nat, q: nat, k: nat)
    requires q < n && Rank(n, q) == Offset(n, 2 * p + 1) + k
    ensures Rank(n, q) == Offset(n, p) + k
  {
    ChildOffsets(n, p);
  }

  /** A rank counted from the right child's offset counts from the parent's offset past the left walk and p. */
  lemma RankThroughRight(n: nat, p: nat, q: nat, j: nat)
    requires q < n && Rank(n, q) == Offset(n, 2 * p + 2) + j
    ensures Rank(n, q) == Offset(n, p) + |Walk(n, 2 * p + 1)| + 1 + j
  {
    ChildOffsets(n, p);
    WalkLength(n, 2 * p + 1);
  }

  /** An occupied position's rank is its offset plus the length of its left child's walk. */
  lemma RankOfRoot(n: nat, p: nat)
    requires p < n
    ensures Rank(n, p) == Offset(n, p) + |Walk(n, 2 * p + 1)|
  {
    WalkLength(n, 2 * p + 1);
  }

  /** Every position listed in p's walk has, as rank, p's offset plus its place in the walk. */
  lemma RankAlongWalk(n: nat, p: nat)
    ensures forall k :: 0 <= k < |Walk(n, p)| ==>
              Walk(n, p)[k] < n && Rank(n, Walk(n, p)[k]) == Offset(n, p) + k
  {
    forall k | 0 <= k < |Walk(n, p)|
      ensures Walk(n, p)[k] < n && Rank(n, Walk(n, p)[k]) == Offset(n, p) + k
    {
      RankAlongWalkAt(n, p, k);
    }
  }

  /** Reading the whole walk at rank k gives the position of rank k. */
  lemma RankOfWalk(n: nat, k: nat)
    requires k < n
    ensures |Walk(n, 0)| == n
    ensures Walk(n, 0)[k] < n && Rank(n, Walk(n, 0)[k]) == k
  {
    WalkCoversArray(n);
    RankAlongWalk(n, 0);
  }

  /** The walk of p's subtree lists every occupied position below p. */
  lemma {:induction false} WalkHoldsDescendants(n: nat, p: nat, q: nat)
    requires q < n && Descends(q, p)
    ensures q in Walk(n, p)
    decreases q - p
  {
    if q != p {
      DescendsAtLeast(q, p);
      DescendsThroughChild(q, p);
      if Descends(q, 2 * p + 1) {
        DescendsAtLeast(q, 2 * p + 1);
        WalkHoldsDescendants(n, 2 * p + 1, q);
      } else {
        DescendsAtLeast(q, 2 * p + 2);
        WalkHoldsDescendants(n, 2 * p + 2, q);
      }
    }
  }

  /** Reading the whole walk at a position's rank gives back that position. */
  lemma WalkAtRank(n: nat, q: nat)
    requires q < n
    ensures |Walk(n, 0)| == n
    ensures Walk(n, 0)[Rank(n, q)] == q
  {
    WalkCoversArray(n);
    DescendsFromRoot(q);
    WalkHoldsDescendants(n, 0, q);
    var k :| 0 <= k < n && Walk(n, 0)[k] == q;
    RankOfWalk(n, k);
  }

  /** The position whose in-order rank is t, or n (one past the end) when no position has that rank. */
  function PositionAtRank(n: nat, t: nat): (q: nat)
    ensures q <= n && (q == n <==> t >= n)
  {
    WalkCoversArray(n);
    if t < n then RankOfWalk(n, t); Walk(n, 0)[t] else n
  }

  /** PositionAtRank and Rank are inverse to each other on the occupied positions. */
  lemma PositionAtRankInverts(n: nat, q: nat, t: nat)
    requires q < n && t < n
    ensures PositionAtRank(n, t) == q <==> Rank(n, q) == t
  {
    WalkAtRank(n, q);
    RankOfWalk(n, t);
  }

  /** The in-order reading of a whole array is as long as the array. */
  lemma InOrderLength<T>(a: seq<T>)
    ensures |InOrder(a, 0)| == |a|
  {
    InOrderFollowsWalk(a, 0);
    WalkCoversArray(|a|);
  }

  /** The in-order reading of a whole array holds each position's value at the position's rank. */
  lemma InOrderAtRank<T>(a: seq<T>, q: nat)
    requires q < |a|
    ensures |InOrder(a, 0)| == |a| && InOrder(a, 0)[Rank(|a|, q)] == a[q]
  {
    InOrderFollowsWalk(a, 0);
    WalkAtRank(|a|, q);
  }

  /**
    Position q lies in the subtree rooted at p: q is p, or q's parent
    (q - 1) / 2 lies in it.
   */
  predicate Descends(q: nat, p: nat)
    decreases q
  {
    q == p || (q > p && Descends((q - 1) / 2, p))
  }

  lemma DescendsAtLeast(q: nat, p: nat)
    requires Descends(q, p)
    ensures p <= q
  {
  }

  /** Every position lies in the root's subtree. */
  lemma {:induction false} DescendsFromRoot(q: nat)
    ensures Descends(q, 0)
    decreases q
  {
    if q > 0 {
      DescendsFromRoot((q - 1) / 2);
    }
  }

  /** Below p, a position lies in p's subtree exactly when it lies in one of its children's subtrees. */
  lemma {:induction false} DescendsThroughChild(q: nat, p: nat)
    requires q > p
    ensures Descends(q, p) <==> Descends(q, 2 * p + 1) || Descends(q, 2 * p + 2)
    decreases q
  {
    var up := (q - 1) / 2;
    if up > p {
      DescendsThroughChild(up, p);
    } else if up < p {
      if Descends(up, p) {
        DescendsAtLeast(up, p);
      }
    }
  }

  /** The ancestors of a position form a chain. */
  lemma {:induction false} AncestorsChain(q: nat, x: nat, y: nat)
    requires Descends(q, x) && Descends(q, y)
    ensures Descends(x, y) || Descends(y, x)
    decreases q
  {
    if q != x && q != y {
      AncestorsChain((q - 1) / 2, x, y);
    }
  }

  /** The two subtrees below a position are disjoint. */
  lemma ChildrenDisjoint(q: nat, p: nat)
    ensures !(Descends(q, 2 * p + 1) && Descends(q, 2 * p + 2))
  {
    assert !Descends(2 * p + 2, 2 * p + 1) by {
      assert (2 * p + 2 - 1) / 2 == p;
    }
    if Descends(q, 2 * p + 1) && Descends(q, 2 * p + 2) {
      AncestorsChain(q, 2 * p + 1, 2 * p + 2);
    }
  }

  /** p's subtree is p itself, its left child's subtree and its right child's subtree, with no overlap. */
  lemma DescendsCases(q: nat, p: nat)
    ensures Descends(q, p) <==> q == p || Descends(q, 2 * p + 1) || Descends(q, 2 * p + 2)
    ensures !(Descends(q, 2 * p + 1) && Descends(q, 2 * p + 2))
    ensures Descends(q, 2 * p + 1) || Descends(q, 2 * p + 2) ==> q > p
  {
    ChildrenDisjoint(q, p);
    if Descends(q, 2 * p + 1) {
      DescendsAtLeast(q, 2 * p + 1);
    }
    if Descends(q, 2 * p + 2) {
      DescendsAtLeast(q, 2 * p + 2);
    }
    if q > p {
      DescendsThroughChild(q, p);
    } else if q < p && Descends(q, p) {
      DescendsAtLeast(q, p);
    }
  }

  /** In-order walk of p's subtree within the first n positions of a, as if a had only n elements. */
  function InOrderPrefix<T>(a: seq<T>, n: nat, p: nat): seq<T>
    requires n <= |a|
    decreases n - p
  {
    if p >= n then [] else InOrderPrefix(a, n, 2 * p + 1) + [a[p]] + InOrderPrefix(a, n, 2 * p + 2)
  }

  lemma {:induction false} InOrderIsWholePrefix<T>(a: seq<T>, p: nat)
    ensures InOrder(a, p) == InOrderPrefix(a, |a|, p)
    decreases |a| - p
  {
    if p < |a| {
      var left, right := InOrder(a, 2 * p + 1), InOrder(a, 2 * p + 2);
      InOrderIsWholePrefix(a, 2 * p + 1);
      InOrderIsWholePrefix(a, 2 * p + 2);
      assert InOrder(a, p) == left + [a[p]] + right;
      assert InOrderPrefix(a, |a|, p) == left + [a[p]] + right;
    }
  }

  /** Number of occurrences of v in s. */
  ghost function Occurrences<T>(s: seq<T>, v: T): nat
    decreases |s|
  {
    if |s| == 0 then 0 else (if s[0] == v then 1 else 0) + Occurrences(s[1..], v)
  }

  lemma {:induction false} OccurrencesAppend<T>(s: seq<T>, t: seq<T>, v: T)
    ensures Occurrences(s + t, v) == Occurrences(s, v) + Occurrences(t, v)
    decreases |s|
  {
    if |s| == 0 {
      assert s + t == t;
    } else {
      assert (s + t)[0] == s[0] && (s + t)[1..] == s[1..] + t;
      OccurrencesAppend(s[1..], t, v);
    }
  }

  lemma {:induction false} OccurrencesCount<T>(s: seq<T>, v: T)
    ensures Occurrences(s, v) == multiset(s)[v]
    decreases |s|
  {
    if |s| > 0 {
      assert s == [s[0]] + s[1..];
      OccurrencesCount(s[1..], v);
    }
  }

  /**
    Letting position n - 1 in adds its value to the walk of p's subtree exactly
    when p is one of its ancestors (inside).
   */
  lemma {:induction false} PrefixDropLast<T>(a: seq<T>, n: nat, p: nat, v: T, inside: bool)
    requires 1 <= n <= |a| && inside == Descends(n - 1, p)
    ensures Occurrences(InOrderPrefix(a, n, p), v)
         == Occurrences(InOrderPrefix(a, n - 1, p), v) + (if inside && a[n - 1] == v then 1 else 0)
    decreases n - p
  {
    if p >= n {
      assert !Descends(n - 1, p);
    } else if p == n - 1 {
      assert InOrderPrefix(a, n, p) == [a[p]];
    } else {
      var left, right := Descends(n - 1, 2 * p + 1), Descends(n - 1, 2 * p + 2);
      assert inside == (left || right) && !(left && right) by {
        DescendsThroughChild(n - 1, p);
        ChildrenDisjoint(n - 1, p);
      }
      PrefixDropLast(a, n, 2 * p + 1, v, left);
      PrefixDropLast(a, n, 2 * p + 2, v, right);
      OccurrencesAppend(InOrderPrefix(a, n, 2 * p + 1) + [a[p]], InOrderPrefix(a, n, 2 * p + 2), v);
      OccurrencesAppend(InOrderPrefix(a, n, 2 * p + 1), [a[p]], v);
      OccurrencesAppend(InOrderPrefix(a, n - 1, 2 * p + 1) + [a[p]], InOrderPrefix(a, n - 1, 2 * p + 2), v);
      OccurrencesAppend(InOrderPrefix(a, n - 1, 2 * p + 1), [a[p]], v);
    }
  }

  /** The in-order walk of the first n positions counts every value as often as a[..n] does. */
  lemma {:induction false} PrefixIsPermutation<T>(a: seq<T>, n: nat, v: T)
    requires n <= |a|
    ensures Occurrences(InOrderPrefix(a, n, 0), v) == Occurrences(a[..n], v)
    decreases n
  {
    if n > 0 {
      assert a[..n] == a[..n - 1] + [a[n - 1]];
      OccurrencesAppend(a[..n - 1], [a[n - 1]], v);
      DescendsFromRoot(n - 1);
      PrefixIsPermutation(a, n - 1, v);
      PrefixDropLast(a, n, 0, v, true);
    }
  }

  /** The in-order walk of a whole array holds each value as often as the array. */
  lemma InOrderCount<T>(a: seq<T>, v: T)
    ensures multiset(InOrder(a, 0))[v] == multiset(a)[v]
  {
    InOrderIsWholePrefix(a, 0);
    assert a[..|a|] == a;
    PrefixIsPermutation(a, |a|, v);
    OccurrencesCount(a, v);
    OccurrencesCount(InOrder(a, 0), v);
  }

  /** The in-order walk of a whole array is a permutation of it. */
  lemma InOrderIsPermutation<T>(a: seq<T>)
    ensures multiset(InOrder(a, 0)) == multiset(a)
  {
    forall v | v in multiset(InOrder(a, 0)) + multiset(a)
      ensures multiset(InOrder(a, 0))[v] == multiset(a)[v]
    {
      InOrderCount(a, v);
    }
  }
}
