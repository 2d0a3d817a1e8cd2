/**
  transformToCFS: converting a sorted sequence into its cache-friendly layout.

  The conversion hands the whole input to the root.  A position receiving the
  sub-range [offset, offset + length) of the input takes the element at
  offset + Split(length) and passes the part before it to its left child
  2p + 1 and the part after it to its right child 2p + 2.
 */
module Builder {
  import opened Shape
  import opened Layout

  /** A sub-range [offset, offset + length) of the input, as the conversion hands it to one position. */
  datatype Range = Range(offset: nat, length: nat)

  /** The part of a non-empty range before its split element: handed to the left child. */
  function LeftPart(r: Range): (l: Range)
    requires r.length >= 1
    ensures l.offset == r.offset && l.length < r.length
  {
    Range(r.offset, Split(r.length))
  }

  /** The part of a non-empty range after its split element: handed to the right child. */
  function RightPart(r: Range): (l: Range)
    requires r.length >= 1
    ensures l.offset + l.length == r.offset + r.length && l.length < r.length
  {
    Range(r.offset + Split(r.length) + 1, r.length - Split(r.length) - 1)
  }

  /** Index of the element a non-empty range keeps for its own position. */
  function Kept(r: Range): (k: nat)
    requires r.length >= 1
    ensures r.offset <= k < r.offset + r.length
    ensures k == LeftPart(r).offset + LeftPart(r).length && k + 1 == RightPart(r).offset
  {
    r.offset + Split(r.length)
  }

  /**
    The writes the conversion makes when it hands the sub-range r of s to
    position p: one element per position of the subtree, keyed by position.
   */
  function Place<T>(s: seq<T>, r: Range, p: nat): (m: map<nat, T>)
    requires r.offset + r.length <= |s|
    decreases r.length
  {
    if r.length == 0 then map[]
    else
      var own: map<nat, T> := map[p := s[Kept(r)]];
      Place(s, LeftPart(r), 2 * p + 1) + Place(s, RightPart(r), 2 * p + 2) + own
  }

  /** One step of Place: its own element at p, over what the two children's sub-ranges write. */
  lemma PlaceUnfold<T>(s: seq<T>, r: Range, p: nat)
    requires r.offset + r.length <= |s| && r.length >= 1
    ensures Place(s, r, p) == Place(s, LeftPart(r), 2 * p + 1) + Place(s, RightPart(r), 2 * p + 2) + map[p := s[Kept(r)]]
  {
  }

  /** What one step of Place writes at q: its own element at p, otherwise what a child's sub-range writes there. */
  lemma PlaceAt<T>(s: seq<T>, r: Range, p: nat, q: nat)
    requires r.offset + r.length <= |s| && r.length >= 1
    ensures q in Place(s, r, p) <==> q == p || q in Place(s, LeftPart(r), 2 * p + 1) || q in Place(s, RightPart(r), 2 * p + 2)
    ensures q == p ==> Place(s, r, p)[q] == s[Kept(r)]
    ensures q != p && q in Place(s, RightPart(r), 2 * p + 2) ==> Place(s, r, p)[q] == Place(s, RightPart(r), 2 * p + 2)[q]
    ensures q != p && q !in Place(s, RightPart(r), 2 * p + 2) && q in Place(s, LeftPart(r), 2 * p + 1) ==>
              Place(s, r, p)[q] == Place(s, LeftPart(r), 2 * p + 1)[q]
  {
    PlaceUnfold(s, r, p);
    UnionAt(Place(s, LeftPart(r), 2 * p + 1), Place(s, RightPart(r), 2 * p + 2), p, s[Kept(r)], q);
  }

  /** Reading a union of two maps and a single entry at q. */
  lemma UnionAt<T>(left: map<nat, T>, right: map<nat, T>, p: nat, x: T, q: nat)
    ensures q in left + right + map[p := x] <==> q == p || q in left || q in right
    ensures q == p ==> (left + right + map[p := x])[q] == x
    ensures q != p && q in right ==> (left + right + map[p := x])[q] == right[q]
    ensures q != p && q !in right && q in left ==> (left + right + map[p := x])[q] == left[q]
  {
  }

  /** The sub-range that belongs to position p of an n-element layout. */
  function SubtreeRange(n: nat, p: nat): Range {
    Range(Offset(n, p), SubtreeSize(n, p))
  }

  /**
    The sub-ranges the conversion hands the children of an occupied position p
    are the children's own subtree ranges, and the element p keeps is the one
    at p's rank.
   */
  lemma SubRanges(n: nat, p: nat)
    requires p < n
    ensures SubtreeSize(n, p) >= 1 && Offset(n, p) + SubtreeSize(n, p) <= n
    ensures LeftPart(SubtreeRange(n, p)) == SubtreeRange(n, 2 * p + 1)
    ensures RightPart(SubtreeRange(n, p)) == SubtreeRange(n, 2 * p + 2)
    ensures Kept(SubtreeRange(n, p)) == Rank(n, p)
  {
    SplitIsLeftSubtree(n, p);
    ChildOffsets(n, p);
    OffsetBound(n, p);
  }

  /** The children's subtree lengths are the split of the parent's. */
  lemma SubLengths(n: nat, p: nat, r: Range)
    requires p < n && r.length == SubtreeSize(n, p)
    ensures r.length >= 1
    ensures LeftPart(r).length == SubtreeSize(n, 2 * p + 1)
    ensures RightPart(r).length == SubtreeSize(n, 2 * p + 2)
  {
    SplitIsLeftSubtree(n, p);
  }

  /** The propositional core of the membership step of PlaceCovers. */
  lemma Membership(inWhole: bool, atRoot: bool, inLeft: bool, inRight: bool, below: bool,
                   under: bool, underLeft: bool, underRight: bool, rootBelow: bool)
    requires inWhole <==> atRoot || inLeft || inRight
    requires inLeft <==> below && underLeft
    requires inRight <==> below && underRight
    requires under <==> atRoot || underLeft || underRight
    requires rootBelow && (atRoot ==> below)
    ensures inWhole <==> below && under
  {
  }

  /**
    Handed a sub-range as long as its subtree, position p writes exactly the
    occupied positions of that subtree.  Stated for one position q at a time.
   */
  lemma {:induction false} PlaceCovers<T>(s: seq<T>, r: Range, p: nat, q: nat)
    requires r.length == SubtreeSize(|s|, p) && r.offset + r.length <= |s|
    ensures q in Place(s, r, p) <==> q < |s| && Descends(q, p)
    decreases r.length
  {
    var n := |s|;
    if p >= n {
      assert r.length == 0;
      if Descends(q, p) {
        DescendsAtLeast(q, p);
      }
    } else {
      SubLengths(n, p, r);
      PlaceCovers(s, LeftPart(r), 2 * p + 1, q);
      PlaceCovers(s, RightPart(r), 2 * p + 2, q);
      PlaceAt(s, r, p, q);
      DescendsCases(q, p);
      Membership(q in Place(s, r, p), q == p, q in Place(s, LeftPart(r), 2 * p + 1), q in Place(s, RightPart(r), 2 * p + 2),
                 q < n, Descends(q, p), Descends(q, 2 * p + 1), Descends(q, 2 * p + 2), p < n);
    }
  }

  /**
    Handed its own sub-range, every position p writes carries the input
    element whose index is that position's in-order rank.
   */
  lemma {:induction false} PlaceRanks<T>(s: seq<T>, p: nat, q: nat)
    requires Offset(|s|, p) + SubtreeSize(|s|, p) <= |s|
    ensures q in Place(s, SubtreeRange(|s|, p), p) ==> q < |s| && Place(s, SubtreeRange(|s|, p), p)[q] == s[Rank(|s|, q)]
    decreases SubtreeSize(|s|, p)
  {
    var n := |s|;
    if p >= n {
      assert SubtreeRange(n, p).length == 0;
    } else {
      SubRanges(n, p);
      PlaceRanks(s, 2 * p + 1, q);
      PlaceRanks(s, 2 * p + 2, q);
      PlaceRanksStep(s, p, q);
    }
  }

  /** The inductive step of PlaceRanks at an occupied position. */
  lemma PlaceRanksStep<T>(s: seq<T>, p: nat, q: nat)
    requires p < |s|
    requires Offset(|s|, 2 * p + 1) + SubtreeSize(|s|, 2 * p + 1) <= |s|
    requires Offset(|s|, 2 * p + 2) + SubtreeSize(|s|, 2 * p + 2) <= |s|
    requires q in Place(s, SubtreeRange(|s|, 2 * p + 1), 2 * p + 1) ==>
               q < |s| && Place(s, SubtreeRange(|s|, 2 * p + 1), 2 * p + 1)[q] == s[Rank(|s|, q)]
    requires q in Place(s, SubtreeRange(|s|, 2 * p + 2), 2 * p + 2) ==>
               q < |s| && Place(s, SubtreeRange(|s|, 2 * p + 2), 2 * p + 2)[q] == s[Rank(|s|, q)]
    ensures Offset(|s|, p) + SubtreeSize(|s|, p) <= |s|
    ensures q in Place(s, SubtreeRange(|s|, p), p) ==> q < |s| && Place(s, SubtreeRange(|s|, p), p)[q] == s[Rank(|s|, q)]
  {
    SubRanges(|s|, p);
    PlaceAt(s, SubtreeRange(|s|, p), p, q);
  }

  /** Handed the whole input, the root writes every position of the output, each with its in-order rank's element. */
  lemma PlaceFillsArray<T>(s: seq<T>)
    ensures SubtreeRange(|s|, 0) == Range(0, |s|)
    ensures forall q: nat :: q < |s| ==> q in Place(s, Range(0, |s|), 0) && Place(s, Range(0, |s|), 0)[q] == s[Rank(|s|, q)]
  {
    RootSubtree(|s|);
    forall q: nat | q < |s|
      ensures q in Place(s, Range(0, |s|), 0) && Place(s, Range(0, |s|), 0)[q] == s[Rank(|s|, q)]
    {
      DescendsFromRoot(q);
      PlaceCovers(s, Range(0, |s|), 0, q);
      PlaceRanks(s, 0, q);
    }
  }

  /**
    transformToCFS: the cache-friendly layout of s.  Position q of the output
    holds the element of s whose index is q's in-order rank.
   */
  function TransformToCfs<T>(s: seq<T>): (r: seq<T>)
    ensures |r| == |s|
    ensures forall q :: 0 <= q < |s| ==> r[q] == s[Rank(|s|, q)]
  {
    PlaceFillsArray(s);
    var writes := Place(s, Range(0, |s|), 0);
    seq(|s|, q requires 0 <= q < |s| => writes[q])
  }

  /** Reading the layout in order gives back the input. */
  lemma InOrderOfTransform<T>(s: seq<T>)
    ensures InOrder(TransformToCfs(s), 0) == s
  {
    var n := |s|;
    var r := TransformToCfs(s);
    InOrderFollowsWalk(r, 0);
    WalkCoversArray(n);
    forall k | 0 <= k < n
      ensures InOrder(r, 0)[k] == s[k]
    {
      RankOfWalk(n, k);
    }
  }

  /** Converting the in-order reading of an array gives back the array. */
  lemma TransformOfInOrder<T>(a: seq<T>)
    ensures TransformToCfs(InOrder(a, 0)) == a
  {
    var n := |a|;
    InOrderFollowsWalk(a, 0);
    WalkCoversArray(n);
    var r := TransformToCfs(InOrder(a, 0));
    forall q | 0 <= q < n
      ensures r[q] == a[q]
    {
      WalkAtRank(n, q);
    }
  }

  /** The layout is a permutation of the input. */
  lemma TransformIsPermutation<T>(s: seq<T>)
    ensures multiset(TransformToCfs(s)) == multiset(s)
  {
    InOrderIsPermutation(TransformToCfs(s));
    InOrderOfTransform(s);
  }

  /** The root holds the split element of the whole input. */
  lemma TransformRoot<T>(s: seq<T>)
    requires |s| >= 1
    ensures TransformToCfs(s)[0] == s[Split(|s|)]
  {
    RootSubtree(|s|);
    SplitIsLeftSubtree(|s|, 0);
  }

  /** Inputs of at most one element are their own layout. */
  lemma TransformSmall<T>(s: seq<T>)
    requires |s| <= 1
    ensures TransformToCfs(s) == s
  {
    if |s| == 1 {
      assert InOrder(s, 0) == [] + [s[0]] + [];
    }
    TransformOfInOrder(s);
  }
}
