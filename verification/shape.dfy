/**
  Tree shape oracle of the cache-friendly search (CFS) layout.

  A CFS array of n elements is a complete binary tree stored breadth-first:
  position 0 is the root and the children of position p are 2p+1 and 2p+2,
  each present only when it is below n.  This module answers, for a subtree
  holding c elements, how many of them belong to its left child, and proves
  that the closed-form answer agrees with the actual shape of the flat array.
 */
module Shape {

  /** 2 to the power d. */
  function Pow2(d: nat): (r: nat)
    ensures r >= 1
  {
    if d == 0 then 1 else 2 * Pow2(d - 1)
  }

  lemma Pow2Le(d: nat, e: nat)
    requires d <= e
    ensures Pow2(d) <= Pow2(e)
  {
  }

  function Min(x: int, y: int): int {
    if x <= y then x else y
  }

  /** Height of the largest perfect tree that fits in c nodes: the largest h with 2^h - 1 <= c. */
  function Height(c: nat): (h: nat)
    ensures Pow2(h) - 1 <= c < Pow2(h + 1) - 1
  {
    if c == 0 then 0 else 1 + Height((c - 1) / 2)
  }

  /** The height bracketing c is unique. */
  lemma HeightUnique(c: nat, h: nat)
    requires Pow2(h) - 1 <= c < Pow2(h + 1) - 1
    ensures Height(c) == h
  {
    var g := Height(c);
    if g < h {
      Pow2Le(g + 1, h);
    } else if h < g {
      Pow2Le(h + 1, g);
    }
  }

  /**
    Number of elements the left child of a c-element subtree receives: a perfect
    tree of height h-1 plus as many of the leftover bottom-level nodes as fit in
    the left half of that level.  The right child gets c - 1 - Split(c).
   */
  function Split(c: nat): (l: nat)
    requires c >= 1
    ensures l < c
    ensures c - 1 - l <= l <= 2 * (c - 1 - l) + 1
  {
    var h := Height(c);
    var half := Pow2(h - 1);
    assert Pow2(h) == 2 * half;
    half - 1 + Min(c - (Pow2(h) - 1), half)
  }

  /**
    Number of positions below n in the subtree rooted at position p of the
    breadth-first layout (the 2p+1 / 2p+2 indexing convention).
   */
  function SubtreeSize(n: nat, p: nat): nat
    decreases n - p
  {
    if p >= n then 0 else 1 + SubtreeSize(n, 2 * p + 1) + SubtreeSize(n, 2 * p + 2)
  }

  function Clamp(x: int, cap: nat): nat {
    if x < 0 then 0 else if x > cap then cap else x
  }

  /**
    Level-by-level size of a subtree: when the levels of p's subtree above
    depth d are full and the level below depth d is empty, the subtree holds a
    perfect tree of height d plus whatever part of depth d lies below n.
   */
  lemma {:induction false} SubtreeSizeByLevels(n: nat, p: nat, d: nat)
    requires n < (p + 1) * Pow2(d + 1)
    requires d == 0 || (p + 2) * Pow2(d - 1) <= n + 1
    ensures SubtreeSize(n, p) == Pow2(d) - 1 + Clamp(n + 1 - (p + 1) * Pow2(d), Pow2(d))
    decreases d, 1
  {
    if d == 0 {
      LevelsLeaf(n, p);
    } else {
      LevelsStep(n, p, d);
    }
  }

  /** The inductive step of SubtreeSizeByLevels: a subtree is its root and its two children's subtrees. */
  lemma {:induction false} LevelsStep(n: nat, p: nat, d: nat)
    requires d >= 1
    requires n < (p + 1) * Pow2(d + 1)
    requires (p + 2) * Pow2(d - 1) <= n + 1
    ensures SubtreeSize(n, p) == Pow2(d) - 1 + Clamp(n + 1 - (p + 1) * Pow2(d), Pow2(d))
    decreases d, 0
  {
    var h := Pow2(d - 1);
    ChildrenBracket(n, p, d);
    SubtreeSizeByLevels(n, 2 * p + 1, d - 1);
    SubtreeSizeByLevels(n, 2 * p + 2, d - 1);
    LevelScale(p, d);
    NextScale(2 * p + 2, h);
    LevelsCombine(n, p, d, h, (p + 1) * Pow2(d));
  }

  /** One more copy of h. */
  lemma NextScale(j: nat, h: nat)
    ensures (j + 1) * h == j * h + h
  {
  }

  /** Multiplication by a natural number keeps order. */
  lemma ScaleMono(a: int, b: int, c: nat)
    requires a <= b
    ensures a * c <= b * c
  {
  }

  /** Depth 0: the subtree is the position alone, or empty when the position is past the end. */
  lemma LevelsLeaf(n: nat, p: nat)
    requires n < (p + 1) * 2
    ensures SubtreeSize(n, p) == Clamp(n + 1 - (p + 1), 1)
  {
    if p < n {
      assert SubtreeSize(n, 2 * p + 1) == 0;
      assert SubtreeSize(n, 2 * p + 2) == 0;
    }
  }

  /** Adds up a subtree from the level-by-level sizes of its two children. */
  lemma LevelsCombine(n: nat, p: nat, d: nat, h: nat, base: int)
    requires p < n
    requires Pow2(d) == 2 * h && (p + 1) * Pow2(d) == base
    requires SubtreeSize(n, 2 * p + 1) == h - 1 + Clamp(n + 1 - base, h)
    requires SubtreeSize(n, 2 * p + 2) == h - 1 + Clamp(n + 1 - (base + h), h)
    ensures SubtreeSize(n, p) == Pow2(d) - 1 + Clamp(n + 1 - (p + 1) * Pow2(d), Pow2(d))
  {
    ClampHalves(n + 1 - base, h);
  }

  /** The inductive step of SubtreeSizeByLevels: both children meet its requirements at depth d - 1. */
  lemma ChildrenBracket(n: nat, p: nat, d: nat)
    requires d >= 1
    requires n < (p + 1) * Pow2(d + 1)
    requires (p + 2) * Pow2(d - 1) <= n + 1
    ensures p < n
    ensures n < (2 * p + 1 + 1) * Pow2(d - 1 + 1) && n < (2 * p + 2 + 1) * Pow2(d - 1 + 1)
    ensures d - 1 == 0 || (2 * p + 1 + 2) * Pow2(d - 1 - 1) <= n + 1
    ensures d - 1 == 0 || (2 * p + 2 + 2) * Pow2(d - 1 - 1) <= n + 1
  {
    ScaleMono(1, Pow2(d - 1), p + 2);
    LevelScale(p, d);
    ScaleMono(2 * p + 2, 2 * p + 3, Pow2(d));
    if d >= 2 {
      LevelScale(p + 1, d - 1);
      ScaleMono(2 * p + 3, 2 * p + 4, Pow2(d - 2));
    }
  }

  /** Filling a level of width 2h is filling its left half, then its right half. */
  lemma ClampHalves(x: int, h: nat)
    ensures Clamp(x, h) + Clamp(x - h, h) == Clamp(x, 2 * h)
  {
  }

  /** Doubling the index is one more level of scale. */
  lemma DoubleScale(j: nat, d: nat)
    ensures (2 * j) * Pow2(d) == j * Pow2(d + 1)
  {
    assert Pow2(d + 1) == 2 * Pow2(d);
  }

  /** Depth of the deepest non-empty level of the subtree whose 1-based root index is j. */
  function Depth(n: nat, j: nat): (d: nat)
    requires 1 <= j <= n
    ensures j * Pow2(d) <= n < j * Pow2(d + 1)
    decreases n - j
  {
    if 2 * j > n then 0
    else
      var d' := Depth(n, 2 * j);
      DoubleScale(j, d');
      DoubleScale(j, d' + 1);
      d' + 1
  }

  /** Split applied to a subtree size of the form "perfect tree of height d plus e bottom nodes". */
  lemma SplitOfShape(d: nat, e: nat)
    requires d >= 1 && 1 <= e <= Pow2(d)
    ensures Split(Pow2(d) - 1 + e) == Pow2(d - 1) - 1 + Min(e, Pow2(d - 1))
  {
    var c := Pow2(d) - 1 + e;
    assert Pow2(d) == 2 * Pow2(d - 1);
    assert Pow2(d + 2) == 4 * Pow2(d);
    if e < Pow2(d) {
      HeightUnique(c, d);
    } else {
      HeightUnique(c, d + 1);
    }
  }

  /** Doubling the level width halves the scale of the index that starts it. */
  lemma LevelScale(p: nat, d: nat)
    requires d >= 1
    ensures Pow2(d) == 2 * Pow2(d - 1)
    ensures (2 * p + 2) * Pow2(d - 1) == (p + 1) * Pow2(d)
    ensures (2 * p + 2) * Pow2(d) == (p + 1) * Pow2(d + 1)
  {
    var h := Pow2(d - 1);
    assert Pow2(d + 1) == 2 * Pow2(d);
    assert (2 * p + 2) * h == (p + 1) * (2 * h);
  }

  /** A position whose level d starts by n leaves its right sibling's level d - 1 starting by n + 1. */
  lemma HalfLevelStart(n: nat, p: nat, d: nat)
    requires d >= 1
    requires (p + 1) * Pow2(d) <= n
    ensures (p + 2) * Pow2(d - 1) <= n + 1
  {
    LevelScale(p, d);
    ScaleMono(p + 2, 2 * p + 2, Pow2(d - 1));
  }

  /** Shape of an occupied position's subtree, with d its deepest non-empty level. */
  lemma OccupiedShape(n: nat, p: nat, d: nat)
    requires p < n
    requires (p + 1) * Pow2(d) <= n < (p + 1) * Pow2(d + 1)
    ensures 1 <= n + 1 - (p + 1) * Pow2(d)
    ensures SubtreeSize(n, p) == Pow2(d) - 1 + Min(n + 1 - (p + 1) * Pow2(d), Pow2(d))
  {
    if d >= 1 {
      HalfLevelStart(n, p, d);
    }
    SubtreeSizeByLevels(n, p, d);
  }

  /** The left child's level d - 1 brackets n the way SubtreeSizeByLevels needs. */
  lemma LeftChildBracket(n: nat, p: nat, d: nat)
    requires d >= 1
    requires (p + 1) * Pow2(d) <= n < (p + 1) * Pow2(d + 1)
    ensures n < (2 * p + 1 + 1) * Pow2(d - 1 + 1)
    ensures d - 1 == 0 || (2 * p + 1 + 2) * Pow2(d - 1 - 1) <= n + 1
    ensures (2 * p + 1 + 1) * Pow2(d - 1) == (p + 1) * Pow2(d)
  {
    LevelScale(p, d);
    if d >= 2 {
      LevelScale(2 * p + 1, d - 1);
      ScaleMono(2 * p + 3, 4 * p + 4, Pow2(d - 2));
    }
  }

  /** With its deepest level d >= 1, the left child's subtree keeps at most half of that level. */
  lemma LeftChildShape(n: nat, p: nat, d: nat)
    requires d >= 1
    requires (p + 1) * Pow2(d) <= n < (p + 1) * Pow2(d + 1)
    ensures SubtreeSize(n, 2 * p + 1)
         == Pow2(d - 1) - 1 + Min(n + 1 - (p + 1) * Pow2(d), Pow2(d - 1))
  {
    LeftChildBracket(n, p, d);
    SubtreeSizeByLevels(n, 2 * p + 1, d - 1);
  }

  /**
    The oracle agrees with the layout: the left child of any occupied position
    p roots a subtree of exactly Split(SubtreeSize(n, p)) positions, and the
    right child the remaining SubtreeSize(n, p) - 1 - Split(...) positions.
   */
  lemma {:induction false} SplitIsLeftSubtree(n: nat, p: nat)
    requires p < n
    ensures SubtreeSize(n, p) >= 1
    ensures Split(SubtreeSize(n, p)) == SubtreeSize(n, 2 * p + 1)
    ensures SubtreeSize(n, 2 * p + 2) == SubtreeSize(n, p) - 1 - Split(SubtreeSize(n, p))
  {
    var d := Depth(n, p + 1);
    OccupiedShape(n, p, d);
    var e := n + 1 - (p + 1) * Pow2(d);
    if d == 0 {
      assert SubtreeSize(n, 2 * p + 1) == 0;
      HeightUnique(1, 1);
    } else {
      LeftChildShape(n, p, d);
      SplitOfShape(d, Min(e, Pow2(d)));
    }
  }

  /** The root's subtree is the whole array. */
  lemma RootSubtree(n: nat)
    ensures SubtreeSize(n, 0) == n
  {
    if n > 0 {
      var d := Depth(n, 1);
      if d >= 1 {
        assert Pow2(d) == 2 * Pow2(d - 1);
      }
      SubtreeSizeByLevels(n, 0, d);
    }
  }

  /** The split sizes fixed by the conversion fixtures: 2, 3, 8, 10 and 12 elements. */
  lemma SplitFixtures()
    ensures Split(1) == 0 && Split(2) == 1 && Split(3) == 1
    ensures Split(8) == 4 && Split(10) == 6 && Split(12) == 7
  {
    HeightUnique(1, 1);
    HeightUnique(2, 1);
    HeightUnique(3, 2);
    HeightUnique(8, 3);
    HeightUnique(10, 3);
    HeightUnique(12, 3);
  }
}
