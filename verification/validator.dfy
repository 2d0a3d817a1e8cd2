/**
  validHeap: whether an array is a cache-friendly layout of sorted data.

  The check walks down from the root carrying the interval of values a
  position may hold: a left child may hold at most its parent's value and
  a right child at least it, on top of whatever the parent itself had to
  respect.  Values equal to the parent are allowed on both sides.
 */
module Validator {
  import opened Layout
  import opened Builder

  /** One end of the interval a position's value must lie in; the root has none. */
  datatype Limit = Unlimited | Limit(value: int)

  /** x lies between the lower limit lo and the upper limit hi, both inclusive. */
  predicate Admits(lo: Limit, hi: Limit, x: int)
  {
    (lo.Unlimited? || lo.value <= x) && (hi.Unlimited? || x <= hi.value)
  }

  /** Every element of s lies between lo and hi. */
  predicate AllAdmitted(s: seq<int>, lo: Limit, hi: Limit)
  {
    forall i :: 0 <= i < |s| ==> Admits(lo, hi, s[i])
  }

  /** Non-decreasing order. */
  predicate Sorted(s: seq<int>)
  {
    forall i, j :: 0 <= i < j < |s| ==> s[i] <= s[j]
  }

  /**
    The interval-passing check of p's subtree: a[p] lies between lo and hi,
    the left subtree lies between lo and a[p], the right one between a[p] and hi.
   */
  function ValidBelow(a: seq<int>, p: nat, lo: Limit, hi: Limit): (ok: bool)
    ensures p >= |a| ==> ok
    decreases |a| - p
  {
    p >= |a|
    || (Admits(lo, hi, a[p])
        && ValidBelow(a, 2 * p + 1, lo, Limit(a[p]))
        && ValidBelow(a, 2 * p + 2, Limit(a[p]), hi))
  }

  /** validHeap: the whole array passes the check with no limits at the root. */
  function ValidHeap(a: seq<int>): (ok: bool)
    ensures |a| <= 1 ==> ok
  {
    ValidBelow(a, 0, Unlimited, Unlimited)
  }

  /** A sequence split around x is sorted exactly when both sides are, with x between them. */
  lemma SortedAround(left: seq<int>, x: int, right: seq<int>)
    ensures Sorted(left + [x] + right)
        <==> Sorted(left) && Sorted(right) && AllAdmitted(left, Unlimited, Limit(x))
             && AllAdmitted(right, Limit(x), Unlimited)
  {
    var s := left + [x] + right;
    if Sorted(left) && Sorted(right) && AllAdmitted(left, Unlimited, Limit(x))
       && AllAdmitted(right, Limit(x), Unlimited) {
      forall i, j | 0 <= i < j < |s|
        ensures s[i] <= s[j]
      {
        if j < |left| {
        } else if i < |left| {
          assert s[i] == left[i] && s[i] <= x;
          if j > |left| {
            assert s[j] == right[j - |left| - 1];
          }
        } else if i == |left| {
          assert s[j] == right[j - |left| - 1];
        } else {
          assert s[i] == right[i - |left| - 1] && s[j] == right[j - |left| - 1];
        }
      }
    }
    if Sorted(s) {
      forall i, j | 0 <= i < j < |right|
        ensures right[i] <= right[j]
      {
        assert right[i] == s[|left| + 1 + i] && right[j] == s[|left| + 1 + j];
      }
      forall i | 0 <= i < |left|
        ensures left[i] <= x
      {
        assert s[i] == left[i] && s[|left|] == x;
      }
      forall j | 0 <= j < |right|
        ensures x <= right[j]
      {
        assert s[|left| + 1 + j] == right[j] && s[|left|] == x;
      }
      forall i, j | 0 <= i < j < |left|
        ensures left[i] <= left[j]
      {
        assert s[i] == left[i] && s[j] == left[j];
      }
    }
  }

  /** A sequence split around x lies between lo and hi exactly when both sides and x do. */
  lemma AdmittedAround(left: seq<int>, x: int, right: seq<int>, lo: Limit, hi: Limit)
    ensures AllAdmitted(left + [x] + right, lo, hi)
        <==> AllAdmitted(left, lo, hi) && Admits(lo, hi, x) && AllAdmitted(right, lo, hi)
  {
    var s := left + [x] + right;
    if AllAdmitted(s, lo, hi) {
      assert s[|left|] == x;
      forall i | 0 <= i < |left|
        ensures Admits(lo, hi, left[i])
      {
        assert s[i] == left[i];
      }
      forall j | 0 <= j < |right|
        ensures Admits(lo, hi, right[j])
      {
        assert s[|left| + 1 + j] == right[j];
      }
    }
  }

  /**
    The interval-passing check of a subtree accepts exactly when the subtree's
    in-order reading is sorted and lies between the limits.
   */
  lemma {:induction false} ValidBelowIffSorted(a: seq<int>, p: nat, lo: Limit, hi: Limit)
    ensures ValidBelow(a, p, lo, hi) <==> Sorted(InOrder(a, p)) && AllAdmitted(InOrder(a, p), lo, hi)
    decreases |a| - p
  {
    if p < |a| {
      var x := a[p];
      var left, right := InOrder(a, 2 * p + 1), InOrder(a, 2 * p + 2);
      ValidBelowIffSorted(a, 2 * p + 1, lo, Limit(x));
      ValidBelowIffSorted(a, 2 * p + 2, Limit(x), hi);
      assert InOrder(a, p) == left + [x] + right;
      SortedAround(left, x, right);
      AdmittedAround(left, x, right, lo, hi);
      if Admits(lo, hi, x) {
        NarrowLimits(left, x, right, lo, hi);
      }
    }
  }

  /** With x between lo and hi, the children's narrowed limits say the same as the parent's plus the order around x. */
  lemma NarrowLimits(left: seq<int>, x: int, right: seq<int>, lo: Limit, hi: Limit)
    requires Admits(lo, hi, x)
    ensures AllAdmitted(left, lo, Limit(x))
        <==> AllAdmitted(left, lo, hi) && AllAdmitted(left, Unlimited, Limit(x))
    ensures AllAdmitted(right, Limit(x), hi)
        <==> AllAdmitted(right, lo, hi) && AllAdmitted(right, Limit(x), Unlimited)
  {
  }

  /** validHeap accepts exactly the arrays whose in-order reading is sorted. */
  lemma ValidHeapIffSorted(a: seq<int>)
    ensures ValidHeap(a) <==> Sorted(InOrder(a, 0))
  {
    ValidBelowIffSorted(a, 0, Unlimited, Unlimited);
  }

  /** A conversion passes validHeap exactly when its input was sorted. */
  lemma ConversionIsValid(s: seq<int>)
    ensures ValidHeap(TransformToCfs(s)) <==> Sorted(s)
  {
    ValidHeapIffSorted(TransformToCfs(s));
    InOrderOfTransform(s);
  }

  /** Every array validHeap accepts is the conversion of its own sorted in-order reading. */
  lemma ValidHeapIsConversion(a: seq<int>)
    requires ValidHeap(a)
    ensures Sorted(InOrder(a, 0)) && TransformToCfs(InOrder(a, 0)) == a
  {
    ValidHeapIffSorted(a);
    TransformOfInOrder(a);
  }
}
