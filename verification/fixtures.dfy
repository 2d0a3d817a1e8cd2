/**
  The concrete cases the repository's tests pin down, proved about the model.
 */
module Fixtures {
  import opened Layout
  import opened Builder
  import opened Validator
  import opened Search
  import opened Tagged

  /** Subtree in-order reading from the readings of the two children. */
  lemma InOrderNode<T>(a: seq<T>, p: nat, left: seq<T>, right: seq<T>)
    requires p < |a| && InOrder(a, 2 * p + 1) == left && InOrder(a, 2 * p + 2) == right
    ensures InOrder(a, p) == left + [a[p]] + right
  {
  }

  /** A position whose children are both past the end reads as itself. */
  lemma InOrderLeaf<T>(a: seq<T>, p: nat)
    requires p < |a| <= 2 * p + 1
    ensures InOrder(a, p) == [a[p]]
  {
  }

  /** Conversion: empty and one-element inputs are copied unchanged. */
  lemma ConversionOfSmallInputs()
    ensures TransformToCfs<int>([]) == []
    ensures TransformToCfs([77]) == [77]
  {
    TransformSmall<int>([]);
    TransformSmall([77]);
  }

  /** Conversion of two and three elements. */
  lemma ConversionOfTwoAndThree()
    ensures TransformToCfs([77, 88]) == [88, 77]
    ensures TransformToCfs([77, 88, 99]) == [88, 77, 99]
  {
    var two, three := [88, 77], [88, 77, 99];
    assert InOrder(two, 0) == [77, 88];
    assert InOrder(three, 0) == [77, 88, 99];
    TransformOfInOrder(two);
    TransformOfInOrder(three);
  }

  /** Conversion of ten elements, three more than a full tree of seven. */
  lemma ConversionOfTen()
    ensures TransformToCfs([0, 1, 2, 3, 4, 5, 6, 7, 8, 9]) == [6, 3, 8, 1, 5, 7, 9, 0, 2, 4]
  {
    var e := [6, 3, 8, 1, 5, 7, 9, 0, 2, 4];
    assert [0, 1, 2, 3, 4, 5] + [6] + [7, 8, 9] == [0, 1, 2, 3, 4, 5, 6, 7, 8, 9];
    InOrderLeaf(e, 7);
    InOrderLeaf(e, 8);
    InOrderLeaf(e, 9);
    InOrderLeaf(e, 5);
    InOrderLeaf(e, 6);
    InOrderNode(e, 4, [4], []);
    InOrderNode(e, 3, [0], [2]);
    InOrderNode(e, 2, [7], [9]);
    InOrderNode(e, 1, [0, 1, 2], [4, 5]);
    InOrderNode(e, 0, [0, 1, 2, 3, 4, 5], [7, 8, 9]);
    TransformOfInOrder(e);
  }

  /** Conversion of eight elements, a power of two. */
  lemma ConversionOfEight()
    ensures TransformToCfs([0, 1, 2, 3, 4, 5, 6, 7]) == [4, 2, 6, 1, 3, 5, 7, 0]
  {
    var e := [4, 2, 6, 1, 3, 5, 7, 0];
    assert [0, 1, 2, 3] + [4] + [5, 6, 7] == [0, 1, 2, 3, 4, 5, 6, 7];
    InOrderLeaf(e, 7);
    InOrderLeaf(e, 4);
    InOrderLeaf(e, 5);
    InOrderLeaf(e, 6);
    InOrderNode(e, 3, [0], []);
    InOrderNode(e, 2, [5], [7]);
    InOrderNode(e, 1, [0, 1], [3]);
    InOrderNode(e, 0, [0, 1, 2, 3], [5, 6, 7]);
    TransformOfInOrder(e);
  }

  /** Conversion of twelve elements, three short of a full tree of fifteen. */
  lemma ConversionOfTwelve()
    ensures TransformToCfs([0, 1, 2, 3, 4, 5, 6, 7, 8, 9, 10, 11]) == [7, 3, 10, 1, 5, 9, 11, 0, 2, 4, 6, 8]
  {
    var e := [7, 3, 10, 1, 5, 9, 11, 0, 2, 4, 6, 8];
    assert [0, 1, 2, 3, 4, 5, 6] + [7] + [8, 9, 10, 11] == [0, 1, 2, 3, 4, 5, 6, 7, 8, 9, 10, 11];
    InOrderLeaf(e, 7);
    InOrderLeaf(e, 8);
    InOrderLeaf(e, 9);
    InOrderLeaf(e, 10);
    InOrderLeaf(e, 11);
    InOrderLeaf(e, 6);
    InOrderNode(e, 5, [8], []);
    InOrderNode(e, 4, [4], [6]);
    InOrderNode(e, 3, [0], [2]);
    InOrderNode(e, 2, [8, 9], [11]);
    InOrderNode(e, 1, [0, 1, 2], [4, 5, 6]);
    InOrderNode(e, 0, [0, 1, 2, 3, 4, 5, 6], [8, 9, 10, 11]);
    TransformOfInOrder(e);
  }

  /** Conversion of sorted values with repetitions. */
  lemma ConversionWithRepetitions()
    ensures TransformToCfs([1, 4, 4, 6, 8, 8, 10]) == [6, 4, 8, 1, 4, 8, 10]
  {
    var e := [6, 4, 8, 1, 4, 8, 10];
    assert [1, 4, 4] + [6] + [8, 8, 10] == [1, 4, 4, 6, 8, 8, 10];
    InOrderLeaf(e, 3);
    InOrderLeaf(e, 4);
    InOrderLeaf(e, 5);
    InOrderLeaf(e, 6);
    InOrderNode(e, 1, [1], [4]);
    InOrderNode(e, 2, [8], [10]);
    InOrderNode(e, 0, [1, 4, 4], [8, 8, 10]);
    TransformOfInOrder(e);
  }

  /** The twelve-value array the lookup tests search. */
  const Lookup: seq<int> := [14, 6, 20, 2, 10, 18, 22, 0, 4, 8, 12, 16]

  /** Validation: the empty, one-element and lookup arrays pass. */
  lemma ValidationAccepts()
    ensures ValidHeap([]) && ValidHeap([1])
    ensures ValidHeap(Lookup)
  {
  }

  /** A sorted input with a run of equal values converts to an array validation accepts. */
  lemma ValidationOfRunOfEquals()
    ensures TransformToCfs([0, 1, 1, 1, 1, 2]) == [1, 1, 2, 0, 1, 1]
    ensures ValidHeap(TransformToCfs([0, 1, 1, 1, 1, 2]))
  {
    var e := [1, 1, 2, 0, 1, 1];
    assert [0, 1, 1] + [1] + [1, 2] == [0, 1, 1, 1, 1, 2];
    InOrderLeaf(e, 3);
    InOrderLeaf(e, 4);
    InOrderLeaf(e, 5);
    InOrderNode(e, 1, [0], [1]);
    InOrderNode(e, 2, [1], []);
    InOrderNode(e, 0, [0, 1, 1], [1, 2]);
    TransformOfInOrder(e);
    RunOfEqualsLayoutIsValid();
  }

  /** The layout of the run of equal values passes validation. */
  lemma RunOfEqualsLayoutIsValid()
    ensures ValidHeap([1, 1, 2, 0, 1, 1])
  {
  }

  /** Validation: moving 20 below 18, or 10 below 12, is caught. */
  lemma ValidationRejects()
    ensures !ValidHeap([14, 6, 18, 2, 10, 20, 22, 0, 4, 8, 12, 16])
    ensures !ValidHeap([14, 6, 20, 2, 12, 18, 22, 0, 4, 8, 10, 16])
  {
  }

  /** cfsLowerBound on the empty and the one-element array. */
  lemma LowerBoundOnSmallArrays()
    ensures CfsLowerBound([], 1) == 0
    ensures CfsLowerBound([1], 1) == 0 && CfsLowerBound([1], 0) == 0 && CfsLowerBound([1], 2) == 1
  {
  }

  /** cfsLowerBound on the lookup array. */
  lemma LowerBoundOnLookup()
    ensures CfsLowerBound(Lookup, 18) == 5 && Lookup[5] == 18
    ensures CfsLowerBound(Lookup, -1) == 7 && Lookup[7] == 0
    ensures CfsLowerBound(Lookup, 23) == |Lookup|
    ensures CfsLowerBound(Lookup, 13) == 0 && Lookup[0] == 14
    ensures CfsLowerBound(Lookup, 11) == 10 && Lookup[10] == 12
    ensures CfsLowerBound(Lookup, 15) == 11 && Lookup[11] == 16
    ensures CfsLowerBound(Lookup, 17) == 5
  {
  }

  /** cfsHigherBound on the lookup array. */
  lemma HigherBoundOnLookup()
    ensures CfsHigherBound(Lookup, 14) == 11 && Lookup[11] == 16
    ensures CfsHigherBound(Lookup, 15) == 11
  {
  }

  /** cfsHigherBound on the lookup array returns the end for keys at or above the largest value. */
  lemma HigherBoundOnLookupEnd()
    ensures CfsHigherBound(Lookup, 22) == |Lookup|
    ensures CfsHigherBound(Lookup, 25) == |Lookup|
  {
  }

  /** cfsHigherBound on the lookup array, for keys at or between the smaller values. */
  lemma HigherBoundOnLookupBelow()
    ensures CfsHigherBound(Lookup, 12) == 0 && Lookup[0] == 14
    ensures CfsHigherBound(Lookup, 13) == 0
    ensures CfsHigherBound(Lookup, 8) == 4 && Lookup[4] == 10
    ensures CfsHigherBound(Lookup, 10) == 10 && Lookup[10] == 12
  {
  }

  /** The converted array with repetitions. */
  const Repeated: seq<int> := [6, 4, 8, 1, 4, 8, 10]

  /** cfsLowerBound with repetitions: the first of equal values in in-order order. */
  lemma LowerBoundWithRepetitions()
    ensures CfsLowerBound(Repeated, 1) == 3 && Repeated[3] == 1
    ensures CfsLowerBound(Repeated, 4) == 1
    ensures CfsLowerBound(Repeated, 8) == 5
    ensures CfsLowerBound(Repeated, 0) == 3
    ensures CfsLowerBound(Repeated, 3) == 1
    ensures CfsLowerBound(Repeated, 5) == 0 && Repeated[0] == 6
    ensures CfsLowerBound(Repeated, 7) == 5
    ensures CfsLowerBound(Repeated, 11) == |Repeated|
  {
  }

  /** After overwriting the root with 4 and its left child with 3 the array is still valid, and 4 is found at position 4. */
  lemma LowerBoundInBend()
    ensures Repeated[0 := 4][1 := 3] == [4, 3, 8, 1, 4, 8, 10]
    ensures ValidHeap([4, 3, 8, 1, 4, 8, 10])
    ensures CfsLowerBound([4, 3, 8, 1, 4, 8, 10], 4) == 4
  {
  }

  /** The tagged input: four 4s and three 8s, told apart by their occurrence letter. */
  const Raw: seq<Entry> := [
    Entry(1, 'a'),
    Entry(4, 'a'), Entry(4, 'b'), Entry(4, 'c'), Entry(4, 'd'),
    Entry(6, 'a'),
    Entry(8, 'a'), Entry(8, 'b'), Entry(8, 'c')
  ]

  /** The layout of the tagged input. */
  const TaggedLayout: seq<Entry> := [
    Entry(6, 'a'), Entry(4, 'c'), Entry(8, 'b'), Entry(4, 'a'), Entry(4, 'd'),
    Entry(8, 'a'), Entry(8, 'c'), Entry(1, 'a'), Entry(4, 'b')
  ]

  /** The conversion of the tagged input moves whole entries, tags included. */
  lemma TaggedConversion()
    ensures TransformToCfs(Raw) == TaggedLayout
  {
    var e := TaggedLayout;
    assert [Raw[0], Raw[1], Raw[2], Raw[3], Raw[4]] + [Raw[5]] + [Raw[6], Raw[7], Raw[8]] == Raw;
    InOrderLeaf(e, 7);
    InOrderLeaf(e, 8);
    InOrderLeaf(e, 4);
    InOrderLeaf(e, 5);
    InOrderLeaf(e, 6);
    InOrderNode(e, 3, [Raw[0]], [Raw[2]]);
    InOrderNode(e, 1, [Raw[0], Raw[1], Raw[2]], [Raw[4]]);
    InOrderNode(e, 2, [Raw[6]], [Raw[8]]);
    InOrderNode(e, 0, [Raw[0], Raw[1], Raw[2], Raw[3], Raw[4]], [Raw[6], Raw[7], Raw[8]]);
    TransformOfInOrder(e);
  }

  /** The keys of the tagged layout pass validation, as the keys of the sorted tagged input predict. */
  lemma TaggedLayoutIsValid()
    ensures ValidHeap(KeysOf(TaggedLayout))
  {
    TaggedConversion();
    assert KeysOf(Raw) == [1, 4, 4, 4, 4, 6, 8, 8, 8];
    TaggedConversionIsValid(Raw);
  }

  /** The keys of the tagged layout. */
  const TaggedKeys: seq<int> := [6, 4, 8, 4, 4, 8, 8, 1, 4]

  /** Reading the keys of the tagged layout. */
  lemma TaggedKeysOf()
    ensures KeysOf(TaggedLayout) == TaggedKeys
  {
  }

  /**
    The equal range of 4 in the tagged layout starts at the entry that came
    first among the 4s and ends at the 6; the one of 8 starts at the first 8
    and ends at the end.
   */
  lemma TaggedEqualRanges()
    ensures CfsEqualRange(KeysOf(TaggedLayout), 4) == (3, 0)
    ensures TaggedLayout[3] == Raw[1] && TaggedLayout[0] == Raw[5]
    ensures CfsEqualRange(KeysOf(TaggedLayout), 8) == (5, |TaggedLayout|)
    ensures TaggedLayout[5] == Raw[6]
  {
    TaggedKeysOf();
    assert CfsEqualRange(TaggedKeys, 4) == (3, 0);
    assert CfsEqualRange(TaggedKeys, 8) == (5, 9);
  }
}
