# Cache-friendly search (CFS) layout

A model of the cache-friendly search algorithms of the zoo library
(`zoo/algorithm/cfs.h`, exercised by `test/algorithm/cfs.cpp`).

A CFS array stores a sorted sequence as a complete binary tree in a flat
array, breadth-first: the root is position 0 and the children of position
`p` are `2p+1` and `2p+2`. The model has five parts:

- `Shape`: the subtree-size split. A subtree of `c` elements gives its left
  child `Split(c)` elements, that is, a perfect tree of height `h-1` plus as
  many leftover bottom-level nodes as fit in the left half. The module proves
  that this closed form agrees with the actual shape of the flat array.
- `Layout`: the in-order reading of a layout (`InOrder`), the in-order rank
  of each position (`Rank`) and its inverse (`PositionAtRank`), and
  ancestry (`Descends`).
- `Builder`: `transformToCFS`. The element `offset + Split(length)` of a
  sub-range goes to position `p`. The left part recurses into `2p+1` and the
  right part into `2p+2`. The result is the layout as a sequence.
- `Validator`: `validHeap`, which passes an allowed interval down the tree.
- `Search`: `cfsLowerBound`, `cfsHigherBound` and `cfsEqualRange`. Each is a
  descent from the root that records candidates on its way left.
- `Tagged`: elements compared by a key only (`Entry`). The conversion moves
  whole entries, and the searches see only the keys.
- `Fixtures`: the concrete cases of the test file, proved about the model.

The header `zoo/algorithm/cfs.h` is not part of this model. Its behaviour is
fixed by the fixtures of `test/algorithm/cfs.cpp`, together with the
split and descent rules stated above. Every fixture of that file is proved
as a lemma.

## Model

| member | source | states |
|---|---|---|
| Shape.Split | test/algorithm/cfs.cpp:48-76 | the left child of a c-element subtree gets fewer than c elements, at least as many as the right child, and at most twice the right child's count plus one |
| Shape.SplitIsLeftSubtree | test/algorithm/cfs.cpp:48-76 | for every occupied position, the split of its subtree's size is exactly the size of its left child's subtree in the breadth-first array, and the rest goes to the right child |
| Shape.RootSubtree | test/algorithm/cfs.cpp:48-76 | the subtree of the root spans the whole array |
| Shape.SplitFixtures | test/algorithm/cfs.cpp:36-76 | the split sizes the fixtures imply: 2 elements give 1 to the left, 3 give 1, 8 give 4, 10 give 6 and 12 give 7 |
| Layout.InOrderFollowsWalk | test/algorithm/cfs.cpp:68-71 | the in-order reading of a subtree lists the array's values at the positions of the in-order walk, one per position |
| Layout.RankOfWalk | test/algorithm/cfs.cpp:68-71 | the k-th position of the in-order walk has in-order rank k |
| Layout.PositionAtRankInverts | test/algorithm/cfs.cpp:68-71 | PositionAtRank inverts Rank: it maps a rank back to the only position holding it |
| Layout.InOrderAtRank | test/algorithm/cfs.cpp:68-71 | the in-order reading holds a[q] at index Rank(q) |
| Layout.InOrderIsPermutation | test/algorithm/cfs.cpp:24-76 | the in-order reading of an array is a permutation of it |
| Builder.PlaceCovers | test/algorithm/cfs.cpp:24-76 | the recursive builder writes a position exactly when that position is in the array and below the sub-range's root position |
| Builder.PlaceRanks | test/algorithm/cfs.cpp:24-76 | the recursive builder writes, at every position it reaches, the input element whose index is that position's in-order rank |
| Builder.TransformToCfs | test/algorithm/cfs.cpp:24-76 | transformToCFS output has the input's length, and position q holds the input element of index Rank(q) |
| Builder.InOrderOfTransform | test/algorithm/cfs.cpp:24-76 | reading the converted layout in order gives back the input |
| Builder.TransformOfInOrder | test/algorithm/cfs.cpp:24-76 | converting the in-order reading of any array gives back that array |
| Builder.TransformIsPermutation | test/algorithm/cfs.cpp:24-76 | the output is a permutation of the input (equal multisets) |
| Builder.TransformRoot | test/algorithm/cfs.cpp:36-76 | the root of a non-empty output is the input element at the split index |
| Builder.TransformSmall | test/algorithm/cfs.cpp:25-35 | inputs of at most one element are copied unchanged |
| Validator.ValidHeap | test/algorithm/cfs.cpp:80-87 | arrays of at most one element are valid |
| Validator.ValidBelowIffSorted | test/algorithm/cfs.cpp:79-117 | the interval check of a subtree passes exactly when the subtree's in-order reading is sorted and lies within the interval |
| Validator.ValidHeapIffSorted | test/algorithm/cfs.cpp:79-117 | validHeap accepts exactly the arrays whose in-order reading is sorted |
| Validator.ConversionIsValid | test/algorithm/cfs.cpp:88-95 | the converted input passes validHeap exactly when the input is sorted, runs of equal values included |
| Validator.ValidHeapIsConversion | test/algorithm/cfs.cpp:96-99 | every array validHeap accepts is the conversion of its sorted in-order reading |
| Search.Descend | test/algorithm/cfs.cpp:120-196 | on any array, the descent answers either the end position or a position whose value stops the descent |
| Search.SearchLoop | test/algorithm/cfs.cpp:120-196 | the iterative descent answers what the recursive descent answers, and on a valid layout it answers the position of the sorted bound's rank |
| Search.CfsLowerBound | test/algorithm/cfs.cpp:121-162 | cfsLowerBound answers the end position or a position holding a value of at least the key |
| Search.CfsHigherBound | test/algorithm/cfs.cpp:164-194 | cfsHigherBound answers the end position or a position holding a value above the key |
| Search.CfsEqualRange | test/algorithm/cfs.cpp:235-241 | cfsEqualRange answers two positions: the first holds a value of at least the key, the second a value above it, and either may be the end position |
| Search.SortedBound | test/algorithm/cfs.cpp:134-194 | the reference bound on a sorted sequence: every value before it goes right, the one at it does not |
| Search.SortedBoundSplits | test/algorithm/cfs.cpp:134-194 | on a sorted sequence, a value goes right exactly when its index is before the reference bound |
| Search.SearchFindsSortedBound | test/algorithm/cfs.cpp:134-194 | on a valid layout, the descent answers the position whose in-order rank is the sorted sequence's lower or upper bound |
| Search.SearchSplitsByRank | test/algorithm/cfs.cpp:134-194 | on a valid layout, the positions whose values go right are exactly those ranked before the answer |
| Search.LowerBoundIsFirstNotBelow | test/algorithm/cfs.cpp:134-162 | on a valid layout, cfsLowerBound answers the end exactly when every value is below the key; otherwise the values below the key are exactly those ranked before the answer |
| Search.HigherBoundIsFirstAbove | test/algorithm/cfs.cpp:164-194 | on a valid layout, cfsHigherBound answers the end exactly when no value is above the key; otherwise the values at most the key are exactly those ranked before the answer |
| Search.EqualRangeHoldsKey | test/algorithm/cfs.cpp:212-241 | on a valid layout, a position holds the key exactly when its rank is at least the first answer's and below the second answer's (the end ranks after everything) |
| Tagged.KeysOf | test/algorithm/cfs.cpp:198-202 | the keys the comparisons see, one per entry |
| Tagged.KeysCommute | test/algorithm/cfs.cpp:212-234 | converting entries and then reading their keys equals converting the keys |
| Tagged.TaggedConversionIsValid | test/algorithm/cfs.cpp:224-234 | converted entries pass validHeap on their keys exactly when the entries are sorted by key |
| Fixtures.ConversionOfSmallInputs | test/algorithm/cfs.cpp:25-35 | the empty input converts to empty output, and [77] converts to [77] |
| Fixtures.ConversionOfTwoAndThree | test/algorithm/cfs.cpp:36-47 | [77,88] converts to [88,77], and [77,88,99] to [88,77,99] |
| Fixtures.ConversionOfTen | test/algorithm/cfs.cpp:48-55 | 0..9 converts to [6,3,8,1,5,7,9,0,2,4] |
| Fixtures.ConversionOfEight | test/algorithm/cfs.cpp:56-63 | 0..7 converts to [4,2,6,1,3,5,7,0] |
| Fixtures.ConversionOfTwelve | test/algorithm/cfs.cpp:64-76 | 0..11 converts to [7,3,10,1,5,9,11,0,2,4,6,8] |
| Fixtures.ValidationAccepts | test/algorithm/cfs.cpp:80-87 | validHeap accepts the empty array and [1] |
| Fixtures.ValidationOfRunOfEquals | test/algorithm/cfs.cpp:88-95 | [0,1,1,1,1,2] converts to [1,1,2,0,1,1], which validHeap accepts |
| Fixtures.RunOfEqualsLayoutIsValid | test/algorithm/cfs.cpp:88-95 | validHeap accepts [1,1,2,0,1,1] |
| Fixtures.ValidationRejects | test/algorithm/cfs.cpp:100-117 | validHeap rejects the lookup array with 20 moved below 18, and the one with 10 moved below 12 |
| Fixtures.LowerBoundOnSmallArrays | test/algorithm/cfs.cpp:121-133 | cfsLowerBound answers the end on the empty array; on [1] it answers begin for keys 1 and 0, and the end for 2 |
| Fixtures.LowerBoundOnLookup | test/algorithm/cfs.cpp:134-162 | cfsLowerBound on the lookup array: 18 finds 18, -1 finds 0, 23 finds the end, 13 finds 14, 11 finds 12, 15 finds 16 and 17 finds 18 |
| Fixtures.HigherBoundOnLookup | test/algorithm/cfs.cpp:164-176 | cfsHigherBound on the lookup array: 14 and 15 find 16 |
| Fixtures.HigherBoundOnLookupEnd | test/algorithm/cfs.cpp:177-194 | cfsHigherBound on the lookup array answers the end for 22 and for 25 |
| Fixtures.HigherBoundOnLookupBelow | test/algorithm/cfs.cpp:180-191 | cfsHigherBound on the lookup array: 12 and 13 find 14, 8 finds 10 and 10 finds 12 |
| Fixtures.ConversionWithRepetitions | test/algorithm/cfs.cpp:243-258 | [1,4,4,6,8,8,10] converts to [6,4,8,1,4,8,10] |
| Fixtures.LowerBoundWithRepetitions | test/algorithm/cfs.cpp:259-289 | cfsLowerBound on [6,4,8,1,4,8,10]: 1 and 0 find the minimum at position 3, 4 and 3 find position 1, 8 and 7 find position 5, 5 finds 6, and 11 finds the end |
| Fixtures.LowerBoundInBend | test/algorithm/cfs.cpp:290-299 | after the root becomes 4 and its left child 3, the array is still valid and cfsLowerBound of 4 answers position 4 |
| Fixtures.TaggedConversion | test/algorithm/cfs.cpp:212-233 | the nine tagged entries convert to the drawn layout, tags included |
| Fixtures.TaggedLayoutIsValid | test/algorithm/cfs.cpp:234 | the keys of the tagged layout pass validHeap |
| Fixtures.TaggedEqualRanges | test/algorithm/cfs.cpp:235-241 | the equal range of 4 starts at the entry (4,'a') and ends at (6,'a'); the one of 8 starts at (8,'a') and ends at the end |

## Left out

- `zoo/algorithm/cfs.h` is not part of this model. The algorithms are rebuilt from the fixtures of `test/algorithm/cfs.cpp` and from the split and descent rules. The exact order in which the header visits sub-ranges is not known.
- The `back_inserter` output sink is not modelled. The builder returns the finished layout as a sequence, so the order in which elements are pushed is left out.
- Iterators are positions: `begin` is 0, `end` is the array length, and `b + k` is `k`. Iterator categories and address identity are left out.
- Comparators are not modelled. The searches and `validHeap` work on `int` keys. Elements with a tag (`Entry`) are searched and checked through `KeysOf`, which the comparison-by-key of the test's `Equivalence` type amounts to. The generic builder moves any element type.
- Integer width is not modelled: keys are unbounded integers, and every fixture value fits in an `int`.
- `inc/zoo/any.h`, `inc/util/any.h` and `inc/zoo/PolymorphicContainer.h` are left out. They are type-erased containers whose substance is object lifetime and storage layout, not the search logic.
- `test/GenericPolicy.cpp`, `test/FunctionPolicy.cpp` and `test/inc/GenericAnyTests.h` are left out. They test that type-erasure machinery.
- `conanfile.py` (build configuration) is left out.
- `benchmark/cfs/cfs_utility.h` is left out. It generates random benchmark inputs.
- Search.CfsLowerBound: on an array that is not a valid layout, the contract only says that the answer is the end or a position holding a value of at least the key. The header gives no promise for such arrays either.
