/**
  Elements that compare by a key but carry more than the key.

  The searches and the check only ever compare keys, so entries with equal
  keys and different tags are interchangeable to them, while the conversion
  moves whole entries.
 */
module Tagged {
  import opened Layout
  import opened Builder
  import opened Validator
  import opened Search

  /** An element ordered by number only; occurrence tells equal numbers apart. */
  datatype Entry = Entry(number: int, occurrence: char)

  /** The keys the comparisons see. */
  function KeysOf(s: seq<Entry>): (k: seq<int>)
    ensures |k| == |s|
  {
    seq(|s|, i requires 0 <= i < |s| => s[i].number)
  }

  /** Converting entries and then reading their keys is converting the keys. */
  lemma KeysCommute(s: seq<Entry>)
    ensures KeysOf(TransformToCfs(s)) == TransformToCfs(KeysOf(s))
  {
    var n := |s|;
    forall q | 0 <= q < n
      ensures KeysOf(TransformToCfs(s))[q] == TransformToCfs(KeysOf(s))[q]
    {
    }
  }

  /** Converting entries sorted by key gives a layout whose keys pass validHeap, and only then. */
  lemma TaggedConversionIsValid(s: seq<Entry>)
    ensures ValidHeap(KeysOf(TransformToCfs(s))) <==> Sorted(KeysOf(s))
  {
    KeysCommute(s);
    ConversionIsValid(KeysOf(s));
  }
}
