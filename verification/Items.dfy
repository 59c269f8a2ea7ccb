/** The values kept in arrays and heaps, and how they are compared. */
module Items {
  import opened Bytes

  /** Values are opaque words; 0 stands for no value. */
  type Item = UInt64

  const NULL: Item := 0

  /** Below, level with or above. */
  type ComparisonResult = r: int | -1 <= r <= 1

  type Comparator = (Item, Item) -> ComparisonResult

  ghost predicate TotalPreorder(cmp: Comparator) {
    && (forall a, b :: cmp(a, b) < 0 <==> 0 < cmp(b, a))
    && (forall a, b, c :: cmp(a, b) <= 0 && cmp(b, c) <= 0 ==> cmp(a, c) <= 0)
  }

  predicate Sorted(cmp: Comparator, s: seq<Item>) {
    forall i, j :: 0 <= i < j < |s| ==> cmp(s[i], s[j]) <= 0
  }
}
