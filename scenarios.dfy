/** Small client programs over the list, each pinning down the outcome of
    one concrete use of the library. */
module CstlScenarios {
  import opened CstlList
  import opened MergeSortSpec
  import opened CstlSort

  /* `MergeTakesFirst` and `MergeTakesSecond` read the next element off a
     merge whose output is already named (the ghost `merged` of the merging
     loop). The concrete examples below go the other way: they compute an
     output that is not yet known, so they need the merge unfolded forwards,
     one step at a time, which is what `MergeLeft` and `MergeRight` give. */

  /** One step of the merge on `int`s that takes from the first half. */
  lemma MergeLeft(a: seq<int>, b: seq<int>, k1: nat, k2: nat)
    requires k1 < |a| && k2 <= |b| && (k2 == |b| || a[k1] < b[k2])
    ensures MergeBy(a[k1..], b[k2..], Less) == [a[k1]] + MergeBy(a[k1 + 1..], b[k2..], Less)
  {
    assert a[k1..][1..] == a[k1 + 1..];
  }

  /** One step of the merge on `int`s that takes from the second half. */
  lemma MergeRight(a: seq<int>, b: seq<int>, k1: nat, k2: nat)
    requires k1 <= |a| && k2 < |b| && (k1 == |a| || !(a[k1] < b[k2]))
    ensures MergeBy(a[k1..], b[k2..], Less) == [b[k2]] + MergeBy(a[k1..], b[k2 + 1..], Less)
  {
    assert b[k2..][1..] == b[k2 + 1..];
  }

  /** Two `int`s in ascending order are left as they are by the sort. */
  lemma SortTwoAscending(x: int, y: int)
    requires x < y
    ensures MergeSortBy([x, y], Less) == [x, y]
  {
    var s := [x, y];
    assert s[..1] == [x] && s[1..] == [y];
    assert [x][0..] == [x] && [y][0..] == [y] && [x][1..] == [];
    MergeLeft([x], [y], 0, 0);
  }

  /** The merge of the two sorted halves of the example below; the tie
      between their leading 13s is broken towards the second half. */
  lemma MergeExample()
    ensures MergeBy([13, 13, 14, 15], [13, 13, 19, 22], Less) == [13, 13, 13, 13, 14, 15, 19, 22]
  {
    var a, b := [13, 13, 14, 15], [13, 13, 19, 22];
    assert a[0..] == a && b[0..] == b && a[4..] == [] && b[2..] == [19, 22];
    MergeRight(a, b, 0, 0);
    MergeRight(a, b, 0, 1);
    MergeLeft(a, b, 0, 2);
    MergeLeft(a, b, 1, 2);
    MergeLeft(a, b, 2, 2);
    MergeLeft(a, b, 3, 2);
  }

  lemma SortFirstHalfExample()
    ensures MergeSortBy([13, 14, 13, 15], Less) == [13, 13, 14, 15]
  {
    var h := [13, 14, 13, 15];
    assert h[..2] == [13, 14] && h[2..] == [13, 15];
    assert MergeSortBy(h, Less) == MergeBy(MergeSortBy(h[..2], Less), MergeSortBy(h[2..], Less), Less);
    SortTwoAscending(13, 14);
    SortTwoAscending(13, 15);
    var a, b := [13, 14], [13, 15];
    assert a[0..] == a && b[0..] == b && a[2..] == [] && b[1..] == [15];
    MergeRight(a, b, 0, 0);
    MergeLeft(a, b, 0, 1);
    MergeLeft(a, b, 1, 1);
  }

  lemma SortSecondHalfExample()
    ensures MergeSortBy([13, 22, 13, 19], Less) == [13, 13, 19, 22]
  {
    var h := [13, 22, 13, 19];
    assert h[..2] == [13, 22] && h[2..] == [13, 19];
    assert MergeSortBy(h, Less) == MergeBy(MergeSortBy(h[..2], Less), MergeSortBy(h[2..], Less), Less);
    SortTwoAscending(13, 22);
    SortTwoAscending(13, 19);
    var a, b := [13, 22], [13, 19];
    assert a[0..] == a && b[0..] == b && a[1..] == [22] && b[2..] == [];
    MergeRight(a, b, 0, 0);
    MergeLeft(a, b, 0, 1);
    MergeRight(a, b, 1, 1);
  }

  /** Sorting `[13, 14, 13, 15, 13, 22, 13, 19]` yields the ascending
      arrangement `[13, 13, 13, 13, 14, 15, 19, 22]`. */
  lemma SortExample()
    ensures MergeSortBy([13, 14, 13, 15, 13, 22, 13, 19], Less) == [13, 13, 13, 13, 14, 15, 19, 22]
  {
    var s := [13, 14, 13, 15, 13, 22, 13, 19];
    assert s[..4] == [13, 14, 13, 15] && s[4..] == [13, 22, 13, 19];
    assert MergeSortBy(s, Less) == MergeBy(MergeSortBy(s[..4], Less), MergeSortBy(s[4..], Less), Less);
    SortFirstHalfExample();
    SortSecondHalfExample();
    MergeExample();
  }

  /** Reads the values at both ends of a non-empty list through `front`
      and `back`. */
  method Ends(list: List<int>) returns (front: int, back: int)
    requires list.Valid() && list.size > 0
    ensures front == list.Contents[0] && back == list.Contents[list.size - 1]
  {
    front := NodeData(Front(list));
    back := NodeData(Back(list));
  }

  /** The sort run on that list: the smallest value ends up in front and
      the largest at the back. */
  method SortScenario() returns (front: int, back: int)
    ensures front == 13 && back == 22
  {
    var list := FromSeq([13, 14, 13, 15, 13, 22, 13, 19]);
    Sort(list);
    SortExample();
    front, back := Ends(list);
  }

  /** Adding one value and removing its node leaves an empty list, and the
      successor handed back is the tail sentinel. */
  method AddThenRemove() returns (size: nat, atTail: bool)
    ensures size == 0 && atTail
  {
    var list := new List<int>();
    var node := list.Add(12);
    var next := list.Remove(node, 0);
    size := Size(list);
    atTail := next == list.last;
  }

  /** Builds a list holding `values`, in order. */
  method FromSeq(values: seq<int>) returns (list: List<int>)
    ensures list.Valid() && fresh(list.Repr) && list.Contents == values
  {
    list := new List<int>();
    for i := 0 to |values|
      invariant list.Valid() && fresh(list.Repr) && list.Contents == values[..i]
    {
      var node := list.Add(values[i]);
      assert values[..i + 1] == values[..i] + [values[i]];
    }
    assert values[..|values|] == values;
  }

  /** Builds a list holding `values` and copies it into a second list. */
  method CopiedPair(values: seq<int>) returns (src: List<int>, dest: List<int>)
    ensures src.Valid() && dest.Valid() && src.Repr !! dest.Repr
    ensures fresh(src.Repr) && fresh(dest.Repr)
    ensures src.Contents == values && dest.Contents == values
  {
    src := FromSeq(values);
    dest := new List<int>();
    Copy(src, dest);
  }

  /** Copying a list into another list makes the two equal; adding to the
      source afterwards leaves the copy's size and contents as they were,
      and the two lists then differ. */
  method CopyThenAdd(values: seq<int>) returns (dest: List<int>, equalAfterCopy: bool, copySize: nat, equalAfterAdd: bool)
    ensures dest.Valid() && dest.Contents == values
    ensures equalAfterCopy && copySize == |values| && !equalAfterAdd
  {
    var src;
    src, dest := CopiedPair(values);
    equalAfterCopy := Equals(src, dest);
    var node := src.Add(99);
    copySize := Size(dest);
    equalAfterAdd := Equals(src, dest);
  }

  /** A clone is equal to its source; adding to the clone afterwards leaves
      the source's size as it was, and the two lists then differ. */
  method CloneThenAdd(values: seq<int>) returns (equalAfterClone: bool, srcSize: nat, equalAfterAdd: bool)
    ensures equalAfterClone && srcSize == |values| && !equalAfterAdd
  {
    var src := FromSeq(values);
    var copy := Clone(src);
    equalAfterClone := Equals(src, copy);
    var node := copy.Add(0);
    srcSize := Size(src);
    equalAfterAdd := Equals(src, copy);
  }

  /** A payload ordered by `key` alone; `tag` tells equal keys apart. */
  datatype Keyed = Keyed(key: int, tag: int)

  /** The comparison a `customsort` caller would pass for `Keyed`. */
  function KeyLess(a: Keyed, b: Keyed): bool {
    a.key < b.key
  }

  /** Comparing by key is a strict weak order. */
  lemma KeyLessIsStrictWeakOrder()
    ensures StrictWeakOrder(KeyLess)
  {
  }

  /** Even under a strict weak order, `customsort` is not idempotent: two
      payloads with equal keys swap places each time the list is sorted. */
  lemma CustomSortNotIdempotentExample()
    ensures StrictWeakOrder(KeyLess)
    ensures MergeSortBy([Keyed(1, 0), Keyed(1, 1)], KeyLess) == [Keyed(1, 1), Keyed(1, 0)]
    ensures MergeSortBy(MergeSortBy([Keyed(1, 0), Keyed(1, 1)], KeyLess), KeyLess) == [Keyed(1, 0), Keyed(1, 1)]
  {
    KeyLessIsStrictWeakOrder();
    SortTwiceRestoresTies(Keyed(1, 0), Keyed(1, 1), KeyLess);
  }
}
