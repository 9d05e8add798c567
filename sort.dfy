/** The in-place merge sorts of cstl/list.h, `cstl_list_customsort` and
    `cstl_list_sort`. Both copies in the source run the same algorithm and
    differ only in the comparison, so the algorithm is written once, over a
    comparator `pred`, and `Sort` instantiates it with `<` on `int`.

    A sort copies the payloads into two fresh lists (the first `size / 2`
    elements, then the rest), sorts each recursively, and merges them back
    by overwriting `data` in the original nodes, whose chain is kept. */
module CstlSort {
  import opened CstlList
  import opened MergeSortSpec

  /** One half of the split: a new list, then one of the two copying `for`
      loops, which for `i` from `from` to `to` appends the payload of the
      node at element `i` and steps to the next node. Returns the new list
      and the node after the last one copied; nothing that existed before
      is changed. */
  method CopyRange<T(0)>(list: List<T>, node: Node<T>, from: nat, to: nat)
    returns (dst: List<T>, next: Node<T>)
    requires list.Valid() && from <= to <= list.size && node == list.Nodes[from + 1]
    ensures dst.Valid() && fresh(dst.Repr)
    ensures dst.Contents == list.Contents[from..to]
    ensures next == list.Nodes[to + 1]
  {
    dst := new List<T>();
    next := node;
    for i := from to to
      invariant next == list.Nodes[i + 1]
      invariant dst.Valid() && fresh(dst.Repr)
      invariant dst.Contents == list.Contents[from..i]
    {
      assert next.next == list.Nodes[i + 2];
      var added := dst.Add(next.data);
      assert list.Contents[from..i + 1] == list.Contents[from..i] + [list.Contents[i]];
      next := next.next;
    }
  }

  /** The two copying loops of the sort: fresh lists holding the first
      `size / 2` elements and the rest. */
  method Split<T(0)>(list: List<T>) returns (l1: List<T>, l2: List<T>)
    requires list.Valid() && list.size >= 2
    ensures l1.Valid() && l2.Valid()
    ensures fresh(l1.Repr) && fresh(l2.Repr) && l1.Repr !! l2.Repr
    ensures list.Repr !! l1.Repr && list.Repr !! l2.Repr
    ensures l1.Contents == list.Contents[..list.size / 2]
    ensures l2.Contents == list.Contents[list.size / 2..]
  {
    var node := First(list);
    l1, node := CopyRange(list, node, 0, list.size / 2);
    l2, node := CopyRange(list, node, list.size / 2, list.size);
  }

  /** Where the merge cursors stand: `n1` is the user node of `l1` holding
      element `k1`, or null once all of `l1` is taken, and likewise for `n2`.
      A cursor left on its tail sentinel (the copy-out branches step onto it
      without nulling it) only occurs once both halves are used up. */
  ghost predicate Cursors<T(0)>(l1: List<T>, l2: List<T>, n1: Node?<T>, n2: Node?<T>, k1: nat, k2: nat)
    reads l1, l2
  {
    && |l1.Nodes| == l1.size + 2 && |l2.Nodes| == l2.size + 2
    && k1 <= l1.size && k2 <= l2.size
    && (n1 == null ==> k1 == l1.size)
    && (n1 != null ==> n1 == l1.Nodes[k1 + 1] && (k1 == l1.size ==> k2 == l2.size))
    && (n2 == null ==> k2 == l2.size)
    && (n2 != null ==> n2 == l2.Nodes[k2 + 1] && (k2 == l2.size ==> k1 == l1.size))
  }

  /** The choice made by one pass of the merging loop: the head of `l1` when
      `l2` is used up or `pred(n1.data, n2.data)`, otherwise the head of
      `l2`; that cursor advances. In the comparison branches a cursor that
      reaches its tail sentinel becomes null; in the copy-out branches it is
      simply advanced. Exactly one element is consumed, it is never a
      sentinel's payload, and it is the next element of the merge. */
  method MergeChoice<T(0)>(l1: List<T>, l2: List<T>, pred: (T, T) -> bool,
                           n1: Node?<T>, n2: Node?<T>, ghost k1: nat, ghost k2: nat,
                           ghost merged: seq<T>, ghost i: nat)
    returns (value: T, m1: Node?<T>, m2: Node?<T>, ghost j1: nat, ghost j2: nat)
    requires l1.Valid() && l2.Valid()
    requires Cursors(l1, l2, n1, n2, k1, k2) && k1 + k2 < l1.size + l2.size
    requires i <= |merged| && MergeBy(l1.Contents[k1..], l2.Contents[k2..], pred) == merged[i..]
    ensures Cursors(l1, l2, m1, m2, j1, j2)
    ensures || (j1 == k1 + 1 && j2 == k2 && value == l1.Contents[k1])
            || (j1 == k1 && j2 == k2 + 1 && value == l2.Contents[k2])
    ensures k1 < l1.size && k2 < l2.size ==> (j1 == k1 + 1 <==> pred(l1.Contents[k1], l2.Contents[k2]))
    ensures i < |merged| && value == merged[i]
    ensures MergeBy(l1.Contents[j1..], l2.Contents[j2..], pred) == merged[i + 1..]
  {
    ghost var c1, c2 := l1.Contents, l2.Contents;
    m1, m2, j1, j2 := n1, n2, k1, k2;
    if n1 == null {
      MergeTakesSecond(c1, c2, pred, k1, k2, merged, i);
      assert n2.next == l2.Nodes[k2 + 2];
      value := n2.data;
      m2, j2 := n2.next, k2 + 1;
    } else if n2 == null {
      MergeTakesFirst(c1, c2, pred, k1, k2, merged, i);
      assert n1.next == l1.Nodes[k1 + 2];
      value := n1.data;
      m1, j1 := n1.next, k1 + 1;
    } else if pred(n1.data, n2.data) {
      MergeTakesFirst(c1, c2, pred, k1, k2, merged, i);
      assert n1.next == l1.Nodes[k1 + 2];
      assert k1 + 2 < |l1.Nodes| - 1 ==> n1.next.next == l1.Nodes[k1 + 3];
      value := n1.data;
      m1, j1 := n1.next, k1 + 1;
      if m1.next == null {
        assert k1 + 2 == |l1.Nodes| - 1;
        m1 := null;
      }
    } else {
      MergeTakesSecond(c1, c2, pred, k1, k2, merged, i);
      assert n2.next == l2.Nodes[k2 + 2];
      assert k2 + 2 < |l2.Nodes| - 1 ==> n2.next.next == l2.Nodes[k2 + 3];
      value := n2.data;
      m2, j2 := n2.next, k2 + 1;
      if m2.next == null {
        assert k2 + 2 == |l2.Nodes| - 1;
        m2 := null;
      }
    }
  }

  /** One pass of the body of the merging loop: the chosen payload is
      written into `node`, which belongs to neither half, so both halves
      stay as they are. */
  method MergeStep<T(0)>(node: Node<T>, l1: List<T>, l2: List<T>, pred: (T, T) -> bool,
                         n1: Node?<T>, n2: Node?<T>, ghost k1: nat, ghost k2: nat,
                         ghost merged: seq<T>, ghost i: nat)
    returns (m1: Node?<T>, m2: Node?<T>, ghost j1: nat, ghost j2: nat)
    requires l1.Valid() && l2.Valid() && node !in l1.Repr && node !in l2.Repr
    requires Cursors(l1, l2, n1, n2, k1, k2) && k1 + k2 < l1.size + l2.size
    requires i <= |merged| && MergeBy(l1.Contents[k1..], l2.Contents[k2..], pred) == merged[i..]
    modifies node`data
    ensures l1.Valid() && l2.Valid()
    ensures Cursors(l1, l2, m1, m2, j1, j2) && j1 + j2 == k1 + k2 + 1
    ensures i < |merged| && node.data == merged[i]
    ensures MergeBy(l1.Contents[j1..], l2.Contents[j2..], pred) == merged[i + 1..]
  {
    var value;
    value, m1, m2, j1, j2 := MergeChoice(l1, l2, pred, n1, n2, k1, k2, merged, i);
    node.data := value;
  }

  /** The merging `for` loop of the sort: for each of the `size` nodes of
      `list`, in order, one `MergeStep` overwrites its payload with the next
      element of `MergeBy(l1, l2)`. Only the payloads are written. */
  method MergeInto<T(0)>(list: List<T>, l1: List<T>, l2: List<T>, pred: (T, T) -> bool)
    requires list.Valid() && l1.Valid() && l2.Valid()
    requires l1.size + l2.size == list.size
    requires list.Repr !! l1.Repr && list.Repr !! l2.Repr
    modifies list.Nodes`data
    ensures forall j :: 0 <= j < list.size ==>
              list.Nodes[j + 1].data == MergeBy(l1.Contents, l2.Contents, pred)[j]
  {
    ghost var merged := MergeBy(l1.Contents, l2.Contents, pred);
    ghost var k1: nat, k2: nat := 0, 0;
    var n1 := First(l1);
    var n2 := First(l2);
    var node := list.first.next;
    for i := 0 to list.size
      invariant l1.Valid() && l2.Valid()
      invariant Cursors(l1, l2, n1, n2, k1, k2) && i == k1 + k2
      invariant MergeBy(l1.Contents[k1..], l2.Contents[k2..], pred) == merged[i..]
      invariant node == list.Nodes[i + 1]
      invariant forall j :: 0 <= j < i ==> list.Nodes[j + 1].data == merged[j]
    {
      n1, n2, k1, k2 := MergeStep(node, l1, l2, pred, n1, n2, k1, k2, merged, i);
      node := node.next;
    }
  }

  /** The merge of the sort, with `Contents` brought up to date: the chain
      and the size are kept and the payloads become `MergeBy(l1, l2)`. */
  method MergeBack<T(0)>(list: List<T>, l1: List<T>, l2: List<T>, pred: (T, T) -> bool)
    requires list.Valid() && l1.Valid() && l2.Valid()
    requires l1.size + l2.size == list.size
    requires list.Repr !! l1.Repr && list.Repr !! l2.Repr
    modifies list`Contents, list.Nodes`data
    ensures list.Valid()
    ensures list.Contents == MergeBy(l1.Contents, l2.Contents, pred)
  {
    MergeInto(list, l1, l2, pred);
    list.Contents := MergeBy(l1.Contents, l2.Contents, pred);
  }

  /** `cstl_list_customsort`: the chain and the size stay as they are; the
      payloads become `MergeSortBy` of the old ones, which is a permutation
      of them and, for an asymmetric `pred`, sorted. */
  method CustomSort<T(0)>(list: List<T>, pred: (T, T) -> bool)
    requires list.Valid()
    modifies list.Repr
    ensures list.Valid() && list.Repr == old(list.Repr)
    ensures list.Nodes == old(list.Nodes)
    ensures list.Contents == MergeSortBy(old(list.Contents), pred)
    decreases list.size
  {
    if list.size < 2 {
      return;
    }
    var l1, l2 := Split(list);
    CustomSort(l1, pred);
    CustomSort(l2, pred);
    MergeBack(list, l1, l2, pred);
  }

  /** `cstl_list_sort` on `int` payloads: the new contents are the ascending
      arrangement of the old ones; a list of fewer than two elements is left
      as it is. */
  method Sort(list: List<int>)
    requires list.Valid()
    modifies list.Repr
    ensures list.Valid() && list.Repr == old(list.Repr)
    ensures list.Nodes == old(list.Nodes)
    ensures list.Contents == MergeSortBy(old(list.Contents), Less)
    ensures old(list.size) < 2 ==> list.Contents == old(list.Contents)
    ensures multiset(list.Contents) == multiset(old(list.Contents))
    ensures forall i, j :: 0 <= i < j < |list.Contents| ==> list.Contents[i] <= list.Contents[j]
  {
    LessIsStrictWeakOrder();
    MergeSortOrdered(list.Contents, Less);
    MergeSortPermutes(list.Contents, Less);
    CustomSort(list, Less);
  }
}
