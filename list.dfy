/** The doubly-linked list that cstl/list.h generates for one element type.

    The C macro stamps out one node struct and one list struct per element
    type; here the element type is the class type parameter `T`. The `0`
    characteristic stands for `calloc`: a freshly allocated node (and so each
    sentinel) holds a zero-filled payload, here the type's default value.

    Every list owns a head sentinel (`first`) and a tail sentinel (`last`);
    user nodes sit strictly between them. The ghost field `Nodes` lists the
    whole chain from head to tail, `Contents` the user payloads in order, and
    `Valid()` ties both to the real fields. */
module CstlList {

  /** A node of the chain: two links and a payload. `new Node()` models
      `new_cstl_list_node`, whose `calloc` leaves both links null. */
  class Node<T(0)> {
    var prev: Node?<T>
    var next: Node?<T>
    var data: T

    constructor ()
      ensures prev == null && next == null
    {
      prev := null;
      next := null;
    }
  }

  class List<T(0)> {
    var first: Node<T>    // head sentinel
    var last: Node<T>     // tail sentinel
    var size: nat         // number of user nodes

    ghost var Nodes: seq<Node<T>>   // head sentinel, user nodes in order, tail sentinel
    ghost var Contents: seq<T>      // payloads of the user nodes, in order
    ghost var Repr: set<object>     // this list and every node it has owned

    /** The sentinel invariant: the head has no predecessor, the tail no
        successor, every `n.next.prev == n`, the chain has no repeated node,
        and `size` counts the nodes strictly between the sentinels. */
    ghost predicate Valid()
      reads this, Repr
      ensures Valid() ==> this in Repr
    {
      && this in Repr
      && |Nodes| == size + 2
      && (forall i :: 0 <= i < |Nodes| ==> Nodes[i] in Repr)
      && Nodes[0] == first
      && Nodes[|Nodes| - 1] == last
      && first.prev == null
      && last.next == null
      && (forall i :: 0 < i < |Nodes| ==> Nodes[i - 1].next == Nodes[i] && Nodes[i].prev == Nodes[i - 1])
      && (forall i, j :: 0 <= i < j < |Nodes| ==> Nodes[i] != Nodes[j])
      && |Contents| == size
      && (forall i :: 0 <= i < size ==> Nodes[i + 1].data == Contents[i])
    }

    /** `new_cstl_list`: two fresh sentinels wired to each other, size 0. */
    constructor ()
      ensures Valid() && fresh(Repr)
      ensures Contents == [] && size == 0
      ensures first.next == last && last.prev == first
    {
      var head := new Node();
      var tail := new Node();
      head.next := tail;
      tail.prev := head;
      first, last, size := head, tail, 0;
      Nodes, Contents := [head, tail], [];
      Repr := {this, head, tail};
    }

    /** Drops every node: fresh sentinels wired to each other, size 0, as
        after `new_cstl_list`. */
    method Reset()
      modifies this
      ensures Valid() && fresh(Repr - {this})
      ensures Contents == [] && size == 0
    {
      var head := new Node();
      var tail := new Node();
      head.next := tail;
      tail.prev := head;
      first, last, size := head, tail, 0;
      Nodes, Contents := [head, tail], [];
      Repr := {this, head, tail};
    }

    /** `cstl_list_add`: links a fresh node holding `value` just before the
        tail sentinel and returns it. */
    method Add(value: T) returns (node: Node<T>)
      requires Valid()
      modifies Repr
      ensures Valid() && fresh(node) && Repr == old(Repr) + {node}
      ensures first == old(first) && last == old(last)
      ensures Nodes == old(Nodes[..|Nodes| - 1]) + [node, last]
      ensures Contents == old(Contents) + [value] && size == old(size) + 1
      ensures node.data == value && node.next == last
      ensures Back(this) == node
    {
      ghost var before := Nodes[|Nodes| - 2];
      assert last.prev == before;
      node := new Node();
      node.next := last;
      node.prev := last.prev;
      node.data := value;
      last.prev.next := node;
      last.prev := node;
      size := size + 1;
      Nodes := Nodes[..|Nodes| - 1] + [node, last];
      Contents := Contents + [value];
      Repr := Repr + {node};
    }

    /** `cstl_list_remove` on the user node at index `i` (the ghost
        parameter only names the position of `node`): relinks its neighbours,
        decrements `size` and returns the old successor, which is the tail
        sentinel when `node` was the last element. */
    method Remove(node: Node<T>, ghost i: nat) returns (result: Node?<T>)
      requires Valid() && i < size && node == Nodes[i + 1]
      modifies Repr
      ensures Valid() && Repr == old(Repr)
      ensures first == old(first) && last == old(last)
      ensures Nodes == old(Nodes[..i + 1] + Nodes[i + 2..])
      ensures Contents == old(Contents[..i] + Contents[i + 1..]) && size == old(size) - 1
      ensures result == old(Nodes[i + 2])
      ensures i == old(size) - 1 ==> result == last
    {
      assert node.prev == Nodes[i] && node.next == Nodes[i + 2];
      if node.prev != null {
        node.prev.next := node.next;
      }
      if node.next != null {
        node.next.prev := node.prev;
      }
      result := node.next;
      size := size - 1;
      Nodes := Nodes[..i + 1] + Nodes[i + 2..];
      Contents := Contents[..i] + Contents[i + 1..];
    }
  }

  /** `cstl_list_first`: the first user node, or null for a null or empty list. */
  function First<T(0)>(list: List?<T>): (r: Node?<T>)
    reads if list == null then {} else list.Repr
    requires list != null ==> list.Valid()
    ensures list == null || list.Contents == [] ==> r == null
    ensures list != null && list.Contents != [] ==> r == list.Nodes[1]
  {
    if list == null then null
    else if list.size == 0 then null
    else list.first.next
  }

  /** `cstl_list_last`: like `First`, it returns the node after the head
      sentinel, i.e. the FIRST user node, not the last one. */
  function Last<T(0)>(list: List?<T>): (r: Node?<T>)
    reads if list == null then {} else list.Repr
    requires list != null ==> list.Valid()
    ensures list == null || list.Contents == [] ==> r == null
    ensures list != null && list.Contents != [] ==> r == list.Nodes[1]
  {
    if list == null then null
    else if list.size == 0 then null
    else list.first.next
  }

  /** `cstl_list_front`: the first user node, or null for a null or empty list. */
  function Front<T(0)>(list: List?<T>): (r: Node?<T>)
    reads if list == null then {} else list.Repr
    requires list != null ==> list.Valid()
    ensures list == null || list.Contents == [] ==> r == null
    ensures list != null && list.Contents != [] ==> r == list.Nodes[1] && r.data == list.Contents[0]
  {
    if list == null then null
    else if list.size == 0 then null
    else list.first.next
  }

  /** `cstl_list_back`: the last user node, or null for a null or empty list. */
  function Back<T(0)>(list: List?<T>): (r: Node?<T>)
    reads if list == null then {} else list.Repr
    requires list != null ==> list.Valid()
    ensures list == null || list.Contents == [] ==> r == null
    ensures list != null && list.Contents != [] ==>
              r == list.Nodes[|list.Nodes| - 2] && r.data == list.Contents[|list.Contents| - 1]
  {
    if list == null then null
    else if list.size == 0 then null
    else list.last.prev
  }

  /** `cstl_list_size`: the number of elements, 0 for a null list. */
  function Size<T(0)>(list: List?<T>): (r: nat)
    reads if list == null then {} else list.Repr
    requires list != null ==> list.Valid()
    ensures r == if list == null then 0 else |list.Contents|
  {
    if list == null then 0 else list.size
  }

  /** `cstl_list_empty`: true exactly when the list is non-null and HAS
      elements (the name is inverted with respect to the result). */
  function Empty<T(0)>(list: List?<T>): (r: bool)
    reads if list == null then {} else list.Repr
    requires list != null ==> list.Valid()
    ensures r <==> list != null && list.Contents != []
  {
    if list == null then false
    else if list.size != 0 then true
    else false
  }

  /** `cstl_list_node_data`: the payload of a node. */
  function NodeData<T(0)>(node: Node<T>): T
    reads node
  {
    node.data
  }

  /** Reading a user node's payload yields the matching element of `Contents`. */
  lemma NodeDataIsElement<T(0)>(list: List<T>, i: nat)
    requires list.Valid() && i < list.size
    ensures NodeData(list.Nodes[i + 1]) == list.Contents[i]
  {
  }

  /** Because `Last` returns the first user node, it differs from `Back` on
      every list with at least two elements. */
  lemma LastIsNotBack<T(0)>(list: List<T>)
    requires list.Valid() && list.size >= 2
    ensures Last(list) == First(list) && Last(list) != Back(list)
  {
  }

  /** The loop of `cstl_list_clone`: walking `src` from its first user node
      up to (not including) the tail sentinel, append each payload to
      `dst`. Only `dst` and nodes it allocates are written. */
  method AppendAll<T(0)>(src: List<T>, dst: List<T>)
    requires src.Valid() && dst.Valid() && src.Repr !! dst.Repr
    modifies dst.Repr
    ensures dst.Valid() && fresh(dst.Repr - old(dst.Repr)) && src.Repr !! dst.Repr
    ensures dst.Contents == old(dst.Contents) + src.Contents
  {
    var node := First(src);
    if node != null {
      ghost var k := 1;
      while node.next != null
        invariant 1 <= k < |src.Nodes| && node == src.Nodes[k]
        invariant k < |src.Nodes| - 1 ==> node.next == src.Nodes[k + 1]
        invariant src.Valid() && dst.Valid()
        invariant fresh(dst.Repr - old(dst.Repr)) && src.Repr !! dst.Repr
        invariant dst.Contents == old(dst.Contents) + src.Contents[..k - 1]
        decreases |src.Nodes| - k
      {
        var added := dst.Add(node.data);
        assert src.Contents[..k] == src.Contents[..k - 1] + [src.Contents[k - 1]];
        node := node.next;
        k := k + 1;
      }
      assert src.Contents[..k - 1] == src.Contents;
    }
  }

  /** `cstl_list_clone`: null for null, otherwise a fresh list holding the
      same elements in the same order. It allocates every node it uses and
      writes to nothing that existed before, so the source is unchanged and
      the two lists share no node. */
  method Clone<T(0)>(list: List?<T>) returns (result: List?<T>)
    requires list != null ==> list.Valid()
    ensures (result == null) == (list == null)
    ensures result != null ==> result.Valid() && fresh(result.Repr)
    ensures result != null ==> result.Contents == list.Contents
  {
    if list == null {
      return null;
    }
    result := new List();
    AppendAll(list, result);
  }

  /** `cstl_list_copy`, as the in-place replacement its documentation
      promises: `dest` drops the nodes it held, gets two fresh sentinels and
      then takes a copy of every element of `src`; a null `src` leaves
      `dest` empty. The two lists must not share storage, since `dest` is
      released before `src` is read. */
  method Copy<T(0)>(src: List?<T>, dest: List<T>)
    requires src != null ==> src.Valid() && dest !in src.Repr
    modifies dest
    ensures dest.Valid() && fresh(dest.Repr - {dest})
    ensures dest.Contents == if src == null then [] else src.Contents
  {
    dest.Reset();
    if src != null {
      AppendAll(src, dest);
    }
  }

  /** `cstl_list_equals`: the same list, or lists of the same size whose
      payloads agree position by position under `==`. */
  method Equals<T(0, ==)>(l1: List?<T>, l2: List?<T>) returns (r: bool)
    requires (l1 == null) == (l2 == null)
    requires l1 != null ==> l1.Valid() && l2.Valid()
    ensures l1 == l2 ==> r
    ensures l1 != null && l1.size != l2.size ==> !r
    ensures r <==> l1 == null || l1.Contents == l2.Contents
  {
    if l1 == l2 {
      return true;
    }
    if l1.size != l2.size {
      return false;
    }
    if l1.size == 0 {
      return true;
    }
    var n1 := First(l1);
    var n2 := First(l2);
    ghost var k := 1;
    while n1.next != null
      invariant 1 <= k < |l1.Nodes| && n1 == l1.Nodes[k] && n2 == l2.Nodes[k]
      invariant k < |l1.Nodes| - 1 ==> n1.next == l1.Nodes[k + 1]
      invariant l1.Contents[..k - 1] == l2.Contents[..k - 1]
      decreases |l1.Nodes| - k
    {
      if n1.data != n2.data {
        assert l1.Contents[k - 1] != l2.Contents[k - 1];
        return false;
      }
      n1 := n1.next;
      n2 := n2.next;
      k := k + 1;
    }
    assert l1.Contents[..k - 1] == l1.Contents && l2.Contents[..k - 1] == l2.Contents;
    return true;
  }
}
