/**
 * The header-only list of C/List.h: a `List` of `head`, `tail`, `size`
 * and `data_size`, functions that push or pop one node at either end, and
 * the push_back/push_front/pop_back/pop_front macros around them.
 *
 * Whether malloc succeeds is the parameter `ok`; the bytes of a fresh
 * data buffer are unspecified, and the model stores the list's `zero`
 * there until a macro writes the value. del_node is DLink.Detach.
 */
module CListH {
  import opened Common
  import opened DLink

  /** new_node: a detached node, or null when malloc fails. */
  method NewNode<T>(zero: T, ok: bool) returns (n: Node?<T>)
    ensures ok ==> n != null && fresh(n) && n.next == null && n.back == null && n.data == zero
    ensures !ok ==> n == null
  {
    if ok {
      n := new Node(zero);
    } else {
      n := null;
    }
  }

  class List<T(0)> {
    var head: Node?<T>
    var tail: Node?<T>
    var size: nat
    /** data_size: element width in bytes. */
    const dataSize: nat
    /** What the model stores in a data buffer nobody has written. */
    const zero: T
    ghost var nodes: seq<Node<T>>
    ghost var contents: seq<T>
    /** Every node the list has allocated. */
    ghost var repr: set<Node<T>>

    ghost predicate Valid()
      reads this, repr
    {
      && (forall k :: 0 <= k < |nodes| ==> nodes[k] in repr)
      && Chain(nodes, head, tail, contents)
      && size == |nodes|
    }

    /** Store new ends and length; the chain they describe was built beforehand. */
    method SetState(h: Node?<T>, t: Node?<T>, n: nat,
                    ghost ns: seq<Node<T>>, ghost cs: seq<T>, ghost r: set<Node<T>>)
      requires Chain(ns, h, t, cs) && n == |ns|
      requires forall k :: 0 <= k < |ns| ==> ns[k] in r
      modifies this
      ensures Valid()
      ensures head == h && tail == t && size == n
      ensures nodes == ns && contents == cs && repr == r
    {
      head, tail, size, nodes, contents, repr := h, t, n, ns, cs, r;
    }

    /** ListCreate: an empty list of `dataSize`-byte elements. */
    constructor (dataSize: nat, zeroValue: T)
      ensures Valid() && fresh(repr) && contents == []
      ensures this.dataSize == dataSize && zero == zeroValue
    {
      head, tail, size := null, null, 0;
      this.dataSize := dataSize;
      zero := zeroValue;
      nodes, contents, repr := [], [], {};
    }

    /**
     * internal_push_back: a new node becomes the tail, linked after the
     * old tail (or the head of an empty list); its node is returned for
     * the caller to write. When malloc fails: null, and nothing changes.
     */
    method InternalPushBack(ok: bool) returns (r: Node?<T>)
      requires Valid()
      modifies this, repr
      ensures Valid() && fresh(repr - old(repr))
      ensures !ok ==> r == null && contents == old(contents) && head == old(head) && tail == old(tail)
      ensures ok ==> && r != null && r == tail
                     && contents == old(contents) + [zero]
                     && head == (if old(size) == 0 then r else old(head))
    {
      r := NewNode(zero, ok);
      if r == null {
        return;
      }
      var h, t := LinkBack(head, tail, nodes, contents, r);
      SetState(h, t, size + 1, nodes + [r], contents + [zero], repr + {r});
    }

    /** internal_push_front: the mirror image at the head. */
    method InternalPushFront(ok: bool) returns (r: Node?<T>)
      requires Valid()
      modifies this, repr
      ensures Valid() && fresh(repr - old(repr))
      ensures !ok ==> r == null && contents == old(contents) && head == old(head) && tail == old(tail)
      ensures ok ==> && r != null && r == head
                     && contents == [zero] + old(contents)
                     && tail == (if old(size) == 0 then r else old(tail))
    {
      r := NewNode(zero, ok);
      if r == null {
        return;
      }
      var h, t := LinkFront(head, tail, nodes, contents, r);
      SetState(h, t, size + 1, [r] + nodes, [zero] + contents, repr + {r});
    }

    /**
     * internal_pop_back: on an empty list, null; otherwise a new detached
     * node carrying the tail's data, the tail unlinked, and both ends null
     * when it was the only node.
     */
    method InternalPopBack() returns (r: Node?<T>)
      requires Valid()
      modifies this, repr
      ensures Valid() && repr == old(repr)
      ensures old(size) == 0 ==> r == null && contents == old(contents)
      ensures old(size) > 0 ==> && r != null && fresh(r) && r.next == null && r.back == null
                                && r.data == old(contents)[old(size) - 1]
                                && contents == old(contents)[..old(size) - 1]
      ensures old(size) == 1 ==> head == null && tail == null
    {
      if size == 0 {
        return null;
      }
      r := new Node(tail.data);
      var _ := Unlink(tail, size - 1);
    }

    /** internal_pop_front: the mirror image at the head. */
    method InternalPopFront() returns (r: Node?<T>)
      requires Valid()
      modifies this, repr
      ensures Valid() && repr == old(repr)
      ensures old(size) == 0 ==> r == null && contents == old(contents)
      ensures old(size) > 0 ==> && r != null && fresh(r) && r.next == null && r.back == null
                                && r.data == old(contents)[0]
                                && contents == old(contents)[1..]
      ensures old(size) == 1 ==> head == null && tail == null
    {
      if size == 0 {
        return null;
      }
      r := new Node(head.data);
      var _ := Unlink(head, 0);
    }

    /**
     * del_node on node i, with the list's ends moved past it when it is
     * one of them (both become null when it was the only node).
     */
    method Unlink(n: Node<T>, ghost i: nat) returns (x: T)
      requires Valid() && i < |nodes| && nodes[i] == n
      modifies this, repr
      ensures Valid() && repr == old(repr)
      ensures x == old(contents)[i]
      ensures contents == RemoveAt(old(contents), i) && nodes == RemoveAt(old(nodes), i)
    {
      assert n == tail <==> i == |nodes| - 1 by {
        if i < |nodes| - 1 { assert nodes[|nodes| - 1] != nodes[i]; }
      }
      assert n == head <==> i == 0 by {
        if i > 0 { assert nodes[0] != nodes[i]; }
      }
      var t := if n == tail then n.back else tail;
      var h := if n == head then n.next else head;
      x := n.data;
      Detach(nodes, contents, i, n);
      SetState(h, t, size - 1, nodes[..i] + nodes[i + 1..], contents[..i] + contents[i + 1..], repr);
    }

    /** The store the push macros make through the returned pointer: node i now holds `x`. */
    method Store(n: Node<T>, ghost i: nat, x: T)
      requires Valid() && i < |nodes| && nodes[i] == n
      modifies this, n
      ensures Valid() && repr == old(repr) && head == old(head) && tail == old(tail)
      ensures contents == old(contents)[i := x]
    {
      n.data := x;
      forall k | 0 <= k < |nodes| && k != i
        ensures nodes[k].data == contents[k]
      {
        assert nodes[k] != nodes[i];
      }
      SetState(head, tail, size, nodes, contents[i := x], repr);
    }

    /** push_back: internal_push_back, then the value written into the new tail. */
    method PushBack(value: T, ok: bool)
      requires Valid()
      modifies this, repr
      ensures Valid() && fresh(repr - old(repr))
      ensures contents == if ok then old(contents) + [value] else old(contents)
    {
      var r := InternalPushBack(ok);
      if r != null {
        Store(r, size - 1, value);
      }
    }

    /** push_front: internal_push_front, then the value written into the new head. */
    method PushFront(value: T, ok: bool)
      requires Valid()
      modifies this, repr
      ensures Valid() && fresh(repr - old(repr))
      ensures contents == if ok then [value] + old(contents) else old(contents)
    {
      var r := InternalPushFront(ok);
      if r != null {
        Store(r, 0, value);
      }
    }

    /** pop_back: the tail's value, or zero when the list is empty. */
    method PopBack() returns (x: T)
      requires Valid()
      modifies this, repr
      ensures Valid() && repr == old(repr)
      ensures old(size) == 0 ==> x == zero && contents == old(contents)
      ensures old(size) > 0 ==> x == old(contents)[old(size) - 1] && contents == old(contents)[..old(size) - 1]
    {
      x := zero;
      var n := InternalPopBack();
      if n != null {
        x := n.data;
      }
    }

    /** pop_front: the head's value, or zero when the list is empty. */
    method PopFront() returns (x: T)
      requires Valid()
      modifies this, repr
      ensures Valid() && repr == old(repr)
      ensures old(size) == 0 ==> x == zero && contents == old(contents)
      ensures old(size) > 0 ==> x == old(contents)[0] && contents == old(contents)[1..]
    {
      x := zero;
      var n := InternalPopFront();
      if n != null {
        x := n.data;
      }
    }
  }

  /**
   * Pushes at both ends keep the order of the values, and pops hand them
   * back from the matching end: [0, 1, 2] gives 2 from the back and 0
   * from the front; popping an empty list gives zero.
   */
  method EndsScenario() returns (b: int, f: int, rest: int, e: int)
    ensures b == 2 && f == 0 && rest == 1 && e == 0
  {
    var list := new List(4, 0);
    list.PushBack(1, true);
    list.PushBack(2, true);
    list.PushFront(0, true);
    b := list.PopBack();
    f := list.PopFront();
    rest := list.PopBack();
    var empty := new List(4, 0);
    e := empty.PopBack();
  }

  /** A push whose malloc fails leaves the list as it was. */
  method FailedPushScenario() returns (n: nat, x: int)
    ensures n == 1 && x == 1
  {
    var list := new List(4, 0);
    list.PushBack(1, true);
    list.PushFront(5, false);
    list.PushBack(6, false);
    n := list.size;
    x := list.PopFront();
  }
}
