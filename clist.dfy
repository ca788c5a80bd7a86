/**
 * The doubly linked list of C/List.c (library v1.4, in the C directory).
 *
 * A list keeps `head`, `tail`, `size` and `cursor`, the iterator of
 * List_forEach. Element bytes become values of `T`; the zero-filled
 * buffer of calloc is the list's `zero` element. Nodes are found by the
 * recursive _list_node_find, which follows links without checking them
 * for null: a walk may end on the null just past either end, so the
 * indices size and -(size + 1) find nothing, and any index further out
 * is a dereference of null the model does not admit.
 *
 * List_pop as written moves `head` only for index 0 and `tail` only for
 * index -1, so popping the head or the tail through any other index, or
 * the only element through index -1, leaves an end on the freed node
 * (PopAsWritten, EndOnPoppedNode). List_popBack, List_popFront and the
 * trimming of List_resize go through it as written; the corrected Pop
 * states what the ends should do.
 */
module CList {
  import opened Common
  import opened DLink

  /** The node at position j, or null at the positions -1 and |nodes| just outside the chain. */
  ghost function Slot<T>(nodes: seq<Node<T>>, j: int): Node?<T>
  {
    if 0 <= j < |nodes| then nodes[j] else null
  }

  /**
   * _list_node_find: index 0 or -1 names `node` itself; any other index
   * takes one link, forward when positive and back when negative, and
   * moves one step towards zero. From position j the walk ends on
   * position j + index going forward and on j + index + 1 going back,
   * which may be the null just outside the chain; it never takes a link
   * out of null.
   */
  function NodeFind<T>(node: Node?<T>, index: int, ghost nodes: seq<Node<T>>, ghost j: int): (r: Node?<T>)
    requires Linked(nodes) && -1 <= j <= |nodes| && node == Slot(nodes, j)
    requires if index >= 0 then 0 <= j && j + index <= |nodes| else j < |nodes| && j + index + 1 >= -1
    reads nodes
    ensures r == Slot(nodes, Target(j, index))
    decreases if index >= 0 then index else -index
  {
    if index == 0 || index == -1 then node
    else if index < 0 then
      assert node.back == Slot(nodes, j - 1);
      NodeFind(node.back, index + 1, nodes, j - 1)
    else
      assert node.next == Slot(nodes, j + 1);
      NodeFind(node.next, index - 1, nodes, j + 1)
  }

  class List<T(0)> {
    var size: nat
    var head: Node?<T>
    var tail: Node?<T>
    /** iterator: the node List_forEach hands out next. */
    var cursor: Node?<T>
    /** data_size: element width in bytes. */
    const dataSize: nat
    /** The element calloc produces: all bytes zero. */
    const zero: T
    ghost var nodes: seq<Node<T>>
    ghost var contents: seq<T>
    /** Every node the list has allocated. */
    ghost var repr: set<Node<T>>

    /** The chain invariant; an empty list has no cursor node. */
    ghost predicate Valid()
      reads this, repr
    {
      && (forall k :: 0 <= k < |nodes| ==> nodes[k] in repr)
      && Chain(nodes, head, tail, contents)
      && size == |nodes|
      && (size == 0 ==> cursor == null)
    }

    /** The cursor stands on node k, or past the tail when k is the length. */
    ghost predicate CursorAt(k: nat)
      reads this
    {
      k <= |nodes| && cursor == CursorNode(nodes, k)
    }

    /** Store new ends, length and cursor; the chain they describe was built beforehand. */
    method SetState(h: Node?<T>, t: Node?<T>, n: nat, it: Node?<T>,
                    ghost ns: seq<Node<T>>, ghost cs: seq<T>, ghost r: set<Node<T>>)
      requires Chain(ns, h, t, cs) && n == |ns| && (n == 0 ==> it == null)
      requires forall k :: 0 <= k < |ns| ==> ns[k] in r
      modifies this
      ensures Valid()
      ensures head == h && tail == t && size == n && cursor == it
      ensures nodes == ns && contents == cs && repr == r
    {
      head, tail, size, cursor, nodes, contents, repr := h, t, n, it, ns, cs, r;
    }

    /**
     * _list_create: an empty list of `dataSize`-byte elements; when values
     * are given, List_pushArray pushes the first `initialSize` of them.
     */
    constructor (dataSize: nat, zeroValue: T, initialSize: nat, values: Option<seq<T>>)
      requires values.Some? ==> initialSize <= |values.value|
      ensures Valid() && fresh(repr) && CursorAt(0)
      ensures this.dataSize == dataSize && zero == zeroValue
      ensures contents == if values.Some? then values.value[..initialSize] else []
    {
      size := 0;
      head := null;
      tail := null;
      cursor := null;
      this.dataSize := dataSize;
      zero := zeroValue;
      nodes := [];
      contents := [];
      repr := {};
      new;
      if values.Some? {
        PushArray(values.value[..initialSize]);
      }
    }

    /**
     * _list_node_at: search from the head for index >= 0 and from the
     * tail otherwise. The node the index names, or null for size and
     * -(size + 1), one step past either end.
     */
    function NodeAt(index: int): (r: Node?<T>)
      requires Valid() && -(size as int) - 1 <= index <= size
      reads this, repr
      ensures InRange(index, size) ==> r == nodes[Pos(index, size)]
      ensures !InRange(index, size) ==> r == null
    {
      if index >= 0 then NodeFind(head, index, nodes, 0)
      else NodeFind(tail, index, nodes, size - 1)
    }

    /** _list_at: the element an in-range signed index names. */
    function At(index: int): (x: T)
      requires Valid() && InRange(index, size)
      reads this, repr
      ensures x == contents[Pos(index, size)]
    {
      NodeAt(index).data
    }

    /**
     * List_pushBack: a new node holding a copy of the item becomes the
     * tail; the first node of an empty list also becomes the cursor.
     */
    method PushBack(item: T)
      requires Valid()
      modifies this, repr
      ensures Valid() && fresh(repr - old(repr))
      ensures contents == old(contents) + [item]
      ensures old(size) == 0 ==> CursorAt(0)
      ensures old(size) > 0 ==> cursor == old(cursor)
      ensures forall k: nat :: k < old(size) && old(CursorAt(k)) ==> CursorAt(k)
    {
      var node := new Node(zero);
      node.data := item;
      var h, t := LinkBack(head, tail, nodes, contents, node);
      var it := if size == 0 then node else cursor;
      SetState(h, t, size + 1, it, nodes + [node], contents + [item], repr + {node});
    }

    /** List_pushFront: a new node holding a copy of the item becomes the head and the cursor. */
    method PushFront(item: T)
      requires Valid()
      modifies this, repr
      ensures Valid() && fresh(repr - old(repr))
      ensures contents == [item] + old(contents)
      ensures CursorAt(0)
    {
      var node := new Node(zero);
      node.data := item;
      var h, t := LinkFront(head, tail, nodes, contents, node);
      SetState(h, t, size + 1, node, [node] + nodes, [item] + contents, repr + {node});
    }

    /**
     * List_push: on an empty list, List_pushFront; otherwise the new
     * element goes before the one an index >= 0 names (taking over head
     * and cursor when that one is the head) and after the one a negative
     * index names. On a non-empty list the indices size and -(size + 1)
     * find no node, and a failed malloc of the new node (`!ok`) inserts
     * nothing: in both cases nothing changes.
     */
    method Push(index: int, item: T, ok: bool)
      requires Valid() && (size > 0 ==> -(size as int) - 1 <= index <= size)
      modifies this, repr
      ensures Valid() && fresh(repr - old(repr))
      ensures old(size) > 0 && (!ok || !InRange(index, old(size))) ==> unchanged(this)
      ensures contents == if old(size) == 0 then [item]
                          else if !ok || !InRange(index, old(size)) then old(contents)
                          else if index >= 0 then InsertAt(old(contents), Pos(index, old(size)), item)
                          else InsertAt(old(contents), Pos(index, old(size)) + 1, item)
      ensures if old(size) == 0 || (ok && index == 0) then CursorAt(0) else cursor == old(cursor)
    {
      if size == 0 {
        PushFront(item);
        return;
      }
      var oldNode := NodeAt(index);
      if oldNode == null || !ok {
        return;
      }
      if index >= 0 {
        InsertBefore(oldNode, Pos(index, size), item);
      } else {
        InsertAfter(oldNode, Pos(index, size), item);
      }
    }

    /** The splice of List_push for index >= 0: the new node goes before `at`, the node at position p. */
    method InsertBefore(at: Node<T>, ghost p: nat, x: T)
      requires Valid() && p < |nodes| && nodes[p] == at
      modifies this, repr
      ensures Valid() && fresh(repr - old(repr))
      ensures contents == InsertAt(old(contents), p, x)
      ensures if p == 0 then CursorAt(0) else cursor == old(cursor)
    {
      var node := new Node(x);
      assert at == head <==> p == 0 by {
        if p > 0 { assert nodes[0] != nodes[p]; }
      }
      var it := if at == head then node else cursor;
      var h, t := LinkBefore(head, tail, nodes, contents, p, at, node);
      SetState(h, t, size + 1, it, nodes[..p] + [node] + nodes[p..],
               contents[..p] + [x] + contents[p..], repr + {node});
    }

    /** The splice of List_push for index < 0: the new node goes after `at`, the node at position p. */
    method InsertAfter(at: Node<T>, ghost p: nat, x: T)
      requires Valid() && p < |nodes| && nodes[p] == at
      modifies this, repr
      ensures Valid() && fresh(repr - old(repr))
      ensures contents == InsertAt(old(contents), p + 1, x)
      ensures cursor == old(cursor)
    {
      var node := new Node(x);
      var h, t := LinkAfter(head, tail, nodes, contents, p, at, node);
      SetState(h, t, size + 1, cursor, nodes[..p + 1] + [node] + nodes[p + 1..],
               contents[..p + 1] + [x] + contents[p + 1..], repr + {node});
    }

    /**
     * List_pop as written. On an empty list: nothing. Index 0 pops the
     * head and moves head and cursor to its successor; index -1 pops the
     * tail and moves the tail back; any other index pops the node
     * _list_node_at finds and moves neither end; when it finds none (size
     * or -(size + 1)) nothing changes. The neighbours are linked past the
     * node in every case. Ends that are not moved may be left on the
     * popped node, so the list need not be valid afterwards.
     */
    method PopAsWritten(index: int) returns (r: Option<T>)
      requires Valid() && (size > 0 ==> -(size as int) - 1 <= index <= size)
      modifies this, repr
      ensures old(size) == 0 || !InRange(index, old(size)) ==> r == None && unchanged(this)
      ensures old(size) > 0 && InRange(index, old(size)) ==>
        var p := Pos(index, old(size));
        && r == Some(old(contents)[p]) && size == old(size) - 1
        && nodes == RemoveAt(old(nodes), p) && contents == RemoveAt(old(contents), p)
        && head == (if index == 0 then CursorNode(old(nodes), 1) else old(head))
        && tail == (if index == -1 then (if p > 0 then old(nodes)[p - 1] else null) else old(tail))
        && cursor == (if index == 0 then head else old(cursor))
      ensures repr == old(repr) && forall k :: 0 <= k < |nodes| ==> nodes[k] in repr
      ensures Chain(nodes, First(nodes), Last(nodes), contents)
    {
      if size == 0 {
        return None;
      }
      var n: Node<T>;
      if index == 0 {
        n := head;
        cursor, head := n.next, n.next;
      } else if index == -1 {
        n := tail;
        tail := n.back;
      } else {
        var found := NodeAt(index);
        if found == null {
          return None;
        }
        n := found;
      }
      ghost var p := Pos(index, old(size));
      var data := Release(n, p);
      r := Some(data);
    }

    /**
     * The common end of List_pop as written: count the node out and link
     * its neighbours past it; the ends and the cursor stay as they are.
     */
    method Release(n: Node<T>, ghost p: nat) returns (data: T)
      requires Chain(nodes, First(nodes), Last(nodes), contents) && size == |nodes|
      requires p < |nodes| && nodes[p] == n && forall k :: 0 <= k < |nodes| ==> nodes[k] in repr
      modifies this, repr
      ensures data == old(contents)[p] && size == old(size) - 1
      ensures nodes == RemoveAt(old(nodes), p) && contents == RemoveAt(old(contents), p)
      ensures head == old(head) && tail == old(tail) && cursor == old(cursor)
      ensures repr == old(repr) && Chain(nodes, First(nodes), Last(nodes), contents)
    {
      data := n.data;
      ghost var ns, cs := nodes[..p] + nodes[p + 1..], contents[..p] + contents[p + 1..];
      Detach(nodes, contents, p, n);
      size, nodes, contents := size - 1, ns, cs;
    }

    /**
     * List_pop, corrected: whichever index names the head or the tail,
     * that end moves past the popped node; popping the head puts the
     * cursor on the new head, and a cursor on any other popped node moves
     * on to the node after it. An index that finds no node changes nothing.
     */
    method Pop(index: int) returns (r: Option<T>)
      requires Valid() && (size > 0 ==> -(size as int) - 1 <= index <= size)
      modifies this, repr
      ensures Valid() && repr == old(repr)
      ensures old(size) == 0 || !InRange(index, old(size)) ==> r == None && unchanged(this)
      ensures old(size) > 0 && InRange(index, old(size)) ==>
        var p := Pos(index, old(size));
        && r == Some(old(contents)[p])
        && contents == RemoveAt(old(contents), p) && nodes == RemoveAt(old(nodes), p)
        && (if p == 0 then CursorAt(0) else cursor == Advanced(old(nodes), p, old(cursor)))
    {
      if size == 0 {
        return None;
      }
      var found := if index == 0 then head else if index == -1 then tail else NodeAt(index);
      if found == null {
        return None;
      }
      var n: Node<T> := found;
      ghost var i := Pos(index, size);
      assert n == head <==> i == 0 by {
        if i > 0 { assert nodes[0] != nodes[i]; }
      }
      var it := if n == head || n == cursor then n.next else cursor;
      var x := Unlink(n, i, it);
      r := Some(x);
    }

    /**
     * List_popBack: List_pop(-1) as written. The tail, if any, is popped
     * and `tail` moves back; `head` and the cursor stay, so popping the
     * only element leaves `head` on the freed node and the list invalid.
     */
    method PopBack() returns (r: Option<T>)
      requires Valid()
      modifies this, repr
      ensures repr == old(repr) && head == old(head) && cursor == old(cursor)
      ensures old(size) != 1 ==> Valid()
      ensures old(size) == 0 ==> r == None && contents == old(contents)
      ensures old(size) > 0 ==> r == Some(old(contents)[old(size) - 1]) && contents == old(contents)[..old(size) - 1]
      ensures old(size) > 0 ==> nodes == old(nodes)[..old(size) - 1]
      ensures old(size) == 1 ==> size == 0 && tail == null && head != null && !Valid()
    {
      r := PopAsWritten(-1);
      if old(size) == 1 {
        assert head == old(nodes)[0];
      }
    }

    /**
     * List_popFront: List_pop(0) as written. The head, if any, is popped
     * and `head` and the cursor move to its successor; `tail` stays, so
     * popping the only element leaves `tail` on the freed node and the
     * list invalid.
     */
    method PopFront() returns (r: Option<T>)
      requires Valid()
      modifies this, repr
      ensures repr == old(repr) && tail == old(tail)
      ensures old(size) != 1 ==> Valid()
      ensures old(size) == 0 ==> r == None && contents == old(contents)
      ensures old(size) > 0 ==> r == Some(old(contents)[0]) && contents == old(contents)[1..] && cursor == head
      ensures old(size) > 1 ==> CursorAt(0)
      ensures old(size) == 1 ==> size == 0 && head == null && tail != null && !Valid()
    {
      r := PopAsWritten(0);
    }

    /**
     * List_resize: grow with zero elements pushed at the back, or pop
     * from the tail. The count of either loop is an `int` computed from
     * unsigned sizes, so a difference of 2^31 or more wraps to a
     * non-positive count and nothing happens. Each removal from the tail
     * is List_pop(-1) as written, so removing the last element leaves
     * `head` on the freed node.
     */
    method Resize(newSize: nat)
      requires Valid() && newSize < UintModulus
      modifies this, repr
      ensures fresh(repr - old(repr))
      ensures var c := ToInt32(if old(size) < newSize then newSize - old(size) else old(size) - newSize);
        contents == if c <= 0 then old(contents)
                    else if old(size) < newSize then old(contents) + Zeros(c, zero)
                    else old(contents)[..old(size) - c]
      ensures |contents| > 0 || old(size) == 0 ==> Valid()
      ensures old(size) > 0 && contents == [] ==> size == 0 && head == old(head) && tail == null && !Valid()
      ensures old(size) >= newSize ==> cursor == old(cursor)
      ensures old(size) == 0 ==> CursorAt(0)
      ensures old(size) > 0 && old(size) <= newSize ==> cursor == old(cursor)
      ensures old(size) <= newSize ==> forall k: nat :: k < old(size) && old(CursorAt(k)) ==> CursorAt(k)
    {
      if size < newSize {
        var count := ToInt32(newSize - size);
        ghost var m := if count > 0 then count else 0;
        ghost var added := Zeros(m, zero);
        var i := 0;
        while i < count
          invariant 0 <= i <= m
          invariant Valid() && fresh(repr - old(repr))
          invariant contents == old(contents) + added[..i]
          invariant old(size) == 0 ==> CursorAt(0)
          invariant old(size) > 0 ==> cursor == old(cursor)
          invariant forall k: nat :: k < old(size) && old(CursorAt(k)) ==> CursorAt(k)
        {
          PushBack(zero);
          assert added[..i + 1] == added[..i] + [zero];
          i := i + 1;
        }
        assert added[..i] == added;
      } else {
        var count := ToInt32(size - newSize);
        ghost var m := if count > 0 then count else 0;
        var i := 0;
        while i < count
          invariant 0 <= i <= m <= old(size)
          invariant repr == old(repr) && size == old(size) - i
          invariant head == old(head) && cursor == old(cursor)
          invariant contents == old(contents)[..size]
          invariant i == 0 ==> forall k: nat :: k < old(size) && old(CursorAt(k)) ==> CursorAt(k)
          invariant size > 0 || i == 0 ==> Valid()
          invariant size == 0 && i > 0 ==> tail == null && !Valid()
          invariant old(size) == 0 ==> CursorAt(0)
        {
          var _ := PopBack();
          i := i + 1;
        }
      }
    }

    /**
     * List_forEach: hand out the data of the cursor node and step to the
     * next one; past the tail, rewind to the head and hand out nothing.
     */
    method ForEach() returns (x: Option<T>)
      requires Valid()
      modifies this
      ensures Valid() && unchanged(`nodes, `contents, `repr, `head, `tail, `size)
      ensures old(cursor) == null ==> x == None && CursorAt(0)
      ensures old(cursor) != null ==> x == Some(old(cursor.data)) && cursor == old(cursor.next)
      ensures forall k :: 0 <= k < |nodes| && old(cursor) == nodes[k] ==> x == Some(contents[k]) && CursorAt(k + 1)
    {
      if cursor != null {
        x := Some(cursor.data);
        SetState(head, tail, size, cursor.next, nodes, contents, repr);
      } else {
        x := None;
        SetState(head, tail, size, head, nodes, contents, repr);
      }
    }

    /** List_pushArray: push the values at the back, in order. */
    method PushArray(values: seq<T>)
      requires Valid()
      modifies this, repr
      ensures Valid() && fresh(repr - old(repr))
      ensures contents == old(contents) + values
      ensures old(size) == 0 ==> CursorAt(0)
      ensures old(size) > 0 ==> cursor == old(cursor)
    {
      var i := 0;
      while i < |values|
        invariant 0 <= i <= |values|
        invariant Valid() && fresh(repr - old(repr))
        invariant contents == old(contents) + values[..i]
        invariant old(size) == 0 ==> CursorAt(0)
        invariant old(size) > 0 ==> cursor == old(cursor)
      {
        PushBack(values[i]);
        ExtendSlice(old(contents), values, 0, i);
        i := i + 1;
      }
      assert values[..i] == values;
    }

    /** List_toArray: a new array holding the elements, head first. */
    method ToArray() returns (a: array<T>)
      requires Valid()
      ensures fresh(a) && a[..] == contents
    {
      a := new T[size](_ => zero);
      var n := head;
      var i := 0;
      while i < size
        invariant 0 <= i <= size
        invariant n == CursorNode(nodes, i)
        invariant forall k :: 0 <= k < i ==> a[k] == contents[k]
      {
        a[i] := n.data;
        n := n.next;
        i := i + 1;
      }
    }

    /**
     * The unlinking of the corrected List_pop: move `head` or `tail` past
     * the node at position i when it is an end, detach it and install the
     * cursor `it`.
     */
    method Unlink(n: Node<T>, ghost i: nat, it: Node?<T>) returns (x: T)
      requires Valid() && i < |nodes| && nodes[i] == n
      requires it == (if n == head || n == cursor then n.next else cursor)
      modifies this, repr
      ensures Valid() && repr == old(repr)
      ensures x == old(contents)[i]
      ensures contents == RemoveAt(old(contents), i) && nodes == RemoveAt(old(nodes), i)
      ensures cursor == it
    {
      assert n == tail <==> i == |nodes| - 1 by {
        if i < |nodes| - 1 { assert nodes[|nodes| - 1] != nodes[i]; }
      }
      var t := if n == tail then n.back else tail;
      var h := if n == head then n.next else head;
      x := n.data;
      Detach(nodes, contents, i, n);
      SetState(h, t, size - 1, it, nodes[..i] + nodes[i + 1..], contents[..i] + contents[i + 1..], repr);
    }
  }

  /**
   * An end left on the popped node breaks the chain invariant: whatever
   * the other end, `head` must be the first remaining node and `tail`
   * the last, and the popped node is none of them.
   */
  lemma EndOnPoppedNode<T>(nodes: seq<Node<T>>, p: nat, h: Node?<T>, t: Node?<T>, contents: seq<T>)
    requires Distinct(nodes) && p < |nodes|
    requires (p == 0 && h == nodes[0]) || (p == |nodes| - 1 && t == nodes[p])
    ensures !Chain(RemoveAt(nodes, p), h, t, contents)
  {
    var rest := RemoveAt(nodes, p);
    if |rest| > 0 {
      if p == 0 && h == nodes[0] {
        assert rest[0] == nodes[1] && nodes[1] != nodes[0];
      } else {
        assert rest[|rest| - 1] == nodes[p - 1] && nodes[p - 1] != nodes[p];
      }
    }
  }

  /**
   * List_pop as written on [1, 2, 3] with index 2, the tail named by a
   * non-negative index: the element goes, but `tail` stays on the freed
   * node, so the list no longer satisfies its invariant.
   */
  method TailPopScenario() returns (list: List<int>, popped: Node<int>, r: Option<int>)
    ensures r == Some(3) && list.contents == [1, 2]
    ensures list.tail == popped && popped !in list.nodes && !list.Valid()
  {
    list := new List(4, 0, 3, Some([1, 2, 3]));
    popped := list.NodeAt(2);
    ghost var nodes := list.nodes;
    r := list.PopAsWritten(2);
    EndOnPoppedNode(nodes, 2, list.head, popped, list.contents);
  }

  /**
   * List_pop as written on [7] with index -1: the list is empty, yet
   * `head` and the cursor stay on the freed node, where the next
   * List_forEach would read.
   */
  method SinglePopBackScenario() returns (list: List<int>, popped: Node<int>, r: Option<int>)
    ensures r == Some(7) && list.contents == [] && list.size == 0
    ensures list.head == popped && list.cursor == popped
  {
    list := new List(4, 0, 1, Some([7]));
    popped := list.NodeAt(0);
    r := list.PopAsWritten(-1);
  }

  /** The corrected List_pop of index 2 from [1, 2, 3] keeps the list valid. */
  method TailPopCorrected() returns (list: List<int>, r: Option<int>)
    ensures r == Some(3) && list.Valid() && list.contents == [1, 2]
  {
    list := new List(4, 0, 3, Some([1, 2, 3]));
    r := list.Pop(2);
  }

  /** The corrected List_pop of index -1 from [7] empties the list, ends and cursor included. */
  method SinglePopBackCorrected() returns (list: List<int>, r: Option<int>)
    ensures r == Some(7) && list.Valid() && list.contents == []
    ensures list.head == null && list.tail == null && list.cursor == null
  {
    list := new List(4, 0, 1, Some([7]));
    r := list.Pop(-1);
  }

  /** List_toArray after List_pushArray onto an empty list gives the pushed values back. */
  method ArrayRoundTrip(values: seq<int>) returns (a: array<int>)
    ensures a[..] == values
  {
    var list := new List(4, 0, 0, None);
    list.PushArray(values);
    a := list.ToArray();
  }

  /** List_forEach over [1, 2] hands out 1, then 2, then nothing, and starts over with 1. */
  method ForEachScenario() returns (x1: Option<int>, x2: Option<int>, x3: Option<int>, x4: Option<int>)
    ensures x1 == Some(1) && x2 == Some(2) && x3 == None && x4 == Some(1)
  {
    var list := new List(4, 0, 2, Some([1, 2]));
    x1 := list.ForEach();
    x2 := list.ForEach();
    x3 := list.ForEach();
    x4 := list.ForEach();
  }

  /** List_push at index 1 and at index -1 of [1, 3], and on an empty list. */
  method PushScenario() returns (a: seq<int>)
    ensures a == [1, 2, 3, 4]
  {
    var list := new List(4, 0, 2, Some([1, 3]));
    list.Push(1, 2, true);
    list.Push(-1, 4, true);
    var x := list.ToArray();
    a := x[..];
  }

  /** List_push on an empty list is List_pushFront, whatever the index. */
  method PushEmptyScenario() returns (a: seq<int>)
    ensures a == [5]
  {
    var empty := new List(4, 0, 0, None);
    empty.Push(3, 5, true);
    var x := empty.ToArray();
    a := x[..];
  }

  /**
   * One step past either end of [1, 2], at 2 and at -3, List_push finds
   * no node and inserts nothing, and List_pop returns NULL.
   */
  method BoundaryScenario() returns (a: seq<int>, r: Option<int>, q: Option<int>)
    ensures a == [1, 2] && r == None && q == None
  {
    var list := new List(4, 0, 2, Some([1, 2]));
    list.Push(2, 9, true);
    list.Push(-3, 9, true);
    r := list.PopAsWritten(2);
    q := list.PopAsWritten(-3);
    var x := list.ToArray();
    a := x[..];
  }
}
