/**
 * The doubly linked list of list.c (library v1.4).
 *
 * Besides `size`, `head`, `tail` and the last popped node `pop`, a list
 * keeps a `cursor`: the cursor of list_for_each, which hands out one
 * element per call and rewinds to the head after the last one. The
 * cursor is described by `CursorAt(k)`: it stands on node k, or it is
 * null and k is the length. Element bytes become values of `T`; a node
 * whose data was not copied in holds the list's `zero` element.
 *
 * list_pop as written leaves the cursor on the node it detaches when that
 * node is not the head (PopAsWritten). list_pop_back, list_pop_front,
 * list_remove and the trimming loop of list_resize go through it as
 * written; the corrected Pop, which moves the cursor past the detached
 * node, states what they should do. list_copy as written copies from the
 * cursor on (Copy), and so does list_sublist; the corrected CopyAll
 * rewinds first.
 */
module RootList {
  import opened Common
  import opened DLink

  class List<T(0)> {
    var size: nat
    var head: Node?<T>
    var tail: Node?<T>
    /** internal.iterator: the node list_for_each hands out next. */
    var cursor: Node?<T>
    /** internal.pop: the node detached by the last pop. */
    var pop: Node?<T>
    /** internal.data_size; element width in bytes. */
    const dataSize: nat
    /** The element calloc produces: all bytes zero. */
    const zero: T
    ghost var nodes: seq<Node<T>>
    ghost var contents: seq<T>
    /** Every node the list has allocated. */
    ghost var repr: set<Node<T>>

    /** The chain invariant; an empty list has no cursor node. */
    ghost predicate Valid()
      reads this, repr
    {
      && (forall k :: 0 <= k < |nodes| ==> nodes[k] in repr)
      && Chain(nodes, head, tail, contents)
      && size == |nodes|
      && (size == 0 ==> cursor == null)
    }

    /** The cursor stands on node k, or past the tail when k is the length. */
    ghost predicate CursorAt(k: nat)
      reads this
    {
      k <= |nodes| && cursor == CursorNode(nodes, k)
    }

    /**
     * Store new ends, length, cursor and popped node; the chain they
     * describe was built beforehand.
     */
    method SetState(h: Node?<T>, t: Node?<T>, n: nat, it: Node?<T>, p: Node?<T>,
                    ghost ns: seq<Node<T>>, ghost cs: seq<T>, ghost r: set<Node<T>>)
      requires Chain(ns, h, t, cs) && n == |ns| && (n == 0 ==> it == null)
      requires forall k :: 0 <= k < |ns| ==> ns[k] in r
      modifies this
      ensures Valid()
      ensures head == h && tail == t && size == n && cursor == it && pop == p
      ensures nodes == ns && contents == cs && repr == r
    {
      head, tail, size, cursor, pop, nodes, contents, repr := h, t, n, it, p, ns, cs, r;
    }

    /**
     * _list_create: an empty list of `dataSize`-byte elements, then the
     * initial values pushed as an array, or zeros through list_resize,
     * whose `unsigned int` parameter takes `initialSize` modulo 2^32 and
     * whose `int` count is negative, adding nothing, from 2^31 on.
     */
    constructor (dataSize: nat, zeroValue: T, initialSize: nat, initialValues: Option<seq<T>>)
      requires initialValues.Some? ==> |initialValues.value| == initialSize
      ensures Valid() && fresh(repr) && CursorAt(0)
      ensures this.dataSize == dataSize && zero == zeroValue && pop == null
      ensures contents == if initialValues.Some? then initialValues.value
                          else var m := initialSize % UintModulus;
                            if m >= 0x8000_0000 then [] else Zeros(m, zeroValue)
    {
      size := 0;
      head := null;
      tail := null;
      cursor := null;
      pop := null;
      this.dataSize := dataSize;
      zero := zeroValue;
      nodes := [];
      contents := [];
      repr := {};
      new;
      if initialValues.Some? {
        PushArray(initialValues.value);
      } else if initialSize > 0 {
        var m := initialSize % UintModulus;
        Resize(m);
        assert [] + Zeros(m, zeroValue) == Zeros(m, zeroValue);
      }
    }

    /**
     * _list_node_at / _list_find: walk from the head for index >= 0 and
     * from the tail for index < 0; null when the index names no element.
     */
    method NodeAt(index: int) returns (r: Node?<T>)
      requires Valid()
      ensures r == (if InRange(index, size) then nodes[Pos(index, size)] else null)
    {
      if index < 0 {
        r := Find(nodes, |nodes| - 1, tail, index);
      } else {
        r := Find(nodes, 0, head, index);
      }
    }

    /** list_at: the element an in-range signed index names. */
    method At(index: int) returns (x: T)
      requires Valid() && InRange(index, size)
      ensures x == contents[Pos(index, size)]
    {
      var node := NodeAt(index);
      x := node.data;
    }

    /**
     * list_push_back: a new node holding the item (zero without one)
     * becomes the tail; the first node of an empty list also becomes the
     * cursor.
     */
    method PushBack(item: Option<T>)
      requires Valid()
      modifies this, repr
      ensures Valid() && pop == old(pop) && old(repr) <= repr && fresh(repr - old(repr))
      ensures contents == old(contents) + [if item.Some? then item.value else zero]
      ensures old(size) == 0 ==> CursorAt(0)
      ensures old(size) > 0 ==> cursor == old(cursor)
      ensures forall k: nat :: k < old(size) && old(CursorAt(k)) ==> CursorAt(k)
    {
      var node := new Node(zero);
      if item.Some? {
        node.data := item.value;
      }
      var h, t := LinkBack(head, tail, nodes, contents, node);
      var it := if size == 0 then node else cursor;
      SetState(h, t, size + 1, it, pop, nodes + [node], contents + [node.data], repr + {node});
    }

    /** list_push_front: a new node holding the item becomes the head and the cursor. */
    method PushFront(item: Option<T>)
      requires Valid()
      modifies this, repr
      ensures Valid() && pop == old(pop) && fresh(repr - old(repr))
      ensures contents == [if item.Some? then item.value else zero] + old(contents)
      ensures CursorAt(0)
    {
      var node := new Node(zero);
      if item.Some? {
        node.data := item.value;
      }
      var h, t := LinkFront(head, tail, nodes, contents, node);
      SetState(h, t, size + 1, node, pop, [node] + nodes, [node.data] + contents, repr + {node});
    }

    /**
     * list_push: a new element goes before the one an index >= 0 names
     * (taking over head and cursor when that one is the head) and after
     * the one a negative index names; nothing happens when the index
     * names no element.
     */
    method Push(index: int, item: Option<T>)
      requires Valid()
      modifies this, repr
      ensures Valid() && pop == old(pop) && fresh(repr - old(repr))
      ensures var x := if item.Some? then item.value else zero;
        contents == if !InRange(index, old(size)) then old(contents)
                    else if index >= 0 then InsertAt(old(contents), Pos(index, old(size)), x)
                    else InsertAt(old(contents), Pos(index, old(size)) + 1, x)
      ensures if index == 0 && old(size) > 0 then CursorAt(0) else cursor == old(cursor)
    {
      var oldNode := NodeAt(index);
      if oldNode == null {
        return;
      }
      var x := if item.Some? then item.value else zero;
      if index >= 0 {
        InsertBefore(oldNode, Pos(index, size), x);
      } else {
        InsertAfter(oldNode, Pos(index, size), x);
      }
    }

    /** The splice of list_push for index >= 0: the new node goes before `at`, the node at position p. */
    method InsertBefore(at: Node<T>, ghost p: nat, x: T)
      requires Valid() && p < |nodes| && nodes[p] == at
      modifies this, repr
      ensures Valid() && pop == old(pop) && fresh(repr - old(repr))
      ensures contents == InsertAt(old(contents), p, x)
      ensures if p == 0 then CursorAt(0) else cursor == old(cursor)
    {
      var node := new Node(x);
      assert at == head <==> p == 0 by {
        if p > 0 { assert nodes[0] != nodes[p]; }
      }
      var it := if at == head then node else cursor;
      var h, t := LinkBefore(head, tail, nodes, contents, p, at, node);
      SetState(h, t, size + 1, it, pop, nodes[..p] + [node] + nodes[p..],
               contents[..p] + [x] + contents[p..], repr + {node});
    }

    /** The splice of list_push for index < 0: the new node goes after `at`, the node at position p. */
    method InsertAfter(at: Node<T>, ghost p: nat, x: T)
      requires Valid() && p < |nodes| && nodes[p] == at
      modifies this, repr
      ensures Valid() && pop == old(pop) && fresh(repr - old(repr))
      ensures contents == InsertAt(old(contents), p + 1, x)
      ensures cursor == old(cursor)
    {
      var node := new Node(x);
      var h, t := LinkAfter(head, tail, nodes, contents, p, at, node);
      SetState(h, t, size + 1, cursor, pop, nodes[..p + 1] + [node] + nodes[p + 1..],
               contents[..p + 1] + [x] + contents[p + 1..], repr + {node});
    }

    /**
     * list_pop as written: unlink the node an index names and return its
     * data, or None when the index names no element. Popping the head
     * moves the cursor to the new head; any other pop leaves the cursor
     * where it was, even when it stands on the popped node.
     */
    method PopAsWritten(index: int) returns (r: Option<T>)
      requires Valid()
      modifies this, repr
      ensures Valid() && repr == old(repr)
      ensures !InRange(index, old(size)) ==> r == None && contents == old(contents) && cursor == old(cursor)
      ensures InRange(index, old(size)) ==>
        var p := Pos(index, old(size));
        && r == Some(old(contents)[p]) && pop == old(nodes)[p] && pop.data == old(contents)[p]
        && contents == RemoveAt(old(contents), p) && nodes == RemoveAt(old(nodes), p)
        && (if p == 0 then CursorAt(0) else cursor == old(cursor))
    {
      var n := NodeAt(index);
      if n == null {
        return None;
      }
      ghost var i := Pos(index, size);
      assert n == head <==> i == 0 by {
        if i > 0 { assert nodes[0] != nodes[i]; }
      }
      var it := if n == head then n.next else cursor;
      var x := Unlink(n, i, it);
      r := Some(x);
    }

    /**
     * list_pop, corrected: as written, except that a cursor standing on
     * the popped node moves on to the node after it (see PopKeepsCursor).
     */
    method Pop(index: int) returns (r: Option<T>)
      requires Valid()
      modifies this, repr
      ensures Valid() && repr == old(repr)
      ensures !InRange(index, old(size)) ==> r == None && contents == old(contents) && cursor == old(cursor)
      ensures InRange(index, old(size)) ==>
        var p := Pos(index, old(size));
        && r == Some(old(contents)[p])
        && contents == RemoveAt(old(contents), p) && nodes == RemoveAt(old(nodes), p)
        && (if p == 0 then CursorAt(0) else cursor == Advanced(old(nodes), p, old(cursor)))
    {
      var n := NodeAt(index);
      if n == null {
        return None;
      }
      ghost var i := Pos(index, size);
      assert n == head <==> i == 0 by {
        if i > 0 { assert nodes[0] != nodes[i]; }
      }
      var it := if n == head || n == cursor then n.next else cursor;
      var x := Unlink(n, i, it);
      r := Some(x);
    }

    /**
     * list_pop_back: pop the tail, if any, through list_pop as written. The
     * cursor stays where it was, on the detached tail if it stood there,
     * unless the list had one element.
     */
    method PopBack() returns (r: Option<T>)
      requires Valid()
      modifies this, repr
      ensures Valid() && repr == old(repr)
      ensures old(size) == 0 ==> r == None && contents == old(contents) && cursor == old(cursor)
      ensures old(size) > 0 ==> r == Some(old(contents)[old(size) - 1]) && contents == old(contents)[..old(size) - 1]
      ensures old(size) > 0 ==> pop == old(nodes)[old(size) - 1]
      ensures old(size) > 1 ==> cursor == old(cursor)
      ensures old(size) == 1 ==> cursor == null
    {
      r := PopAsWritten(-1);
    }

    /** list_pop_front: pop the head, if any; the cursor goes to the new head. */
    method PopFront() returns (r: Option<T>)
      requires Valid()
      modifies this, repr
      ensures Valid() && repr == old(repr)
      ensures old(size) == 0 ==> r == None && contents == old(contents)
      ensures old(size) > 0 ==> r == Some(old(contents)[0]) && contents == old(contents)[1..] && CursorAt(0)
    {
      r := PopAsWritten(0);
    }

    /**
     * list_remove: list_pop as written, the result dropped. Removing the
     * head puts the cursor on the new head; any other removal leaves it
     * where it was, even on the removed node.
     */
    method Remove(index: int)
      requires Valid()
      modifies this, repr
      ensures Valid() && repr == old(repr)
      ensures contents == if InRange(index, old(size)) then RemoveAt(old(contents), Pos(index, old(size))) else old(contents)
      ensures InRange(index, old(size)) ==>
        var p := Pos(index, old(size));
        && nodes == RemoveAt(old(nodes), p) && pop == old(nodes)[p]
        && if p == 0 then CursorAt(0) else cursor == old(cursor)
      ensures !InRange(index, old(size)) ==> cursor == old(cursor)
    {
      var _ := PopAsWritten(index);
    }

    /**
     * list_resize: grow with zero elements pushed at the back, or remove
     * from the tail. The count of either loop is an `int` computed from
     * unsigned sizes, so a difference of 2^31 or more wraps to a
     * non-positive count and nothing happens.
     */
    method Resize(newSize: nat)
      requires Valid() && newSize < UintModulus
      modifies this, repr
      ensures Valid() && fresh(repr - old(repr))
      ensures var c := ToInt32(if old(size) < newSize then newSize - old(size) else old(size) - newSize);
        contents == if c <= 0 then old(contents)
                    else if old(size) < newSize then old(contents) + Zeros(c, zero)
                    else old(contents)[..old(size) - c]
      ensures old(size) == 0 ==> CursorAt(0)
      ensures old(size) > 0 && old(size) <= newSize ==> cursor == old(cursor)
      ensures old(size) <= newSize ==> forall k: nat :: k < old(size) && old(CursorAt(k)) ==> CursorAt(k)
      ensures old(size) <= newSize ==> pop == old(pop)
      ensures old(size) >= newSize ==> cursor == if size == 0 then null else old(cursor)
    {
      if size < newSize {
        var count := ToInt32(newSize - size);
        ghost var m := if count > 0 then count else 0;
        ghost var added := Zeros(m, zero);
        var i := 0;
        while i < count
          invariant 0 <= i <= m
          invariant Valid() && fresh(repr - old(repr)) && pop == old(pop)
          invariant contents == old(contents) + added[..i]
          invariant old(size) == 0 ==> CursorAt(0)
          invariant old(size) > 0 ==> cursor == old(cursor)
          invariant forall k: nat :: k < old(size) && old(CursorAt(k)) ==> CursorAt(k)
        {
          PushBack(Some(zero));
          assert added[..i + 1] == added[..i] + [zero];
          i := i + 1;
        }
        assert added[..i] == added;
      } else {
        var count := ToInt32(size - newSize);
        ghost var m := if count > 0 then count else 0;
        var i := 0;
        while i < count
          invariant 0 <= i <= m
          invariant Valid() && repr == old(repr) && size == old(size) - i
          invariant contents == old(contents)[..size]
          invariant i == 0 ==> forall k: nat :: k < old(size) && old(CursorAt(k)) ==> CursorAt(k)
          invariant old(size) == 0 ==> CursorAt(0)
          invariant cursor == if size == 0 then null else old(cursor)
          invariant i == 0 ==> pop == old(pop)
        {
          Remove(-1);
          i := i + 1;
        }
      }
    }

    /**
     * list_for_each: hand out the data of the cursor node and step to the
     * next one; past the tail, rewind to the head and hand out nothing.
     */
    method ForEach() returns (x: Option<T>)
      requires Valid()
      modifies this
      ensures Valid() && unchanged(`nodes, `contents, `repr, `head, `tail, `size, `pop)
      ensures old(cursor) == null ==> x == None && CursorAt(0)
      ensures old(cursor) != null ==> x == Some(old(cursor.data)) && cursor == old(cursor.next)
      ensures forall k :: 0 <= k < |nodes| && old(cursor) == nodes[k] ==> x == Some(contents[k]) && CursorAt(k + 1)
    {
      if cursor != null {
        x := Some(cursor.data);
        SetState(head, tail, size, cursor.next, pop, nodes, contents, repr);
      } else {
        x := None;
        SetState(head, tail, size, head, pop, nodes, contents, repr);
      }
    }

    /** Put the cursor back on the head (the step the corrected list_copy adds). */
    method Rewind()
      requires Valid()
      modifies this
      ensures Valid() && unchanged(`nodes, `contents, `repr, `head, `tail, `size, `pop)
      ensures CursorAt(0)
    {
      SetState(head, tail, size, head, pop, nodes, contents, repr);
    }

    /**
     * list_remove_iter: remove the element list_for_each handed out last,
     * the one before the cursor; past the tail that is the tail. A cursor
     * on the head has handed out nothing, and nothing is removed. The
     * cursor keeps its node, which is now one position earlier.
     */
    method RemoveIter(ghost k: nat)
      requires Valid() && CursorAt(k)
      modifies this, repr
      ensures Valid() && repr == old(repr)
      ensures contents == if k == 0 then old(contents) else RemoveAt(old(contents), k - 1)
      ensures CursorAt(if k == 0 then 0 else k - 1)
    {
      if cursor == null {
        Remove(-1);
        return;
      }
      var current := cursor.back;
      assert current == (if k > 0 then nodes[k - 1] else null);
      if current != null {
        if current == head {
          Remove(0);
          return;
        }
        assert head == nodes[0];
        DetachInner(current, k - 1);
      }
    }

    /**
     * The detaching branch of list_remove_iter: node i is neither the head
     * nor the tail, so only its neighbours and the length change.
     */
    method DetachInner(n: Node<T>, ghost i: nat)
      requires Valid() && 0 < i < |nodes| - 1 && nodes[i] == n && cursor == nodes[i + 1]
      modifies this, repr
      ensures Valid() && repr == old(repr)
      ensures contents == RemoveAt(old(contents), i) && CursorAt(i)
    {
      Detach(nodes, contents, i, n);
      SetState(head, tail, size - 1, cursor, pop, nodes[..i] + nodes[i + 1..], contents[..i] + contents[i + 1..], repr);
    }

    /** list_clear: remove from the tail until the list is empty, then drop the popped node. */
    method Clear()
      requires Valid()
      modifies this, repr
      ensures Valid() && repr == old(repr)
      ensures contents == [] && head == null && tail == null && cursor == null && pop == null
    {
      while size > 0
        invariant Valid() && repr == old(repr)
        invariant contents == old(contents)[..size]
        decreases size
      {
        Remove(-1);
      }
      SetState(head, tail, size, cursor, null, nodes, contents, repr);
    }

    /** list_push_array: push the values at the back, in order. */
    method PushArray(values: seq<T>)
      requires Valid()
      modifies this, repr
      ensures Valid() && pop == old(pop) && fresh(repr - old(repr))
      ensures contents == old(contents) + values
      ensures old(size) == 0 ==> CursorAt(0)
      ensures old(size) > 0 ==> cursor == old(cursor)
      ensures forall k: nat :: k < old(size) && old(CursorAt(k)) ==> CursorAt(k)
    {
      var i := 0;
      while i < |values|
        invariant 0 <= i <= |values|
        invariant Valid() && pop == old(pop) && fresh(repr - old(repr))
        invariant contents == old(contents) + values[..i]
        invariant old(size) == 0 ==> CursorAt(0)
        invariant old(size) > 0 ==> cursor == old(cursor)
        invariant forall k: nat :: k < old(size) && old(CursorAt(k)) ==> CursorAt(k)
      {
        PushBack(Some(values[i]));
        ExtendSlice(old(contents), values, 0, i);
        i := i + 1;
      }
      assert values[..i] == values;
    }

    /** list_to_array: write the elements, head first, into `result`. */
    method ToArray(result: array<T>)
      requires Valid() && size <= result.Length
      modifies result
      ensures forall k :: 0 <= k < size ==> result[k] == contents[k]
      ensures forall k :: size <= k < result.Length ==> result[k] == old(result[k])
    {
      var n := head;
      var i := 0;
      while i < size
        invariant 0 <= i <= size
        invariant n == CursorNode(nodes, i)
        invariant forall k :: 0 <= k < i ==> result[k] == contents[k]
        invariant forall k :: i <= k < result.Length ==> result[k] == old(result[k])
      {
        result[i] := n.data;
        n := n.next;
        i := i + 1;
      }
    }

    /** The elements in order, read out through list_to_array. */
    method Elements() returns (s: seq<T>)
      requires Valid()
      ensures s == contents
    {
      var a := new T[size];
      ToArray(a);
      s := a[..];
    }

    /**
     * list_pop's unlinking: move `head` or `tail` past the node at
     * position i when it is an end, detach it, install the cursor `it`
     * and keep the node as `pop`.
     */
    method Unlink(n: Node<T>, ghost i: nat, it: Node?<T>) returns (x: T)
      requires Valid() && i < |nodes| && nodes[i] == n
      requires it == (if n == head then n.next else cursor) || it == (if n == head || n == cursor then n.next else cursor)
      modifies this, repr
      ensures Valid() && repr == old(repr) && pop == n && n.data == x
      ensures x == old(contents)[i]
      ensures contents == RemoveAt(old(contents), i) && nodes == RemoveAt(old(nodes), i)
      ensures cursor == it
    {
      assert n == tail <==> i == |nodes| - 1 by {
        if i < |nodes| - 1 { assert nodes[|nodes| - 1] != nodes[i]; }
      }
      var t := if n == tail then n.back else tail;
      var h := if n == head then n.next else head;
      x := n.data;
      Detach(nodes, contents, i, n);
      SetState(h, t, size - 1, it, n, nodes[..i] + nodes[i + 1..], contents[..i] + contents[i + 1..], repr);
    }
  }

  /**
   * list_copy as written: a new list filled by list_for_each on `src`
   * until it hands out nothing, so it receives the elements from the
   * cursor on, and the cursor of `src` ends rewound to the head. The walk
   * of list_for_each is followed with a local node; the cursor is set
   * once, where the final list_for_each leaves it.
   */
  method Copy<T(0)>(src: List<T>, ghost k: nat) returns (dst: List<T>)
    requires src.Valid() && src.CursorAt(k)
    modifies src
    ensures fresh(dst) && dst.Valid() && fresh(dst.repr)
    ensures dst.dataSize == src.dataSize && dst.zero == src.zero
    ensures dst.contents == old(src.contents)[k..]
    ensures src.Valid() && src.CursorAt(0)
    ensures unchanged(src`nodes, src`contents, src`repr, src`head, src`tail, src`size, src`pop)
  {
    dst := CopyFrom(src, k);
    src.Rewind();
  }

  /** The list list_copy creates and fills: the data of node k and of every node after it, in order. */
  method CopyFrom<T(0)>(src: List<T>, ghost k: nat) returns (dst: List<T>)
    requires src.Valid() && src.CursorAt(k)
    ensures fresh(dst) && dst.Valid() && fresh(dst.repr)
    ensures dst.dataSize == src.dataSize && dst.zero == src.zero
    ensures dst.contents == src.contents[k..]
  {
    dst := new List(src.dataSize, src.zero, 0, None);
    PushFrom(src, dst, src.cursor, k);
  }

  /** The list_copy loop: push the data of node k and of every node after it onto `dst`. */
  method PushFrom<T(0)>(src: List<T>, dst: List<T>, node: Node?<T>, ghost k: nat)
    requires src.Valid() && dst.Valid() && src != dst && src.repr !! dst.repr
    requires k <= |src.nodes| && node == CursorNode(src.nodes, k)
    modifies dst, dst.repr
    ensures dst.Valid() && fresh(dst.repr - old(dst.repr)) && dst.repr !! src.repr
    ensures dst.contents == old(dst.contents) + src.contents[k..]
  {
    var n := node;
    ghost var j := k;
    ghost var c := dst.contents;
    while n != null
      invariant k <= j <= |src.nodes| && n == CursorNode(src.nodes, j)
      invariant dst.Valid() && fresh(dst.repr - old(dst.repr)) && dst.repr !! src.repr
      invariant dst.contents == c + src.contents[k..j]
      decreases |src.nodes| - j
    {
      n := CopyNext(src, dst, n, c, k, j);
      j := j + 1;
    }
  }

  /** One round of the list_copy loop: append the data of node j, the one list_for_each hands out, and step on. */
  method CopyNext<T(0)>(src: List<T>, dst: List<T>, node: Node<T>, ghost c: seq<T>, ghost k: nat, ghost j: nat) returns (next: Node?<T>)
    requires src.Valid() && dst.Valid() && src != dst && src.repr !! dst.repr
    requires k <= j < |src.nodes| && node == src.nodes[j] && dst.contents == c + src.contents[k..j]
    modifies dst, dst.repr
    ensures dst.Valid() && fresh(dst.repr - old(dst.repr)) && dst.repr !! src.repr
    ensures dst.contents == c + src.contents[k..j + 1]
    ensures next == CursorNode(src.nodes, j + 1)
  {
    next := node.next;
    dst.PushBack(Some(node.data));
    ExtendSlice(c, src.contents, k, j);
  }

  /** list_copy, corrected: rewind the cursor first, so every element is copied. */
  method CopyAll<T(0)>(src: List<T>) returns (dst: List<T>)
    requires src.Valid()
    modifies src
    ensures fresh(dst) && dst.Valid() && fresh(dst.repr)
    ensures dst.dataSize == src.dataSize && dst.zero == src.zero
    ensures dst.contents == old(src.contents)
    ensures src.Valid() && src.CursorAt(0)
    ensures unchanged(src`nodes, src`contents, src`repr, src`head, src`tail, src`size, src`pop)
  {
    src.Rewind();
    dst := Copy(src, 0);
  }

  /**
   * list_sublist: list_copy as written, so the elements from the cursor
   * (node k) on, then `begin` pops from the front and size - end, wrapped
   * to an unsigned int and counted on the original list, pops from the
   * back; pops on an empty list do nothing. With the cursor on the head
   * and begin <= end <= size < 2^32 the result is the elements at
   * positions begin up to end.
   */
  method Sublist<T(0)>(list: List<T>, begin: nat, end: nat, ghost k: nat) returns (result: List<T>)
    requires list.Valid() && list.CursorAt(k) && begin < UintModulus && end < UintModulus
    modifies list
    ensures fresh(result) && result.Valid()
    ensures var c := old(list.contents)[k..];
      var d := c[Min(begin, |c|)..];
      var e := (|old(list.contents)| - end) % UintModulus;
      result.contents == d[..|d| - Min(e, |d|)]
    ensures k == 0 && begin <= end <= |old(list.contents)| < UintModulus ==>
      result.contents == old(list.contents)[begin..end]
    ensures list.Valid() && list.CursorAt(0)
    ensures unchanged(list`nodes, list`contents, list`repr, list`head, list`tail, list`size, list`pop)
  {
    ghost var c := list.contents;
    assert list.size == |c|;
    result := Copy(list, k);
    var e := (list.size - end) % UintModulus;
    assert e == (|c| - end) % UintModulus;
    DropEnds(result, begin, e);
    if k == 0 && begin <= end <= |c| < UintModulus {
      TrimmedWhole(c, begin, end);
    }
  }

  /** From the head, the trimming of list_sublist leaves exactly positions begin up to end. */
  lemma TrimmedWhole<T>(c: seq<T>, begin: nat, end: nat)
    requires begin <= end <= |c| < UintModulus
    ensures var d := c[0..][Min(begin, |c|)..];
      var e := (|c| - end) % UintModulus;
      d[..|d| - Min(e, |d|)] == c[begin..end]
  {
  }

  /** The two trimming loops of list_sublist: `front` pops from the head, then `back` from the tail. */
  method DropEnds<T(0)>(list: List<T>, front: nat, back: nat)
    requires list.Valid()
    modifies list, list.repr
    ensures list.Valid() && list.repr == old(list.repr)
    ensures var d := old(list.contents)[Min(front, |old(list.contents)|)..];
      list.contents == d[..|d| - Min(back, |d|)]
  {
    DropFront(list, front);
    DropBack(list, back);
  }

  /** The first trimming loop of list_sublist: `front` pops from the head. */
  method DropFront<T(0)>(list: List<T>, front: nat)
    requires list.Valid()
    modifies list, list.repr
    ensures list.Valid() && list.repr == old(list.repr)
    ensures list.contents == old(list.contents)[Min(front, |old(list.contents)|)..]
  {
    ghost var c := list.contents;
    var b := front;
    while b > 0
      invariant 0 <= b <= front
      invariant list.Valid() && list.repr == old(list.repr)
      invariant list.contents == c[Min(front - b, |c|)..]
    {
      var _ := list.PopFront();
      b := b - 1;
    }
  }

  /** The second trimming loop of list_sublist: `back` pops from the tail. */
  method DropBack<T(0)>(list: List<T>, back: nat)
    requires list.Valid()
    modifies list, list.repr
    ensures list.Valid() && list.repr == old(list.repr)
    ensures list.contents == old(list.contents)[..|old(list.contents)| - Min(back, |old(list.contents)|)]
  {
    ghost var d := list.contents;
    var e := back;
    while e > 0
      invariant 0 <= e <= back
      invariant list.Valid() && list.repr == old(list.repr)
      invariant list.contents == d[..|d| - Min(back - e, |d|)]
    {
      var _ := list.PopBack();
      e := e - 1;
    }
  }

  /**
   * The stale cursor of list_pop as written: in [1, 2, 3], after one step
   * of list_for_each the cursor is on 2; popping position 1 removes 2,
   * yet the next list_for_each still hands out 2.
   */
  method StaleCursorScenario() returns (first: Option<int>, popped: Option<int>, next: Option<int>, s: seq<int>)
    ensures first == Some(1) && popped == Some(2) && s == [1, 3] && next == Some(2)
  {
    var list := new List(4, 0, 3, Some([1, 2, 3]));
    first := list.ForEach();
    popped := list.PopAsWritten(1);
    s := list.Elements();
    next := list.ForEach();
  }

  /** The same steps with the corrected pop: the next element handed out is 3. */
  method CursorScenario() returns (first: Option<int>, popped: Option<int>, next: Option<int>, s: seq<int>)
    ensures first == Some(1) && popped == Some(2) && s == [1, 3] && next == Some(3)
  {
    var list := new List(4, 0, 3, Some([1, 2, 3]));
    first := list.ForEach();
    popped := list.Pop(1);
    s := list.Elements();
    next := list.ForEach();
  }

  /**
   * list_copy as written after one step of list_for_each over [1, 2, 3]
   * copies [2, 3]; the corrected copy gives all of [1, 2, 3].
   */
  method CopyFromCursorScenario() returns (partial: seq<int>, whole: seq<int>)
    ensures partial == [2, 3] && whole == [1, 2, 3]
  {
    var list := new List(4, 0, 3, Some([1, 2, 3]));
    var _ := list.ForEach();
    var a := Copy(list, 1);
    partial := a.Elements();
    var b := CopyAll(list);
    whole := b.Elements();
  }

  /** list_sublist of [1, 2, 3, 4] from 1 to 3 is [2, 3]. */
  method SublistScenario() returns (s: seq<int>)
    ensures s == [2, 3]
  {
    var list := new List(4, 0, 4, Some([1, 2, 3, 4]));
    var r := Sublist(list, 1, 3, 0);
    s := r.Elements();
  }

  /**
   * list_sublist after one list_for_each over [1, 2, 3, 4]: the copy is
   * [2, 3, 4], and popping one from the front and 4 - 3 from the back
   * leaves [3].
   */
  method SublistFromCursorScenario() returns (s: seq<int>)
    ensures s == [3]
  {
    var list := new List(4, 0, 4, Some([1, 2, 3, 4]));
    var _ := list.ForEach();
    var r := Sublist(list, 1, 3, 1);
    s := r.Elements();
  }
}
