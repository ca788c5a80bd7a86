/**
 * The doubly linked list of src/list.c.
 *
 * A list holds `length`, `head`, `tail` and the last popped node `pop`
 * (kept so that the data pointer list_pop returns stays valid until the
 * next pop). Element bytes become values of `T`; a NULL data pointer
 * (calloc'd node) becomes the list's `zero` element. Indices are signed:
 * 0 is the head, -1 the tail, and index i < 0 means position length + i.
 */
module SrcList {
  import opened Common
  import opened DLink

  class List<T(0)> {
    var length: nat
    var head: Node?<T>
    var tail: Node?<T>
    /** internal.pop: the node detached by the last pop. */
    var pop: Node?<T>
    /** internal.dsize; element width in bytes. */
    const dsize: nat
    /** The element calloc produces: all bytes zero. */
    const zero: T
    ghost var nodes: seq<Node<T>>
    ghost var contents: seq<T>
    /** Every node the list has allocated. */
    ghost var repr: set<Node<T>>

    ghost predicate Valid()
      reads this, repr
    {
      && (forall k :: 0 <= k < |nodes| ==> nodes[k] in repr)
      && Chain(nodes, head, tail, contents)
      && length == |nodes|
    }

    /**
     * Store new ends, length and popped node; the chain they describe was
     * built beforehand, so the list invariant follows from it directly.
     */
    method SetState(h: Node?<T>, t: Node?<T>, n: nat, p: Node?<T>,
                    ghost ns: seq<Node<T>>, ghost cs: seq<T>, ghost r: set<Node<T>>)
      requires Chain(ns, h, t, cs) && n == |ns|
      requires forall k :: 0 <= k < |ns| ==> ns[k] in r
      modifies this
      ensures Valid()
      ensures head == h && tail == t && length == n && pop == p
      ensures nodes == ns && contents == cs && repr == r
    {
      head, tail, length, pop, nodes, contents, repr := h, t, n, p, ns, cs, r;
    }

    /**
     * list_create: an empty list of `dataSize`-byte elements, then either
     * the initial values pushed at the back or zeros up to `initialSize`,
     * which list_resize takes as an `unsigned int`, modulo 2^32.
     */
    constructor (dataSize: nat, zeroValue: T, initialSize: nat, initialValues: Option<seq<T>>)
      requires initialValues.Some? ==> |initialValues.value| == initialSize
      ensures Valid() && fresh(repr)
      ensures dsize == dataSize && zero == zeroValue && pop == null
      ensures contents == if initialValues.Some? then initialValues.value
                          else Zeros(initialSize % UintModulus, zeroValue)
    {
      length := 0;
      head := null;
      tail := null;
      pop := null;
      dsize := dataSize;
      zero := zeroValue;
      nodes := [];
      contents := [];
      repr := {};
      new;
      if initialValues.Some? {
        PushBack(initialSize, initialValues);
      } else if initialSize > 0 {
        Resize(initialSize % UintModulus);
      }
    }

    /**
     * _list_node_at / _list_find: walk from the head for index >= 0 and
     * from the tail for index < 0; null when the index names no element.
     */
    method NodeAt(index: int) returns (r: Node?<T>)
      requires Valid()
      ensures r == (if InRange(index, length) then nodes[Pos(index, length)] else null)
    {
      if index < 0 {
        r := Find(nodes, |nodes| - 1, tail, index);
      } else {
        r := Find(nodes, 0, head, index);
      }
    }

    /** list_at: the element an in-range signed index names. */
    method At(index: int) returns (x: T)
      requires Valid() && InRange(index, length)
      ensures x == contents[Pos(index, length)]
    {
      var node := NodeAt(index);
      x := node.data;
    }

    /** One step of list_pushback: a new node holding `x` becomes the tail. */
    method PushOneBack(x: T)
      requires Valid()
      modifies this, repr
      ensures Valid() && pop == old(pop) && fresh(repr - old(repr))
      ensures contents == old(contents) + [x]
    {
      var node := new Node(x);
      var h, t := LinkBack(head, tail, nodes, contents, node);
      SetState(h, t, length + 1, pop, nodes + [node], contents + [x], repr + {node});
    }

    /** One step of list_pushfront: a new node holding `x` becomes the head. */
    method PushOneFront(x: T)
      requires Valid()
      modifies this, repr
      ensures Valid() && pop == old(pop) && fresh(repr - old(repr))
      ensures contents == [x] + old(contents)
    {
      var node := new Node(x);
      var h, t := LinkFront(head, tail, nodes, contents, node);
      SetState(h, t, length + 1, pop, [node] + nodes, [x] + contents, repr + {node});
    }

    /**
     * list_pushback: append `n` elements in order, taken from `data` or
     * zero when data is NULL.
     */
    method PushBack(n: nat, data: Option<seq<T>>)
      requires Valid()
      requires data.Some? ==> |data.value| == n
      modifies this, repr
      ensures Valid() && pop == old(pop) && fresh(repr - old(repr))
      ensures contents == old(contents) + InitialOrZeros(n, data, zero)
    {
      ghost var added := InitialOrZeros(n, data, zero);
      var i := 0;
      while i < n
        invariant 0 <= i <= n
        invariant Valid() && pop == old(pop) && fresh(repr - old(repr))
        invariant contents == old(contents) + added[..i]
      {
        var x := if data.Some? then data.value[i] else zero;
        PushOneBack(x);
        i := i + 1;
        assert added[..i] == added[..i - 1] + [x];
      }
      assert added[..n] == added;
    }

    /**
     * list_pushfront: prepend `n` elements keeping their order; the last
     * element is linked first, so the first one ends up at the head.
     */
    method PushFront(n: nat, data: Option<seq<T>>)
      requires Valid()
      requires data.Some? ==> |data.value| == n
      modifies this, repr
      ensures Valid() && pop == old(pop) && fresh(repr - old(repr))
      ensures contents == InitialOrZeros(n, data, zero) + old(contents)
    {
      ghost var added := InitialOrZeros(n, data, zero);
      var i := n;
      while i > 0
        invariant 0 <= i <= n
        invariant Valid() && pop == old(pop) && fresh(repr - old(repr))
        invariant contents == added[i..] + old(contents)
      {
        i := i - 1;
        var x := if data.Some? then data.value[i] else zero;
        PushOneFront(x);
        PrependSlice(added, i, old(contents));
        assert contents == added[i..] + old(contents);
      }
      assert added[0..] == added;
    }

    /**
     * list_push: a new element goes before the one an index >= 0 names and
     * after the one a negative index names; nothing happens when the index
     * names no element or when the new node's malloc fails (`!ok`).
     */
    method Push(index: int, item: Option<T>, ok: bool)
      requires Valid()
      modifies this, repr
      ensures Valid() && pop == old(pop) && fresh(repr - old(repr))
      ensures var x := if item.Some? then item.value else zero;
        contents == if !InRange(index, old(length)) || !ok then old(contents)
                    else if index >= 0 then InsertAt(old(contents), Pos(index, old(length)), x)
                    else InsertAt(old(contents), Pos(index, old(length)) + 1, x)
    {
      var oldNode := NodeAt(index);
      if oldNode == null || !ok {
        return;
      }
      var x := if item.Some? then item.value else zero;
      if index >= 0 {
        InsertBefore(oldNode, Pos(index, length), x);
      } else {
        InsertAfter(oldNode, Pos(index, length), x);
      }
    }

    /** The splice of list_push for index >= 0: a new node holding `x` goes before `at`, the node at position p. */
    method InsertBefore(at: Node<T>, ghost p: nat, x: T)
      requires Valid() && p < |nodes| && nodes[p] == at
      modifies this, repr
      ensures Valid() && pop == old(pop) && fresh(repr - old(repr))
      ensures contents == InsertAt(old(contents), p, x)
    {
      var node := new Node(x);
      var h, t := LinkBefore(head, tail, nodes, contents, p, at, node);
      SetState(h, t, length + 1, pop, nodes[..p] + [node] + nodes[p..],
               contents[..p] + [x] + contents[p..], repr + {node});
    }

    /** The splice of list_push for index < 0: a new node holding `x` goes after `at`, the node at position p. */
    method InsertAfter(at: Node<T>, ghost p: nat, x: T)
      requires Valid() && p < |nodes| && nodes[p] == at
      modifies this, repr
      ensures Valid() && pop == old(pop) && fresh(repr - old(repr))
      ensures contents == InsertAt(old(contents), p + 1, x)
    {
      var node := new Node(x);
      var h, t := LinkAfter(head, tail, nodes, contents, p, at, node);
      SetState(h, t, length + 1, pop, nodes[..p + 1] + [node] + nodes[p + 1..],
               contents[..p + 1] + [x] + contents[p + 1..], repr + {node});
    }

    /**
     * list_pop_node: unlink `node` (at position i), moving `head` or `tail`
     * past it when it is an end, and return its data; the node is kept in
     * `pop`.
     */
    method PopNode(node: Node<T>, ghost i: nat) returns (x: T)
      requires Valid() && i < |nodes| && nodes[i] == node
      modifies this, repr
      ensures Valid() && pop == node && repr == old(repr)
      ensures x == old(contents)[i]
      ensures contents == RemoveAt(old(contents), i) && nodes == RemoveAt(old(nodes), i)
    {
      assert node == tail <==> i == |nodes| - 1 by {
        if i < |nodes| - 1 { assert nodes[|nodes| - 1] != nodes[i]; }
      }
      assert node == head <==> i == 0 by {
        if i > 0 { assert nodes[0] != nodes[i]; }
      }
      var t := if node == tail then node.back else tail;
      var h := if node == head then node.next else head;
      x := node.data;
      Detach(nodes, contents, i, node);
      SetState(h, t, length - 1, node, nodes[..i] + nodes[i + 1..], contents[..i] + contents[i + 1..], repr);
    }

    /** list_pop: pop the element an in-range signed index names. */
    method Pop(index: int) returns (x: T)
      requires Valid() && InRange(index, length)
      modifies this, repr
      ensures Valid() && repr == old(repr)
      ensures x == old(contents)[Pos(index, old(length))]
      ensures contents == RemoveAt(old(contents), Pos(index, old(length)))
      ensures nodes == RemoveAt(old(nodes), Pos(index, old(length))) && pop == old(nodes)[Pos(index, old(length))]
    {
      var node := NodeAt(index);
      x := PopNode(node, Pos(index, length));
    }

    /**
     * list_resize: grow with zeros at the back, or pop from the tail until
     * `newSize` elements are left.
     */
    method Resize(newSize: nat)
      requires Valid()
      modifies this, repr
      ensures Valid() && length == newSize && fresh(repr - old(repr))
      ensures old(length) <= newSize ==> pop == old(pop)
      ensures newSize < old(length) ==> pop == old(nodes)[newSize]
      ensures contents == if old(length) < newSize then old(contents) + Zeros(newSize - old(length), zero)
                          else old(contents)[..newSize]
    {
      if length < newSize {
        var count := newSize - length;
        PushBack(count, None);
      } else {
        var count := length - newSize;
        var i := 0;
        while i < count
          invariant 0 <= i <= count
          invariant Valid() && length == old(length) - i && repr == old(repr)
          invariant contents == old(contents)[..length] && nodes == old(nodes)[..length]
          invariant pop == if i == 0 then old(pop) else old(nodes)[length]
        {
          var _ := Pop(-1);
          i := i + 1;
        }
      }
    }

    /** list_clear: the list is empty and holds no popped node. */
    method Clear()
      requires Valid()
      modifies this
      ensures Valid() && length == 0 && contents == []
      ensures head == null && tail == null && pop == null
    {
      SetState(null, null, 0, null, [], [], repr);
    }

    /**
     * The first walk of list_slice: follow `next` from the head `steps`
     * times; with steps <= length the walk never reads past the tail.
     */
    method Walk(start: Node?<T>, steps: nat) returns (node: Node?<T>)
      requires Valid() && start == head && steps <= length
      ensures node == (if steps < length then nodes[steps] else null)
    {
      node := start;
      var b := steps;
      while b > 0
        invariant 0 <= b <= steps
        invariant node == (if steps - b < length then nodes[steps - b] else null)
      {
        node := node.next;
        b := b - 1;
      }
    }

    /** list_to_array: write the elements, head first, into `result`. */
    method ToArray(result: array<T>)
      requires Valid() && length <= result.Length
      modifies result
      ensures forall k :: 0 <= k < length ==> result[k] == contents[k]
      ensures forall k :: length <= k < result.Length ==> result[k] == old(result[k])
    {
      var n := head;
      var i := 0;
      while i < length
        invariant 0 <= i <= length
        invariant n == (if i < length then nodes[i] else null)
        invariant forall k :: 0 <= k < i ==> result[k] == contents[k]
        invariant forall k :: i <= k < result.Length ==> result[k] == old(result[k])
      {
        result[i] := n.data;
        n := n.next;
        i := i + 1;
      }
    }

    /** The elements in order, read out through list_to_array. */
    method Elements() returns (s: seq<T>)
      requires Valid()
      ensures s == contents
    {
      var a := new T[length];
      ToArray(a);
      s := a[..];
    }
  }

  /**
   * One step of the loops of list_copy and list_slice: push the data of
   * `node`, the node at position i of `list`, at the back of `r`, and
   * move on to the next node.
   */
  method CopyStep<T(0)>(list: List<T>, r: List<T>, node: Node<T>, ghost i: nat) returns (next: Node?<T>)
    requires list.Valid() && r.Valid() && r != list && r.repr !! list.repr
    requires i < |list.nodes| && node == list.nodes[i]
    modifies r, r.repr
    ensures list.Valid() && r.Valid() && r.repr !! list.repr && fresh(r.repr - old(r.repr))
    ensures r.contents == old(r.contents) + [list.contents[i]]
    ensures next == (if i + 1 < |list.nodes| then list.nodes[i + 1] else null)
  {
    next := node.next;
    r.PushBack(1, Some([node.data]));
  }

  /** list_copy: a new list holding the same elements, pushed one by one. */
  method Copy<T(0)>(list: List<T>) returns (r: List<T>)
    requires list.Valid()
    ensures fresh(r) && r.Valid() && r.contents == list.contents
    ensures r.dsize == list.dsize && r.zero == list.zero
    ensures fresh(r.repr)
  {
    r := new List(list.dsize, list.zero, 0, None);
    var node := list.head;
    ghost var i := 0;
    while node != null
      invariant 0 <= i <= |list.nodes|
      invariant node == (if i < |list.nodes| then list.nodes[i] else null)
      invariant fresh(r) && r.Valid() && r.contents == list.contents[..i]
      invariant r.dsize == list.dsize && r.zero == list.zero
      invariant fresh(r.repr) && r.repr !! list.repr
      decreases |list.nodes| - i
    {
      node := CopyStep(list, r, node, i);
      AppendSlice(list.contents, 0, i);
      i := i + 1;
    }
  }

  /**
   * list_slice: a new list of the elements from position `begin` on, at
   * most end - begin of them; `end -= begin` is unsigned arithmetic, so an
   * `end` below `begin` wraps around and takes everything to the tail.
   * The first walk dereferences `begin` nodes, so begin <= length.
   */
  method Slice<T(0)>(list: List<T>, begin: nat, end: nat) returns (r: List<T>)
    requires list.Valid() && begin <= list.length && end < UintModulus
    ensures fresh(r) && r.Valid() && fresh(r.repr)
    ensures r.dsize == list.dsize && r.zero == list.zero
    ensures r.contents == list.contents[begin..Min(list.length, begin + (end - begin) % UintModulus)]
  {
    r := new List(list.dsize, list.zero, 0, None);
    var node := list.head;
    var count := (end - begin) % UintModulus;
    node := list.Walk(node, begin);
    PushRange(list, r, node, begin, count);
  }

  /**
   * The second loop of list_slice: from `node`, the node at position
   * `from` (null at the end), push the data of at most `count` nodes at
   * the back of `r`.
   */
  method PushRange<T(0)>(list: List<T>, r: List<T>, node: Node?<T>, ghost from: nat, count: nat)
    requires list.Valid() && r.Valid() && r != list && r.repr !! list.repr
    requires from <= |list.nodes| && node == (if from < |list.nodes| then list.nodes[from] else null)
    modifies r, r.repr
    ensures r.Valid() && fresh(r.repr - old(r.repr))
    ensures r.contents == old(r.contents) + list.contents[from..Min(|list.nodes|, from + count)]
  {
    var n := node;
    var left := count;
    ghost var i := from;
    while left > 0 && n != null
      invariant from <= i <= Min(|list.nodes|, from + count) && left == from + count - i
      invariant n == (if i < |list.nodes| then list.nodes[i] else null)
      invariant list.Valid() && r.Valid() && r.repr !! list.repr && fresh(r.repr - old(r.repr))
      invariant r.contents == old(r.contents) + list.contents[from..i]
    {
      n := CopyStep(list, r, n, i);
      ExtendSlice(old(r.contents), list.contents, from, i);
      left := left - 1;
      i := i + 1;
    }
  }

  /** list_equals: same width and, element by element, the same contents. */
  method Equals<T(0, ==)>(a: List<T>, b: List<T>) returns (r: bool)
    requires a.Valid() && b.Valid()
    ensures r <==> a.dsize == b.dsize && a.contents == b.contents
  {
    if a.length != b.length || a.dsize != b.dsize {
      return false;
    }
    var an := a.head;
    var bn := b.head;
    ghost var i := 0;
    while an != null
      invariant 0 <= i <= a.length
      invariant an == (if i < a.length then a.nodes[i] else null)
      invariant bn == (if i < b.length then b.nodes[i] else null)
      invariant a.contents[..i] == b.contents[..i]
      decreases a.length - i
    {
      if an.data != bn.data {
        return false;
      }
      an, bn := an.next, bn.next;
      i := i + 1;
    }
    assert a.contents == a.contents[..i];
    return true;
  }

  /** tests/test_list.c, test_list_create: a new list is empty and holds no popped node. */
  method CreateScenario() returns (list: List<int>)
    ensures list.length == 0 && list.head == null && list.tail == null
    ensures list.pop == null && list.dsize == 2
  {
    list := new List(2, 0, 0, None);
  }

  /** list_create with no values and 2^32 + 2 as its size: list_resize receives 2. */
  method TruncatedCreateScenario() returns (length: nat, first: int)
    ensures length == 2 && first == 0
  {
    var list := new List(4, 0, 0x1_0000_0002, None);
    length := list.length;
    first := list.head.data;
  }

  /** tests/test_list.c, test_list_pushback: pushing 9, 3 gives head 9 and tail 3. */
  method PushBackScenario() returns (length: nat, first: int, last: int)
    ensures length == 2 && first == 9 && last == 3
  {
    var list := new List(4, 0, 0, None);
    list.PushBack(2, Some([9, 3]));
    length := list.length;
    first := list.head.data;
    last := list.tail.data;
  }

  /** tests/test_list.c, test_list_at: in [1, 2, 3], index 2 is 3, 0 is 1, -2 is 2. */
  method AtScenario() returns (x: int, y: int, z: int)
    ensures x == 3 && y == 1 && z == 2
  {
    var list := new List(4, 0, 3, Some([1, 2, 3]));
    x := list.At(2);
    y := list.At(0);
    z := list.At(-2);
  }

  /** tests/test_list.c, test_list_pop: from [1, 2, 3, 4, 5] pop -1, then 0, then -2. */
  method PopScenario() returns (x: int, y: int, z: int)
    ensures x == 5 && y == 1 && z == 3
  {
    var list := new List(4, 0, 5, Some([1, 2, 3, 4, 5]));
    x := list.Pop(-1);
    y := list.Pop(0);
    z := list.Pop(-2);
  }

  /** tests/test_list.c, test_list_push: [1, 2] becomes [1, 3, 2], then [0, 1, 3, 2]. */
  method PushScenario() returns (s: seq<int>, t: seq<int>)
    ensures s == [1, 3, 2] && t == [0, 1, 3, 2]
  {
    var list := new List(4, 0, 2, Some([1, 2]));
    list.Push(-2, Some(3), true);
    assert list.contents == [1, 3, 2];
    s := list.Elements();
    list.Push(0, Some(0), true);
    t := list.Elements();
  }

  /** tests/test_list.c, test_list_pushfront: pushing 1, 2, 3 in front of [1, 2]. */
  method PushFrontScenario() returns (s: seq<int>)
    ensures s == [1, 2, 3, 1, 2]
  {
    var list := new List(4, 0, 2, Some([1, 2]));
    list.PushFront(3, Some([1, 2, 3]));
    s := list.Elements();
  }

  /** tests/test_list.c, test_list_resize: [1, 2, 3] resized to 5 ends in a zero. */
  method ResizeScenario() returns (length: nat, last: int)
    ensures length == 5 && last == 0
  {
    var list := new List(4, 0, 3, Some([1, 2, 3]));
    list.Resize(5);
    length := list.length;
    last := list.At(-1);
  }

  /** tests/test_list.c, test_list_clear: clearing [1, 2, 3, 4, 5] leaves no ends. */
  method ClearScenario() returns (length: nat, head: Node?<int>, tail: Node?<int>)
    ensures length == 0 && head == null && tail == null
  {
    var list := new List(4, 0, 5, Some([1, 2, 3, 4, 5]));
    list.Clear();
    length, head, tail := list.length, list.head, list.tail;
  }

  /** tests/test_list.c, test_list_equals: [1, 2, 3] differs from [1, 2] until 3 is pushed. */
  method EqualsScenario() returns (before: bool, after: bool)
    ensures !before && after
  {
    var a := new List(4, 0, 3, Some([1, 2, 3]));
    var b := new List(4, 0, 2, Some([1, 2]));
    before := Equals(a, b);
    b.PushBack(1, Some([3]));
    assert b.contents == [1, 2, 3];
    after := Equals(a, b);
  }

  /** tests/test_list.c, test_list_copy: a copy of [1, 2, 3] equals it. */
  method CopyScenario() returns (copied: bool)
    ensures copied
  {
    var a := new List(4, 0, 3, Some([1, 2, 3]));
    var c := Copy(a);
    copied := Equals(a, c);
  }

  /** tests/test_list.c, test_list_slice: [1, 2, 3, 4] from 2 to 4 is [3, 4], not [2, 3]. */
  method SliceScenario() returns (length: nat, same: bool, other: bool)
    ensures length == 2 && same && !other
  {
    var a := new List(4, 0, 4, Some([1, 2, 3, 4]));
    var b := Slice(a, 2, 4);
    assert b.contents == [3, 4];
    length := b.length;
    var yes := new List(4, 0, 2, Some([3, 4]));
    var no := new List(4, 0, 2, Some([2, 3]));
    assert b.contents[0] != no.contents[0];
    same := Equals(b, yes);
    other := Equals(b, no);
  }
}
