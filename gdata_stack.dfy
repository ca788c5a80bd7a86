/**
 * The linked stack of gdata/stack.c: `head`, `size` and `data_size`,
 * with a pop that hands the detached node itself to the caller and a
 * find that reports a position counted from the bottom.
 */
module GdataStack {
  import opened Common
  import opened SLink

  class Stack<T(==)> {
    var head: SNode?<T>
    /** data_size: element width in bytes. */
    const dataSize: nat
    var size: nat
    ghost var nodes: seq<SNode<T>>
    /** The data from the top down. */
    ghost var contents: seq<T>
    /** Every node the stack has allocated. */
    ghost var repr: set<SNode<T>>

    ghost predicate Valid()
      reads this, repr
    {
      && (forall k :: 0 <= k < |nodes| ==> nodes[k] in repr)
      && Stacked(nodes, head, contents)
      && size == |nodes|
    }

    /**
     * _stack_create: when data is given, its first `count` values pushed
     * in order, so the last is on top. The model starts from an empty stack.
     */
    constructor (dataSize: nat, count: nat, data: Option<seq<T>>)
      requires data.Some? ==> count <= |data.value|
      ensures Valid() && fresh(repr) && this.dataSize == dataSize
      ensures contents == if data.Some? then Reversed(data.value[..count]) else []
    {
      head, size := null, 0;
      this.dataSize := dataSize;
      nodes, contents, repr := [], [], {};
      new;
      if data.Some? {
        for i := 0 to count
          invariant Valid() && fresh(repr)
          invariant contents == Reversed(data.value[..i])
        {
          Push(data.value[i]);
          ReversedSnoc(data.value[..i], data.value[i]);
          assert data.value[..i + 1] == data.value[..i] + [data.value[i]];
        }
      }
    }

    /** _stack_push: a new node holding a copy of `x` on top. */
    method Push(x: T)
      requires Valid()
      modifies this
      ensures Valid() && fresh(repr - old(repr)) && old(repr) <= repr
      ensures contents == [x] + old(contents) && size == old(size) + 1
    {
      var n := new SNode(x, head);
      StackedPush(nodes, contents, n);
      head, size := n, size + 1;
      nodes, contents, repr := [n] + nodes, [x] + contents, repr + {n};
    }

    /**
     * _stack_pop: the top node itself, now off the stack; the caller
     * reads its data and frees it. An empty stack is dereferenced as NULL.
     */
    method Pop() returns (node: SNode<T>)
      requires Valid() && size > 0
      modifies this
      ensures Valid() && repr == old(repr)
      ensures node == old(nodes)[0] && node.data == old(contents)[0] && node !in nodes
      ensures contents == old(contents)[1..] && size == old(size) - 1
    {
      StackedPop(nodes, head, contents);
      node := head;
      head := node.next;
      size := size - 1;
      nodes, contents := nodes[1..], contents[1..];
    }

    /**
     * _stack_find: walking down from the top, the bottom-based position
     * (size - 1 for the top) of the first node holding `x`, or -1.
     */
    method Find(x: T) returns (r: int)
      requires Valid()
      ensures -1 <= r < size
      ensures r == -1 <==> x !in contents
      ensures r >= 0 ==> contents[size - 1 - r] == x && x !in contents[..size - 1 - r]
      ensures r == size - 1 - Depth(contents, x)
    {
      var node := head;
      r := size - 1;
      ghost var k: nat := 0;
      while node != null
        invariant k <= size && r == size - 1 - k && node == NodeOrNull(nodes, k)
        invariant x !in contents[..k] && Depth(contents, x) == k + Depth(contents[k..], x)
        decreases size - k
      {
        if node.data == x {
          return;
        }
        assert contents[..k + 1] == contents[..k] + [contents[k]];
        assert contents[k..][1..] == contents[k + 1..];
        node := node.next;
        r := r - 1;
        k := k + 1;
      }
      assert contents[..k] == contents;
    }
  }

  /** How far below the top the first `x` lies, or |s| when there is none. */
  function Depth<T(==)>(s: seq<T>, x: T): (d: nat)
    ensures d <= |s| && x !in s[..d]
    ensures d < |s| ==> s[d] == x
    ensures d == |s| <==> x !in s
  {
    if s == [] then 0
    else if s[0] == x then 0
    else
      var d := 1 + Depth(s[1..], x);
      assert s[..d] == [s[0]] + s[1..][..d - 1];
      d
  }

  /** [1, 2, 1] reads the same from the top, with 1 on top and 2 below it. */
  lemma ReversedPalindrome()
    ensures var c := Reversed([1, 2, 1]);
      c == [1, 2, 1] && Depth(c, 1) == 0 && Depth(c, 2) == 1 && Depth(c, 3) == 3
  {
    var c := Reversed([1, 2, 1]);
    assert c[0] == 1 && c[1] == 2 && c[2] == 1;
    assert c == [1, 2, 1];
    assert [1, 2, 1][1..] == [2, 1] && [2, 1][1..] == [1];
  }

  /** Finding in [1, 2, 1] (pushed in that order) reports the topmost match. */
  method FindScenario() returns (one: int)
    ensures one == 2
  {
    var v := [1, 2, 1];
    var s := new Stack(4, 3, Some(v));
    assert v[..3] == v;
    ReversedPalindrome();
    one := s.Find(1);
  }

  /** In [1, 2, 1], 2 sits at position 1 from the bottom and 3 is absent; _stack_pop hands over the top node. */
  method FindPopScenario() returns (two: int, three: int, popped: int, left: nat)
    ensures two == 1 && three == -1 && popped == 1 && left == 2
  {
    var v := [1, 2, 1];
    var s := new Stack(4, 3, Some(v));
    assert v[..3] == v;
    ReversedPalindrome();
    two := s.Find(2);
    three := s.Find(3);
    var n := s.Pop();
    popped, left := n.data, s.size;
  }
}
