/**
 * The linked stack of src/stack.c: `head` is the top, `size` counts the
 * nodes, and `internal.pop` keeps the node the last pop handed out.
 * Indexed access and stack_to_array count from the bottom, the first
 * value pushed.
 */
module SrcStack {
  import opened Common
  import opened SLink

  class Stack<T(0,==)> {
    var head: SNode?<T>
    var size: nat
    /** internal.pop: the node the last stack_pop handed out. */
    var pop: SNode?<T>
    /** internal.dsize: element width in bytes. */
    const dsize: nat
    ghost var nodes: seq<SNode<T>>
    /** The data from the top down. */
    ghost var contents: seq<T>
    /** Every node the stack has allocated. */
    ghost var repr: set<SNode<T>>

    ghost predicate Valid()
      reads this, repr
    {
      && (forall k :: 0 <= k < |nodes| ==> nodes[k] in repr)
      && Stacked(nodes, head, contents)
      && size == |nodes|
    }

    /** The data from the bottom up: the order of stack_at and stack_to_array. */
    ghost function Elements(): seq<T>
      reads this
    {
      Reversed(contents)
    }

    /**
     * stack_create: an empty stack, then, when values are given, the
     * first `initialSize` of them pushed in order, so the last is on top.
     * `oks[i]` is whether the malloc of the push of value i succeeds; a
     * value whose push fails is dropped.
     */
    constructor (dsize: nat, initialSize: nat, values: Option<seq<T>>, oks: seq<bool>)
      requires values.Some? ==> initialSize <= |values.value| && |oks| == initialSize
      ensures Valid() && fresh(repr) && pop == null && this.dsize == dsize
      ensures contents == if values.Some? then Reversed(Kept(values.value[..initialSize], oks)) else []
      ensures values.Some? && (forall i :: 0 <= i < |oks| ==> oks[i]) ==> contents == Reversed(values.value[..initialSize])
    {
      head, size, pop := null, 0, null;
      this.dsize := dsize;
      nodes, contents, repr := [], [], {};
      new;
      if values.Some? {
        PushValues(values.value[..initialSize], oks);
      }
    }

    /** The loop of stack_create: push `vs` in order onto the empty stack, value i kept when `oks[i]`. */
    method PushValues(vs: seq<T>, oks: seq<bool>)
      requires Valid() && contents == [] && |oks| == |vs|
      modifies this
      ensures Valid() && fresh(repr - old(repr)) && pop == old(pop)
      ensures contents == Reversed(Kept(vs, oks))
    {
      for i := 0 to |vs|
        invariant Valid() && fresh(repr - old(repr)) && pop == old(pop)
        invariant contents == Reversed(Kept(vs[..i], oks[..i]))
      {
        Push(vs[i], oks[i]);
        ReversedKept(vs, oks, i);
      }
      assert vs[..|vs|] == vs && oks[..|oks|] == oks;
    }

    /**
     * stack_push: when the node's malloc succeeds (`ok`), a new node holding
     * `x` goes on top and nothing below it changes; when it fails the stack
     * is left as it was.
     */
    method Push(x: T, ok: bool)
      requires Valid()
      modifies this
      ensures Valid() && fresh(repr - old(repr)) && old(repr) <= repr
      ensures ok ==> contents == [x] + old(contents) && size == old(size) + 1
      ensures !ok ==> nodes == old(nodes) && contents == old(contents) && size == old(size)
      ensures pop == old(pop)
    {
      if !ok {
        return;
      }
      var n := new SNode(x, head);
      StackedPush(nodes, contents, n);
      head, size := n, size + 1;
      nodes, contents, repr := [n] + nodes, [x] + contents, repr + {n};
    }

    /**
     * stack_pop: the top's data; `head` moves to the node below and the
     * popped node is kept in `pop`. An empty stack is dereferenced as NULL.
     */
    method Pop() returns (x: T)
      requires Valid() && size > 0
      modifies this
      ensures Valid() && repr == old(repr)
      ensures x == old(contents)[0] && contents == old(contents)[1..] && size == old(size) - 1
      ensures nodes == old(nodes)[1..]
      ensures pop == old(head)
    {
      StackedPop(nodes, head, contents);
      var node := head;
      head := node.next;
      size := size - 1;
      pop := node;
      x := node.data;
      nodes, contents := nodes[1..], contents[1..];
    }

    /**
     * stack_at: the element `index` places up from the bottom, reached by
     * walking size - 1 - index nodes down from the top.
     */
    method At(index: int) returns (x: T)
      requires Valid() && 0 <= index < size
      ensures x == Elements()[index]
    {
      var node := head;
      var i := index - size + 1;
      ghost var k: nat := 0;
      while i != 0 && node != null
        invariant k <= size - 1 - index && i == index - size + 1 + k
        invariant node == nodes[k]
        decreases -i
      {
        node := node.next;
        i, k := i + 1, k + 1;
      }
      x := node.data;
    }

    /** stack_value: stack_at(0), the bottom element. */
    method Value() returns (x: T)
      requires Valid() && size > 0
      ensures x == Elements()[0] && x == contents[size - 1]
    {
      x := At(0);
    }

    /** stack_to_array: the elements written back to front from the top, so bottom first. */
    method ToArray() returns (a: array<T>)
      requires Valid()
      ensures fresh(a) && a[..] == Elements()
    {
      a := new T[size];
      var node := head;
      var i := size;
      ghost var k: nat := 0;
      while node != null
        invariant k <= size && i == size - k && node == NodeOrNull(nodes, k)
        invariant forall j :: i <= j < size ==> a[j] == contents[size - 1 - j]
        decreases size - k
      {
        i := i - 1;
        a[i] := node.data;
        node := node.next;
        k := k + 1;
      }
    }

    /**
     * stack_copy: a new stack created from stack_to_array, `oks` giving the
     * outcome of each of its pushes; equal to this one when every push's
     * malloc succeeds.
     */
    method Copy(oks: seq<bool>) returns (c: Stack<T>)
      requires Valid() && |oks| == size
      ensures fresh(c) && c.Valid() && fresh(c.repr) && c.dsize == dsize
      ensures c.Elements() == Kept(Elements(), oks)
      ensures oks == AllOk(size) ==> c.contents == contents && c.size == size
    {
      var data := ToArray();
      c := new Stack(dsize, size, Some(data[..]), oks);
      assert data[..][..size] == Elements();
      ReversedTwice(Kept(Elements(), oks));
      ReversedTwice(contents);
    }

    /** stack_clear: pop until empty, then drop the kept node. */
    method Clear()
      requires Valid()
      modifies this
      ensures Valid() && repr == old(repr)
      ensures contents == [] && size == 0 && head == null && pop == null
    {
      while size != 0
        invariant Valid() && repr == old(repr)
        decreases size
      {
        var _ := Pop();
      }
      pop := null;
    }

    /**
     * stack_reverse: collect the nodes top first into an array, point each
     * one at the node above it, and make the old bottom the top. The
     * stack must hold at least one node.
     */
    method Reverse()
      requires Valid() && size >= 1
      modifies this, repr
      ensures Valid() && repr == old(repr) && pop == old(pop)
      ensures contents == Reversed(old(contents))
    {
      var arr := Collect();
      PointBack(arr, contents, repr);
      StackedReversed(nodes, contents);
      Install(arr[size - 1], Reversed(nodes), Reversed(contents));
    }

    /** A new top over a chain built beforehand from this stack's own nodes. */
    method Install(h: SNode<T>, ghost ns: seq<SNode<T>>, ghost cs: seq<T>)
      requires Stacked(ns, h, cs) && |ns| == size
      requires forall k :: 0 <= k < |ns| ==> ns[k] in repr
      modifies this
      ensures Valid() && head == h && nodes == ns && contents == cs
      ensures size == old(size) && repr == old(repr) && pop == old(pop)
    {
      head := h;
      nodes, contents := ns, cs;
    }

    /** The first loop of stack_reverse: the nodes from the top down, in an array. */
    method Collect() returns (arr: array<SNode<T>>)
      requires Valid() && size >= 1
      ensures fresh(arr) && arr[..] == nodes
    {
      var top: SNode<T> := head;
      arr := new SNode<T>[size](_ => top);
      for i := 1 to arr.Length
        invariant forall j :: 0 <= j < i ==> arr[j] == nodes[j]
      {
        assert nodes[i - 1].next == nodes[i];
        arr[i] := arr[i - 1].next;
      }
    }

    /** stack_equals: same length, same width and the same element at every depth. */
    method Equals(b: Stack<T>) returns (r: bool)
      requires Valid() && b.Valid()
      ensures r <==> size == b.size && dsize == b.dsize && contents == b.contents
    {
      if size != b.size || dsize != b.dsize {
        return false;
      }
      var an, bn := head, b.head;
      ghost var k: nat := 0;
      while an != null && bn != null
        invariant k <= size && an == NodeOrNull(nodes, k) && bn == NodeOrNull(b.nodes, k)
        invariant contents[..k] == b.contents[..k]
        decreases size - k
      {
        assert an.data == contents[k] && bn.data == b.contents[k];
        if an.data != bn.data {
          return false;
        }
        assert contents[..k + 1] == contents[..k] + [contents[k]];
        assert b.contents[..k + 1] == b.contents[..k] + [b.contents[k]];
        an, bn := an.next, bn.next;
        k := k + 1;
      }
      assert contents == contents[..k] && b.contents == b.contents[..k];
      return true;
    }
  }

  /**
   * The second loop of stack_reverse and the store after it: every node
   * but the top points at the one above it, and the top points nowhere.
   */
  method PointBack<T>(arr: array<SNode<T>>, ghost contents: seq<T>, ghost repr: set<SNode<T>>)
    requires arr.Length == |contents| > 0 && Distinct(arr[..])
    requires forall j :: 0 <= j < arr.Length ==> arr[j] in repr
    requires forall j :: 0 <= j < arr.Length ==> arr[j].data == contents[j]
    requires forall j :: 0 <= j < arr.Length - 1 ==> arr[j].next == arr[j + 1]
    modifies repr
    ensures forall j :: 0 <= j < arr.Length ==> arr[j].data == contents[j]
    ensures forall j :: 0 < j < arr.Length ==> arr[j].next == arr[j - 1]
    ensures arr[0].next == null
  {
    ghost var ns := arr[..];
    var i := arr.Length - 1;
    while i > 0
      invariant 0 <= i < arr.Length
      invariant forall j :: 0 <= j < arr.Length ==> ns[j].data == contents[j]
      invariant forall j :: 0 <= j < i ==> ns[j].next == ns[j + 1]
      invariant forall j :: i < j < arr.Length ==> ns[j].next == ns[j - 1]
    {
      arr[i].next := arr[i - 1];
      i := i - 1;
    }
    arr[0].next := null;
  }

  /** Creation puts the last value on top, and stack_to_array gives the values back in order. */
  method CreateRoundTrip(values: seq<int>) returns (top: Option<int>, out: seq<int>)
    ensures out == values
    ensures top == if |values| == 0 then None else Some(values[|values| - 1])
  {
    var s := new Stack(4, |values|, Some(values), AllOk(|values|));
    assert values[..|values|] == values;
    ReversedTwice(values);
    var a := s.ToArray();
    out := a[..];
    top := if s.head == null then None else Some(s.head.data);
  }

  /** [1, 2, 3, 4] read by index from the bottom: stack_at(0), stack_at(3), stack_value. */
  method AtScenario() returns (first: int, last: int, bottom: int)
    ensures first == 1 && last == 4 && bottom == 1
  {
    var values := [1, 2, 3, 4];
    var s := new Stack(4, 4, Some(values), AllOk(4));
    assert values[..4] == values;
    ReversedTwice(values);
    first := s.At(0);
    last := s.At(3);
    bottom := s.Value();
  }

  /** A copy made while every push succeeds equals its source. */
  method CopyScenario() returns (same: bool)
    ensures same
  {
    var s := new Stack(4, 0, None, []);
    s.Push(1, true);
    s.Push(2, true);
    var c := s.Copy(AllOk(2));
    same := s.Equals(c);
  }

  /** Popping the source after stack_copy leaves the copy as it was: the two differ. */
  method CopyThenPopScenario() returns (differs: bool)
    ensures !differs
  {
    var s := new Stack(4, 0, None, []);
    s.Push(1, true);
    s.Push(2, true);
    var c := s.Copy(AllOk(2));
    var _ := s.Pop();
    differs := s.Equals(c);
  }

  /** Reversing the stack created from [1, 2, 3, 4] makes stack_to_array give [4, 3, 2, 1]. */
  method ReverseScenario() returns (reversed: seq<int>)
    ensures reversed == [4, 3, 2, 1]
  {
    var s := ReversedStack([1, 2, 3, 4]);
    var a := s.ToArray();
    reversed := a[..];
  }

  /** stack_create from `values`, every push succeeding, then stack_reverse: the values come back top first. */
  method ReversedStack(values: seq<int>) returns (s: Stack<int>)
    ensures s.Valid() && s.Elements() == Reversed(values)
  {
    s := new Stack(4, |values|, Some(values), AllOk(|values|));
    assert values[..|values|] == values;
    if |values| > 0 {
      s.Reverse();
      ReversedTwice(values);
    }
  }

  /** Creating from [1, 2, 3] when the second push's malloc fails leaves [1, 3], 3 on top. */
  method FailedPushScenario() returns (out: seq<int>)
    ensures out == [1, 3]
  {
    var values := [1, 2, 3];
    var oks := [true, false, true];
    assert values[..3] == values;
    KeptSnoc(values, oks, 0);
    KeptSnoc(values, oks, 1);
    KeptSnoc(values, oks, 2);
    assert Kept(values, oks) == [1, 3] by {
      assert values[..0] == [] && oks[..0] == [];
    }
    var s := new Stack(4, 3, Some(values), oks);
    ReversedTwice([1, 3]);
    var a := s.ToArray();
    out := a[..];
  }

  /** stack_clear empties the stack and forgets the kept node. */
  method ClearScenario() returns (n: nat, h: bool, p: bool)
    ensures n == 0 && !h && !p
  {
    var s := new Stack(4, 2, Some([1, 2]), AllOk(2));
    var _ := s.Pop();
    s.Clear();
    n, h, p := s.size, s.head != null, s.pop != null;
  }
}
