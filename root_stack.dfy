/**
 * The linked stack of stack.c: the same node chain as src/stack.c, with
 * a stack_reverse that empties the stack into a new one.
 */
module RootStack {
  import opened Common
  import opened SLink

  class Stack<T> {
    var head: SNode?<T>
    var size: nat
    /** internal.pop: the node the last stack_pop handed out. */
    var pop: SNode?<T>
    /** internal.data_size: element width in bytes. */
    const dataSize: nat
    ghost var nodes: seq<SNode<T>>
    /** The data from the top down. */
    ghost var contents: seq<T>
    /** Every node the stack has allocated. */
    ghost var repr: set<SNode<T>>

    ghost predicate Valid()
      reads this, repr
    {
      && (forall k :: 0 <= k < |nodes| ==> nodes[k] in repr)
      && Stacked(nodes, head, contents)
      && size == |nodes|
    }

    /**
     * _stack_create: when data is given, its first `count` values pushed in
     * order, so the last is on top. `oks[i]` is whether the malloc of the
     * push of value i succeeds; a value whose push fails is dropped. The
     * model starts from an empty stack.
     */
    constructor (dataSize: nat, count: nat, data: Option<seq<T>>, oks: seq<bool>)
      requires data.Some? ==> count <= |data.value| && |oks| == count
      ensures Valid() && fresh(repr) && pop == null && this.dataSize == dataSize
      ensures contents == if data.Some? then Reversed(Kept(data.value[..count], oks)) else []
      ensures data.Some? && (forall i :: 0 <= i < |oks| ==> oks[i]) ==> contents == Reversed(data.value[..count])
    {
      head, size, pop := null, 0, null;
      this.dataSize := dataSize;
      nodes, contents, repr := [], [], {};
      new;
      if data.Some? {
        ghost var vs := data.value[..count];
        for i := 0 to count
          invariant Valid() && fresh(repr) && pop == null
          invariant contents == Reversed(Kept(vs[..i], oks[..i]))
        {
          Push(data.value[i], oks[i]);
          ReversedKept(vs, oks, i);
        }
        assert vs[..count] == vs && oks[..count] == oks;
      }
    }

    /**
     * stack_push: when the node's malloc succeeds (`ok`), a new node holding
     * `x` goes on top and nothing below it changes; when it fails the stack
     * is left as it was.
     */
    method Push(x: T, ok: bool)
      requires Valid()
      modifies this
      ensures Valid() && fresh(repr - old(repr)) && old(repr) <= repr
      ensures ok ==> contents == [x] + old(contents) && size == old(size) + 1
      ensures !ok ==> nodes == old(nodes) && contents == old(contents) && size == old(size)
      ensures pop == old(pop)
    {
      if !ok {
        return;
      }
      var n := new SNode(x, head);
      StackedPush(nodes, contents, n);
      head, size := n, size + 1;
      nodes, contents, repr := [n] + nodes, [x] + contents, repr + {n};
    }

    /** stack_pop: the top's data; the popped node is kept in `pop`. */
    method Pop() returns (x: T)
      requires Valid() && size > 0
      modifies this
      ensures Valid() && repr == old(repr)
      ensures x == old(contents)[0] && contents == old(contents)[1..] && size == old(size) - 1
      ensures nodes == old(nodes)[1..]
      ensures pop == old(head)
    {
      StackedPop(nodes, head, contents);
      var node := head;
      head := node.next;
      size := size - 1;
      pop := node;
      x := node.data;
      nodes, contents := nodes[1..], contents[1..];
    }

    /** stack_clear: pop until empty, then drop the kept node. */
    method Clear()
      requires Valid()
      modifies this
      ensures Valid() && repr == old(repr)
      ensures contents == [] && size == 0 && head == null && pop == null
    {
      while size != 0
        invariant Valid() && repr == old(repr)
        decreases size
      {
        var _ := Pop();
      }
      pop := null;
    }

    /**
     * stack_reverse: pop every element of this stack onto a new one, which
     * then holds them in the opposite order; this stack is left empty,
     * its `pop` on its old bottom node. `oks[i]` is whether the push of
     * the i-th value popped succeeds; a value whose push fails is lost.
     */
    method Reverse(oks: seq<bool>) returns (result: Stack<T>)
      requires Valid() && |oks| == size
      modifies this
      ensures Valid() && repr == old(repr) && contents == [] && size == 0
      ensures pop == if old(size) == 0 then old(pop) else old(nodes)[old(size) - 1]
      ensures fresh(result) && result.Valid() && fresh(result.repr) && result.dataSize == dataSize
      ensures result.contents == Reversed(Kept(old(contents), oks))
      ensures (forall i :: 0 <= i < |oks| ==> oks[i]) ==> result.contents == Reversed(old(contents))
    {
      result := new Stack(dataSize, 0, None, []);
      MoveAll(result, oks);
    }

    /** The loop of stack_reverse: pop until empty, pushing each value onto `result`. */
    method MoveAll(result: Stack<T>, oks: seq<bool>)
      requires Valid() && result.Valid() && result != this && |oks| == size && result.contents == []
      modifies this, result
      ensures Valid() && repr == old(repr) && contents == [] && size == 0
      ensures pop == if old(size) == 0 then old(pop) else old(nodes)[old(size) - 1]
      ensures result.Valid() && fresh(result.repr - old(result.repr))
      ensures result.contents == Reversed(Kept(old(contents), oks))
    {
      ghost var c := contents;
      var k: nat := 0;
      while size != 0
        invariant Valid() && repr == old(repr) && k <= |c| && |oks| == |c|
        invariant contents == c[k..] && nodes == old(nodes)[k..]
        invariant pop == if k == 0 then old(pop) else old(nodes)[k - 1]
        invariant result.Valid() && fresh(result.repr - old(result.repr))
        invariant result.contents == Reversed(Kept(c[..k], oks[..k]))
        decreases size
      {
        assert old(nodes)[k..][1..] == old(nodes)[k + 1..];
        MoveTop(result, oks, c, k);
        k := k + 1;
      }
      assert k == |c|;
      assert c[..k] == c && oks[..k] == oks;
    }

    /**
     * One step of stack_reverse: the top of this stack, value k of `c`,
     * popped and pushed onto `result`, where it lands only when that
     * push's malloc succeeds (`oks[k]`).
     */
    method MoveTop(result: Stack<T>, oks: seq<bool>, ghost c: seq<T>, k: nat)
      requires Valid() && result.Valid() && result != this && size > 0
      requires |oks| == |c| && k < |c| && contents == c[k..]
      requires result.contents == Reversed(Kept(c[..k], oks[..k]))
      modifies this, result
      ensures Valid() && repr == old(repr) && nodes == old(nodes)[1..] && pop == old(head)
      ensures contents == c[k + 1..]
      ensures result.Valid() && fresh(result.repr - old(result.repr))
      ensures result.contents == Reversed(Kept(c[..k + 1], oks[..k + 1]))
    {
      var x := Pop();
      result.Push(x, oks[k]);
      ReversedKept(c, oks, k);
      assert c[k..][1..] == c[k + 1..];
    }
  }

  /** stack_reverse hands back the values pushed, bottom first, top down. */
  method ReverseScenario() returns (top: int, second: int, left: nat)
    ensures top == 1 && second == 2 && left == 0
  {
    var s, r := CreateReversed([1, 2, 3]);
    top := r.Pop();
    second := r.Pop();
    left := s.size;
  }

  /**
   * _stack_create from `values` with every push succeeding, then
   * stack_reverse: the new stack has the first value on top and the
   * source is left empty.
   */
  method CreateReversed(values: seq<int>) returns (s: Stack<int>, r: Stack<int>)
    ensures fresh(s) && fresh(r) && s.Valid() && r.Valid() && s.size == 0
    ensures r.contents == values && fresh(r.repr)
  {
    s := new Stack(4, |values|, Some(values), AllOk(|values|));
    assert values[..|values|] == values;
    r := s.Reverse(AllOk(|values|));
    ReversedTwice(values);
  }

  /** Values come off in the opposite order to creation; stack_clear leaves nothing. */
  method PopScenario() returns (a: int, b: int, n: nat, p: bool)
    ensures a == 2 && b == 1 && n == 0 && !p
  {
    var s := new Stack(4, 2, Some([1, 2]), AllOk(2));
    a := s.Pop();
    s.Push(1, true);
    b := s.Pop();
    s.Clear();
    n, p := s.size, s.pop != null;
  }

  /** stack_reverse of [1, 2, 3] (3 on top) when the push of 2 fails: the new stack holds 3 under 1. */
  method LostInReverseScenario() returns (top: int, below: int, n: nat)
    ensures top == 1 && below == 3 && n == 2
  {
    var s := new Stack(4, 0, None, []);
    s.Push(1, true);
    s.Push(2, true);
    s.Push(3, true);
    var oks := [true, false, true];
    assert s.contents == [3, 2, 1];
    LostInReverse(s.contents, oks);
    var r := s.Reverse(oks);
    n := r.size;
    top := r.Pop();
    below := r.Pop();
  }

  /** Pushing 3, 2, 1 in turn when the push of 2 fails leaves 3 under 1. */
  lemma LostInReverse(c: seq<int>, oks: seq<bool>)
    requires c == [3, 2, 1] && oks == [true, false, true]
    ensures Reversed(Kept(c, oks)) == [1, 3]
  {
    KeptSnoc(c, oks, 0);
    KeptSnoc(c, oks, 1);
    KeptSnoc(c, oks, 2);
    assert c[..0] == [] && oks[..0] == [] && c[..3] == c && oks[..3] == oks;
    assert Kept(c, oks) == [3, 1];
  }
}
