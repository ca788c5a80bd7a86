/**
 * The singly linked node shared by the three linked stacks, and the
 * invariant tying a stack's `head` to the nodes below it: `nodes[0]` is
 * the top, each node's `next` is the one pushed before it, the bottom's
 * `next` is null, and `contents` lists the data top first.
 */
module SLink {
  import opened Common

  class SNode<T> {
    var next: SNode?<T>
    var data: T

    constructor (d: T, n: SNode?<T>)
      ensures data == d && next == n
    {
      data := d;
      next := n;
    }
  }

  /** No node occurs twice. */
  ghost predicate Distinct<T>(nodes: seq<SNode<T>>)
  {
    forall i, j :: 0 <= i < j < |nodes| ==> nodes[i] != nodes[j]
  }

  /** `head` starts a null-terminated chain through `nodes` holding `contents`, top first. */
  ghost predicate Stacked<T>(nodes: seq<SNode<T>>, head: SNode?<T>, contents: seq<T>)
    reads nodes
  {
    && |nodes| == |contents| && Distinct(nodes)
    && head == (if |nodes| == 0 then null else nodes[0])
    && (forall k :: 0 <= k < |nodes| ==> nodes[k].data == contents[k])
    && (forall k :: 0 <= k < |nodes| - 1 ==> nodes[k].next == nodes[k + 1])
    && (|nodes| > 0 ==> nodes[|nodes| - 1].next == null)
  }

  /** A new node in front of a stacked chain stacks `x` on top of it. */
  lemma StackedPush<T>(nodes: seq<SNode<T>>, contents: seq<T>, n: SNode<T>)
    requires Stacked(nodes, n.next, contents) && n !in nodes
    ensures Stacked([n] + nodes, n, [n.data] + contents)
  {
    var ns := [n] + nodes;
    forall i, j | 0 <= i < j < |ns|
      ensures ns[i] != ns[j]
    {
      if i > 0 { assert ns[i] == nodes[i - 1] && ns[j] == nodes[j - 1]; }
    }
    forall k | 0 < k < |ns|
      ensures ns[k] == nodes[k - 1]
    {
    }
  }

  /** Without its top node, a stacked chain starts at the top's `next`. */
  lemma StackedPop<T>(nodes: seq<SNode<T>>, head: SNode?<T>, contents: seq<T>)
    requires Stacked(nodes, head, contents) && |nodes| > 0
    ensures head != null && Stacked(nodes[1..], head.next, contents[1..])
  {
  }

  /** The node a walk from the top stands on after k steps: node k, or null past the bottom. */
  function NodeOrNull<T>(nodes: seq<SNode<T>>, k: nat): (r: SNode?<T>)
    requires k <= |nodes|
    ensures r == null <==> k == |nodes|
  {
    if k < |nodes| then nodes[k] else null
  }

  /**
   * Nodes whose links all point the other way, with the old top's `next`
   * null, form a stack of the reversed contents whose top is the old bottom.
   */
  lemma StackedReversed<T>(nodes: seq<SNode<T>>, contents: seq<T>)
    requires Distinct(nodes) && |nodes| == |contents| > 0
    requires forall k :: 0 <= k < |nodes| ==> nodes[k].data == contents[k]
    requires forall k :: 0 < k < |nodes| ==> nodes[k].next == nodes[k - 1]
    requires nodes[0].next == null
    ensures Stacked(Reversed(nodes), nodes[|nodes| - 1], Reversed(contents))
  {
    var rn, n := Reversed(nodes), |nodes|;
    ReversedDistinct(nodes);
    ReversedData(nodes, contents);
    ReversedLinks(nodes);
    assert rn[0] == nodes[n - 1] && rn[n - 1] == nodes[0];
  }

  /** Reversal keeps the nodes distinct. */
  lemma ReversedDistinct<T>(nodes: seq<SNode<T>>)
    requires Distinct(nodes)
    ensures Distinct(Reversed(nodes))
  {
    var rn, n := Reversed(nodes), |nodes|;
    forall i, j | 0 <= i < j < n
      ensures rn[i] != rn[j]
    {
      assert rn[i] == nodes[n - 1 - i] && rn[j] == nodes[n - 1 - j];
    }
  }

  /** Reversing the nodes and the contents together keeps each node's data in step. */
  lemma ReversedData<T>(nodes: seq<SNode<T>>, contents: seq<T>)
    requires |nodes| == |contents|
    requires forall k :: 0 <= k < |nodes| ==> nodes[k].data == contents[k]
    ensures forall k :: 0 <= k < |nodes| ==> Reversed(nodes)[k].data == Reversed(contents)[k]
  {
    var rn, rc, n := Reversed(nodes), Reversed(contents), |nodes|;
    forall k | 0 <= k < n
      ensures rn[k].data == rc[k]
    {
      assert rn[k] == nodes[n - 1 - k] && rc[k] == contents[n - 1 - k];
    }
  }

  /** Links that point back become links that point forward once the nodes are reversed. */
  lemma ReversedLinks<T>(nodes: seq<SNode<T>>)
    requires forall k :: 0 < k < |nodes| ==> nodes[k].next == nodes[k - 1]
    ensures forall k :: 0 <= k < |nodes| - 1 ==> Reversed(nodes)[k].next == Reversed(nodes)[k + 1]
  {
    var rn, n := Reversed(nodes), |nodes|;
    forall k | 0 <= k < n - 1
      ensures rn[k].next == rn[k + 1]
    {
      assert rn[k] == nodes[n - 1 - k] && rn[k + 1] == nodes[n - 2 - k];
    }
  }
}
