/**
 * The doubly linked node shared by every list of the library (the
 * `struct list_node` of src/list.c and list.c, the `struct list_node` of
 * C/List.c and the `struct node` of C/List.h), and the splicing steps the
 * lists are built from.
 *
 * A list is described by a ghost sequence `nodes` of distinct nodes, in
 * order from head to tail: node k links forward to node k + 1 and back to
 * node k - 1, the ends link to null, and the node data read in order is
 * the list's `contents`. The splicing methods take the ends of a list and
 * return its new ends, so each list class can keep them in its own fields;
 * the lemmas InsertChain and RemoveChain carry the sequence bookkeeping.
 */
module DLink {
  import opened Common

  class Node<T> {
    var data: T
    var next: Node?<T>
    var back: Node?<T>

    /** A detached node holding `d`. */
    constructor (d: T)
      ensures data == d && next == null && back == null
    {
      data := d;
      next := null;
      back := null;
    }
  }

  /** No node occurs twice. */
  ghost predicate Distinct<T>(nodes: seq<Node<T>>)
  {
    forall i, j :: 0 <= i < j < |nodes| ==> nodes[i] != nodes[j]
  }

  /** The node a list's `head` must point at: the first one, or null. */
  function First<T>(nodes: seq<Node<T>>): (r: Node?<T>)
    ensures r == null <==> |nodes| == 0
  {
    if |nodes| == 0 then null else nodes[0]
  }

  /** The node a list's `tail` must point at: the last one, or null. */
  function Last<T>(nodes: seq<Node<T>>): (r: Node?<T>)
    ensures r == null <==> |nodes| == 0
  {
    if |nodes| == 0 then null else nodes[|nodes| - 1]
  }

  /** The `next`/`back` links of distinct nodes form one chain, null at both ends. */
  ghost predicate Linked<T>(nodes: seq<Node<T>>)
    reads nodes
  {
    && Distinct(nodes)
    && (forall i :: 0 <= i < |nodes| - 1 ==> nodes[i].next == nodes[i + 1])
    && (forall i :: 0 < i < |nodes| ==> nodes[i].back == nodes[i - 1])
    && (|nodes| > 0 ==> nodes[0].back == null && nodes[|nodes| - 1].next == null)
  }

  /**
   * The list invariant: the nodes are linked, `head` and `tail` are its
   * ends, and the data read from head to tail is `contents`.
   */
  ghost predicate Chain<T>(nodes: seq<Node<T>>, head: Node?<T>, tail: Node?<T>, contents: seq<T>)
    reads nodes
  {
    && Linked(nodes)
    && |nodes| == |contents|
    && (forall i :: 0 <= i < |nodes| ==> nodes[i].data == contents[i])
    && head == First(nodes)
    && tail == Last(nodes)
  }

  /** `index` names an element: -length <= index < length. */
  predicate InRange(index: int, length: nat)
  {
    -(length as int) <= index < length
  }

  /** The position a signed index names. */
  function Pos(index: int, length: nat): (p: nat)
    requires InRange(index, length)
    ensures p < length
    ensures index >= 0 ==> p == index
    ensures index < 0 ==> p - length == index
  {
    if index >= 0 then index else length + index
  }

  /** Position reached from position `s` by the walk of `_list_find` for `index`. */
  function Target(s: int, index: int): int
  {
    if index >= 0 then s + index else s + index + 1
  }

  /**
   * _list_find (src/list.c, list.c): from `node`, which sits at position
   * `s` or is null, walk `index` links forward, or -index-1 links back for
   * a negative index, stopping at null. The result is the node at the
   * target position, or null when the walk leaves the list.
   */
  method Find<T>(ghost nodes: seq<Node<T>>, ghost s: int, node: Node?<T>, index: int) returns (r: Node?<T>)
    requires Linked(nodes)
    requires node != null ==> 0 <= s < |nodes| && node == nodes[s]
    ensures r == (if node != null && 0 <= Target(s, index) < |nodes| then nodes[Target(s, index)] else null)
  {
    r := node;
    if index < 0 {
      var i := index + 1;
      while i != 0 && r != null
        invariant index < i <= 0
        invariant r == (if node != null && 0 <= s + index + 1 - i then nodes[s + index + 1 - i] else null)
        decreases -i
      {
        r := r.back;
        i := i + 1;
      }
    } else {
      var i := index;
      while i != 0 && r != null
        invariant 0 <= i <= index
        invariant r == (if node != null && s + index - i < |nodes| then nodes[s + index - i] else null)
      {
        r := r.next;
        i := i - 1;
      }
    }
  }

  lemma DistinctInsert<T>(nodes: seq<Node<T>>, p: nat, n: Node<T>)
    requires Distinct(nodes) && p <= |nodes| && n !in nodes
    ensures Distinct(nodes[..p] + [n] + nodes[p..])
  {
    var ns := nodes[..p] + [n] + nodes[p..];
    forall a, b | 0 <= a < b < |ns|
      ensures ns[a] != ns[b]
    {
      var x := if a < p then a else if a == p then -1 else a - 1;
      var y := if b < p then b else if b == p then -1 else b - 1;
      if x >= 0 && y >= 0 {
        assert ns[a] == nodes[x] && ns[b] == nodes[y];
      } else if x >= 0 {
        assert ns[a] == nodes[x];
      } else {
        assert ns[b] == nodes[y];
      }
    }
  }

  lemma DistinctRemove<T>(nodes: seq<Node<T>>, p: nat)
    requires Distinct(nodes) && p < |nodes|
    ensures Distinct(nodes[..p] + nodes[p + 1..])
  {
    var ns := nodes[..p] + nodes[p + 1..];
    forall a, b | 0 <= a < b < |ns|
      ensures ns[a] != ns[b]
    {
      var x := if a < p then a else a + 1;
      var y := if b < p then b else b + 1;
      assert ns[a] == nodes[x] && ns[b] == nodes[y];
    }
  }

  /**
   * Splicing a node `n` in at position p: when every old link is intact
   * except the two that now lead to `n`, and `n` links to both
   * neighbours, the result is the chain with `n` inserted at p.
   */
  lemma InsertChain<T>(nodes: seq<Node<T>>, contents: seq<T>, p: nat, n: Node<T>, head: Node<T>, tail: Node<T>)
    requires |nodes| == |contents| && Distinct(nodes) && n !in nodes && p <= |nodes|
    requires forall k :: 0 <= k < |nodes| ==> nodes[k].data == contents[k]
    requires forall k :: 0 <= k < |nodes| - 1 && k != p - 1 ==> nodes[k].next == nodes[k + 1]
    requires forall k :: 0 < k < |nodes| && k != p ==> nodes[k].back == nodes[k - 1]
    requires p > 0 ==> nodes[p - 1].next == n && nodes[0].back == null
    requires p < |nodes| ==> nodes[p].back == n && nodes[|nodes| - 1].next == null
    requires n.next == (if p < |nodes| then nodes[p] else null)
    requires n.back == (if p > 0 then nodes[p - 1] else null)
    requires head == (if p == 0 then n else nodes[0])
    requires tail == (if p == |nodes| then n else nodes[|nodes| - 1])
    ensures Chain(nodes[..p] + [n] + nodes[p..], head, tail, contents[..p] + [n.data] + contents[p..])
  {
    var ns := nodes[..p] + [n] + nodes[p..];
    var cs := contents[..p] + [n.data] + contents[p..];
    assert forall k :: 0 <= k < p ==> ns[k] == nodes[k] && cs[k] == contents[k];
    assert ns[p] == n && cs[p] == n.data;
    assert forall k :: p < k < |ns| ==> ns[k] == nodes[k - 1] && cs[k] == contents[k - 1];
    DistinctInsert(nodes, p, n);
  }

  /**
   * Bypassing the node at position p: when every old link is intact except
   * the two around p, and those now skip it, the rest is the chain with
   * position p removed.
   */
  lemma RemoveChain<T>(nodes: seq<Node<T>>, contents: seq<T>, p: nat)
    requires |nodes| == |contents| && Distinct(nodes) && p < |nodes|
    requires forall k :: 0 <= k < |nodes| ==> nodes[k].data == contents[k]
    requires forall k :: 0 <= k < |nodes| - 1 && k != p - 1 && k != p ==> nodes[k].next == nodes[k + 1]
    requires forall k :: 0 < k < |nodes| && k != p && k != p + 1 ==> nodes[k].back == nodes[k - 1]
    requires p > 0 ==> nodes[p - 1].next == (if p + 1 < |nodes| then nodes[p + 1] else null)
    requires p + 1 < |nodes| ==> nodes[p + 1].back == (if p > 0 then nodes[p - 1] else null)
    requires p > 0 ==> nodes[0].back == null
    requires p + 1 < |nodes| ==> nodes[|nodes| - 1].next == null
    ensures var ns := nodes[..p] + nodes[p + 1..];
      Chain(ns, First(ns), Last(ns), contents[..p] + contents[p + 1..])
  {
    var ns := nodes[..p] + nodes[p + 1..];
    var cs := contents[..p] + contents[p + 1..];
    assert forall k :: 0 <= k < p ==> ns[k] == nodes[k] && cs[k] == contents[k];
    assert forall k :: p <= k < |ns| ==> ns[k] == nodes[k + 1] && cs[k] == contents[k + 1];
    DistinctRemove(nodes, p);
  }

  /** Link a detached node after the tail; it becomes the tail (and the head of an empty list). */
  method LinkBack<T>(head: Node?<T>, tail: Node?<T>, ghost nodes: seq<Node<T>>, ghost contents: seq<T>, n: Node<T>)
    returns (newHead: Node<T>, newTail: Node<T>)
    requires Chain(nodes, head, tail, contents)
    requires n !in nodes && n.next == null && n.back == null
    modifies nodes, n
    ensures Chain(nodes + [n], newHead, newTail, contents + [n.data])
    ensures n.data == old(n.data)
  {
    if tail == null {
      newHead, newTail := n, n;
    } else {
      tail.next := n;
      n.back := tail;
      newHead, newTail := head, n;
    }
    forall k | 0 <= k < |nodes| - 1
      ensures nodes[k].next == nodes[k + 1]
    {
      assert nodes[k] != nodes[|nodes| - 1];
    }
    InsertChain(nodes, contents, |nodes|, n, newHead, newTail);
    assert nodes[..|nodes|] + [n] + nodes[|nodes|..] == nodes + [n];
    assert contents[..|nodes|] + [n.data] + contents[|nodes|..] == contents + [n.data];
  }

  /** Link a detached node before the head; it becomes the head (and the tail of an empty list). */
  method LinkFront<T>(head: Node?<T>, tail: Node?<T>, ghost nodes: seq<Node<T>>, ghost contents: seq<T>, n: Node<T>)
    returns (newHead: Node<T>, newTail: Node<T>)
    requires Chain(nodes, head, tail, contents)
    requires n !in nodes && n.next == null && n.back == null
    modifies nodes, n
    ensures Chain([n] + nodes, newHead, newTail, [n.data] + contents)
    ensures n.data == old(n.data)
  {
    if head == null {
      newHead, newTail := n, n;
    } else {
      head.back := n;
      n.next := head;
      newHead, newTail := n, tail;
    }
    forall k | 0 < k < |nodes|
      ensures nodes[k].back == nodes[k - 1]
    {
      assert nodes[k] != nodes[0];
    }
    InsertChain(nodes, contents, 0, n, newHead, newTail);
    assert nodes[..0] + [n] + nodes[0..] == [n] + nodes;
    assert contents[..0] + [n.data] + contents[0..] == [n.data] + contents;
  }

  /**
   * Link `n` in front of `at`, the node at position i: it takes over the
   * head when `at` was the head.
   */
  method LinkBefore<T>(head: Node?<T>, tail: Node?<T>, ghost nodes: seq<Node<T>>, ghost contents: seq<T>,
                       ghost i: nat, at: Node<T>, n: Node<T>)
    returns (newHead: Node<T>, newTail: Node<T>)
    requires Chain(nodes, head, tail, contents) && i < |nodes| && nodes[i] == at
    requires n !in nodes
    modifies nodes, n
    ensures Chain(nodes[..i] + [n] + nodes[i..], newHead, newTail, contents[..i] + [n.data] + contents[i..])
    ensures newHead == (if i == 0 then n else head) && newTail == tail
    ensures n.data == old(n.data)
  {
    assert at == head <==> i == 0 by {
      if i > 0 { assert nodes[0] != nodes[i]; }
    }
    assert at.back == if i > 0 then nodes[i - 1] else null;
    n.next := at;
    n.back := at.back;
    if at == head {
      newHead := n;
    } else {
      at.back.next := n;
      newHead := head;
    }
    at.back := n;
    newTail := tail;
    forall k | 0 <= k < |nodes| - 1 && k != i - 1
      ensures nodes[k].next == nodes[k + 1]
    {
      if i > 0 { assert nodes[k] != nodes[i - 1]; }
    }
    forall k | 0 < k < |nodes| && k != i
      ensures nodes[k].back == nodes[k - 1]
    {
      assert nodes[k] != nodes[i];
    }
    InsertChain(nodes, contents, i, n, newHead, newTail);
  }

  /**
   * Link `n` behind `at`, the node at position i: it takes over the tail
   * when `at` was the tail.
   */
  method LinkAfter<T>(head: Node?<T>, tail: Node?<T>, ghost nodes: seq<Node<T>>, ghost contents: seq<T>,
                      ghost i: nat, at: Node<T>, n: Node<T>)
    returns (newHead: Node<T>, newTail: Node<T>)
    requires Chain(nodes, head, tail, contents) && i < |nodes| && nodes[i] == at
    requires n !in nodes
    modifies nodes, n
    ensures Chain(nodes[..i + 1] + [n] + nodes[i + 1..], newHead, newTail,
                  contents[..i + 1] + [n.data] + contents[i + 1..])
    ensures newHead == head && newTail == (if i == |nodes| - 1 then n else tail)
    ensures n.data == old(n.data)
  {
    assert at == tail <==> i == |nodes| - 1 by {
      if i < |nodes| - 1 { assert nodes[|nodes| - 1] != nodes[i]; }
    }
    assert at.next == if i + 1 < |nodes| then nodes[i + 1] else null;
    n.back := at;
    n.next := at.next;
    if at == tail {
      newTail := n;
    } else {
      at.next.back := n;
      newTail := tail;
    }
    at.next := n;
    newHead := head;
    forall k | 0 <= k < |nodes| - 1 && k != i
      ensures nodes[k].next == nodes[k + 1]
    {
      assert nodes[k] != nodes[i];
    }
    forall k | 0 < k < |nodes| && k != i + 1
      ensures nodes[k].back == nodes[k - 1]
    {
      if i + 1 < |nodes| { assert nodes[k] != nodes[i + 1]; }
    }
    InsertChain(nodes, contents, i + 1, n, newHead, newTail);
  }

  /**
   * _list_detach_node / _list_del_node / del_node: make the neighbours of
   * the node at position i point past it. The node's own links are left
   * as they were; the list's `head` and `tail` are the caller's business.
   */
  method Detach<T>(ghost nodes: seq<Node<T>>, ghost contents: seq<T>, ghost i: nat, node: Node<T>)
    requires Chain(nodes, First(nodes), Last(nodes), contents) && i < |nodes| && nodes[i] == node
    modifies nodes
    ensures var ns := nodes[..i] + nodes[i + 1..];
      Chain(ns, First(ns), Last(ns), contents[..i] + contents[i + 1..])
    ensures node.next == old(node.next) && node.back == old(node.back) && node.data == old(node.data)
    ensures node.next == (if i + 1 < |nodes| then nodes[i + 1] else null)
    ensures node.back == (if i > 0 then nodes[i - 1] else null)
  {
    assert node.back == if i > 0 then nodes[i - 1] else null;
    assert node.next == if i + 1 < |nodes| then nodes[i + 1] else null;
    if node.back != null {
      node.back.next := node.next;
    }
    if node.next != null {
      node.next.back := node.back;
    }
    forall k | 0 <= k < |nodes| - 1 && k != i - 1 && k != i
      ensures nodes[k].next == nodes[k + 1]
    {
      if i > 0 { assert nodes[k] != nodes[i - 1]; }
    }
    forall k | 0 < k < |nodes| && k != i && k != i + 1
      ensures nodes[k].back == nodes[k - 1]
    {
      if i + 1 < |nodes| { assert nodes[k] != nodes[i + 1]; }
    }
    RemoveChain(nodes, contents, i);
  }

  // The cursor of list_for_each / List_forEach, as a position.

  /** The node a cursor on position k stands on: node k, or null past the tail. */
  function CursorNode<T>(nodes: seq<Node<T>>, k: nat): (r: Node?<T>)
    requires k <= |nodes|
    ensures r == null <==> k == |nodes|
  {
    if k < |nodes| then nodes[k] else null
  }

  /** Where a corrected pop of position p leaves a cursor `it`: past the popped node, or where it was. */
  function Advanced<T>(nodes: seq<Node<T>>, p: nat, it: Node?<T>): Node?<T>
    requires p < |nodes|
  {
    if it == nodes[p] then CursorNode(nodes, p + 1) else it
  }

  /**
   * A pop that moves a cursor off the popped node keeps the cursor on the
   * list: popping position p > 0 leaves a cursor on node k on the same
   * node, now at k - 1 when it came after p, and moves a cursor on the
   * popped node to its successor, which takes over position p.
   */
  lemma PopKeepsCursor<T>(nodes: seq<Node<T>>, p: nat, k: nat)
    requires Distinct(nodes) && 0 < p < |nodes| && k <= |nodes|
    ensures Advanced(nodes, p, CursorNode(nodes, k)) == CursorNode(RemoveAt(nodes, p), if k <= p then k else k - 1)
  {
    var rest := RemoveAt(nodes, p);
    if k < p {
      assert nodes[k] != nodes[p];
      assert rest[k] == nodes[k];
    } else if k == p {
      if p + 1 < |nodes| {
        assert rest[p] == nodes[p + 1];
      }
    } else if k < |nodes| {
      assert nodes[k] != nodes[p];
      assert rest[k - 1] == nodes[k];
    }
  }

  /**
   * A pop that leaves the cursor where it was strands a cursor standing on
   * the popped node: it is not null, yet it is none of the nodes left, nor
   * the end.
   */
  lemma PopStrandsCursor<T>(nodes: seq<Node<T>>, p: nat)
    requires Distinct(nodes) && 0 < p < |nodes|
    ensures CursorNode(nodes, p) != null
    ensures forall j :: 0 <= j < |nodes| ==> CursorNode(RemoveAt(nodes, p), j) != CursorNode(nodes, p)
  {
    var rest := RemoveAt(nodes, p);
    forall j | 0 <= j < |nodes|
      ensures CursorNode(rest, j) != nodes[p]
    {
      if j < p {
        assert rest[j] == nodes[j] && nodes[j] != nodes[p];
      } else if j < |rest| {
        assert rest[j] == nodes[j + 1] && nodes[j + 1] != nodes[p];
      }
    }
  }
}
