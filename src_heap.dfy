/**
 * The binary heap of src/heap.c: elements live in slots 1..size of `at`,
 * slot 0 receives the value heap_pop removes, and the order is MIN_HEAP
 * or MAX_HEAP. The comparator is any total preorder, written here as a
 * comparison of integer keys: cmp(a, b) has the sign of key(a) - key(b).
 */
module SrcHeap {

  datatype Order = MinHeap | MaxHeap

  /** The comparator's result for `a` against `b`. */
  function Compare<T>(key: T -> int, a: T, b: T): int {
    key(a) - key(b)
  }

  /** A parent key `x` may sit above a child key `y`: no smaller in a MAX_HEAP, no larger in a MIN_HEAP. */
  predicate Ordered(order: Order, x: int, y: int) {
    if order == MaxHeap then x >= y else x <= y
  }

  /** Slots 1..n are in heap order: every slot i >= 2 may sit below slot i / 2. */
  ghost predicate HeapOrder<T>(order: Order, key: T -> int, s: seq<T>, n: nat)
    requires n < |s|
  {
    forall i :: 2 <= i <= n ==> Ordered(order, key(s[i / 2]), key(s[i]))
  }

  /**
   * The state heap_upheapify keeps: heap order everywhere except between
   * slot k and its parent, and k's parent may sit above k's children.
   */
  ghost predicate UpHole<T>(order: Order, key: T -> int, s: seq<T>, n: nat, k: nat)
    requires n < |s| && 1 <= k <= n
  {
    && (forall i :: 2 <= i <= n && i != k ==> Ordered(order, key(s[i / 2]), key(s[i])))
    && (k >= 2 ==> forall i :: 2 <= i <= n && i / 2 == k ==> Ordered(order, key(s[k / 2]), key(s[i])))
  }

  /**
   * The state heap_downheapify keeps while it carries `x` down from the
   * root: slot p is the hole, heap order holds between every other pair,
   * and p's parent may sit above p's children and above `x`.
   */
  ghost predicate DownHole<T>(order: Order, key: T -> int, s: seq<T>, n: nat, p: nat, x: T)
    requires n < |s| && 1 <= p < |s|
  {
    && (forall i :: 2 <= i <= n && i != p && i / 2 != p ==> Ordered(order, key(s[i / 2]), key(s[i])))
    && (p >= 2 ==> forall i :: 2 <= i <= n && i / 2 == p ==> Ordered(order, key(s[p / 2]), key(s[i])))
    && (p >= 2 ==> Ordered(order, key(s[p / 2]), key(x)))
  }

  /** The root of a heap may sit above every slot: it is the maximum of a MAX_HEAP, the minimum of a MIN_HEAP. */
  lemma {:induction false} RootExtreme<T>(order: Order, key: T -> int, s: seq<T>, n: nat, i: nat)
    requires n < |s| && HeapOrder(order, key, s, n) && 1 <= i <= n
    ensures Ordered(order, key(s[1]), key(s[i]))
    decreases i
  {
    if i > 1 {
      RootExtreme(order, key, s, n, i / 2);
    }
  }

  /** The same, for every element of the heap. */
  lemma RootExtremeAll<T>(order: Order, key: T -> int, s: seq<T>, n: nat)
    requires n < |s| && HeapOrder(order, key, s, n) && n >= 1
    ensures forall y :: y in multiset(s[1..n + 1]) ==> Ordered(order, key(s[1]), key(y))
  {
    forall y | y in multiset(s[1..n + 1])
      ensures Ordered(order, key(s[1]), key(y))
    {
      var j :| 0 <= j < n && s[1..n + 1][j] == y;
      RootExtreme(order, key, s, n, j + 1);
    }
  }

  /** One swap of heap_upheapify moves the disorder up to the parent. */
  lemma UpStep<T>(order: Order, key: T -> int, s: seq<T>, n: nat, k: nat)
    requires n < |s| && 2 <= k <= n && UpHole(order, key, s, n, k)
    requires !Ordered(order, key(s[k / 2]), key(s[k]))
    ensures UpHole(order, key, s[k / 2 := s[k]][k := s[k / 2]], n, k / 2)
  {
    var p := k / 2;
    var t := s[p := s[k]][k := s[p]];
    forall i | 2 <= i <= n && i != p
      ensures Ordered(order, key(t[i / 2]), key(t[i]))
    {
      if i == k {
      } else if i / 2 == k {
        assert t[i] == s[i];
      } else if i / 2 == p {
        assert t[i] == s[i] && Ordered(order, key(s[p]), key(s[i]));
      } else {
        assert t[i] == s[i] && t[i / 2] == s[i / 2];
      }
    }
    if p >= 2 {
      forall i | 2 <= i <= n && i / 2 == p
        ensures Ordered(order, key(t[p / 2]), key(t[i]))
      {
        assert t[p / 2] == s[p / 2] && Ordered(order, key(s[p / 2]), key(s[p]));
        if i != k {
          assert t[i] == s[i] && Ordered(order, key(s[p]), key(s[i]));
        }
      }
    }
  }

  /** One move of heap_downheapify: the chosen child fills the hole, which moves down to it. */
  lemma DownStep<T>(order: Order, key: T -> int, s: seq<T>, n: nat, p: nat, c: nat, x: T)
    requires n < |s| && 1 <= p && 2 * p <= c <= 2 * p + 1 && c <= n && DownHole(order, key, s, n, p, x)
    requires forall d :: 2 * p <= d <= 2 * p + 1 && d <= n ==> Ordered(order, key(s[c]), key(s[d]))
    requires Ordered(order, key(s[c]), key(x))
    ensures DownHole(order, key, s[p := s[c]], n, c, x)
  {
    var t := s[p := s[c]];
    forall i | 2 <= i <= n && i != c && i / 2 != c
      ensures Ordered(order, key(t[i / 2]), key(t[i]))
    {
      if i == p {
        assert t[p / 2] == s[p / 2];
      } else if i / 2 == p {
        assert t[i] == s[i];
      } else {
        assert t[i] == s[i] && t[i / 2] == s[i / 2];
      }
    }
    forall i | 2 <= i <= n && i / 2 == c
      ensures Ordered(order, key(t[c / 2]), key(t[i]))
    {
      assert t[i] == s[i];
    }
  }

  /** heap_upheapify stops with a heap: at the root, or where the parent may sit above slot k. */
  lemma UpDone<T>(order: Order, key: T -> int, s: seq<T>, n: nat, k: nat)
    requires n < |s| && 1 <= k <= n && UpHole(order, key, s, n, k)
    requires k >= 2 ==> Ordered(order, key(s[k / 2]), key(s[k]))
    ensures HeapOrder(order, key, s, n)
  {
  }

  /** Once `x` may sit above the hole's children, storing it in the hole completes the heap. */
  lemma DownDone<T>(order: Order, key: T -> int, s: seq<T>, n: nat, p: nat, x: T)
    requires n < |s| && 1 <= p < |s| && DownHole(order, key, s, n, p, x)
    requires forall d :: 2 * p <= d <= 2 * p + 1 && d <= n ==> Ordered(order, key(x), key(s[d]))
    ensures HeapOrder(order, key, s[p := x], n)
  {
    var t := s[p := x];
    forall i | 2 <= i <= n
      ensures Ordered(order, key(t[i / 2]), key(t[i]))
    {
      if i == p {
        assert t[p / 2] == s[p / 2];
      } else if i / 2 == p {
        assert t[i] == s[i];
      } else {
        assert t[i] == s[i] && t[i / 2] == s[i / 2];
      }
    }
  }

  /** The elements a heap of n elements keeps in slots 1..n. */
  ghost function Stored<T>(s: seq<T>, n: nat): multiset<T>
    requires n < |s|
  {
    multiset(s[1..n + 1])
  }

  /** Overwriting one stored slot trades its element for the new one. */
  lemma UpdateStored<T>(s: seq<T>, n: nat, i: nat, v: T)
    requires 1 <= i <= n < |s|
    ensures Stored(s[i := v], n) == Stored(s, n) - multiset{s[i]} + multiset{v}
  {
    assert s[1..n + 1] == s[1..i] + [s[i]] + s[i + 1..n + 1];
    assert s[i := v][1..n + 1] == s[1..i] + [v] + s[i + 1..n + 1];
  }

  /** Exchanging two stored slots keeps the elements. */
  lemma SwapStored<T>(s: seq<T>, n: nat, i: nat, j: nat)
    requires 1 <= i <= n && 1 <= j <= n && n < |s| && i != j
    ensures Stored(s[i := s[j]][j := s[i]], n) == Stored(s, n)
  {
    UpdateStored(s, n, i, s[j]);
    UpdateStored(s[i := s[j]], n, j, s[i]);
  }

  /** Moving the child in slot c into the hole p moves the hole, and the element carried for it, to c. */
  lemma HoleStored<T>(s: seq<T>, n: nat, p: nat, c: nat, x: T)
    requires 1 <= p < c <= n < |s|
    ensures Stored(s[p := s[c]][c := x], n) == Stored(s[p := x], n)
  {
    var u := s[p := x];
    SwapStored(u, n, p, c);
    assert u[p := u[c]][c := u[p]] == s[p := s[c]][c := x];
  }

  class Heap<T(0)> {
    var size: nat
    const order: Order
    /** internal.alloc: the capacity. */
    const alloc: nat
    /** internal.cmp, as the key it compares. */
    const key: T -> int
    /** internal.dsize: element width in bytes. */
    const dsize: nat
    /** The all-zero element memset writes. */
    const zero: T
    /** Slot 0 and the `alloc` element slots. */
    const at: array<T>

    ghost predicate Valid()
      reads this, at
    {
      at.Length == alloc + 1 && size <= alloc && HeapOrder(order, key, at[..], size)
    }

    /** The stored elements, slots 1..size. */
    ghost function Elements(): multiset<T>
      reads this, at
      requires size < at.Length
    {
      Stored(at[..], size)
    }

    /** heap_create: an empty heap of `size` slots; the first `size` slots are zeroed. */
    constructor (size: nat, dsize: nat, key: T -> int, order: Order, zero: T)
      ensures Valid() && fresh(at) && this.size == 0 && alloc == size
      ensures this.dsize == dsize && this.key == key && this.order == order && this.zero == zero
      ensures forall k :: 0 <= k < size ==> at[k] == zero
    {
      this.size := 0;
      alloc := size;
      this.key := key;
      this.dsize := dsize;
      this.order := order;
      this.zero := zero;
      at := new T[size + 1](_ => zero);
    }

    /**
     * heap_insert: the new element goes into slot size + 1 and is sifted
     * up. The source does not check the capacity, so it must not be full.
     */
    method Insert(data: T)
      requires Valid() && size < alloc
      modifies this, at
      ensures Valid() && size == old(size) + 1
      ensures Elements() == old(Elements()) + multiset{data}
      ensures at[0] == old(at[0])
    {
      ghost var s := at[..];
      InsertHole(order, key, s, size, data);
      size := size + 1;
      Put(size, data);
      UpHeapify();
    }

    /** The store of heap_insert: `data` into slot i. */
    method Put(i: nat, data: T)
      requires i < at.Length
      modifies at
      ensures at[..] == old(at[..])[i := data]
    {
      at[i] := data;
    }

    /** heap_upheapify: swap the last element with its parent while the parent may not sit above it. */
    method UpHeapify()
      requires at.Length == alloc + 1 && 1 <= size <= alloc && UpHole(order, key, at[..], size, size)
      modifies at
      ensures Valid() && Elements() == old(Elements()) && at[0] == old(at[0])
    {
      ghost var g := at[..];
      var k := size;
      while k >= 2
        invariant at[..] == g && 1 <= k <= size && UpHole(order, key, g, size, k)
        invariant Stored(g, size) == old(Elements()) && g[0] == old(at[0])
      {
        var cmp := Compare(key, at[k / 2], at[k]);
        if (order == MinHeap && cmp > 0) || (order == MaxHeap && cmp < 0) {
          UpStep(order, key, g, size, k);
          SwapStored(g, size, k / 2, k);
          SwapUp(k);
          g := g[k / 2 := g[k]][k := g[k / 2]];
          k := k / 2;
        } else {
          UpDone(order, key, g, size, k);
          break;
        }
      }
      if k < 2 {
        UpDone(order, key, g, size, k);
      }
    }

    /** One swap of heap_upheapify: slot k and its parent exchange elements. */
    method SwapUp(k: nat)
      requires 2 <= k < at.Length
      modifies at
      ensures at[..] == old(at[..])[k / 2 := old(at[k])][k := old(at[k / 2])]
    {
      at[k / 2], at[k] := at[k], at[k / 2];
    }

    /**
     * heap_pop: the root goes to slot 0 and is returned; the last element
     * moves to the root, its old slot is zeroed, and the root is sifted
     * down. The source does not check for an empty heap.
     */
    method Pop() returns (x: T)
      requires Valid() && size >= 1
      modifies this, at
      ensures Valid() && size == old(size) - 1
      ensures x == old(at[1]) && at[0] == x && at[old(size)] == zero
      ensures x in old(Elements()) && Elements() == old(Elements()) - multiset{x}
      ensures forall y :: y in old(Elements()) ==> Ordered(order, key(x), key(y))
      ensures size > 0 ==> Ordered(order, key(x), key(at[1]))
    {
      ghost var s := at[..];
      RootExtremeAll(order, key, s, size);
      PopSlots(s, size, zero);
      PopHole(order, key, s, size, zero);
      MoveRoot();
      size := size - 1;
      DownHeapify();
      x := at[0];
      if size > 0 {
        assert at[1..size + 1][0] == at[1];
      }
    }

    /** The three stores of heap_pop: the root to slot 0, the last element to the root, zero to its old slot. */
    method MoveRoot()
      requires 1 <= size < at.Length
      modifies at
      ensures at[..] == old(at[..])[0 := old(at[1])][1 := old(at[size])][size := zero]
    {
      at[0] := at[1];
      at[1] := at[size];
      at[size] := zero;
    }

    /**
     * heap_downheapify: carry the root element down, moving the more
     * extreme child up while it may sit above that element, and store the
     * element where it stops.
     */
    method DownHeapify()
      requires at.Length == alloc + 1 && size < alloc && DownHole(order, key, at[..], size, 1, at[1])
      modifies at
      ensures Valid() && Elements() == old(Elements()) && at[0] == old(at[0])
      ensures forall j :: size < j < at.Length ==> at[j] == old(at[j])
    {
      ghost var g := at[..];
      var p, f := 1, 2;
      var m := size;
      var x := at[1];
      assert g[1 := x] == g;
      while f <= m
        invariant at[..] == g && m == size && f == 2 * p
        invariant 1 <= p <= m || (p == 1 && x == g[1])
        invariant DownHole(order, key, g, m, p, x)
        invariant Stored(g[p := x], m) == old(Elements())
        invariant g[0] == old(at[0]) && forall j :: m < j < at.Length ==> g[j] == old(at[j])
        decreases m + 1 - f
      {
        f := Child(p, m);
        var cmp := Compare(key, x, at[f]);
        if (order == MinHeap && cmp < 0) || (order == MaxHeap && cmp > 0) {
          DownDone(order, key, g, m, p, x);
          break;
        }
        DownStep(order, key, g, m, p, f, x);
        HoleStored(g, m, p, f, x);
        MoveUp(p, f);
        g := g[p := g[f]];
        p := f;
        f := 2 * p;
      }
      if f > m {
        DownDone(order, key, g, m, p, x);
      }
      at[p] := x;
      assert at[..] == g[p := x];
    }

    /** The child heap_downheapify compares with: the right one when there is one and it must sit above the left. */
    method Child(p: nat, m: nat) returns (f: nat)
      requires 1 <= p && 2 * p <= m < at.Length
      ensures 2 * p <= f <= 2 * p + 1 && f <= m
      ensures forall d :: 2 * p <= d <= 2 * p + 1 && d <= m ==> Ordered(order, key(at[f]), key(at[d]))
    {
      f := 2 * p;
      if f < m {
        var cmp := Compare(key, at[f], at[f + 1]);
        if (order == MinHeap && cmp > 0) || (order == MaxHeap && cmp < 0) {
          f := f + 1;
        }
      }
    }

    /** One move of heap_downheapify: the child in slot c fills the hole p. */
    method MoveUp(p: nat, c: nat)
      requires 1 <= p < c < at.Length
      modifies at
      ensures at[..] == old(at[..])[p := old(at[c])]
    {
      at[p] := at[c];
    }
  }

  /** A new element in the slot after a heap's last is out of place only against its parent. */
  lemma InsertHole<T>(order: Order, key: T -> int, s: seq<T>, n: nat, x: T)
    requires n + 1 < |s| && HeapOrder(order, key, s, n)
    ensures UpHole(order, key, s[n + 1 := x], n + 1, n + 1)
    ensures Stored(s[n + 1 := x], n + 1) == Stored(s, n) + multiset{x}
  {
    assert s[n + 1 := x][1..n + 2] == s[1..n + 1] + [x];
  }

  /** After the root moves to slot 0 and the last element to the root, slots 1..n-1 hold the rest. */
  lemma PopSlots<T>(s: seq<T>, n: nat, zero: T)
    requires 1 <= n < |s|
    ensures Stored(s[0 := s[1]][1 := s[n]][n := zero], n - 1) == Stored(s, n) - multiset{s[1]}
  {
    var t := s[0 := s[1]][1 := s[n]][n := zero];
    if n >= 2 {
      var rest := s[2..n];
      assert t[1..n] == [s[n]] + rest;
      assert s[1..n + 1] == [s[1]] + (rest + [s[n]]);
      assert multiset(s[1..n + 1]) == multiset{s[1]} + (multiset(rest) + multiset{s[n]});
    } else {
      assert s[1..n + 1] == [s[1]];
    }
  }

  /** After the same moves, slots 1..n-1 are a heap whose root is out of place. */
  lemma PopHole<T>(order: Order, key: T -> int, s: seq<T>, n: nat, zero: T)
    requires 1 <= n < |s| && HeapOrder(order, key, s, n)
    ensures var t := s[0 := s[1]][1 := s[n]][n := zero];
      DownHole(order, key, t, n - 1, 1, t[1])
  {
    var t := s[0 := s[1]][1 := s[n]][n := zero];
    forall i | 2 <= i <= n - 1 && i != 1 && i / 2 != 1
      ensures Ordered(order, key(t[i / 2]), key(t[i]))
    {
      assert t[i] == s[i] && t[i / 2] == s[i / 2];
    }
  }

  /** Three values pushed into a MAX_HEAP come back largest first. */
  method MaxHeapScenario() returns (a: int, b: int, c: int)
    ensures a == 8 && b == 5 && c == 2
  {
    var h := new Heap(3, 4, x => x, MaxHeap, 0);
    h.Insert(5);
    h.Insert(2);
    h.Insert(8);
    a := h.Pop();
    b := h.Pop();
    c := h.Pop();
  }

  /** The same values in a MIN_HEAP come back smallest first, and each pop leaves its value in slot 0. */
  method MinHeapScenario() returns (a: int, b: int, slot: int)
    ensures a == 2 && b == 5 && slot == 5
  {
    var h := new Heap(3, 4, x => x, MinHeap, 0);
    h.Insert(5);
    h.Insert(8);
    h.Insert(2);
    a := h.Pop();
    b := h.Pop();
    slot := h.at[0];
  }
}
