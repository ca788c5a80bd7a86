/**
 * The libc memory primitives the containers are built from, stated on
 * Dafny arrays with element indices in place of byte addresses:
 * `realloc` (a new buffer that keeps the common prefix), `memmove` (a copy
 * inside one buffer whose ranges may overlap) and `memcpy` from a caller's
 * data into a buffer, `memset` to the all-zero element and `memcmp`
 * for equality. Every contract is pointwise: it says which slot
 * holds which value.
 */
module Mem {
  import opened Common

  /**
   * realloc(a, newLen): a buffer of `newLen` slots whose first
   * min(old, new) slots hold the old values; the rest are uninitialised
   * (here: whatever Dafny's default element is).
   */
  method Realloc<T(0)>(a: array<T>, newLen: nat) returns (b: array<T>)
    ensures fresh(b) && b.Length == newLen
    ensures forall i :: 0 <= i < a.Length && i < newLen ==> b[i] == a[i]
  {
    b := new T[newLen];
    var n := Min(a.Length, newLen);
    var i := 0;
    while i < n
      invariant 0 <= i <= n
      invariant forall j :: 0 <= j < i ==> b[j] == a[j]
    {
      b[i] := a[i];
      i := i + 1;
    }
  }

  /**
   * memmove(a + dst, a + src, count): slot `i` of [dst, dst + count)
   * receives the old value of slot `i - dst + src`; every other slot keeps
   * its value. The copy runs upwards or downwards so that overlapping
   * ranges are read before they are overwritten.
   */
  method Move<T>(a: array<T>, dst: nat, src: nat, count: nat)
    requires dst + count <= a.Length && src + count <= a.Length
    modifies a
    ensures forall i :: dst <= i < dst + count ==> a[i] == old(a[i - dst + src])
    ensures forall i :: 0 <= i < a.Length && !(dst <= i < dst + count) ==> a[i] == old(a[i])
  {
    ghost var was := a[..];
    if dst <= src {
      var k := 0;
      while k < count
        invariant 0 <= k <= count
        invariant forall i :: dst <= i < dst + k ==> a[i] == was[i - dst + src]
        invariant forall i :: 0 <= i < dst || dst + k <= i < a.Length ==> a[i] == was[i]
      {
        a[dst + k] := a[src + k];
        k := k + 1;
      }
    } else {
      var k := count;
      while k > 0
        invariant 0 <= k <= count
        invariant forall i :: dst + k <= i < dst + count ==> a[i] == was[i - dst + src]
        invariant forall i :: 0 <= i < dst + k || dst + count <= i < a.Length ==> a[i] == was[i]
      {
        k := k - 1;
        a[dst + k] := a[src + k];
      }
    }
  }

  /**
   * memcpy(a + dst, data, |data|): slot `i` of [dst, dst + |data|) receives
   * data[i - dst]; every other slot keeps its value.
   */
  method CopyIn<T>(a: array<T>, dst: nat, data: seq<T>)
    requires dst + |data| <= a.Length
    modifies a
    ensures forall i :: dst <= i < dst + |data| ==> a[i] == data[i - dst]
    ensures forall i :: 0 <= i < a.Length && !(dst <= i < dst + |data|) ==> a[i] == old(a[i])
  {
    var k := 0;
    while k < |data|
      invariant 0 <= k <= |data|
      invariant forall i :: dst <= i < dst + k ==> a[i] == data[i - dst]
      invariant forall i :: 0 <= i < a.Length && !(dst <= i < dst + k) ==> a[i] == old(a[i])
    {
      a[dst + k] := data[k];
      k := k + 1;
    }
  }

  /**
   * The left-end resize of a buffer holding a window `vals` at `offset`:
   * when the buffer grows (newOffset > offset) it is reallocated first and
   * the window then moved up; when it shrinks, the window is moved down
   * first and the buffer then cut. Either way the window lands at
   * `newOffset` of a buffer that changed length by newOffset - offset.
   */
  method ReallocLeft<T(0)>(a: array<T>, offset: nat, size: nat, newOffset: nat, ghost vals: seq<T>)
    returns (b: array<T>)
    requires size == |vals| && offset + size <= a.Length && a.Length + newOffset >= offset
    requires forall k :: 0 <= k < size ==> a[offset + k] == vals[k]
    modifies a
    ensures fresh(b) && b.Length == a.Length + newOffset - offset
    ensures forall k :: 0 <= k < size ==> b[newOffset + k] == vals[k]
  {
    var newLen := a.Length + newOffset - offset;
    if newOffset > offset {
      b := Realloc(a, newLen);
      Move(b, newOffset, offset, size);
    } else {
      Move(a, newOffset, offset, size);
      b := Realloc(a, newLen);
    }
  }

  /** memset(a + lo, 0, hi - lo): the slots of [lo, hi) receive `v`; every other slot keeps its value. */
  method Fill<T>(a: array<T>, lo: nat, hi: nat, v: T)
    requires lo <= hi <= a.Length
    modifies a
    ensures forall i :: lo <= i < hi ==> a[i] == v
    ensures forall i :: 0 <= i < a.Length && !(lo <= i < hi) ==> a[i] == old(a[i])
  {
    var k := lo;
    while k < hi
      invariant lo <= k <= hi
      invariant forall i :: lo <= i < k ==> a[i] == v
      invariant forall i :: 0 <= i < a.Length && !(lo <= i < k) ==> a[i] == old(a[i])
    {
      a[k] := v;
      k := k + 1;
    }
  }

  /** memcmp(a, b, n) == 0: the first `n` slots of the two buffers agree. */
  method Same<T(==)>(a: array<T>, b: array<T>, n: nat) returns (r: bool)
    requires n <= a.Length && n <= b.Length
    ensures r <==> a[..n] == b[..n]
  {
    var k := 0;
    while k < n
      invariant k <= n && a[..k] == b[..k]
    {
      if a[k] != b[k] {
        assert a[..n][k] != b[..n][k];
        return false;
      }
      assert a[..k + 1] == a[..k] + [a[k]] && b[..k + 1] == b[..k] + [b[k]];
      k := k + 1;
    }
    return true;
  }
}
