/**
 * The older double-ended vector of vector.c.
 *
 * The layout is that of src/vector.c (a buffer of `alloc` slots, a live
 * window of `size` elements at `offset`, the pointer `at` kept as the slot
 * index it points at) and growth is the same multiple-of-32 step, but the
 * idle-side threshold is counted in bytes: a side is trimmed once its
 * headroom passes limit = 512 / dsize elements, and it is trimmed by
 * limit * 2 / 3 elements. Unlike src/vector.c, push_front and pop_front
 * move `at` by pointer arithmetic instead of recomputing it from `offset`;
 * the class invariant shows that the two stay in step.
 */
module RootVector {
  import opened Common
  import opened Mem
  import SrcVector

  /** MAX_LATERAL_SIZE, in bytes. */
  const MaxLateralBytes: nat := 512

  /** The idle-side threshold in elements of `dsize` bytes. */
  function Limit(dsize: nat): (limit: nat)
    requires dsize > 0
    ensures limit * dsize <= MaxLateralBytes < (limit + 1) * dsize
  {
    MaxLateralBytes / dsize
  }

  /** The number of slots an idle side is trimmed by. */
  function Shrink(dsize: nat): (s: nat)
    requires dsize > 0
    ensures 3 * s <= 2 * Limit(dsize) < 3 * s + 3
  {
    Limit(dsize) * 2 / 3
  }

  class Vector<T(0)> {
    var begin: array<T>
    var at: nat
    var size: nat
    var offset: nat
    var alloc: nat
    /** Element width in bytes; it only sets the trimming threshold here. */
    var dsize: nat
    /** The live window, in order. */
    ghost var contents: seq<T>

    ghost predicate Valid()
      reads this, begin
    {
      && dsize > 0
      && alloc == begin.Length
      && offset + size <= alloc
      && at == offset
      && |contents| == size
      && forall k :: 0 <= k < size ==> begin[offset + k] == contents[k]
    }

    /**
     * _vec_create: a buffer of exactly `initialSize` slots, all of them
     * live, holding the values or zeros.
     */
    constructor (dataSize: nat, zero: T, initialSize: nat, values: Option<seq<T>>)
      requires dataSize > 0
      requires values.Some? ==> |values.value| == initialSize
      ensures Valid() && fresh(begin)
      ensures size == initialSize && alloc == initialSize && offset == 0 && dsize == dataSize
      ensures contents == InitialOrZeros(initialSize, values, zero)
    {
      var buf := new T[initialSize](_ => zero);
      if values.Some? {
        CopyIn(buf, 0, values.value);
      }
      begin := buf;
      at := 0;
      size := initialSize;
      offset := 0;
      alloc := initialSize;
      dsize := dataSize;
      contents := InitialOrZeros(initialSize, values, zero);
    }

    /** resize_right: change the allocation by `change` slots at the right end. */
    method ResizeRight(change: int)
      requires Valid()
      requires offset + size <= alloc + change
      modifies this
      ensures Valid() && fresh(begin)
      ensures alloc == old(alloc) + change
      ensures offset == old(offset) && size == old(size) && dsize == old(dsize)
      ensures contents == old(contents)
    {
      var newAlloc := alloc + change;
      var b := Realloc(begin, newAlloc);
      begin := b;
      alloc := newAlloc;
      at := offset;
    }

    /**
     * resize_left: change the allocation by `change` slots at the left end;
     * the window slides by `change` so that its contents are kept.
     */
    method ResizeLeft(change: int)
      requires Valid()
      requires offset + change >= 0
      modifies this, begin
      ensures Valid() && fresh(begin)
      ensures alloc == old(alloc) + change && offset == old(offset) + change
      ensures size == old(size) && dsize == old(dsize) && contents == old(contents)
    {
      var newOffset: nat := offset + change;
      var b := ReallocLeft(begin, offset, size, newOffset, contents);
      begin := b;
      alloc := alloc + change;
      offset := newOffset;
      at := offset;
    }

    /**
     * _vec_pushback: append `data` in order; the right side grows by
     * (n/32 + 1) * 32 when size + n reaches the right headroom.
     */
    method PushBack(data: seq<T>)
      requires Valid()
      modifies this, begin
      ensures Valid() && (begin == old(begin) || fresh(begin))
      ensures contents == old(contents) + data
      ensures size == old(size) + |data| && offset == old(offset) && dsize == old(dsize)
      ensures alloc == old(alloc) +
        (if old(size) + |data| >= old(alloc) - old(offset) - old(size) then SrcVector.Increment(|data|) else 0)
    {
      var available := alloc - offset - size;
      if size + |data| >= available {
        ResizeRight(SrcVector.Increment(|data|));
      }
      var dest := at + size;
      CopyIn(begin, dest, data);
      size := size + |data|;
      contents := contents + data;
    }

    /**
     * _vec_pushfront: prepend `data`, keeping its order; the left side
     * grows by (n/32 + 1) * 32 when n reaches the offset. The pointer `at`
     * is stepped back by n rather than recomputed.
     */
    method PushFront(data: seq<T>)
      requires Valid()
      modifies this, begin
      ensures Valid() && (begin == old(begin) || fresh(begin))
      ensures contents == data + old(contents)
      ensures size == old(size) + |data| && dsize == old(dsize)
      ensures var grown := if |data| >= old(offset) then SrcVector.Increment(|data|) else 0;
        alloc == old(alloc) + grown && offset == old(offset) + grown - |data|
    {
      if |data| >= offset {
        ResizeLeft(SrcVector.Increment(|data|));
      }
      size := size + |data|;
      offset := offset - |data|;
      at := at - |data|;
      CopyIn(begin, at, data);
      contents := data + contents;
    }

    /**
     * _vec_popback: return the last element and drop it; the right side is
     * trimmed by Shrink(dsize) slots when its headroom exceeds Limit(dsize).
     */
    method PopBack() returns (x: T)
      requires Valid() && size > 0
      modifies this
      ensures Valid() && (begin == old(begin) || fresh(begin))
      ensures x == old(contents)[old(size) - 1]
      ensures contents == old(contents)[..old(size) - 1]
      ensures size == old(size) - 1 && offset == old(offset) && dsize == old(dsize)
      ensures alloc == old(alloc) -
        (if old(alloc) - old(offset) - old(size) > Limit(dsize) then Shrink(dsize) else 0)
    {
      var right := alloc - (offset + size);
      var limit := Limit(dsize);
      if right > limit {
        ResizeRight(-(Shrink(dsize) as int));
      }
      size := size - 1;
      x := begin[at + size];
      contents := contents[..size];
    }

    /**
     * _vec_popfront: return the first element and advance the window; the
     * left side is trimmed by Shrink(dsize) slots when the offset exceeds
     * Limit(dsize). The pointer `at` is stepped forward by one element.
     */
    method PopFront() returns (x: T)
      requires Valid() && size > 0
      modifies this, begin
      ensures Valid() && (begin == old(begin) || fresh(begin))
      ensures x == old(contents)[0]
      ensures contents == old(contents)[1..]
      ensures size == old(size) - 1 && dsize == old(dsize)
      ensures var shrunk := if old(offset) > Limit(dsize) then Shrink(dsize) else 0;
        alloc == old(alloc) - shrunk && offset == old(offset) - shrunk + 1
    {
      var left := offset;
      var limit := Limit(dsize);
      if left > limit {
        ResizeLeft(-(Shrink(dsize) as int));
      }
      size := size - 1;
      offset := offset + 1;
      at := at + 1;
      x := begin[at - 1];
      contents := contents[1..];
    }

    /** The live window read out of the buffer, in order. */
    function Window(): (w: seq<T>)
      reads this, begin
      requires Valid()
      ensures w == contents
    {
      begin[at..at + size]
    }
  }

  /**
   * With 4-byte elements the threshold is 128 elements and the trim 85:
   * a vector whose right headroom is 200 gives 85 slots back on a pop.
   */
  method PopBackTrimScenario() returns (x: int, alloc: nat, w: seq<int>)
    ensures x == 3 && alloc == 203 - 85 && w == [1, 2]
  {
    var v := new Vector(4, 0, 3, Some([1, 2, 3]));
    v.ResizeRight(200);
    x := v.PopBack();
    alloc := v.alloc;
    w := v.Window();
  }

  /** Pushing in front of a vector with no left headroom and popping it again. */
  method PushFrontPopFrontScenario() returns (x: int, y: int, w: seq<int>)
    ensures x == 7 && y == 8 && w == [1, 2]
  {
    var v := new Vector(4, 0, 2, Some([1, 2]));
    v.PushFront([7, 8]);
    x := v.PopFront();
    y := v.PopFront();
    w := v.Window();
  }
}
