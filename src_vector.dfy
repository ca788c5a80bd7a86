/**
 * The double-ended vector of src/vector.c.
 *
 * One backing buffer `begin` of `alloc` slots holds a live window of `size`
 * elements that starts at slot `offset`; the C pointer `at`, which must
 * always equal `begin + offset * dsize`, is kept here as the slot index it
 * points at. Element widths and byte copies become whole-element indices.
 * Pushing at either end grows that side by a multiple of 32 once its
 * headroom runs out; popping gives 32 slots back once a side idles past 64.
 */
module SrcVector {
  import opened Common
  import opened Mem

  /** VECTOR_INCREMENT */
  const Chunk: nat := 32
  /** MAX_LATERAL_SIZE */
  const MaxLateral: nat := 64

  /** The growth step of a push of `n` elements: (n/32 + 1) * 32. */
  function Increment(n: nat): (inc: nat)
    ensures inc > n && inc % Chunk == 0
  {
    (n / Chunk + 1) * Chunk
  }

  class Vector<T(0)> {
    var begin: array<T>
    var at: nat
    var size: nat
    var offset: nat
    var alloc: nat
    /** The live window, in order. */
    ghost var contents: seq<T>

    ghost predicate Valid()
      reads this, begin
    {
      && alloc == begin.Length
      && offset + size <= alloc
      && at == offset
      && |contents| == size
      && forall k :: 0 <= k < size ==> begin[offset + k] == contents[k]
    }

    /** Right headroom: free slots after the live window. */
    function Right(): nat
      reads this
      requires offset + size <= alloc
    {
      alloc - offset - size
    }

    /**
     * vector_create: a buffer of exactly `initialSize` slots, all of them
     * live, holding the initial values or zeros.
     */
    constructor (zero: T, initialSize: nat, initialValues: Option<seq<T>>)
      requires initialValues.Some? ==> |initialValues.value| == initialSize
      ensures Valid() && fresh(begin)
      ensures size == initialSize && alloc == initialSize && offset == 0
      ensures contents == InitialOrZeros(initialSize, initialValues, zero)
    {
      var buf := new T[initialSize](_ => zero);
      if initialValues.Some? {
        CopyIn(buf, 0, initialValues.value);
      }
      begin := buf;
      at := 0;
      size := initialSize;
      offset := 0;
      alloc := initialSize;
      contents := InitialOrZeros(initialSize, initialValues, zero);
    }

    /**
     * resize_right: change the allocation by `change` slots at the right
     * end; the live window stays where it is.
     */
    method ResizeRight(change: int)
      requires Valid()
      requires offset + size <= alloc + change
      modifies this
      ensures Valid() && fresh(begin)
      ensures alloc == old(alloc) + change
      ensures offset == old(offset) && size == old(size) && contents == old(contents)
    {
      var newAlloc := alloc + change;
      var b := Realloc(begin, newAlloc);
      begin := b;
      alloc := newAlloc;
      at := offset;
    }

    /**
     * resize_left: change the allocation by `change` slots at the left end;
     * the window slides by `change` so that its contents are kept.
     */
    method ResizeLeft(change: int)
      requires Valid()
      requires offset + change >= 0
      modifies this, begin
      ensures Valid() && fresh(begin)
      ensures alloc == old(alloc) + change && offset == old(offset) + change
      ensures size == old(size) && contents == old(contents)
    {
      var newOffset: nat := offset + change;
      var b := ReallocLeft(begin, offset, size, newOffset, contents);
      begin := b;
      alloc := alloc + change;
      offset := newOffset;
      at := offset;
    }

    /**
     * vector_pushback: append `data` in order; the right side grows by
     * Increment(|data|) when size + |data| reaches the right headroom.
     */
    method PushBack(data: seq<T>)
      requires Valid()
      modifies this, begin
      ensures Valid() && (begin == old(begin) || fresh(begin))
      ensures contents == old(contents) + data
      ensures size == old(size) + |data| && offset == old(offset)
      ensures alloc == old(alloc) + (if old(size) + |data| >= old(Right()) then Increment(|data|) else 0)
    {
      var available := alloc - offset - size;
      if size + |data| >= available {
        ResizeRight(Increment(|data|));
      }
      CopyIn(begin, at + size, data);
      size := size + |data|;
      contents := contents + data;
    }

    /**
     * vector_pushfront: prepend `data`, keeping its order; the left side
     * grows by Increment(|data|) when |data| reaches the offset.
     */
    method PushFront(data: seq<T>)
      requires Valid()
      modifies this, begin
      ensures Valid() && (begin == old(begin) || fresh(begin))
      ensures contents == data + old(contents)
      ensures size == old(size) + |data|
      ensures var grown := if |data| >= old(offset) then Increment(|data|) else 0;
        alloc == old(alloc) + grown && offset == old(offset) + grown - |data|
    {
      if |data| >= offset {
        ResizeLeft(Increment(|data|));
      }
      size := size + |data|;
      offset := offset - |data|;
      at := offset;
      CopyIn(begin, at, data);
      contents := data + contents;
    }

    /**
     * vector_popback: return the last element and drop it; 32 slots are
     * returned on the right when its headroom exceeds 64.
     */
    method PopBack() returns (x: T)
      requires Valid() && size > 0
      modifies this
      ensures Valid() && (begin == old(begin) || fresh(begin))
      ensures x == old(contents)[old(size) - 1]
      ensures contents == old(contents)[..old(size) - 1]
      ensures size == old(size) - 1 && offset == old(offset)
      ensures alloc == old(alloc) - (if old(Right()) > MaxLateral then Chunk else 0)
    {
      var right := alloc - (offset + size);
      if right > MaxLateral {
        ResizeRight(-(Chunk as int));
      }
      size := size - 1;
      x := begin[at + size];
      contents := contents[..size];
    }

    /**
     * vector_popfront: return the first element and advance the offset;
     * the window slides 32 slots left when the offset exceeds 64.
     */
    method PopFront() returns (x: T)
      requires Valid() && size > 0
      modifies this, begin
      ensures Valid() && (begin == old(begin) || fresh(begin))
      ensures x == old(contents)[0]
      ensures contents == old(contents)[1..]
      ensures size == old(size) - 1
      ensures var shrunk := if old(offset) > MaxLateral then Chunk else 0;
        alloc == old(alloc) - shrunk && offset == old(offset) - shrunk + 1
    {
      var left := offset;
      if left > MaxLateral {
        ResizeLeft(-(Chunk as int));
      }
      size := size - 1;
      offset := offset + 1;
      at := at + 1;
      x := begin[at - 1];
      contents := contents[1..];
    }

    /**
     * vector_remove: delete the element at `index`, shifting whichever side
     * is shorter; only shifting the left part moves the offset.
     */
    method Remove(index: nat)
      requires Valid() && index < size
      modifies this, begin
      ensures Valid() && begin == old(begin) && alloc == old(alloc)
      ensures contents == old(contents)[..index] + old(contents)[index + 1..]
      ensures size == old(size) - 1
      ensures offset == old(offset) + (if index > old(size) / 2 then 0 else 1)
    {
      ghost var was := contents;
      if index > size / 2 {
        Move(begin, at + index, at + index + 1, size - index - 1);
      } else {
        Move(begin, at + 1, at, index);
        at := at + 1;
        offset := offset + 1;
      }
      size := size - 1;
      contents := was[..index] + was[index + 1..];
      assert forall k :: 0 <= k < size ==> begin[offset + k] == contents[k];
    }

    /** The live window read out of the buffer, in order. */
    function Window(): (w: seq<T>)
      reads this, begin
      requires Valid()
      ensures w == contents
    {
      begin[at..at + size]
    }

    /** vector_at: the element at logical position `index`. */
    function At(index: nat): (x: T)
      reads this, begin
      requires Valid() && index < size
      ensures x == contents[index]
    {
      begin[at + index]
    }
  }

  /** tests/test_vector.c, create: the window of a vector built from 1,2,3,4. */
  method CreateScenario() returns (length: nat, w: seq<int>)
    ensures length == 4 && w == [1, 2, 3, 4]
  {
    var v := new Vector(0, 4, Some([1, 2, 3, 4]));
    length := v.size;
    w := v.Window();
  }

  /** tests/test_vector.c, pushback: two values pushed onto an empty vector. */
  method PushBackScenario() returns (length: nat, w: seq<int>)
    ensures length == 2 && w == [9, 3]
  {
    var v := new Vector(0, 0, None);
    v.PushBack([9, 3]);
    length := v.size;
    w := v.Window();
  }

  /** tests/test_vector.c, remove: removing index 3 and then index 1 from 1..5. */
  method RemoveScenario() returns (w1: seq<int>, w2: seq<int>)
    ensures w1 == [1, 2, 3, 5] && w2 == [1, 3, 5]
  {
    var v := new Vector(0, 5, Some([1, 2, 3, 4, 5]));
    v.Remove(3);
    w1 := v.Window();
    v.Remove(1);
    w2 := v.Window();
  }

  /** tests/test_vector.c, pushfront: 1,2,3 pushed in front of 1,2 keep their order. */
  method PushFrontScenario() returns (w: seq<int>)
    ensures w == [1, 2, 3, 1, 2]
  {
    var v := new Vector(0, 2, Some([1, 2]));
    v.PushFront([1, 2, 3]);
    w := v.Window();
  }

  /** tests/test_vector.c, popback: 4 and then 3 come off the back of 1,2,3,4. */
  method PopBackScenario() returns (x: int, w: seq<int>, y: int)
    ensures x == 4 && w == [1, 2, 3] && y == 3
  {
    var v := new Vector(0, 4, Some([1, 2, 3, 4]));
    x := v.PopBack();
    w := v.Window();
    y := v.PopBack();
  }

  /** tests/test_vector.c, popfront: 1 and then 2 come off the front of 1,2,3,4. */
  method PopFrontScenario() returns (x: int, w: seq<int>, y: int)
    ensures x == 1 && w == [2, 3, 4] && y == 2
  {
    var v := new Vector(0, 4, Some([1, 2, 3, 4]));
    x := v.PopFront();
    w := v.Window();
    y := v.PopFront();
  }
}
