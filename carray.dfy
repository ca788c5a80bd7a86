/**
 * The arrays of C/Array.c: a `struct array` of a `data` pointer, the
 * element count `size`, an `iterator` position, the element width
 * `data_size` and an optional `valueDestructor`, allocated by calloc
 * together with the elements. Addresses are byte offsets; what the
 * destructor does is not visible, so Array_clear reports the element
 * positions it hands to it.
 */
module CArray {
  import opened Common
  import opened Mem

  /** sizeof(struct array) on an LP64 target: five 8-byte members. */
  const StructBytes: nat := 40

  /** _array_at: the address of element `index` of the data that starts at `data`. */
  function ElementAddress(data: nat, dataSize: nat, index: nat): (r: nat)
    ensures index == 0 ==> r == data
    ensures index > 0 ==> r == ElementAddress(data, dataSize, index - 1) + dataSize
  {
    data + dataSize * index
  }

  /** Consecutive elements occupy consecutive, non-overlapping ranges of `dataSize` bytes. */
  lemma ElementsDisjoint(data: nat, dataSize: nat, i: nat, j: nat)
    requires i < j
    ensures ElementAddress(data, dataSize, i) + dataSize <= ElementAddress(data, dataSize, j)
  {
    var d := j - i - 1;
    assert dataSize * j == dataSize * i + dataSize * d + dataSize;
    assert dataSize * d >= 0;
  }

  /**
   * The data pointer as _array_create sets it: `array + sizeof(struct
   * array)` advances a `struct array *` by that many structs, so the data
   * starts StructBytes * StructBytes bytes into the block.
   */
  function DataOffsetAsWritten(): (r: nat)
    ensures r == DataOffset() + 39 * StructBytes
  {
    StructBytes * StructBytes
  }

  /** The data pointer one struct past the header, where the calloc'd room for the elements is. */
  function DataOffset(): (r: nat)
    ensures r == BlockBytes(0, 0)
  {
    StructBytes
  }

  /** The bytes calloc gives _array_create: the header and `size` elements. */
  function BlockBytes(size: nat, dataSize: nat): nat {
    StructBytes + size * dataSize
  }

  /** As written, the last element ends past the block calloc returned, whatever the size. */
  lemma LastElementOutsideAsWritten(size: nat, dataSize: nat)
    requires size >= 1 && dataSize >= 1
    ensures ElementAddress(DataOffsetAsWritten(), dataSize, size - 1) + dataSize > BlockBytes(size, dataSize)
  {
    assert dataSize * (size - 1) + dataSize == size * dataSize;
  }

  /** With the data one struct past the header, every element lies inside the block, after the header. */
  lemma ElementsInside(size: nat, dataSize: nat, i: nat)
    requires i < size
    ensures StructBytes <= ElementAddress(DataOffset(), dataSize, i)
    ensures ElementAddress(DataOffset(), dataSize, i) + dataSize <= BlockBytes(size, dataSize)
  {
    ElementsDisjoint(DataOffset(), dataSize, i, size);
  }

  /** The positions lo, lo + 1, ..., hi - 1. */
  function Indices(lo: nat, hi: nat): (r: seq<nat>)
    ensures |r| == if lo < hi then hi - lo else 0
    ensures forall k :: 0 <= k < |r| ==> r[k] == lo + k
    decreases hi - lo
  {
    if lo < hi then [lo] + Indices(lo + 1, hi) else []
  }

  class Array<T(0)> {
    /** The elements; `size` of them are in use, the buffer may be longer after a shrink. */
    var data: array<T>
    var size: nat
    /** The struct's iterator position. */
    var iter: nat
    const dataSize: nat
    /** Whether a valueDestructor is set. */
    var destructor: bool
    /** The all-zero element calloc and memset leave. */
    const zero: T

    ghost predicate Valid()
      reads this
    {
      size <= data.Length
    }

    /**
     * _array_create: `size` elements from calloc, each then copied from the
     * values when given; the iterator at 0 and no destructor.
     */
    constructor (dataSize: nat, size: nat, values: Option<seq<T>>, zero: T)
      requires values.Some? ==> size <= |values.value|
      ensures Valid() && fresh(data) && data.Length == size && this.size == size
      ensures this.dataSize == dataSize && this.zero == zero && iter == 0 && !destructor
      ensures data[..] == if values.Some? then values.value[..size] else Zeros(size, zero)
    {
      var buffer := new T[size](_ => zero);
      if values.Some? {
        for i := 0 to size
          invariant forall k :: 0 <= k < i ==> buffer[k] == values.value[k]
        {
          buffer[i] := values.value[i];
        }
        assert buffer[..] == values.value[..size];
      }
      data := buffer;
      this.size := size;
      iter := 0;
      this.dataSize := dataSize;
      destructor := false;
      this.zero := zero;
    }

    /** _array_realloc: the new size first, then the elements reallocated to it, the first min(old, new) kept. */
    method Realloc(newSize: nat)
      requires Valid()
      modifies this
      ensures Valid() && size == newSize && fresh(data) && data.Length == newSize
      ensures forall i :: 0 <= i < old(size) && i < newSize ==> data[i] == old(data[i])
      ensures iter == old(iter) && destructor == old(destructor)
    {
      size := newSize;
      data := Mem.Realloc(data, newSize);
    }

    /**
     * Array_resize: the size becomes `newSize` either way; the elements are
     * reallocated only when growing or when shrinking below a fifth of the
     * old size, and otherwise stay where they are.
     */
    method Resize(newSize: nat)
      requires Valid()
      modifies this
      ensures Valid() && size == newSize
      ensures (newSize > old(size) || 5 * newSize < old(size)) ==> fresh(data) && data.Length == newSize
      ensures !(newSize > old(size) || 5 * newSize < old(size)) ==> data == old(data)
      ensures forall i :: 0 <= i < old(size) && i < newSize ==> data[i] == old(data[i])
      ensures iter == old(iter) && destructor == old(destructor)
    {
      if newSize > size || 5 * newSize < size {
        Realloc(newSize);
      } else {
        size := newSize;
      }
    }

    /**
     * Array_forEach: the position under the iterator, which then advances;
     * past the end, NULL, and the iterator goes back to 0.
     */
    method ForEach() returns (r: Option<nat>)
      modifies this
      ensures old(iter) < size ==> r == Some(old(iter)) && iter == old(iter) + 1
      ensures old(iter) >= size ==> r == None && iter == 0
      ensures data == old(data) && size == old(size) && destructor == old(destructor)
    {
      if iter < size {
        r := Some(iter);
        iter := iter + 1;
      } else {
        iter := 0;
        r := None;
      }
    }

    /**
     * Array_clear: with a destructor, the walk of Array_forEach from the
     * current position hands it every remaining position and leaves the
     * iterator at 0; then the `size` elements become zero.
     */
    method Clear() returns (destroyed: seq<nat>)
      requires Valid()
      modifies this, data
      ensures Valid() && data == old(data) && size == old(size) && destructor == old(destructor)
      ensures destroyed == if destructor then Indices(old(iter), size) else []
      ensures iter == if destructor then 0 else old(iter)
      ensures forall i :: 0 <= i < size ==> data[i] == zero
      ensures forall i :: size <= i < data.Length ==> data[i] == old(data[i])
    {
      destroyed := [];
      if destructor {
        destroyed := Walk();
      }
      Fill(data, 0, size, zero);
    }

    /** The destructor loop of Array_clear: Array_forEach until NULL. */
    method Walk() returns (seen: seq<nat>)
      modifies this
      ensures seen == Indices(old(iter), size) && iter == 0
      ensures data == old(data) && size == old(size) && destructor == old(destructor)
    {
      ghost var start := iter;
      seen := [];
      var d := ForEach();
      while d.Some?
        invariant data == old(data) && size == old(size) && destructor == old(destructor)
        invariant d.Some? ==> start < iter <= size && d.value == iter - 1 && seen == Indices(start, iter - 1)
        invariant d.None? ==> iter == 0 && seen == Indices(start, size)
        decreases if d.Some? then size - iter + 1 else 0
      {
        seen := seen + [d.value];
        IndicesSnoc(start, d.value);
        d := ForEach();
      }
    }
  }

  /** One more position at the end. */
  lemma IndicesSnoc(lo: nat, hi: nat)
    requires lo <= hi
    ensures Indices(lo, hi) + [hi] == Indices(lo, hi + 1)
  {
    assert Indices(lo, hi + 1)[hi - lo] == hi;
  }

  /** [1, 2, 3] walked by Array_forEach gives its positions in order, then NULL, then starts over. */
  method ForEachScenario() returns (a: Option<nat>, b: Option<nat>, c: Option<nat>, end: Option<nat>, again: Option<nat>)
    ensures a == Some(0) && b == Some(1) && c == Some(2) && end == None && again == Some(0)
  {
    var arr := new Array(4, 3, Some([1, 2, 3]), 0);
    a := arr.ForEach();
    b := arr.ForEach();
    c := arr.ForEach();
    end := arr.ForEach();
    again := arr.ForEach();
  }

  /** Clearing after one step of the walk destroys the two remaining elements and zeroes all three. */
  method ClearScenario() returns (destroyed: seq<nat>, values: seq<int>, it: nat)
    ensures destroyed == [1, 2] && values == [0, 0, 0] && it == 0
  {
    var arr := new Array(4, 3, Some([1, 2, 3]), 0);
    arr.destructor := true;
    var _ := arr.ForEach();
    destroyed := arr.Clear();
    assert Indices(1, 3) == [1, 2];
    values, it := arr.data[..3], arr.iter;
  }

  /** From ten elements, three keeps the buffer, one reallocates it, and growing to five reallocates again. */
  method ResizeScenario() returns (kept: bool, first: int, size: nat, slots: nat)
    ensures kept && first == 7 && size == 5 && slots == 5
  {
    var arr := new Array(4, 10, None, 0);
    arr.data[0] := 7;
    var before := arr.data;
    arr.Resize(3);
    kept := arr.data == before;
    arr.Resize(1);
    arr.Resize(5);
    first, size, slots := arr.data[0], arr.size, arr.data.Length;
  }
}
