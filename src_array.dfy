/**
 * The fixed-size arrays of src/array.c: one allocation holding the `size`
 * header, the element width `dsize` and the elements. Whether malloc
 * succeeds, and whether realloc grows a block in place or moves it, are
 * parameters. `zero` is the all-zero element of the element type, what
 * memset writes.
 */
module SrcArray {
  import opened Common
  import opened Mem

  class Array<T(0)> {
    /** The size header. */
    var size: nat
    /** internal.dsize: element width in bytes. */
    const dsize: nat
    const zero: T
    /** The elements, `at[]`. */
    var at: array<T>

    /** The header counts the elements the block holds. */
    ghost predicate Valid()
      reads this
    {
      at.Length == size
    }

    /** The block as malloc leaves it: a header over a buffer the caller then fills. */
    constructor (size: nat, dsize: nat, zero: T, at: array<T>)
      ensures this.size == size && this.dsize == dsize && this.zero == zero && this.at == at
    {
      this.size := size;
      this.dsize := dsize;
      this.zero := zero;
      this.at := at;
    }
  }

  /**
   * array_create: a block of `initialSize` elements holding the first
   * `initialSize` initial values, or zeros when they are NULL; NULL when
   * malloc fails.
   */
  method Create<T(0)>(dsize: nat, initialSize: nat, values: Option<seq<T>>, zero: T, ok: bool)
    returns (a: Array?<T>)
    requires values.Some? ==> initialSize <= |values.value|
    ensures !ok <==> a == null
    ensures a != null ==> fresh(a) && fresh(a.at) && a.Valid()
    ensures a != null ==> a.size == initialSize && a.dsize == dsize && a.zero == zero
    ensures a != null ==> a.at[..] == if values.Some? then values.value[..initialSize] else Zeros(initialSize, zero)
  {
    if !ok {
      return null;
    }
    var buffer := new T[initialSize];
    if values.Some? {
      CopyIn(buffer, 0, values.value[..initialSize]);
    } else {
      Fill(buffer, 0, initialSize, zero);
    }
    a := new Array(initialSize, dsize, zero, buffer);
  }

  /**
   * array_resize as written: realloc, then the new size stored through the
   * pointer that was passed to realloc. When realloc grows the block in
   * place the result is the same block with the new size; when it moves the
   * block, the store lands in the released block and the block returned
   * keeps the old header.
   */
  method ResizeAsWritten<T(0)>(arr: Array<T>, newSize: nat, moved: bool) returns (r: Array<T>)
    requires arr.Valid()
    modifies arr
    ensures r.at.Length == newSize && r.dsize == arr.dsize && arr.size == newSize
    ensures forall i :: 0 <= i < old(arr.size) && i < newSize ==> r.at[i] == old(arr.at[i])
    ensures !moved ==> r == arr && r.Valid()
    ensures moved ==> fresh(r) && r.size == old(arr.size)
  {
    var buffer := Realloc(arr.at, newSize);
    if moved {
      r := new Array(arr.size, arr.dsize, arr.zero, buffer);
    } else {
      arr.at := buffer;
      r := arr;
    }
    arr.size := newSize;
  }

  /**
   * array_resize with the size stored in the block realloc returns: the
   * result holds `newSize` elements, the first min(old, new) of them kept.
   */
  method Resize<T(0)>(arr: Array<T>, newSize: nat, moved: bool) returns (r: Array<T>)
    requires arr.Valid()
    modifies arr
    ensures r.Valid() && r.size == newSize && r.dsize == arr.dsize && r.zero == arr.zero
    ensures forall i :: 0 <= i < old(arr.size) && i < newSize ==> r.at[i] == old(arr.at[i])
    ensures !moved ==> r == arr
    ensures moved ==> fresh(r) && arr.size == old(arr.size)
  {
    var buffer := Realloc(arr.at, newSize);
    if moved {
      r := new Array(arr.size, arr.dsize, arr.zero, buffer);
    } else {
      arr.at := buffer;
      r := arr;
    }
    r.size := newSize;
  }

  /**
   * array_join: a new block of A.size + B.size elements, A's followed by
   * B's. Both arrays hold elements of the same width.
   */
  method Join<T(0)>(a: Array<T>, b: Array<T>) returns (result: Array<T>)
    requires a.Valid() && b.Valid() && a.dsize == b.dsize
    ensures fresh(result) && fresh(result.at) && result.Valid()
    ensures result.size == a.size + b.size && result.dsize == a.dsize
    ensures result.at[..] == a.at[..] + b.at[..]
  {
    result := Create(a.dsize, a.size + b.size, None, a.zero, true);
    CopyIn(result.at, 0, a.at[..]);
    CopyIn(result.at, a.size, b.at[..]);
    assert result.at[..] == a.at[..] + b.at[..];
  }

  /**
   * array_slice: a new block holding elements [begin, end) of `array`,
   * created from them as initial values; NULL when malloc fails.
   */
  method Slice<T(0)>(arr: Array<T>, begin: nat, end: nat, ok: bool) returns (r: Array?<T>)
    requires arr.Valid() && begin <= end <= arr.size
    ensures !ok <==> r == null
    ensures r != null ==> fresh(r) && r.Valid() && r.size == end - begin && r.dsize == arr.dsize
    ensures r != null ==> r.at[..] == arr.at[begin..end]
  {
    r := Create(arr.dsize, end - begin, Some(arr.at[begin..]), arr.zero, ok);
  }

  /** array_equals: the same size, the same width and the same elements. */
  method Equals<T(0,==)>(a: Array<T>, b: Array<T>) returns (r: bool)
    requires a.Valid() && b.Valid()
    ensures r <==> a.size == b.size && a.dsize == b.dsize && a.at[..] == b.at[..]
  {
    if a.size != b.size || a.dsize != b.dsize {
      return false;
    }
    r := Same(a.at, b.at, a.size);
    assert a.at[..] == a.at[..a.size] && b.at[..] == b.at[..b.size];
  }

  /** Slicing a join at the length of its left part gives both parts back. */
  method JoinSliceRoundTrip<T(0,==)>(a: Array<T>, b: Array<T>) returns (left: bool, right: bool)
    requires a.Valid() && b.Valid() && a.dsize == b.dsize
    ensures left && right
  {
    var joined := Join(a, b);
    var l := Slice(joined, 0, a.size, true);
    var r := Slice(joined, a.size, joined.size, true);
    assert joined.at[..][..a.size] == a.at[..];
    assert joined.at[..][a.size..] == b.at[..];
    left := Equals(l, a);
    right := Equals(r, b);
  }

  /** [1, 2, 3] joined with [4, 5, 6] equals [1, 2, 3, 4, 5, 6] until one element of the latter changes. */
  method JoinScenario() returns (equal: bool, changed: bool)
    ensures equal && !changed
  {
    var a := Create(4, 3, Some([1, 2, 3]), 0, true);
    var b := Create(4, 3, Some([4, 5, 6]), 0, true);
    var expected := Create(4, 6, Some([1, 2, 3, 4, 5, 6]), 0, true);
    var c := Join(a, b);
    assert [1, 2, 3][..3] + [4, 5, 6][..3] == [1, 2, 3, 4, 5, 6][..6];
    equal := Equals(c, expected);
    expected.at[4] := 0;
    assert expected.at[..][4] != c.at[..][4];
    changed := Equals(c, expected);
  }

  /** The slice [2, 4) of [1, 2, 3, 4] has two elements and equals [3, 4], not [2, 3]. */
  method SliceScenario() returns (size: nat, same: bool, other: bool)
    ensures size == 2 && same && !other
  {
    var a := Create(4, 4, Some([1, 2, 3, 4]), 0, true);
    var yes := Create(4, 2, Some([3, 4]), 0, true);
    var no := Create(4, 2, Some([2, 3]), 0, true);
    var s := Slice(a, 2, 4, true);
    size := s.size;
    same := Equals(s, yes);
    assert s.at[..][0] != no.at[..][0];
    other := Equals(s, no);
  }

  /**
   * Growing [1, 2, 3, 4] to six elements: in place the header reads 6,
   * but when realloc moves the block the returned header still reads 4
   * over six slots.
   */
  method ResizeMovedScenario() returns (inPlace: nat, movedHeader: nat, movedSlots: nat)
    ensures inPlace == 6 && movedHeader == 4 && movedSlots == 6
  {
    var a := Create(4, 4, Some([1, 2, 3, 4]), 0, true);
    var r := ResizeAsWritten(a, 6, false);
    inPlace := r.size;
    var b := Create(4, 4, Some([1, 2, 3, 4]), 0, true);
    var m := ResizeAsWritten(b, 6, true);
    movedHeader, movedSlots := m.size, m.at.Length;
  }

  /** With the store fixed, growing [1, 2, 3, 4] to six elements keeps the four and counts six either way. */
  method ResizeScenario() returns (header: nat, first: int, fourth: int)
    ensures header == 6 && first == 1 && fourth == 4
  {
    var a := Create(4, 4, Some([1, 2, 3, 4]), 0, true);
    var r := Resize(a, 6, true);
    header, first, fourth := r.size, r.at[0], r.at[3];
  }
}
