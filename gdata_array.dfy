/**
 * The header arrays of gdata/array.c: _array_alloc obtains a zero-filled
 * block from calloc, which it does not check, and _array_realloc returns
 * the reallocated block for the caller to keep. Element widths and byte
 * counts become element counts.
 */
module GdataArray {
  import opened Common
  import opened Mem
  import opened SizeHeader

  /**
   * _array_alloc: a block at `addr` with header `size`, holding the first
   * `size` values, or the zeros calloc leaves when there are none.
   */
  method Alloc<T(0)>(dataSize: nat, size: nat, values: Option<seq<T>>, zero: T, addr: nat) returns (b: Block<T>)
    requires values.Some? ==> size <= |values.value|
    ensures fresh(b) && fresh(b.data) && b.Valid() && b.size == size && b.addr == addr
    ensures b.data[..] == if values.Some? then values.value[..size] else Zeros(size, zero)
  {
    var buffer := new T[size](_ => zero);
    if values.Some? {
      CopyIn(buffer, 0, values.value[..size]);
    }
    b := new Block(addr, size, buffer);
  }

  /**
   * _array_realloc: the block reallocated to `newSize` elements at `addr`,
   * with the header set to `newSize` and the first min(old, new) elements
   * kept.
   */
  method Realloc<T(0)>(b: Block<T>, dataSize: nat, newSize: nat, addr: nat) returns (r: Block<T>)
    requires b.Valid()
    ensures fresh(r) && r.Valid() && r.size == newSize && r.addr == addr
    ensures forall i :: 0 <= i < b.size && i < newSize ==> r.data[i] == b.data[i]
  {
    r := ReallocBlock(b, newSize, addr);
    r.size := newSize;
  }

  /** [1, 2, 3] grown to five elements keeps its three; cut to two it keeps [1, 2]. */
  method ReallocScenario() returns (grown: nat, kept: seq<int>, cut: seq<int>)
    ensures grown == 5 && kept == [1, 2, 3] && cut == [1, 2]
  {
    var a := Alloc(4, 3, Some([1, 2, 3]), 0, 4096);
    var g := Realloc(a, 4, 5, 8192);
    grown, kept := g.size, g.data[..3];
    var c := Realloc(g, 4, 2, 4096);
    cut := c.data[..];
  }

  /** Without values every element is the zero calloc leaves. */
  method ZeroScenario() returns (size: nat, all: seq<int>)
    ensures size == 3 && all == [0, 0, 0]
  {
    var a := Alloc(4, 3, None, 0, 4096);
    size, all := a.size, a.data[..];
  }
}
