/**
 * The block layout shared by array.c and gdata/array.c: a `size_t` size
 * header followed by the elements, in one allocation the caller holds a
 * pointer to. `addr` is the address the block lives at, the value that
 * pointer holds.
 */
module SizeHeader {
  import opened Mem

  class Block<T(0)> {
    /** Where the block lives: the pointer value a caller holds. */
    const addr: nat
    /** The size header. */
    var size: nat
    /** The elements after the header. */
    var data: array<T>

    /** The header counts the elements the block holds. */
    ghost predicate Valid()
      reads this
    {
      data.Length == size
    }

    /** The block as malloc leaves it: a header over a buffer the caller then fills. */
    constructor (addr: nat, size: nat, data: array<T>)
      ensures this.addr == addr && this.size == size && this.data == data
    {
      this.addr := addr;
      this.size := size;
      this.data := data;
    }
  }

  /**
   * realloc(block, header + newLen elements), landing at `addr`: a new
   * block whose header is copied and whose first min(old, new) elements
   * are kept.
   */
  method ReallocBlock<T(0)>(b: Block<T>, newLen: nat, addr: nat) returns (r: Block<T>)
    ensures fresh(r) && fresh(r.data) && r.addr == addr && r.size == b.size && r.data.Length == newLen
    ensures forall i :: 0 <= i < b.data.Length && i < newLen ==> r.data[i] == b.data[i]
  {
    var buffer := Realloc(b.data, newLen);
    r := new Block(addr, b.size, buffer);
  }
}
