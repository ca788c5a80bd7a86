/**
 * The header arrays of array.c: a block of a `size_t` header and the
 * elements. _array_realloc and _array_append take the caller's array
 * variable by reference (`Ref`) and store the reallocated block back into
 * it. Whether malloc succeeds and where realloc places a block are
 * parameters; `zero` is the all-zero element memset writes.
 */
module RootArray {
  import opened Common
  import opened Mem
  import opened SizeHeader

  /** The caller's array variable, passed as its address. */
  class Ref<T(0)> {
    var block: Block<T>

    constructor (b: Block<T>)
      ensures block == b
    {
      block := b;
    }
  }

  /**
   * _array_alloc: a block at `addr` with header `size`, holding the first
   * `size` values, or zeros when there are none; NULL when malloc fails.
   */
  method Alloc<T(0)>(dataSize: nat, size: nat, values: Option<seq<T>>, zero: T, ok: bool, addr: nat)
    returns (b: Block?<T>)
    requires values.Some? ==> size <= |values.value|
    ensures !ok <==> b == null
    ensures b != null ==> fresh(b) && fresh(b.data) && b.Valid() && b.size == size && b.addr == addr
    ensures b != null ==> b.data[..] == if values.Some? then values.value[..size] else Zeros(size, zero)
  {
    if !ok {
      return null;
    }
    var buffer := new T[size];
    if values.Some? {
      CopyIn(buffer, 0, values.value[..size]);
    } else {
      Fill(buffer, 0, size, zero);
    }
    b := new Block(addr, size, buffer);
  }

  /**
   * _array_realloc: the caller's block reallocated to `newSize` elements at
   * `addr`, its header set to `newSize`, the first min(old, new) elements
   * kept, and the caller's variable pointed at it.
   */
  method Realloc<T(0)>(ref: Ref<T>, dataSize: nat, newSize: nat, addr: nat)
    modifies ref
    ensures fresh(ref.block) && fresh(ref.block.data) && ref.block.Valid()
    ensures ref.block.size == newSize && ref.block.addr == addr
    ensures forall i :: 0 <= i < old(ref.block.data.Length) && i < newSize ==>
      ref.block.data[i] == old(ref.block.data[i])
  {
    var p := ReallocBlock(ref.block, newSize, addr);
    p.size := newSize;
    ref.block := p;
  }

  /**
   * _array_join: a new block at `addr` holding a's elements followed by
   * b's, with header a.size + b.size. The allocation is not checked.
   */
  method Join<T(0)>(a: Block<T>, b: Block<T>, dataSize: nat, zero: T, addr: nat) returns (result: Block<T>)
    requires a.Valid() && b.Valid()
    ensures fresh(result) && result.Valid() && result.size == a.size + b.size && result.addr == addr
    ensures result.data[..] == a.data[..] + b.data[..]
  {
    result := Alloc(dataSize, a.size + b.size, None, zero, true, addr);
    CopyIn(result.data, 0, a.data[..]);
    CopyIn(result.data, a.size, b.data[..]);
    assert result.data[..] == a.data[..] + b.data[..];
  }

  /**
   * _array_append as written: the length of `a` is read as the first word
   * of the reference, which is the caller's pointer and not the header, so
   * the block is reallocated to addr + b.size elements and b's elements
   * land at position addr.
   */
  method AppendAsWritten<T(0)>(a: Ref<T>, b: Block<T>, dataSize: nat, addr: nat)
    requires b.Valid()
    modifies a
    ensures fresh(a.block) && a.block.Valid() && a.block.addr == addr
    ensures a.block.size == old(a.block.addr) + b.size
    ensures forall i :: 0 <= i < b.size ==> a.block.data[old(a.block.addr) + i] == b.data[i]
  {
    var aSize := a.block.addr;
    var bSize := b.size;
    var local := new Ref(a.block);
    Realloc(local, dataSize, aSize + bSize, addr);
    CopyIn(local.block.data, aSize, b.data[..]);
    a.block := local.block;
  }

  /**
   * _array_append with the length read from the header: the caller's
   * array becomes its old elements followed by b's, as _array_join would
   * build them.
   */
  method Append<T(0)>(a: Ref<T>, b: Block<T>, dataSize: nat, addr: nat)
    requires a.block.Valid() && b.Valid()
    modifies a
    ensures fresh(a.block) && a.block.Valid() && a.block.addr == addr
    ensures a.block.size == old(a.block.size) + b.size
    ensures a.block.data[..] == old(a.block.data[..]) + b.data[..]
  {
    var aSize := a.block.size;
    var bSize := b.size;
    var local := new Ref(a.block);
    Realloc(local, dataSize, aSize + bSize, addr);
    CopyIn(local.block.data, aSize, b.data[..]);
    a.block := local.block;
    assert a.block.data[..] == old(a.block.data[..]) + b.data[..];
  }

  /**
   * [1, 2] at address 4096 appended with [3]: as written the header
   * becomes 4097; with the header read it becomes 3, and the elements are
   * those _array_join gives.
   */
  method AppendScenario() returns (asWritten: nat, fixed: nat, elements: seq<int>, joined: seq<int>)
    ensures asWritten == 4097 && fixed == 3 && elements == [1, 2, 3] && joined == elements
  {
    var a := Alloc(4, 2, Some([1, 2]), 0, true, 4096);
    var b := Alloc(4, 1, Some([3]), 0, true, 8192);
    var j := Join(a, b, 4, 0, 12288);
    joined := j.data[..];
    var ref := new Ref(a);
    AppendAsWritten(ref, b, 4, 16384);
    asWritten := ref.block.size;
    var ref2 := new Ref(a);
    Append(ref2, b, 4, 20480);
    fixed, elements := ref2.block.size, ref2.block.data[..];
  }

  /** Growing [1, 2, 3] to five elements through the caller's variable keeps the three and counts five. */
  method ReallocScenario() returns (size: nat, kept: seq<int>)
    ensures size == 5 && kept == [1, 2, 3]
  {
    var a := Alloc(4, 3, Some([1, 2, 3]), 0, true, 4096);
    var ref := new Ref(a);
    Realloc(ref, 4, 5, 8192);
    size, kept := ref.block.size, ref.block.data[..3];
  }
}
