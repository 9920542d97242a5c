/**
  The task-memory allocator of src/memory.c. PAL_CoTaskMemAlloc normalises
  and rounds the requested size before handing it to `aligned_alloc`; that
  call and `free` are foreign, so the heap is modelled abstractly: a set of
  live blocks, each an array of bytes whose first byte is the 8-aligned
  address the allocator returned.
*/
module CoTaskMem {
  import opened PalTypes

  /** The alignment of every block's address, and the unit request sizes are rounded up to. */
  const ALIGN: int := 8

  /**
    PTRDIFF_MAX: no C object may be larger, and the allocator refuses a
    request above it.
  */
  const MAX_OBJECT_SIZE: int := 0x7FFF_FFFF_FFFF_FFFF

  /**
    The size PAL_CoTaskMemAlloc passes to `aligned_alloc` for a request of
    `cb` bytes, or None when it returns null without allocating.
    A zero request is treated as ALIGN bytes; the size is rounded up to a
    multiple of ALIGN with wrap-around at SIZE_MAX; a rounded size below the
    request means the addition wrapped.
  */
  function AlignedSize(cb: SizeT): (r: Option<SizeT>)
    ensures r.None? <==> cb > SIZE_MAX - (ALIGN - 1)
    ensures cb == 0 ==> r == Some(ALIGN)
    ensures r.Some? ==> r.value % ALIGN == 0 && cb <= r.value && ALIGN <= r.value
    ensures r.Some? && cb != 0 ==> r.value < cb + ALIGN
  {
    var cb := if cb == 0 then ALIGN else cb;
    var sum := (cb + (ALIGN - 1)) % SIZE_T_RANGE;
    // `& ~(ALIGN - 1)` clears the three low bits.
    var cbSafe := sum - sum % ALIGN;
    if cbSafe < cb then None else Some(cbSafe)
  }

  /** The rounded size is the least multiple of ALIGN that covers the request. */
  lemma AlignedSizeIsLeast(cb: SizeT, m: int)
    requires AlignedSize(cb).Some?
    requires m % ALIGN == 0 && cb <= m && ALIGN <= m
    ensures AlignedSize(cb).value <= m
  {
  }

  /** A pointer: null, or an offset into an allocated block. */
  datatype Ptr = Null | Ptr(block: array<uint8>, offset: int)

  /** The allocator's state: the blocks allocated and not yet freed. */
  class Heap {
    var live: set<array<uint8>>

    constructor ()
      ensures live == {}
    {
      live := {};
    }

    /**
      PAL_CoTaskMemAlloc (src/memory.c:27-39). `exhausted` stands for the
      outcome of the foreign `aligned_alloc` call on a size it could serve;
      a size above MAX_OBJECT_SIZE it always refuses.
    */
    method CoTaskMemAlloc(cb: SizeT, exhausted: bool) returns (p: Ptr)
      modifies this
      ensures p.Null? <==> AlignedSize(cb).None? || exhausted || AlignedSize(cb).value > MAX_OBJECT_SIZE
      ensures p.Null? ==> live == old(live)
      ensures p.Ptr? ==> p.offset == 0 && fresh(p.block)
                         && p.block.Length == AlignedSize(cb).value
                         && live == old(live) + {p.block}
    {
      var size := AlignedSize(cb);
      if size.None? {
        return Null;
      }
      if exhausted || size.value > MAX_OBJECT_SIZE {
        return Null;
      }
      var block := new uint8[size.value];
      live := live + {block};
      return Ptr(block, 0);
    }

    /**
      PAL_CoTaskMemFree (src/memory.c:41-44): `free` accepts null or exactly
      the start of a live block.
    */
    method CoTaskMemFree(pv: Ptr)
      requires pv.Ptr? ==> pv.offset == 0 && pv.block in live
      modifies this
      ensures live == if pv.Ptr? then old(live) - {pv.block} else old(live)
    {
      if pv.Ptr? {
        live := live - {pv.block};
      }
    }
  }
}
