/**
  The BSTR engine of src/bstr.c, 64-bit layout. One allocation holds

    | 0 0 0 0 | byte length (4, little-endian) | payload ... | terminator(s) |
    ^ allocator address                       ^ the BSTR pointer (offset 8)

  The first four bytes are padding so that the payload lands 8 bytes past
  the 8-aligned allocator address. The byte length is stored, not derived,
  so a payload may contain zero units.
*/
module Bstr {
  import opened PalTypes
  import opened WideStrings
  import opened CoTaskMem

  const SIZEOF_SIZE_T: int := 8
  const SIZEOF_OLECHAR: int := 2
  const SIZEOF_UINT: int := 4
  /** Room for the padded prefix and one wide terminator. */
  const BSTR_MIN_ALLOC: int := SIZEOF_SIZE_T + SIZEOF_OLECHAR
  /** Bytes AllocAlignedBstr skips (and zeroes) on a 64-bit platform. */
  const PAD: int := 4
  /** Offset of the payload, i.e. of the BSTR pointer, in its allocation. */
  const PAYLOAD: int := PAD + SIZEOF_UINT
  /** UINT is a signed 32-bit integer: stored lengths stay below this bound. */
  const UINT_LIMIT: int := 0x8000_0000
  /** UINT_MAX of <limits.h>: the largest `unsigned int`, not the largest UINT. */
  const UINT_MAX: int := 0xFFFF_FFFF

  lemma MulMonotone(b: nat, x: int, y: int)
    requires x <= y
    ensures b * x <= b * y
  {
    assert b * y - b * x == b * (y - x);
  }

  /** Integer division is determined by the bounds on the quotient. */
  lemma DivUnique(p: int, b: int, q: int)
    requires b > 0 && b * q <= p < b * q + b
    ensures p / b == q
  {
    var q' := p / b;
    assert p == b * q' + p % b;
    if q' > q {
      MulMonotone(b, q + 1, q');
      assert false;
    }
    if q' < q {
      MulMonotone(b, q', q - 1);
      assert false;
    }
  }

  /** The division back-check detects exactly the wrapped products. */
  lemma MulOverflowCheck(a: SizeT, b: SizeT)
    requires b != 0
    ensures ((a * b) % SIZE_T_RANGE) / b == a <==> a * b <= SIZE_MAX
  {
    var p := a * b;
    var m := p % SIZE_T_RANGE;
    if p <= SIZE_MAX {
      assert m == p;
      DivUnique(p, b, a);
    } else {
      assert m < p;
      assert m == b * (m / b) + m % b;
      if m / b == a {
        assert false;
      }
    }
  }

  /** What the C code can observe of `elemCount * elemSize` in SIZE_T. */
  lemma WrappedProduct(a: SizeT, b: SizeT)
    ensures b != 0 && ((a * b) % SIZE_T_RANGE) / b != a <==> a * b > SIZE_MAX
    ensures a * b <= SIZE_MAX ==> (a * b) % SIZE_T_RANGE == a * b
  {
    if b != 0 {
      MulOverflowCheck(a, b);
    }
  }

  /**
    ComputeAllocSize (src/bstr.c:46-61): `elemCount * elemSize` plus the
    minimum allocation, failing when either the product or the sum would
    wrap SIZE_T.
  */
  function ComputeAllocSize(elemCount: SizeT, elemSize: SizeT): (r: Option<SizeT>)
    ensures r.None? <==> elemCount * elemSize > SIZE_MAX - BSTR_MIN_ALLOC
    ensures r.Some? ==> r.value == elemCount * elemSize + BSTR_MIN_ALLOC
  {
    var allocMaybe := (elemCount * elemSize) % SIZE_T_RANGE;
    WrappedProduct(elemCount, elemSize);
    if elemSize != 0 && allocMaybe / elemSize != elemCount then
      None
    else
      var alloc := (allocMaybe + BSTR_MIN_ALLOC) % SIZE_T_RANGE;
      if alloc < allocMaybe then None else Some(alloc)
  }

  /**
    The conversion of a UINT (a signed 32-bit integer on these platforms)
    to SIZE_T: a negative length becomes a value near SIZE_MAX.
  */
  function SizeTOf(x: int32): (r: SizeT)
    ensures x >= 0 ==> r == x
    ensures x < 0 ==> r >= SIZE_T_RANGE - UINT_LIMIT
  {
    if x < 0 then x + SIZE_T_RANGE else x
  }

  /** The 32-bit value stored in the four bytes before offset `off`. */
  function PrefixAt(block: array<uint8>, off: int): uint32
    reads block
    requires SIZEOF_UINT <= off <= block.Length
  {
    Le32Value(block[off - SIZEOF_UINT..off])
  }

  /** The 16-bit unit stored at byte offset `off`. */
  function UnitAt(block: array<uint8>, off: int): WChar
    reads block
    requires 0 <= off && off + SIZEOF_OLECHAR <= block.Length
  {
    Le16Value(block[off..off + SIZEOF_OLECHAR])
  }

  /** The objects a pointer may read: its block, if any. */
  function Footprint(h: Ptr): set<object>
  {
    if h.Ptr? then {h.block} else {}
  }

  /** A pointer this module returned: payload offset and a readable prefix. */
  predicate IsBstr(h: Ptr)
    reads Footprint(h)
  {
    && h.Ptr?
    && h.offset == PAYLOAD
    && PAYLOAD <= h.block.Length
    && PrefixAt(h.block, PAYLOAD) < UINT_LIMIT
  }

  /** PAL_SysStringByteLen (src/bstr.c:169-175): null reads as 0, else the prefix. */
  function SysStringByteLen(h: Ptr): (r: nat)
    reads Footprint(h)
    requires h.Null? || IsBstr(h)
    ensures h.Null? ==> r == 0
    ensures r < UINT_LIMIT
  {
    if h.Null? then 0 else PrefixAt(h.block, h.offset)
  }

  /** PAL_SysStringLen (src/bstr.c:161-167): the byte length in whole units. */
  function SysStringLen(h: Ptr): (r: nat)
    reads Footprint(h)
    requires h.Null? || IsBstr(h)
    ensures r == SysStringByteLen(h) / SIZEOF_OLECHAR
    ensures h.Null? ==> r == 0
  {
    if h.Null? then 0 else PrefixAt(h.block, h.offset) / SIZEOF_OLECHAR
  }

  /** The byte image of a wide string as memcpy sees it. */
  function WideBytes(s: seq<WChar>): (b: seq<uint8>)
  {
    if s == [] then [] else Le16(s[0]) + WideBytes(s[1..])
  }

  /** Unit `k` of a wide string occupies bytes 2k and 2k+1 of its image. */
  lemma {:induction false} WideBytesAt(s: seq<WChar>, k: nat)
    requires k < |s|
    ensures |WideBytes(s)| == SIZEOF_OLECHAR * |s|
    ensures WideBytes(s)[2 * k..2 * k + 2] == Le16(s[k])
  {
    WideBytesLength(s);
    if k > 0 {
      WideBytesAt(s[1..], k - 1);
      assert WideBytes(s)[2 * k..2 * k + 2] == WideBytes(s[1..])[2 * (k - 1)..2 * (k - 1) + 2];
    }
  }

  lemma {:induction false} WideBytesLength(s: seq<WChar>)
    ensures |WideBytes(s)| == SIZEOF_OLECHAR * |s|
  {
    if s != [] {
      WideBytesLength(s[1..]);
    }
  }

  /**
    The layout every BSTR built here shares: padding, prefix, payload offset.
    A block starts at an 8-aligned address, so `h.offset % ALIGN == 0` is
    the 8-alignment of the payload address that the pad exists for.
  */
  predicate Layout(h: Ptr, byteLen: nat, allocSize: nat)
    reads Footprint(h)
  {
    && h.Ptr?
    && h.offset == PAYLOAD
    && h.offset % ALIGN == 0
    && h.block.Length == allocSize
    && PAYLOAD + byteLen <= allocSize
    && h.block[..PAD] == [0, 0, 0, 0]
    && byteLen < UINT_LIMIT
    && PrefixAt(h.block, PAYLOAD) == byteLen
  }

  /** A BSTR holding the units of `s`, followed by a wide terminator. */
  predicate HoldsUnits(h: Ptr, s: seq<WChar>)
    reads Footprint(h)
  {
    && h.Ptr?
    && h.offset == PAYLOAD
    && PAYLOAD + SIZEOF_OLECHAR * |s| + SIZEOF_OLECHAR <= h.block.Length
    && SIZEOF_OLECHAR * |s| < UINT_LIMIT
    && PrefixAt(h.block, PAYLOAD) == SIZEOF_OLECHAR * |s|
    && (forall k :: 0 <= k < |s| ==> UnitAt(h.block, PAYLOAD + SIZEOF_OLECHAR * k) == s[k])
    && UnitAt(h.block, PAYLOAD + SIZEOF_OLECHAR * |s|) == 0
  }

  /**
    Length accounting: a BSTR holding `s` reports |s| units and 2|s| bytes,
    whatever zero units `s` contains.
  */
  lemma HoldsUnitsLengths(h: Ptr, s: seq<WChar>)
    requires HoldsUnits(h, s)
    ensures IsBstr(h)
    ensures SysStringLen(h) == |s| && SysStringByteLen(h) == SIZEOF_OLECHAR * |s|
  {
  }

  /** `*(UINT*)(block + off) = v`, little-endian. */
  method StoreUint32(block: array<uint8>, off: int, v: uint32)
    requires 0 <= off && off + SIZEOF_UINT <= block.Length
    modifies block
    ensures block[off..off + SIZEOF_UINT] == Le32(v)
    ensures forall j :: 0 <= j < block.Length && !(off <= j < off + SIZEOF_UINT) ==> block[j] == old(block[j])
  {
    var b := Le32(v);
    block[off], block[off + 1], block[off + 2], block[off + 3] := b[0], b[1], b[2], b[3];
  }

  /** `*(OLECHAR*)(block + off) = v`, little-endian. */
  method StoreUnit(block: array<uint8>, off: int, v: WChar)
    requires 0 <= off && off + SIZEOF_OLECHAR <= block.Length
    modifies block
    ensures block[off..off + SIZEOF_OLECHAR] == Le16(v)
    ensures forall j :: 0 <= j < block.Length && !(off <= j < off + SIZEOF_OLECHAR) ==> block[j] == old(block[j])
  {
    var b := Le16(v);
    block[off], block[off + 1] := b[0], b[1];
  }

  /** `memcpy(block + off, src, n)`. */
  method Memcpy(block: array<uint8>, off: int, src: seq<uint8>, n: nat)
    requires 0 <= off && off + n <= block.Length && n <= |src|
    modifies block
    ensures block[off..off + n] == src[..n]
    ensures forall j :: 0 <= j < block.Length && !(off <= j < off + n) ==> block[j] == old(block[j])
  {
    var i := 0;
    while i < n
      invariant i <= n
      invariant forall j :: 0 <= j < i ==> block[off + j] == src[j]
      invariant forall j :: 0 <= j < block.Length && !(off <= j < off + i) ==> block[j] == old(block[j])
    {
      block[off + i] := src[i];
      i := i + 1;
    }
  }

  /**
    AllocAlignedBstr (src/bstr.c:63-76): allocates, zeroes the four pad
    bytes and returns the address just past them.
  */
  method AllocAlignedBstr(heap: Heap, byteAlloc: SizeT, exhausted: bool) returns (alloc: Ptr)
    modifies heap
    ensures alloc.Null? <==> AlignedSize(byteAlloc).None? || exhausted
                             || AlignedSize(byteAlloc).value > MAX_OBJECT_SIZE
    ensures alloc.Null? ==> heap.live == old(heap.live)
    ensures alloc.Ptr? ==> && alloc.offset == PAD
                           && fresh(alloc.block)
                           && alloc.block.Length == AlignedSize(byteAlloc).value
                           && alloc.block[..PAD] == [0, 0, 0, 0]
                           && heap.live == old(heap.live) + {alloc.block}
  {
    var p := heap.CoTaskMemAlloc(byteAlloc, exhausted);
    if p.Null? {
      return Null;
    }
    StoreUint32(p.block, p.offset, 0);
    return Ptr(p.block, p.offset + PAD);
  }

  /**
    FreeAlignedBstr (src/bstr.c:78-85): steps back over the pad and frees
    the allocator's own address.
  */
  method FreeAlignedBstr(heap: Heap, alloc: Ptr)
    requires alloc.Ptr? && alloc.offset == PAD && alloc.block in heap.live
    modifies heap
    ensures heap.live == old(heap.live) - {alloc.block}
  {
    heap.CoTaskMemFree(Ptr(alloc.block, alloc.offset - PAD));
  }

  /** The bytes a wide constructor writes determine what the BSTR reports. */
  lemma WideImageFacts(block: array<uint8>, len: nat, str: Option<seq<WChar>>)
    requires PAYLOAD + SIZEOF_OLECHAR * len + SIZEOF_OLECHAR <= block.Length
    requires SIZEOF_OLECHAR * len < UINT_LIMIT
    requires str.Some? ==> len <= |str.value|
    requires block[PAD..PAYLOAD] == Le32(SIZEOF_OLECHAR * len)
    requires str.Some? ==> block[PAYLOAD..PAYLOAD + SIZEOF_OLECHAR * len] == WideBytes(str.value[..len])
    requires block[PAYLOAD + SIZEOF_OLECHAR * len..PAYLOAD + SIZEOF_OLECHAR * len + SIZEOF_OLECHAR] == Le16(0)
    ensures PrefixAt(block, PAYLOAD) == SIZEOF_OLECHAR * len
    ensures UnitAt(block, PAYLOAD + SIZEOF_OLECHAR * len) == 0
    ensures IsBstr(Ptr(block, PAYLOAD))
    ensures SysStringLen(Ptr(block, PAYLOAD)) == len
    ensures SysStringByteLen(Ptr(block, PAYLOAD)) == SIZEOF_OLECHAR * len
    ensures str.Some? ==> HoldsUnits(Ptr(block, PAYLOAD), str.value[..len])
  {
    Le32RoundTrip(SIZEOF_OLECHAR * len);
    Le16RoundTrip(0);
    if str.Some? {
      var s := str.value[..len];
      forall k | 0 <= k < len
        ensures UnitAt(block, PAYLOAD + SIZEOF_OLECHAR * k) == s[k]
      {
        WideBytesAt(s, k);
        var image := block[PAYLOAD..PAYLOAD + SIZEOF_OLECHAR * len];
        assert image == WideBytes(s);
        assert image[2 * k..2 * k + 2] == Le16(s[k]);
        assert block[PAYLOAD + 2 * k] == image[2 * k] && block[PAYLOAD + 2 * k + 1] == image[2 * k + 1];
        assert block[PAYLOAD + 2 * k..PAYLOAD + 2 * k + 2] == image[2 * k..2 * k + 2];
        Le16RoundTrip(s[k]);
      }
    }
  }

  /**
    PAL_SysAllocStringLen (src/bstr.c:103-125). A null source (None) still
    allocates, stores the length and terminates; only the payload is then
    left as the allocator delivered it. `exhausted` is the allocator's
    outcome.
  */
  method SysAllocStringLen(heap: Heap, str: Option<seq<WChar>>, len: int32, exhausted: bool)
    returns (bstr: Ptr)
    requires str.Some? && len >= 0 ==> len <= |str.value|
    requires SIZEOF_OLECHAR * len < UINT_LIMIT
    modifies heap
    ensures bstr.Null? <==> len < 0 || exhausted
    ensures bstr.Null? ==> heap.live == old(heap.live)
    ensures bstr.Ptr? ==> && fresh(bstr.block)
                          && heap.live == old(heap.live) + {bstr.block}
                          && ComputeAllocSize(SizeTOf(len), SIZEOF_OLECHAR) == Some(SIZEOF_OLECHAR * len + BSTR_MIN_ALLOC)
                          && PAYLOAD + SIZEOF_OLECHAR * len + SIZEOF_OLECHAR
                             <= ComputeAllocSize(SizeTOf(len), SIZEOF_OLECHAR).value
                             <= bstr.block.Length
                          && Layout(bstr, SIZEOF_OLECHAR * len,
                                    AlignedSize(SIZEOF_OLECHAR * len + BSTR_MIN_ALLOC).value)
                          && UnitAt(bstr.block, PAYLOAD + SIZEOF_OLECHAR * len) == 0
                          && IsBstr(bstr)
                          && SysStringLen(bstr) == len
                          && SysStringByteLen(bstr) == SIZEOF_OLECHAR * len
    ensures bstr.Ptr? && str.Some? ==> HoldsUnits(bstr, str.value[..len])
  {
    var byteAlloc := ComputeAllocSize(SizeTOf(len), SIZEOF_OLECHAR);
    if byteAlloc.None? {
      return Null;
    }
    if len < 0 {
      // SizeTOf(len) * 2 exceeds SIZE_MAX, so the size computation failed.
      assert false;
    }
    var alloc := AllocAlignedBstr(heap, byteAlloc.value, exhausted);
    if alloc.Null? {
      return Null;
    }
    var block := alloc.block;
    StoreUint32(block, alloc.offset, len * SIZEOF_OLECHAR);
    bstr := Ptr(block, alloc.offset + SIZEOF_UINT);
    ghost var prefix := block[PAD..PAYLOAD];
    if str.Some? {
      var image := WideBytes(str.value[..len]);
      WideBytesLength(str.value[..len]);
      Memcpy(block, bstr.offset, image, len * SIZEOF_OLECHAR);
    }
    ghost var payload := block[PAYLOAD..PAYLOAD + SIZEOF_OLECHAR * len];
    // A wide zero right after the copied units.
    StoreUnit(block, bstr.offset + SIZEOF_OLECHAR * len, 0);
    assert block[..PAD] == [0, 0, 0, 0];
    assert block[PAD..PAYLOAD] == prefix;
    assert block[PAYLOAD..PAYLOAD + SIZEOF_OLECHAR * len] == payload;
    WideImageFacts(block, len, str);
  }

  /**
    PAL_SysAllocString (src/bstr.c:87-101): null for a null source,
    otherwise a BSTR of the source's characters up to its terminator.
    OLEStrLen asserts the length is at most UINT_MAX and casts it to UINT;
    a length of 2^31 or more turns negative there, and the allocation
    then fails.
  */
  method SysAllocString(heap: Heap, str: Option<seq<WChar>>, exhausted: bool) returns (bstr: Ptr)
    requires str.Some? ==> && Terminated(str.value)
                           && Len(str.value) <= UINT_MAX
                           && (SIZEOF_OLECHAR * Len(str.value) < UINT_LIMIT || Len(str.value) >= UINT_LIMIT)
    modifies heap
    ensures str.None? ==> bstr.Null? && heap.live == old(heap.live)
    ensures str.Some? && Len(str.value) >= UINT_LIMIT ==> bstr.Null?
    ensures str.Some? && Len(str.value) < UINT_LIMIT ==> (bstr.Null? <==> exhausted)
    ensures bstr.Null? ==> heap.live == old(heap.live)
    ensures bstr.Ptr? ==> && str.Some?
                          && fresh(bstr.block)
                          && heap.live == old(heap.live) + {bstr.block}
                          && Layout(bstr, SIZEOF_OLECHAR * Len(str.value),
                                    AlignedSize(SIZEOF_OLECHAR * Len(str.value) + BSTR_MIN_ALLOC).value)
                          && HoldsUnits(bstr, Chars(str.value))
  {
    if str.None? {
      return Null;
    }
    var len := Wcslen(str.value);
    bstr := SysAllocStringLen(heap, str, Int32Of(len), exhausted);
  }

  /**
    `(len + 1) & ~1` as written (src/bstr.c:149). `len` is a UINT, a signed
    32-bit integer, so the sum is an int: for len = 0x7FFF_FFFF it
    overflows, which a two's-complement target turns into INT_MIN. `& ~1`
    then clears bit 0 of the two's-complement value.
  */
  function EvenCeilingAsWritten(len: int32): (r: int32)
    ensures r % 2 == 0
  {
    var sum := Int32Of(len + 1);
    sum - sum % 2
  }

  /**
    The first even offset at or after `len`, computed without overflow:
    the offset the byte constructor evidently intends, and the one this
    model uses.
  */
  function EvenCeiling(len: nat): (r: nat)
    ensures r % 2 == 0 && len <= r <= len + 1
  {
    (len + 1) - (len + 1) % 2
  }

  /**
    The offset as written is the intended one exactly for lengths below
    the largest UINT.
  */
  lemma EvenCeilingAsWrittenAgrees(len: int32)
    requires len >= 0
    ensures EvenCeilingAsWritten(len) == EvenCeiling(len) <==> len < 0x7FFF_FFFF
  {
    if len == 0x7FFF_FFFF {
      assert Int32Of(len + 1) == -0x8000_0000;
    }
  }

  /**
    For len = 0x7FFF_FFFF the size computation and the allocator accept
    the request of 0x8000_0009 bytes (rounded to 0x8000_0010), yet the
    offset as written is INT_MIN: the wide zero lands 2^31 - 8 bytes before
    the allocation. The intended offset keeps it inside.
  */
  lemma EvenCeilingOverflows()
    ensures ComputeAllocSize(SizeTOf(0x7FFF_FFFF), 1) == Some(0x8000_0009)
    ensures AlignedSize(0x8000_0009) == Some(0x8000_0010) && 0x8000_0010 <= MAX_OBJECT_SIZE
    ensures EvenCeilingAsWritten(0x7FFF_FFFF) == -0x8000_0000
    ensures PAYLOAD + EvenCeilingAsWritten(0x7FFF_FFFF) < 0
    ensures PAYLOAD + EvenCeiling(0x7FFF_FFFF) + SIZEOF_OLECHAR <= 0x8000_0010
  {
    assert Int32Of(0x8000_0000) == -0x8000_0000;
  }

  /**
    Where the wide terminator of a byte-oriented BSTR of `len` bytes ends:
    exactly at the requested size for an even `len`, one byte past it for
    an odd `len`. That byte exists because an odd request is never a
    multiple of ALIGN, so the allocator rounds it up.
  */
  lemma RoundingLeavesRoom(len: nat)
    requires len + BSTR_MIN_ALLOC <= SIZE_MAX - (ALIGN - 1)
    ensures len % 2 == 0 ==> PAYLOAD + EvenCeiling(len) + SIZEOF_OLECHAR == len + BSTR_MIN_ALLOC
    ensures len % 2 == 1 ==> PAYLOAD + EvenCeiling(len) + SIZEOF_OLECHAR == len + BSTR_MIN_ALLOC + 1
    ensures len % 2 == 1 ==> len + BSTR_MIN_ALLOC < AlignedSize(len + BSTR_MIN_ALLOC).value
    ensures PAYLOAD + EvenCeiling(len) + SIZEOF_OLECHAR <= AlignedSize(len + BSTR_MIN_ALLOC).value
  {
  }

  /** The bytes the byte-oriented constructor writes determine what the BSTR reports. */
  lemma ByteImageFacts(block: array<uint8>, len: nat)
    requires PAYLOAD + EvenCeiling(len) + SIZEOF_OLECHAR <= block.Length
    requires len < UINT_LIMIT
    requires block[PAD..PAYLOAD] == Le32(len)
    requires block[PAYLOAD + EvenCeiling(len)..PAYLOAD + EvenCeiling(len) + SIZEOF_OLECHAR] == Le16(0)
    ensures PrefixAt(block, PAYLOAD) == len
    ensures UnitAt(block, PAYLOAD + EvenCeiling(len)) == 0
    ensures IsBstr(Ptr(block, PAYLOAD))
    ensures SysStringByteLen(Ptr(block, PAYLOAD)) == len
    ensures SysStringLen(Ptr(block, PAYLOAD)) == len / SIZEOF_OLECHAR
  {
    Le32RoundTrip(len);
    Le16RoundTrip(0);
  }

  /**
    The terminators of a byte-oriented BSTR: a zero byte right after the
    payload, then a wide zero at the first even offset; every other byte,
    before and after them, stays as it was.
  */
  method TerminateBytes(block: array<uint8>, len: nat)
    requires PAYLOAD + EvenCeiling(len) + SIZEOF_OLECHAR <= block.Length
    modifies block
    ensures block[..PAYLOAD + len] == old(block[..PAYLOAD + len])
    ensures block[PAYLOAD + len] == 0
    ensures block[PAYLOAD + EvenCeiling(len)..PAYLOAD + EvenCeiling(len) + SIZEOF_OLECHAR] == Le16(0)
    ensures forall j :: 0 <= j < block.Length && !(PAYLOAD + len <= j < PAYLOAD + EvenCeiling(len) + SIZEOF_OLECHAR)
                        ==> block[j] == old(block[j])
  {
    ghost var front := block[..PAYLOAD + len];
    block[PAYLOAD + len] := 0;
    assert block[..PAYLOAD + len] == front;
    StoreUnit(block, PAYLOAD + EvenCeiling(len), 0);
    assert block[..PAYLOAD + len] == front;
    assert block[PAYLOAD + len] == 0 by {
      if EvenCeiling(len) == len {
        assert block[PAYLOAD + len] == block[PAYLOAD + len..PAYLOAD + len + 2][0];
      }
    }
  }

  /**
    PAL_SysAllocStringByteLen (src/bstr.c:127-151). The prefix is the byte
    count; a zero byte follows the payload, and a wide zero sits at the
    first even offset past the payload, computed as EvenCeiling does (for
    len = 0x7FFF_FFFF the C expression overflows; see
    EvenCeilingOverflows). For an odd length that wide zero reaches one
    byte beyond `len + BSTR_MIN_ALLOC`, inside the allocation only because
    the allocator rounds sizes up to a multiple of 8.
  */
  method SysAllocStringByteLen(heap: Heap, str: Option<seq<uint8>>, len: int32, exhausted: bool)
    returns (bstr: Ptr)
    requires str.Some? && len >= 0 ==> len <= |str.value|
    modifies heap
    ensures bstr.Null? <==> len < 0 || exhausted
    ensures bstr.Null? ==> heap.live == old(heap.live)
    ensures bstr.Ptr? ==> && fresh(bstr.block)
                          && heap.live == old(heap.live) + {bstr.block}
                          && ComputeAllocSize(SizeTOf(len), 1) == Some(len + BSTR_MIN_ALLOC)
                          && Layout(bstr, len, AlignedSize(len + BSTR_MIN_ALLOC).value)
                          && bstr.block[PAYLOAD + len] == 0
                          && PAYLOAD + EvenCeiling(len) + SIZEOF_OLECHAR <= bstr.block.Length
                          && UnitAt(bstr.block, PAYLOAD + EvenCeiling(len)) == 0
                          && IsBstr(bstr)
                          && SysStringByteLen(bstr) == len
                          && SysStringLen(bstr) == len / SIZEOF_OLECHAR
    ensures bstr.Ptr? && str.Some? ==> bstr.block[PAYLOAD..PAYLOAD + len] == str.value[..len]
  {
    var byteAlloc := ComputeAllocSize(SizeTOf(len), 1);
    if byteAlloc.None? {
      return Null;
    }
    var alloc := AllocAlignedBstr(heap, byteAlloc.value, exhausted);
    if alloc.Null? {
      return Null;
    }
    if len < 0 {
      // The request for SizeTOf(len) + BSTR_MIN_ALLOC bytes exceeded the
      // largest object the allocator hands out.
      assert false;
    }
    var block := alloc.block;
    // For an odd len the wide terminator relies on the allocator's rounding.
    RoundingLeavesRoom(len);
    StoreUint32(block, alloc.offset, len);
    bstr := Ptr(block, alloc.offset + SIZEOF_UINT);
    ghost var head := block[..PAYLOAD];
    assert head[..PAD] == [0, 0, 0, 0] && head[PAD..] == Le32(len);
    if str.Some? {
      Memcpy(block, bstr.offset, str.value, len);
      assert block[..PAYLOAD] == head;
    }
    // Everything up to the end of the payload is final from here on.
    ghost var front := block[..PAYLOAD + len];
    assert front[..PAYLOAD] == head;
    TerminateBytes(block, len);
    assert block[..PAD] == front[..PAD] == head[..PAD];
    assert block[PAD..PAYLOAD] == front[PAD..PAYLOAD] == head[PAD..];
    assert block[PAYLOAD..PAYLOAD + len] == front[PAYLOAD..];
    ByteImageFacts(block, len);
  }

  /**
    PAL_SysFreeString (src/bstr.c:153-159): null is ignored; otherwise the
    allocation is released through the address the allocator returned.
  */
  method SysFreeString(heap: Heap, bstr: Ptr)
    requires bstr.Ptr? ==> bstr.offset == PAYLOAD && bstr.block in heap.live
    modifies heap
    ensures heap.live == if bstr.Ptr? then old(heap.live) - {bstr.block} else old(heap.live)
  {
    if bstr.Null? {
      return;
    }
    FreeAlignedBstr(heap, Ptr(bstr.block, bstr.offset - SIZEOF_UINT));
  }
}
