/**
  The fixed-width types the compatibility layer declares for non-Windows
  platforms (src/inc/dncp.h), the HRESULT constants it uses
  (src/inc/winhdrs/winerror.h), and the little-endian byte images through
  which those integers sit in memory.

  Integer types are subset types of `int`: arithmetic is exact, and a
  wrap-around or truncation of the C code is written out where the model
  follows it.
*/
module PalTypes {

  type uint8 = x: int | 0 <= x < 0x100
  type uint16 = x: int | 0 <= x < 0x1_0000
  type uint32 = x: int | 0 <= x < 0x1_0000_0000
  type int32 = x: int | -0x8000_0000 <= x < 0x8000_0000

  /** `size_t` on the 64-bit platforms the model targets. */
  const SIZE_MAX: int := 0xFFFF_FFFF_FFFF_FFFF
  const SIZE_T_RANGE: int := SIZE_MAX + 1
  type SizeT = x: int | 0 <= x <= SIZE_MAX

  /** WCHAR / OLECHAR: a 16-bit code unit. */
  type WChar = uint16

  /** BOOL is a 32-bit integer with TRUE = 1 and FALSE = 0. */
  type BOOL = int32
  const TRUE: BOOL := 1
  const FALSE: BOOL := 0

  /** HRESULT is a signed 32-bit integer; failure codes have the sign bit set. */
  type HRESULT = int32
  const S_OK: HRESULT := 0
  /** The bit pattern 0x80070057 read as a signed 32-bit value. */
  const E_INVALIDARG: HRESULT := 0x8007_0057 - 0x1_0000_0000

  datatype Option<T> = None | Some(value: T)

  /**
    Conversion to a signed 32-bit integer on a two's-complement target:
    the value congruent to `x` modulo 2^32 that lies in the int32 range.
  */
  function Int32Of(x: int): (r: int32)
    ensures (r - x) % 0x1_0000_0000 == 0
    ensures -0x8000_0000 <= x < 0x8000_0000 ==> r == x
    ensures 0x8000_0000 <= x < 0x1_0000_0000 ==> r == x - 0x1_0000_0000
  {
    var low := x % 0x1_0000_0000;
    if low < 0x8000_0000 then low else low - 0x1_0000_0000
  }

  /** The W() literal macro: a character as a 16-bit code unit. */
  function W(c: char): WChar
    requires c as int < 0x1_0000
  {
    c as int
  }

  /** Little-endian image of a 16-bit value. */
  function Le16(x: uint16): (b: seq<uint8>)
    ensures |b| == 2
  {
    [x % 0x100, x / 0x100]
  }

  function Le16Value(b: seq<uint8>): uint16
    requires |b| == 2
  {
    b[0] as int + 0x100 * b[1] as int
  }

  /** Little-endian image of a 32-bit value: low half first. */
  function Le32(x: uint32): (b: seq<uint8>)
    ensures |b| == 4
  {
    Le16(x % 0x1_0000) + Le16(x / 0x1_0000)
  }

  function Le32Value(b: seq<uint8>): uint32
    requires |b| == 4
  {
    Le16Value(b[..2]) as int + 0x1_0000 * Le16Value(b[2..]) as int
  }

  lemma Le16RoundTrip(x: uint16)
    ensures Le16Value(Le16(x)) == x
  {
  }

  /** Reading back a stored 32-bit value yields that value. */
  lemma Le32RoundTrip(x: uint32)
    ensures Le32Value(Le32(x)) == x
  {
    var b := Le32(x);
    assert b[..2] == Le16(x % 0x1_0000);
    assert b[2..] == Le16(x / 0x1_0000);
    Le16RoundTrip(x % 0x1_0000);
    Le16RoundTrip(x / 0x1_0000);
  }

  /** The byte image of a 32-bit value determines the value. */
  lemma Le32Injective(x: uint32, y: uint32)
    ensures Le32(x) == Le32(y) <==> x == y
  {
    if Le32(x) == Le32(y) {
      Le32RoundTrip(x);
      Le32RoundTrip(y);
    }
  }

  lemma Le16Injective(x: uint16, y: uint16)
    ensures Le16(x) == Le16(y) <==> x == y
  {
    if Le16(x) == Le16(y) {
      Le16RoundTrip(x);
      Le16RoundTrip(y);
    }
  }
}
