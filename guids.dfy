/**
  The GUID codec of src/guids.c: byte-wise equality, formatting into the
  braced lower-case text form, and the strict parser of that form
  (`{` 8hex `-` 4hex `-` 4hex `-` 2hex 2hex `-` 2hex x 6 `}`, then the
  terminator), which accepts hex digits in either case.

  The parser is stated twice: declaratively, as a grammar over character
  positions (`GuidSyntax`, `ParseGuid`), and imperatively, as the cursor
  walk of the C code (`ParseHexToValue`, `UuidFromString`,
  `GuidFromString`, `IidFromString`), which is proved to agree with it.
*/
module Guids {
  import opened PalTypes
  import opened WideStrings

  type Data4 = s: seq<uint8> | |s| == 8 witness [0, 0, 0, 0, 0, 0, 0, 0]

  /** The GUID record of src/inc/dncp.h:71-77. */
  datatype Guid = Guid(data1: uint32, data2: uint16, data3: uint16, data4: Data4)

  /** GUID_NULL, the all-zero identifier. */
  const GUID_NULL: Guid := Guid(0, 0, 0, [0, 0, 0, 0, 0, 0, 0, 0])

  /** Characters of "12345678-1234-1234-1234-123456789abc". */
  const UUID_STR_SIZE: int := 36
  /** The same with the surrounding braces. */
  const GUID_STR_SIZE: int := UUID_STR_SIZE + 2

  // ---------------------------------------------------------------------
  // Equality
  // ---------------------------------------------------------------------

  /** The 16 bytes of the record in memory (little-endian fields). */
  function GuidBytes(g: Guid): (b: seq<uint8>)
    ensures |b| == 16
  {
    Le32(g.data1) + Le16(g.data2) + Le16(g.data3) + g.data4
  }

  lemma GuidBytesInjective(a: Guid, b: Guid)
    requires GuidBytes(a) == GuidBytes(b)
    ensures a == b
  {
    var x, y := GuidBytes(a), GuidBytes(b);
    assert x[..4] == Le32(a.data1) && y[..4] == Le32(b.data1);
    assert x[4..6] == Le16(a.data2) && y[4..6] == Le16(b.data2);
    assert x[6..8] == Le16(a.data3) && y[6..8] == Le16(b.data3);
    assert x[8..] == a.data4 && y[8..] == b.data4;
    Le32Injective(a.data1, b.data1);
    Le16Injective(a.data2, b.data2);
    Le16Injective(a.data3, b.data3);
  }

  /**
    PAL_IsEqualGUID (src/guids.c:29-32): `memcmp` of the two records.
    TRUE exactly when all four fields agree.
  */
  function IsEqualGuid(g1: Guid, g2: Guid): (r: BOOL)
    ensures r == TRUE || r == FALSE
    ensures r == TRUE <==> g1 == g2
  {
    if GuidBytes(g1) == GuidBytes(g2) then
      GuidBytesInjective(g1, g2);
      TRUE
    else
      FALSE
  }

  /** `operator==` on GUIDs (src/inc/dncp.h:153-156). */
  function OperatorEquals(a: Guid, b: Guid): (r: bool)
    ensures r <==> a == b
  {
    FALSE != IsEqualGuid(a, b)
  }

  // ---------------------------------------------------------------------
  // Hex digits
  // ---------------------------------------------------------------------

  function Pow16(n: nat): (r: nat)
    ensures r > 0
  {
    if n == 0 then 1 else 16 * Pow16(n - 1)
  }

  predicate IsHexDigit(c: WChar)
  {
    (W('0') <= c <= W('9')) || (W('A') <= c <= W('F')) || (W('a') <= c <= W('f'))
  }

  /** The digit a hex character stands for, in the order the parser tests. */
  function HexDigitValue(c: WChar): (d: nat)
    requires IsHexDigit(c)
    ensures d < 16
  {
    if W('0') <= c <= W('9') then c - W('0')
    else if W('A') <= c <= W('F') then c - W('A') + 10
    else c - W('a') + 10
  }

  predicate AllHex(s: seq<WChar>)
  {
    forall i :: 0 <= i < |s| ==> IsHexDigit(s[i])
  }

  /** Folding digits most-significant first: `val * 16 + digit`. */
  function HexFold(s: seq<WChar>): (v: nat)
    requires AllHex(s)
    ensures v < Pow16(|s|)
  {
    if s == [] then 0
    else HexFold(s[..|s| - 1]) * 16 + HexDigitValue(s[|s| - 1])
  }

  /** The lower-case hex digit for 0..15, as `%x` prints it. */
  function LowerHexDigit(d: nat): (c: WChar)
    requires d < 16
  {
    if d < 10 then W('0') + d else W('a') + (d - 10)
  }

  /** `%0<width>x`: `v` in `width` lower-case digits, zero-padded. */
  function HexDigits(v: nat, width: nat): (r: seq<WChar>)
    ensures |r| == width
  {
    if width == 0 then [] else HexDigits(v / 16, width - 1) + [LowerHexDigit(v % 16)]
  }

  /** Printing a value that fits and folding the digits back gives the value. */
  lemma {:induction false} HexDigitsRoundTrip(v: nat, width: nat)
    requires v < Pow16(width)
    ensures AllHex(HexDigits(v, width))
    ensures HexFold(HexDigits(v, width)) == v
  {
    if width > 0 {
      var q, d := v / 16, v % 16;
      assert v == 16 * q + d;
      assert q < Pow16(width - 1);
      HexDigitsRoundTrip(q, width - 1);
      LowerHexDigitValue(d);
      var r := HexDigits(v, width);
      assert r[..width - 1] == HexDigits(q, width - 1);
    }
  }

  /** The printed digit reads back as the value printed. */
  lemma LowerHexDigitValue(d: nat)
    requires d < 16
    ensures IsHexDigit(LowerHexDigit(d)) && HexDigitValue(LowerHexDigit(d)) == d
  {
  }

  // ---------------------------------------------------------------------
  // Formatting
  // ---------------------------------------------------------------------

  /** Two digits for one byte of Data4. */
  function ByteHex(b: uint8): seq<WChar>
  {
    HexDigits(b, 2)
  }

  /**
    The text `snprintf` produces for
    "{%08x-%04x-%04x-%02x%02x-%02x%02x%02x%02x%02x%02x}" (src/guids.c:43-48).
  */
  function GuidText(g: Guid): (t: seq<WChar>)
    ensures |t| == GUID_STR_SIZE
  {
    var d := g.data4;
    [W('{')] + HexDigits(g.data1, 8) + [W('-')] + HexDigits(g.data2, 4) + [W('-')]
    + HexDigits(g.data3, 4) + [W('-')] + (ByteHex(d[0]) + ByteHex(d[1])) + [W('-')]
    + (ByteHex(d[2]) + ByteHex(d[3]) + ByteHex(d[4]) + ByteHex(d[5]) + ByteHex(d[6]) + ByteHex(d[7]))
    + [W('}')]
  }

  /** The 39 code units PAL_StringFromGUID2 writes: the text and its terminator. */
  function FormatGuid(g: Guid): (t: seq<WChar>)
    ensures |t| == GUID_STR_SIZE + 1
  {
    GuidText(g) + [0]
  }

  /**
    PAL_StringFromGUID2 (src/guids.c:37-61). A capacity of at most 38
    returns 0 and writes nothing; otherwise the 39 units of the text and
    its terminator are copied into the buffer and 39 is returned.
  */
  method StringFromGuid2(guid: Guid, buffer: array?<WChar>, count: int32) returns (res: int32)
    requires count > GUID_STR_SIZE ==> buffer != null && count <= buffer.Length
    modifies buffer
    ensures count <= GUID_STR_SIZE ==> res == 0
    ensures count <= GUID_STR_SIZE && buffer != null ==> buffer[..] == old(buffer[..])
    ensures count > GUID_STR_SIZE ==> && res == GUID_STR_SIZE + 1
                                      && buffer[..res] == FormatGuid(guid)
                                      && buffer[res..] == old(buffer[res..])
  {
    if count <= GUID_STR_SIZE {
      return 0;
    }
    var local := GuidText(guid) + [0];
    // snprintf reports the GUID_STR_SIZE characters it printed, without the terminator.
    var printed := |local| - 1;
    assert printed == GUID_STR_SIZE;
    res := printed + 1;
    var i := 0;
    while i < res
      invariant 0 <= i <= res
      invariant buffer[..i] == local[..i]
      invariant buffer[res..] == old(buffer[res..])
    {
      buffer[i] := local[i];
      i := i + 1;
    }
  }

  // ---------------------------------------------------------------------
  // The grammar
  // ---------------------------------------------------------------------

  /** `n` hex digits at positions [from, from + n) of `s`. */
  predicate HexRun(s: seq<WChar>, from: nat, n: nat)
  {
    from + n <= |s| && AllHex(s[from..from + n])
  }

  function FieldValue(s: seq<WChar>, from: nat, n: nat): (v: nat)
    requires HexRun(s, from, n)
    ensures v < Pow16(n)
  {
    HexFold(s[from..from + n])
  }

  /** Where the two digits of Data4[i] start, relative to the UUID text. */
  function Data4Offset(i: nat): nat
  {
    if i < 2 then 19 + 2 * i else 20 + 2 * i
  }

  /** The delimiter that follows Data4[i]: `-` after the second byte, none elsewhere. */
  function Data4Delim(i: nat): WChar
  {
    if i == 1 then W('-') else 0
  }

  /**
    `n` hex digits at `from`, followed by `delim` unless `delim` is 0:
    one field as ParseHexToValue reads it.
  */
  predicate FieldOk(s: seq<WChar>, from: nat, n: nat, delim: WChar)
  {
    HexRun(s, from, n) && (delim != 0 ==> from + n < |s| && s[from + n] == delim)
  }

  /** The 36-character body `8-4-4-2 2-2 2 2 2 2 2` starting at `p`. */
  predicate UuidSyntax(s: seq<WChar>, p: nat)
  {
    && FieldOk(s, p, 8, W('-'))
    && FieldOk(s, p + 9, 4, W('-'))
    && FieldOk(s, p + 14, 4, W('-'))
    && (forall i :: 0 <= i < 8 ==> FieldOk(s, p + Data4Offset(i), 2, Data4Delim(i)))
  }

  function Data4Byte(s: seq<WChar>, p: nat, i: nat): uint8
    requires HexRun(s, p + Data4Offset(i), 2)
  {
    assert Pow16(2) == 0x100;
    FieldValue(s, p + Data4Offset(i), 2)
  }

  /** The record a well-formed body denotes. */
  function UuidValue(s: seq<WChar>, p: nat): Guid
    requires UuidSyntax(s, p)
  {
    assert Pow16(8) == 0x1_0000_0000 && Pow16(4) == 0x1_0000;
    Guid(FieldValue(s, p, 8), FieldValue(s, p + 9, 4), FieldValue(s, p + 14, 4),
         seq(8, i requires 0 <= i < 8 => Data4Byte(s, p, i)))
  }

  /** `{`, a UUID body, `}`, and the terminator right after it. */
  predicate GuidSyntax(s: seq<WChar>)
  {
    && |s| > GUID_STR_SIZE
    && s[0] == W('{')
    && UuidSyntax(s, 1)
    && s[GUID_STR_SIZE - 1] == W('}')
    && s[GUID_STR_SIZE] == 0
  }

  /** Reference parser: the identifier a text denotes, if it is well formed. */
  function ParseGuid(s: seq<WChar>): Option<Guid>
  {
    if GuidSyntax(s) then Some(UuidValue(s, 1)) else None
  }

  // ---------------------------------------------------------------------
  // The parser as the C code walks it
  // ---------------------------------------------------------------------

  /** `(val << 4) + digit` in 32-bit unsigned arithmetic. */
  function ShiftIn(val: uint32, digit: nat): (r: uint32)
    requires digit < 16
    ensures val * 16 + digit < 0x1_0000_0000 ==> r == val * 16 + digit
  {
    (val * 16 + digit) % 0x1_0000_0000
  }

  /**
    ParseHexToValue (src/guids.c:129-166): folds `2 * sizeInBytes` hex
    digits starting at the cursor `pos`, then, if `delim` is not 0,
    consumes one more character, which must equal `delim`. Returns the
    value, the advanced cursor and the validity flag.
  */
  method ParseHexToValue(str: seq<WChar>, pos: nat, sizeInBytes: nat, delim: WChar)
    returns (val: uint32, next: nat, valid: bool)
    requires Terminated(str) && pos <= Len(str)
    requires 0 < sizeInBytes <= 4
    ensures valid <==> FieldOk(str, pos, 2 * sizeInBytes, delim)
    ensures valid ==> && val == FieldValue(str, pos, 2 * sizeInBytes)
                      && next == pos + 2 * sizeInBytes + (if delim != 0 then 1 else 0)
                      && next <= Len(str)
  {
    valid := true;
    // The C code leaves `val` uninitialised; every bit of it is shifted out
    // or truncated away before use, so starting from 0 is equivalent.
    val := 0;
    next := pos;
    var count := 0;
    while count < sizeInBytes * 2
      invariant count <= sizeInBytes * 2 && next == pos + count
      invariant next <= Len(str)
      invariant HexRun(str, pos, count)
      invariant val == HexFold(str[pos..pos + count])
    {
      var ch := str[next];
      if !IsHexDigit(ch) {
        BrokenRun(str, pos, count, 2 * sizeInBytes);
        return 0, next, false;
      }
      assert next < Len(str);
      DigitStep(str, pos, count, next, val);
      var digit;
      if W('0') <= ch <= W('9') {
        digit := ch - W('0');
      } else if W('A') <= ch <= W('F') {
        digit := ch - W('A') + 10;
      } else {
        digit := ch - W('a') + 10;
      }
      assert digit == HexDigitValue(ch);
      val := ShiftIn(val, digit);
      count, next := count + 1, next + 1;
    }
    if delim != 0 {
      var ch := str[next];
      next := next + 1;
      valid := ch == delim;
    }
  }

  /** A run of digits that is not a hex digit at `count` is not a run of `n`. */
  lemma BrokenRun(str: seq<WChar>, pos: nat, count: nat, n: nat)
    requires count < n && pos + count < |str| && !IsHexDigit(str[pos + count])
    ensures !HexRun(str, pos, n)
  {
    if pos + n <= |str| {
      assert str[pos..pos + n][count] == str[pos + count];
    }
  }

  /** One more digit extends the run and its value, without 32-bit overflow. */
  lemma DigitStep(str: seq<WChar>, pos: nat, count: nat, next: nat, val: uint32)
    requires next == pos + count && next < |str| && count < 8
    requires HexRun(str, pos, count) && val == HexFold(str[pos..pos + count])
    requires IsHexDigit(str[next])
    ensures HexRun(str, pos, count + 1)
    ensures HexFold(str[pos..pos + (count + 1)]) == ShiftIn(val, HexDigitValue(str[next]))
  {
    var s := str[pos..next + 1];
    assert s[..count] == str[pos..next];
    forall i | 0 <= i < |s|
      ensures IsHexDigit(s[i])
    {
      if i < count {
        assert IsHexDigit(str[pos..pos + count][i]);
        assert s[i] == str[pos..pos + count][i];
      } else {
        assert s[i] == str[next];
      }
    }
    PowMonotone(count + 1, 8);
    assert Pow16(8) == 0x1_0000_0000;
  }

  lemma {:induction false} PowMonotone(m: nat, n: nat)
    requires m <= n
    ensures Pow16(m) <= Pow16(n)
  {
    if m < n {
      PowMonotone(m, n - 1);
    }
  }

  /** `(uint16_t)` and `(uint8_t)` casts. */
  function Trunc16(v: uint32): uint16 { v % 0x1_0000 }
  function Trunc8(v: uint32): uint8 { v % 0x100 }

  /**
    UUIDFromString (src/guids.c:103-127): the three leading fields, then the
    eight Data4 bytes with a `-` after the second. Succeeds exactly on a
    well-formed body and then yields the record it denotes.
  */
  method UuidFromString(str: seq<WChar>, pos: nat) returns (ok: bool, guid: Guid)
    requires Terminated(str) && pos <= Len(str)
    ensures ok <==> UuidSyntax(str, pos)
    ensures ok ==> guid == UuidValue(str, pos) && pos + UUID_STR_SIZE <= Len(str)
  {
    var cur := pos;
    var isValid;
    var data1, data2, data3;
    data1, cur, isValid := ParseHexToValue(str, cur, 4, W('-'));
    if !isValid {
      return false, GUID_NULL;
    }
    var v;
    v, cur, isValid := ParseHexToValue(str, cur, 2, W('-'));
    if !isValid {
      return false, GUID_NULL;
    }
    assert Pow16(4) == 0x1_0000;
    data2 := Trunc16(v);
    v, cur, isValid := ParseHexToValue(str, cur, 2, W('-'));
    if !isValid {
      return false, GUID_NULL;
    }
    data3 := Trunc16(v);
    assert cur == pos + 19;

    var data4: seq<uint8> := [0, 0, 0, 0, 0, 0, 0, 0];
    var i := 0;
    while i < 8
      invariant i <= 8 && |data4| == 8
      invariant cur == pos + Data4Offset(i)
      invariant cur <= Len(str)
      invariant Data4Parsed(str, pos, data4, i)
    {
      var delim := Data4Delim(i);
      v, cur, isValid := ParseHexToValue(str, cur, 1, delim);
      if !isValid {
        Data4Fails(str, pos, i);
        return false, GUID_NULL;
      }
      Data4Step(str, pos, data4, i, v);
      data4 := data4[i := Trunc8(v)];
      i := i + 1;
    }
    guid := Guid(data1, data2, data3, data4);
    ok := true;
    UuidValueIntro(str, pos, guid);
  }

  /** The first `i` bytes of Data4 are well formed and `data4` holds their values. */
  predicate Data4Parsed(str: seq<WChar>, pos: nat, data4: seq<uint8>, i: nat)
  {
    && i <= |data4|
    && forall k :: 0 <= k < i ==> && FieldOk(str, pos + Data4Offset(k), 2, Data4Delim(k))
                                  && data4[k] == Data4Byte(str, pos, k)
  }

  lemma Data4Step(str: seq<WChar>, pos: nat, data4: seq<uint8>, i: nat, v: uint32)
    requires i < |data4| && Data4Parsed(str, pos, data4, i)
    requires FieldOk(str, pos + Data4Offset(i), 2, Data4Delim(i))
    requires v == FieldValue(str, pos + Data4Offset(i), 2)
    ensures Data4Parsed(str, pos, data4[i := Trunc8(v)], i + 1)
  {
    assert Pow16(2) == 0x100;
  }

  lemma Data4Fails(str: seq<WChar>, pos: nat, i: nat)
    requires i < 8 && !FieldOk(str, pos + Data4Offset(i), 2, Data4Delim(i))
    ensures !UuidSyntax(str, pos)
  {
  }

  /** Field-by-field facts about a parsed body add up to the grammar's verdict. */
  lemma UuidValueIntro(str: seq<WChar>, pos: nat, g: Guid)
    requires FieldOk(str, pos, 8, W('-')) && g.data1 == FieldValue(str, pos, 8)
    requires FieldOk(str, pos + 9, 4, W('-')) && g.data2 == FieldValue(str, pos + 9, 4)
    requires FieldOk(str, pos + 14, 4, W('-')) && g.data3 == FieldValue(str, pos + 14, 4)
    requires Data4Parsed(str, pos, g.data4, 8)
    ensures UuidSyntax(str, pos) && g == UuidValue(str, pos)
  {
    assert g.data4 == UuidValue(str, pos).data4;
  }

  /**
    GUIDFromString (src/guids.c:82-99): `{`, the body, `}`, and nothing
    after it but the terminator.
  */
  method GuidFromString(str: seq<WChar>) returns (ok: bool, guid: Guid)
    requires Terminated(str)
    ensures ok <==> GuidSyntax(str)
    ensures ok ==> ParseGuid(str) == Some(guid)
  {
    if str[0] != W('{') {
      return false, GUID_NULL;
    }
    var cur := 1;
    ok, guid := UuidFromString(str, cur);
    if !ok {
      return false, guid;
    }
    cur := cur + UUID_STR_SIZE;
    if str[cur] != W('}') {
      return false, guid;
    }
    cur := cur + 1;
    if str[cur] != 0 {
      return false, guid;
    }
    return true, guid;
  }

  /**
    PAL_IIDFromString (src/guids.c:69-80). A null text (None) yields
    GUID_NULL and S_OK; otherwise S_OK exactly for well-formed text, with the
    identifier it denotes, and E_INVALIDARG for anything else.
  */
  method IidFromString(str: Option<seq<WChar>>) returns (hr: HRESULT, iid: Guid)
    requires str.Some? ==> Terminated(str.value)
    ensures str.None? ==> hr == S_OK && iid == GUID_NULL
    ensures str.None? ==> GuidBytes(iid) == seq(16, _ => 0)
    ensures str.Some? ==> (hr == S_OK <==> ParseGuid(str.value).Some?)
    ensures str.Some? && hr == S_OK ==> ParseGuid(str.value) == Some(iid)
    ensures hr == S_OK || hr == E_INVALIDARG
  {
    if str.None? {
      assert GuidBytes(GUID_NULL) == seq(16, _ => 0);
      return S_OK, GUID_NULL;
    }
    var ok;
    ok, iid := GuidFromString(str.value);
    hr := if ok then S_OK else E_INVALIDARG;
  }

  // ---------------------------------------------------------------------
  // Round trip
  // ---------------------------------------------------------------------

  /** The formatted text is well formed and denotes the identifier it came from. */
  lemma ParseFormat(g: Guid)
    ensures GuidSyntax(FormatGuid(g))
    ensures ParseGuid(FormatGuid(g)) == Some(g)
  {
    var t := FormatGuid(g);
    LeadingLayout(g);
    assert Pow16(8) == 0x1_0000_0000 && Pow16(4) == 0x1_0000;
    FieldOfDigits(t, 1, 8, W('-'), g.data1);
    FieldOfDigits(t, 10, 4, W('-'), g.data2);
    FieldOfDigits(t, 15, 4, W('-'), g.data3);
    forall i | 0 <= i < 8
      ensures FieldOk(t, 1 + Data4Offset(i), 2, Data4Delim(i))
      ensures FieldValue(t, 1 + Data4Offset(i), 2) == g.data4[i]
    {
      Data4Layout(g, i);
      assert Pow16(2) == 0x100;
      FieldOfDigits(t, 1 + Data4Offset(i), 2, Data4Delim(i), g.data4[i]);
    }
    UuidValueIntro(t, 1, g);
  }

  /** Digits printed for `v` read back as a field holding `v`. */
  lemma FieldOfDigits(t: seq<WChar>, from: nat, n: nat, delim: WChar, v: nat)
    requires from + n <= |t| && t[from..from + n] == HexDigits(v, n) && v < Pow16(n)
    requires delim != 0 ==> from + n < |t| && t[from + n] == delim
    ensures FieldOk(t, from, n, delim) && FieldValue(t, from, n) == v
  {
    HexDigitsRoundTrip(v, n);
  }

  /** Where the braces, the dashes, the leading fields and the terminator sit. */
  lemma LeadingLayout(g: Guid)
    ensures var t := FormatGuid(g);
      && t[0] == W('{') && t[9] == W('-') && t[14] == W('-') && t[19] == W('-')
      && t[24] == W('-') && t[37] == W('}') && t[38] == 0
      && t[1..9] == HexDigits(g.data1, 8)
      && t[10..14] == HexDigits(g.data2, 4)
      && t[15..19] == HexDigits(g.data3, 4)
  {
  }

  /** Data4[i] is printed at its offset in the text. */
  lemma Data4Layout(g: Guid, i: nat)
    requires i < 8
    ensures FormatGuid(g)[1 + Data4Offset(i)..1 + Data4Offset(i) + 2] == ByteHex(g.data4[i])
  {
    var t := FormatGuid(g);
    var d := g.data4;
    var head := [W('{')] + HexDigits(g.data1, 8) + [W('-')] + HexDigits(g.data2, 4) + [W('-')]
                + HexDigits(g.data3, 4) + [W('-')];
    assert |head| == 20;
    if i < 2 {
      var a := ByteHex(d[0]) + ByteHex(d[1]);
      assert t[20..24] == a;
      assert a[2 * i..2 * i + 2] == ByteHex(d[i]);
      assert t[20 + 2 * i..22 + 2 * i] == t[20..24][2 * i..2 * i + 2];
    } else {
      var b := ByteHex(d[2]) + ByteHex(d[3]) + ByteHex(d[4]) + ByteHex(d[5]) + ByteHex(d[6]) + ByteHex(d[7]);
      assert t[25..37] == b;
      assert b[2 * (i - 2)..2 * (i - 2) + 2] == ByteHex(d[i]);
      assert t[21 + 2 * i..23 + 2 * i] == t[25..37][2 * (i - 2)..2 * (i - 2) + 2];
    }
  }

  // ---------------------------------------------------------------------
  // The other direction: formatting a parsed identifier
  // ---------------------------------------------------------------------

  /** ASCII lower-casing of one code unit; other units are unchanged. */
  function LowerAscii(c: WChar): WChar
  {
    if W('A') <= c <= W('Z') then c + (W('a') - W('A')) else c
  }

  function LowerText(s: seq<WChar>): (r: seq<WChar>)
    ensures |r| == |s| && forall i :: 0 <= i < |s| ==> r[i] == LowerAscii(s[i])
  {
    seq(|s|, i requires 0 <= i < |s| => LowerAscii(s[i]))
  }

  /** Printing the digit a hex character stands for gives its lower-case form. */
  lemma HexDigitPrint(c: WChar)
    requires IsHexDigit(c)
    ensures LowerHexDigit(HexDigitValue(c)) == LowerAscii(c)
  {
  }

  /** Re-printing the value of a run of hex digits gives the run in lower case. */
  lemma {:induction false} HexDigitsOfFold(t: seq<WChar>)
    requires AllHex(t)
    ensures HexDigits(HexFold(t), |t|) == LowerText(t)
  {
    if t != [] {
      var w := |t|;
      var init := t[..w - 1];
      assert AllHex(init) by {
        forall i | 0 <= i < |init| ensures IsHexDigit(init[i]) {
          assert init[i] == t[i];
        }
      }
      HexDigitsOfFold(init);
      var v, d := HexFold(t), HexDigitValue(t[w - 1]);
      assert v == HexFold(init) * 16 + d;
      assert v / 16 == HexFold(init) && v % 16 == d;
      HexDigitPrint(t[w - 1]);
      assert LowerText(t) == LowerText(init) + [LowerAscii(t[w - 1])];
    }
  }

  /** A field's value, printed back at the field's width, is the field in lower case. */
  lemma FieldReprint(s: seq<WChar>, from: nat, n: nat)
    requires HexRun(s, from, n)
    ensures HexDigits(FieldValue(s, from, n), n) == LowerText(s[from..from + n])
  {
    HexDigitsOfFold(s[from..from + n]);
  }

  /**
    Formatting the identifier parsed from a well-formed text gives back that
    text with its hex letters in lower case: the parser reads every
    character it accepts, and the formatter prints it canonically.
  */
  lemma FormatParse(s: seq<WChar>)
    requires GuidSyntax(s)
    ensures FormatGuid(UuidValue(s, 1)) == LowerText(s[..GUID_STR_SIZE + 1])
  {
    var g := UuidValue(s, 1);
    var t := FormatGuid(g);
    var u := LowerText(s[..GUID_STR_SIZE + 1]);
    ParsedFields(s);
    forall j | 0 <= j < GUID_STR_SIZE + 1
      ensures t[j] == u[j]
    {
      if j < 20 {
        LeadingCharReprint(s, g, j);
      } else {
        Data4CharReprint(s, g, j);
      }
    }
  }

  /** What the grammar and the reference parser say about each field of a well-formed text. */
  lemma ParsedFields(s: seq<WChar>)
    requires GuidSyntax(s)
    ensures LeadingFieldsOf(s, UuidValue(s, 1)) && Data4FieldsOf(s, UuidValue(s, 1))
  {
    var g := UuidValue(s, 1);
    forall i | 0 <= i < 8
      ensures HexRun(s, 1 + Data4Offset(i), 2) && g.data4[i] == FieldValue(s, 1 + Data4Offset(i), 2)
    {
      assert FieldOk(s, 1 + Data4Offset(i), 2, Data4Delim(i));
    }
    assert FieldOk(s, 1 + Data4Offset(1), 2, Data4Delim(1));
  }

  /** The brace, the first three fields of `s` and their dashes, with `g` holding their values. */
  predicate LeadingFieldsOf(s: seq<WChar>, g: Guid)
  {
    && |s| > GUID_STR_SIZE
    && s[0] == W('{') && s[9] == W('-') && s[14] == W('-') && s[19] == W('-')
    && HexRun(s, 1, 8) && g.data1 == FieldValue(s, 1, 8)
    && HexRun(s, 10, 4) && g.data2 == FieldValue(s, 10, 4)
    && HexRun(s, 15, 4) && g.data3 == FieldValue(s, 15, 4)
  }

  /** The Data4 digits of `s`, its dash, the closing brace and terminator, with `g` holding the bytes. */
  predicate Data4FieldsOf(s: seq<WChar>, g: Guid)
  {
    && |s| > GUID_STR_SIZE
    && s[24] == W('-') && s[GUID_STR_SIZE - 1] == W('}') && s[GUID_STR_SIZE] == 0
    && forall i :: 0 <= i < 8 ==> HexRun(s, 1 + Data4Offset(i), 2)
                                  && g.data4[i] == FieldValue(s, 1 + Data4Offset(i), 2)
  }

  /** A character inside a field printed back from its value is the original in lower case. */
  lemma FieldCharReprint(t: seq<WChar>, s: seq<WChar>, lo: nat, n: nat, v: nat, j: nat)
    requires HexRun(s, lo, n) && v == FieldValue(s, lo, n)
    requires lo + n <= |t| && t[lo..lo + n] == HexDigits(v, n)
    requires lo <= j < lo + n
    ensures t[j] == LowerAscii(s[j])
  {
    FieldReprint(s, lo, n);
    assert t[j] == t[lo..lo + n][j - lo];
    assert s[j] == s[lo..lo + n][j - lo];
  }

  /** Characters 0..19 (brace, leading fields, dashes) of a reprinted text. */
  lemma LeadingCharReprint(s: seq<WChar>, g: Guid, j: nat)
    requires LeadingFieldsOf(s, g) && j < 20
    ensures FormatGuid(g)[j] == LowerAscii(s[j])
  {
    var t := FormatGuid(g);
    LeadingLayout(g);
    if j == 0 {
      assert t[j] == s[j] == W('{');
    } else if j == 9 || j == 14 || j == 19 {
      assert t[j] == s[j] == W('-');
    } else if j < 9 {
      FieldCharReprint(t, s, 1, 8, g.data1, j);
    } else if j < 14 {
      FieldCharReprint(t, s, 10, 4, g.data2, j);
    } else {
      FieldCharReprint(t, s, 15, 4, g.data3, j);
    }
  }

  /** Characters 20..38 (Data4, its dash, the brace, the terminator) of a reprinted text. */
  lemma Data4CharReprint(s: seq<WChar>, g: Guid, j: nat)
    requires Data4FieldsOf(s, g) && 20 <= j <= GUID_STR_SIZE
    ensures FormatGuid(g)[j] == LowerAscii(s[j])
  {
    var t := FormatGuid(g);
    if j == 24 || j >= 37 {
      LeadingLayout(g);
    } else {
      var i := if j < 24 then (j - 20) / 2 else (j - 21) / 2;
      var lo := 1 + Data4Offset(i);
      assert lo <= j < lo + 2;
      Data4Layout(g, i);
      FieldCharReprint(t, s, lo, 2, g.data4[i], j);
    }
  }

  /**
    Parse, format, parse again: the second parse yields the same identifier
    and formatting it reproduces identical text.
  */
  lemma ReparseStable(s: seq<WChar>)
    requires GuidSyntax(s)
    ensures ParseGuid(FormatGuid(UuidValue(s, 1))) == Some(UuidValue(s, 1))
    ensures FormatGuid(UuidValue(s, 1)) == LowerText(s[..GUID_STR_SIZE + 1])
  {
    ParseFormat(UuidValue(s, 1));
    FormatParse(s);
  }

  // ---------------------------------------------------------------------
  // Case of the hex letters
  // ---------------------------------------------------------------------

  /** Lower-casing keeps a hex digit a hex digit, with the same value, and a non-digit a non-digit. */
  lemma HexDigitCaseless(c: WChar)
    ensures IsHexDigit(LowerAscii(c)) <==> IsHexDigit(c)
    ensures IsHexDigit(c) ==> HexDigitValue(LowerAscii(c)) == HexDigitValue(c)
  {
  }

  /** A run of hex digits folds to the same value in either case. */
  lemma {:induction false} HexFoldCaseless(t: seq<WChar>)
    requires AllHex(t)
    ensures AllHex(LowerText(t)) && HexFold(LowerText(t)) == HexFold(t)
  {
    var l := LowerText(t);
    forall i | 0 <= i < |t| ensures IsHexDigit(l[i]) {
      HexDigitCaseless(t[i]);
    }
    if t != [] {
      var w := |t|;
      var init := t[..w - 1];
      assert AllHex(init) by {
        forall i | 0 <= i < |init| ensures IsHexDigit(init[i]) {
          assert init[i] == t[i];
        }
      }
      HexFoldCaseless(init);
      assert l[..w - 1] == LowerText(init);
      HexDigitCaseless(t[w - 1]);
    }
  }

  /** One field reads the same from a text and from its lower-case form. */
  lemma FieldCaseless(s: seq<WChar>, from: nat, n: nat, delim: WChar)
    requires delim == 0 || delim == W('-')
    ensures FieldOk(LowerText(s), from, n, delim) <==> FieldOk(s, from, n, delim)
    ensures FieldOk(s, from, n, delim) ==> FieldValue(LowerText(s), from, n) == FieldValue(s, from, n)
  {
    var l := LowerText(s);
    if from + n <= |s| {
      var run := s[from..from + n];
      assert l[from..from + n] == LowerText(run);
      if AllHex(run) {
        HexFoldCaseless(run);
      } else {
        var k :| 0 <= k < n && !IsHexDigit(run[k]);
        HexDigitCaseless(run[k]);
        assert !IsHexDigit(l[from..from + n][k]);
      }
    }
  }

  /**
    The parser does not distinguish the case of hex letters: a text and its
    lower-case form are accepted together and denote the same identifier.
  */
  lemma ParseCaseless(s: seq<WChar>)
    ensures ParseGuid(LowerText(s)) == ParseGuid(s)
  {
    var l := LowerText(s);
    FieldCaseless(s, 1, 8, W('-'));
    FieldCaseless(s, 10, 4, W('-'));
    FieldCaseless(s, 15, 4, W('-'));
    forall i | 0 <= i < 8
      ensures FieldOk(l, 1 + Data4Offset(i), 2, Data4Delim(i)) <==> FieldOk(s, 1 + Data4Offset(i), 2, Data4Delim(i))
      ensures FieldOk(s, 1 + Data4Offset(i), 2, Data4Delim(i))
              ==> FieldValue(l, 1 + Data4Offset(i), 2) == FieldValue(s, 1 + Data4Offset(i), 2)
    {
      FieldCaseless(s, 1 + Data4Offset(i), 2, Data4Delim(i));
    }
    assert UuidSyntax(l, 1) <==> UuidSyntax(s, 1);
    if GuidSyntax(s) {
      ParsedFields(s);
      ParsedFields(l);
      var g, h := UuidValue(s, 1), UuidValue(l, 1);
      assert g.data4 == h.data4 by {
        forall i | 0 <= i < 8 ensures g.data4[i] == h.data4[i] {
          assert FieldOk(s, 1 + Data4Offset(i), 2, Data4Delim(i));
        }
      }
    }
  }
}
