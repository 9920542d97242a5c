# DNCP core, modelled in Dafny

DNCP is a COM compatibility layer for non-Windows platforms. It provides
GUIDs, BSTRs, task memory, wide-string helpers and a `com_ptr` smart
pointer. This project models its core and proves what the code promises.

- **GUID codec** (`Guids`, src/guids.c). It covers:
  - the 16-byte record and `PAL_IsEqualGUID`;
  - `PAL_StringFromGUID2`, which prints the braced lower-case form;
  - the strict parser: `PAL_IIDFromString`, `GUIDFromString`,
    `UUIDFromString` and `ParseHexToValue`.

  The parser appears twice. One version is a grammar over code-unit
  positions with a reference parser (`GuidSyntax`, `ParseGuid`). The other
  is the cursor walk of the C code, which is proved to agree with the
  grammar. Parsing a formatted identifier gives it back. Formatting a
  parsed text gives the text back with its hex letters in lower case, so
  the two are inverse up to the case of hex letters. Parsing is proved not
  to depend on that case.
- **BSTR engine** (`Bstr`, src/bstr.c). The 64-bit layout is modelled on
  byte arrays: 4 zeroed pad bytes, a little-endian 4-byte byte-length
  prefix, then the payload at offset 8 and its terminators. This module
  covers:
  - the overflow-checked size computation;
  - the three constructors;
  - the two length accessors;
  - release through the allocator's own address.
- **Task memory** (`CoTaskMem`, src/memory.c). `PAL_CoTaskMemAlloc`
  turns a zero request into 8 bytes and rounds sizes up to a multiple of 8.
  A rounding that wraps yields null. The `Heap` class records which blocks
  are live. `aligned_alloc` and `free` are foreign, so the heap stands in
  for them.
- **Wide strings** (`WideStrings`, src/strings.c). `PAL_wcslen`,
  `PAL_wcscmp` and `PAL_wcsstr` are modelled as loops. Each is proved
  against a reference definition: the first terminator, lexicographic
  order on unsigned code units, and the leftmost match.
- **`dncp::com_ptr`** (`ComPtr`, src/inc/dncp.h). This is a class with the
  field `p` over a pointee that carries a reference count. Construction,
  move, Attach, Detach, Release and destruction are modelled, along with
  client scenarios taken from the unit tests.

Integers of fixed width are subset types of `int` (`PalTypes`). The
wrap-arounds of SIZE_T arithmetic, the conversions of UINT to SIZE_T and
of a length to UINT, and the 32-bit overflow in the byte constructor's
terminator offset are written out explicitly. One case is excluded by a
precondition instead: a wide length of 2^30 units or more, whose byte
count would turn negative in the UINT prefix. The `int` index of
`PAL_wcscmp` and `PAL_wcsstr` is unbounded in the model, so its overflow
is not captured. Both are listed under "Left out". A C
string is the sequence of code units readable from its pointer. A pointer
into memory is a block together with an offset.

## Model

| member | source | states |
|---|---|---|
| PalTypes.Le32RoundTrip | src/bstr.c:115 | reading back the four bytes of a stored 32-bit length gives the length |
| PalTypes.Le16RoundTrip | src/bstr.c:123 | reading back the two bytes of a stored code unit gives the unit |
| PalTypes.Le32Injective | src/guids.c:31 | two 32-bit values have the same byte image exactly when they are equal |
| PalTypes.Le16Injective | src/guids.c:31 | two 16-bit values have the same byte image exactly when they are equal |
| PalTypes.Int32Of | src/bstr.c:92 | the conversion to UINT keeps the value modulo 2^32 within the int32 range: values in range are unchanged and values in [2^31, 2^32) lose 2^32 |
| WideStrings.Len | src/strings.c:25-33 | the length is the index of a zero unit with no zero before it |
| WideStrings.Wcslen | src/strings.c:25-33 | the loop stops at the first terminator and returns its index, even with more units after an embedded zero |
| WideStrings.LexCompare | src/strings.c:43-44 | the reference order yields only -1, 0 or 1 |
| WideStrings.LexCompareZeroIffEqual | src/strings.c:39-44 | the order is zero exactly on equal strings |
| WideStrings.LexCompareAntisymmetric | src/strings.c:39-44 | swapping the arguments negates the result |
| WideStrings.LexComparePrefixLess | src/strings.c:39-44 | a proper prefix compares less than the longer string |
| WideStrings.LexCompareSkipCommon | src/strings.c:39-41 | a common prefix does not affect the comparison, which justifies advancing past equal units |
| WideStrings.Sign | src/strings.c:44 | the sign expression maps positive, zero and negative differences to 1, 0 and -1 |
| WideStrings.Wcscmp | src/strings.c:35-45 | the result is the lexicographic comparison, on unsigned units, of the two strings up to their terminators |
| WideStrings.CompareZeroIffSameString | src/strings.c:39-44 | the comparison is zero exactly when the strings agree up to and including their terminators |
| WideStrings.Wcsstr | src/strings.c:47-81 | the result is the leftmost offset where the whole needle occurs, or null when there is no occurrence; an empty needle gives offset 0, and a needle longer than the haystack gives null |
| CoTaskMem.AlignedSize | src/memory.c:27-39 | it yields null exactly when rounding wraps (cb > SIZE_MAX - 7); a zero request gives 8; otherwise a multiple of 8 that is at least cb and less than cb + 8 |
| CoTaskMem.AlignedSizeIsLeast | src/memory.c:34 | the rounded size is the least multiple of 8 that covers the request |
| CoTaskMem.Heap.CoTaskMemAlloc | src/memory.c:27-39 | null exactly when rounding wraps or the allocator refuses; otherwise a fresh block of the rounded size is added to the live set and nothing else changes |
| CoTaskMem.Heap.CoTaskMemFree | src/memory.c:41-44 | null is a no-op; otherwise exactly the given block leaves the live set |
| Bstr.MulOverflowCheck | src/bstr.c:48-50 | the division back-check on the wrapped product fails exactly when the true product exceeds SIZE_MAX |
| Bstr.WrappedProduct | src/bstr.c:48-50 | the overflow test is true exactly for products above SIZE_MAX; a product that fits is not wrapped |
| Bstr.ComputeAllocSize | src/bstr.c:46-61 | it fails exactly when count*size + 10 exceeds SIZE_MAX, covering both wrap checks; otherwise it yields count*size + 10 |
| Bstr.SizeTOf | src/bstr.c:107 | converting a UINT length to SIZE_T keeps a non-negative length and sends a negative one near SIZE_MAX |
| Bstr.SysStringByteLen | src/bstr.c:169-175 | null gives 0; otherwise the stored prefix |
| Bstr.SysStringLen | src/bstr.c:161-167 | the byte length divided by two, and 0 for null |
| Bstr.WideBytesAt | src/bstr.c:121 | in the image memcpy copies, unit k occupies bytes 2k and 2k+1, little-endian |
| Bstr.WideBytesLength | src/bstr.c:121 | the image of n units is 2n bytes |
| Bstr.HoldsUnitsLengths | src/bstr.c:161-175 | a BSTR holding the units s reports as many units as s has, and twice as many bytes, whatever zero units s contains |
| Bstr.StoreUint32 | src/bstr.c:115 | the four bytes at the offset hold the value, little-endian, and no other byte changes |
| Bstr.StoreUnit | src/bstr.c:123 | the two bytes at the offset hold the unit, and no other byte changes |
| Bstr.Memcpy | src/bstr.c:121 | the n bytes at the offset equal the source's first n bytes, and no other byte changes |
| Bstr.AllocAlignedBstr | src/bstr.c:63-76 | null exactly when the allocator returns null; otherwise the 4 pad bytes of a fresh live block are zero and the result points just past them |
| Bstr.FreeAlignedBstr | src/bstr.c:78-85 | stepping back over the pad frees exactly the allocator's block |
| Bstr.WideImageFacts | src/bstr.c:114-123 | the bytes the wide constructor writes make the block a BSTR holding the source units, with prefix 2*len and a terminator after them |
| Bstr.SysAllocStringLen | src/bstr.c:103-125 | null exactly for a negative length or a refusing allocator; otherwise a fresh BSTR with zeroed pad, prefix 2*len, payload offset 8 and a multiple of 8, the terminator ending within the unrounded request 2*len + 10 that the size computation yields, which the block covers, unit len zero, SysStringLen = len and SysStringByteLen = 2*len; with a source, the payload holds its first len units |
| Bstr.SysAllocString | src/bstr.c:87-101 | null for a null source, and null for a length of 2^31 units or more, which the cast to UINT makes negative; otherwise null exactly when the allocator refuses, else the BSTR SysAllocStringLen builds for the source's units up to its terminator |
| Bstr.EvenCeilingAsWritten | src/bstr.c:149 | `(len + 1) & ~1` with the sum wrapped to 32 bits: the offset is even |
| Bstr.EvenCeiling | src/bstr.c:149 | the intended offset, computed without overflow: even, and len or len + 1 |
| Bstr.EvenCeilingAsWrittenAgrees | src/bstr.c:149 | for non-negative len, the offset as written equals the intended one exactly when len < 0x7FFF_FFFF |
| Bstr.EvenCeilingOverflows | src/bstr.c:131-149 | for len = 0x7FFF_FFFF the size computation yields 0x8000_0009 and the allocator's rounding 0x8000_0010, within the largest object, yet the offset as written is INT_MIN and lies before the allocation; the intended offset keeps the wide zero inside |
| Bstr.RoundingLeavesRoom | src/bstr.c:149 | the wide zero ends exactly at the request len + 10 for even len and one byte past it for odd len; for odd len the rounded allocation is strictly larger than the request, so the wide zero fits |
| Bstr.ByteImageFacts | src/bstr.c:139-149 | the bytes the byte constructor writes give prefix len, byte length len and length len/2 |
| Bstr.TerminateBytes | src/bstr.c:147-149 | a zero byte after the payload and a wide zero at the first even offset, with every other byte of the block unchanged |
| Bstr.SysAllocStringByteLen | src/bstr.c:127-151 | null exactly for a negative length or a refusing allocator; otherwise a fresh BSTR for the request len + 10, with prefix len, byte len zero, a wide zero at the intended offset EvenCeiling(len) inside the allocation, SysStringByteLen = len and SysStringLen = len / 2; with a source, the payload equals its first len bytes |
| Bstr.SysFreeString | src/bstr.c:153-159 | null is a no-op; otherwise exactly the block the allocator returned leaves the live set |
| Guids.GuidBytes | src/inc/dncp.h:71-77 | the record occupies 16 bytes |
| Guids.GuidBytesInjective | src/guids.c:31 | records with the same 16 bytes are equal |
| Guids.IsEqualGuid | src/guids.c:29-32 | TRUE or FALSE, and TRUE exactly when the two records are equal |
| Guids.OperatorEquals | src/inc/dncp.h:153-156 | `==` holds exactly when the records are equal, in agreement with IsEqualGuid |
| Guids.HexDigitValue | src/guids.c:139-150 | an accepted digit stands for a value below 16 |
| Guids.HexFold | src/guids.c:136-156 | folding n digits gives a value below 16^n |
| Guids.HexDigits | src/guids.c:43 | %0Nx prints exactly N digits |
| Guids.HexDigitsRoundTrip | src/guids.c:43 | digits printed for a value that fits are hex digits and fold back to the value |
| Guids.LowerHexDigitValue | src/guids.c:147-150 | a printed lower-case digit is accepted and reads back as the printed value |
| Guids.GuidText | src/guids.c:43-48 | the formatted text is 38 units long |
| Guids.FormatGuid | src/guids.c:52-58 | with its terminator the output is 39 units |
| Guids.StringFromGuid2 | src/guids.c:37-61 | a capacity of at most 38 returns 0 and leaves the buffer unchanged; otherwise it writes the 39 units of the text and terminator, returns 39 and leaves the rest of the buffer unchanged |
| Guids.FieldValue | src/guids.c:136-156 | the value of an n-digit field is below 16^n |
| Guids.ShiftIn | src/guids.c:141 | (val << 4) + digit in 32 bits equals val*16 + digit when that fits |
| Guids.ParseHexToValue | src/guids.c:129-166 | valid exactly when 2*size hex digits follow, plus the delimiter when one is asked for; then the value is the digits' fold, and the cursor moves past the digits and the delimiter without passing the terminator |
| Guids.BrokenRun | src/guids.c:151-155 | a non-digit before the field ends means the field is not a hex run |
| Guids.DigitStep | src/guids.c:138-150 | one more accepted digit extends the run, and the shifted value is the fold of the longer run |
| Guids.UuidFromString | src/guids.c:103-127 | success exactly when the 36-character body matches the grammar; the record is then the body's value, and the body ends before the terminator |
| Guids.Data4Step | src/guids.c:118-124 | parsing byte i of Data4 extends the parsed prefix by the truncated field value |
| Guids.Data4Fails | src/guids.c:118-124 | a bad Data4 field makes the body ill-formed |
| Guids.UuidValueIntro | src/guids.c:103-127 | fields that parse, with a record holding their values, make the body well formed with that record as its value |
| Guids.GuidFromString | src/guids.c:82-99 | success exactly when the text is `{`, a well-formed body, `}` and then the terminator; the record is then what the reference parser yields |
| Guids.IidFromString | src/guids.c:69-80 | null gives S_OK and the all-zero record; otherwise S_OK exactly when the reference parser accepts, with its record, and E_INVALIDARG otherwise |
| Guids.ParseFormat | src/guids.c:37-61 | the formatted text of any record is well formed and parses back to that record |
| Guids.FieldOfDigits | src/guids.c:129-166 | a field printed for a value reads back as that value |
| Guids.LeadingLayout | src/guids.c:43-48 | where the braces, dashes, terminator and the three leading fields sit in the formatted text |
| Guids.Data4Layout | src/guids.c:43-48 | Data4[i] is printed at its offset in the text |
| Guids.HexDigitPrint | src/guids.c:139-150 | printing the value of an accepted digit gives that digit in lower case |
| Guids.HexDigitsOfFold | src/guids.c:136-156 | reprinting the fold of a digit run gives the run in lower case |
| Guids.FieldReprint | src/guids.c:129-166 | reprinting a field's value at its width gives the field in lower case |
| Guids.FormatParse | src/guids.c:82-127 | formatting the record parsed from well-formed text gives back that text, lower-cased |
| Guids.ParsedFields | src/guids.c:103-127 | in a well-formed text every field is a hex run whose value is the parsed record's corresponding field |
| Guids.FieldCharReprint | src/guids.c:43-48 | a reprinted field character is the original character in lower case |
| Guids.LeadingCharReprint | src/guids.c:43-48 | characters 0 to 19 of the reprinted text are the parsed text's characters in lower case |
| Guids.Data4CharReprint | src/guids.c:43-48 | characters 20 to 38 of the reprinted text are the parsed text's characters in lower case |
| Guids.ReparseStable | src/guids.c:37-127 | parse, format, parse again: the second parse yields the same record, and formatting it reproduces identical text |
| Guids.HexDigitCaseless | src/guids.c:139-150 | lower-casing keeps a hex digit a hex digit with the same value, and a non-digit a non-digit |
| Guids.HexFoldCaseless | src/guids.c:136-156 | a digit run folds to the same value in either case |
| Guids.FieldCaseless | src/guids.c:129-166 | a field parses, and to the same value, in a text exactly when it does in the lower-cased text |
| Guids.ParseCaseless | src/guids.c:82-127 | a text and its lower-case form are accepted together and denote the same record |
| GuidVectors.RejectMalformed | tests/unit/main.cpp:215-221 | each malformed spelling in the unit tests is rejected |
| ComPtr.Unknown.AddRef | src/inc/dncp.h:218 | one more reference |
| ComPtr.Unknown.Release | src/inc/dncp.h:260 | one reference fewer |
| ComPtr.ComPtr.Empty | src/inc/dncp.h:212 | default construction holds null |
| ComPtr.ComPtr.FromRaw | src/inc/dncp.h:214-219 | holds t; one AddRef when t is non-null, and no count changes for null |
| ComPtr.ComPtr.Move | src/inc/dncp.h:223-225 | takes over the other pointer's reference with no AddRef, leaving the other null |
| ComPtr.ComPtr.Release | src/inc/dncp.h:256-263 | holds null afterwards; a held pointee loses exactly one reference, and on null nothing changes |
| ComPtr.ComPtr.Destroy | src/inc/dncp.h:227 | the destructor behaves as Release |
| ComPtr.ComPtr.Attach | src/inc/dncp.h:243-247 | the previous pointee loses one reference, and t is held without AddRef |
| ComPtr.ComPtr.Detach | src/inc/dncp.h:249-254 | returns the held pointer and holds null; no count changes |
| ComPtr.ComPtr.MoveAssign | src/inc/dncp.h:231-235 | the target releases its previous pointee once and takes the other's pointer, leaving the other null; self-move changes nothing |
| ComPtr.ScopedReference | tests/unit/main.cpp:299-304 | constructing and then destroying a smart pointer leaves the count as it was |
| ComPtr.ReleaseTwice | src/inc/dncp.h:256-263 | an explicit Release undoes the construction's AddRef, and a second Release is a no-op |
| ComPtr.AttachDetach | tests/unit/main.cpp:313-319 | Attach followed by Detach hands back the same pointer and never changes the count |
| ComPtr.MoveChain | src/inc/dncp.h:223-235 | a reference moved through several smart pointers is released exactly once |

## Findings

| source | as written | input that shows it | evidently intended | confidence | as-written member | corrected member |
|---|---|---|---|---|---|---|
| src/bstr.c:149 | `(len + 1) & ~1` is computed in signed 32-bit int because `len` is a UINT; for the largest UINT the sum overflows (undefined behaviour, INT_MIN on two's-complement targets) | len = 0x7FFF_FFFF: the request of 0x8000_0009 bytes passes the size computation and is rounded to 0x8000_0010, but the wide zero is written 2^31 - 8 bytes before the allocation | the first even offset at or after len, computed without overflow (for example in SIZE_T), which lies inside the rounded allocation | medium; not executed | Bstr.EvenCeilingOverflows | Bstr.RoundingLeavesRoom |

## Left out

- The 32-bit build is not modelled: there the pad is absent (`sizeof(SIZE_T) == 4`, src/bstr.c:69-73, 81-82). Only the 64-bit layout is modelled.
- `aligned_alloc` and `free` are foreign. The allocator's answer is a parameter (`exhausted`). The one rule assumed of it is that it refuses any request above PTRDIFF_MAX. Alignment of the returned address is modelled through offsets within the block, not as absolute addresses.
- Bstr.SysAllocStringLen: a length of 2^30 units or more is excluded by a precondition. Its byte count of 2^31 or more is stored into the signed UINT prefix and reads back negative through SysStringByteLen and SysStringLen. That case is not modelled.
- Bstr.SysAllocString: the C code asserts only that the unit count is at most UINT_MAX, 2^32 - 1 (src/bstr.c:91). Counts in [2^31, 2^32) become negative in the cast at src/bstr.c:92, and the model returns null for them as the C code does. Counts in [2^30, 2^31) are excluded by the precondition, for the reason given for SysAllocStringLen.
- Bstr.SysAllocStringByteLen: for len = 0x7FFF_FFFF the model writes the wide zero at the intended offset. The C code writes it before the allocation (see "Findings").
- Bstr.SysStringLen and Bstr.SysStringByteLen: a prefix that reads as negative as a signed UINT does not arise from these constructors and is not modelled.
- WideStrings.Wcscmp: the index `i` is an `int` in the C code (src/strings.c:39-41). Two strings sharing 2^31 or more nonzero leading units make `++i` overflow, which is undefined behaviour. The model's index is unbounded, and it returns the comparison result there.
- WideStrings.Wcsstr: the inner index `i` is an `int` in the C code (src/strings.c:54, 58). A needle of 2^31 or more units whose leading units match the haystack makes `++i` overflow. The model's index is unbounded, and it returns the leftmost match there.
- With a null source, the payload of SysAllocStringLen and SysAllocStringByteLen is whatever the allocator delivered. The model says nothing about those bytes.
- `snprintf` is replaced by an explicit lower-case hex formatter. Its failure branch (src/guids.c:49-50) cannot occur for this fixed format and is not modelled.
- `ParseHexToValue` reads `val` before it is initialised (src/guids.c:135). The model starts from 0. The eight shifts for Data1 and the truncating casts for the other fields discard whatever the initial bits were.
- Guids.UuidFromString, Guids.GuidFromString and Guids.IidFromString: on failure the C code may already have written some fields of the output record. The model leaves the record unconstrained on failure, so it does not capture those partial writes.
- Guids.StringFromGuid2: a buffer whose capacity exceeds its real length is excluded by a precondition. The C code trusts the caller here.
- Reference counts are unbounded integers. ULONG wrap-around and the values AddRef and Release return are not modelled.
- `PAL_CoCreateGuid` (random identifiers), the Windows forwarding shims in src/windows.c, the interface definitions in src/interfaces.c, and the `cotaskmem_ptr` and `bstr_ptr` deleters are not part of this model. Neither are the `com_ptr` accessors `operator T*`, `operator&` and `operator->`, which only expose `p`.
- The unit tests' concrete identifier and texts are not evaluated as literals. The round trip they check (tests/unit/main.cpp:223-237) is the general Guids.ParseFormat and Guids.ReparseStable, and their upper-case spelling is covered by Guids.ParseCaseless. Only the malformed spellings appear as a concrete lemma.
