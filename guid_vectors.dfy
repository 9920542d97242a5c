/**
  The malformed texts of the GUID unit tests (tests/unit/main.cpp:215-221),
  run through the reference parser: a missing dash, a dash too many, a
  missing brace and trailing text are each rejected.
*/
module GuidVectors {
  import opened PalTypes
  import opened Guids

  /** A narrow literal widened unit by unit, as W("...") does for ASCII text. */
  function WideChars(s: string): (r: seq<WChar>)
    ensures |r| == |s|
  {
    seq(|s|, i requires 0 <= i < |s| => (s[i] as int) % 0x1_0000)
  }

  /** The same, followed by the terminator. */
  function WideText(s: string): (r: seq<WChar>)
    ensures |r| == |s| + 1 && r[|s|] == 0
  {
    WideChars(s) + [0]
  }

  /** Each malformed spelling of the tests is rejected. */
  lemma RejectMalformed()
    ensures ParseGuid(WideText("{123456789abc-def0-1234-56789ABCDEF0}")).None?
    ensures ParseGuid(WideText("{12345678-9abcdef0-1234-56789ABCDEF0}")).None?
    ensures ParseGuid(WideText("{12345678-9abc-def01234-56789ABCDEF0}")).None?
    ensures ParseGuid(WideText("{12345678-9abc-def0-123456789ABCDEF0}")).None?
    ensures ParseGuid(WideText("{12345678-9abc-def0-1234-56789ABCDEF0")).None?
    ensures ParseGuid(WideText("12345678-9abc-def0-1234-56789ABCDEF0}")).None?
    ensures ParseGuid(WideText("{12345678-9abc-def0-1234-56789ABCDEF0} ")).None?
  {
  }
}
