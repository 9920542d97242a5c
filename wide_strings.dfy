/**
  The wide-string utilities of src/strings.c: length, three-way comparison
  and first-occurrence search over zero-terminated 16-bit code units.

  A C string is modelled as the sequence of code units readable from the
  pointer; the caller's obligation that it is terminated is `Terminated`.
  A pointer into the haystack is modelled as an offset from its start.
*/
module WideStrings {
  import opened PalTypes

  /** Some code unit of `s` is the terminator. */
  predicate Terminated(s: seq<WChar>)
  {
    exists i :: 0 <= i < |s| && s[i] == 0
  }

  /** The index of the first terminator: the length of the string. */
  function Len(s: seq<WChar>): (n: nat)
    requires Terminated(s)
    ensures n < |s| && s[n] == 0
    ensures forall j :: 0 <= j < n ==> s[j] != 0
  {
    FirstZeroFrom(s, 0)
  }

  /** The first terminator at or after `i`, scanning forward. */
  function FirstZeroFrom(s: seq<WChar>, i: nat): (n: nat)
    requires i <= |s| && exists k :: i <= k < |s| && s[k] == 0
    ensures i <= n < |s| && s[n] == 0
    ensures forall j :: i <= j < n ==> s[j] != 0
    decreases |s| - i
  {
    if s[i] == 0 then i else FirstZeroFrom(s, i + 1)
  }

  /** The characters of the string, without its terminator. */
  function Chars(s: seq<WChar>): seq<WChar>
    requires Terminated(s)
  {
    s[..Len(s)]
  }

  /** PAL_wcslen: walks the units until the first zero (src/strings.c:25-33). */
  method Wcslen(str: seq<WChar>) returns (len: nat)
    requires Terminated(str)
    ensures len == Len(str)
  {
    len := 0;
    while str[len] != 0
      invariant len <= Len(str)
      decreases Len(str) - len
    {
      len := len + 1;
    }
  }

  /**
    Reference order: lexicographic on unsigned code units, a proper prefix
    ordering first; the result is exactly -1, 0 or 1.
  */
  function LexCompare(x: seq<WChar>, y: seq<WChar>): (r: int)
    ensures r == -1 || r == 0 || r == 1
  {
    if x == [] && y == [] then 0
    else if x == [] then -1
    else if y == [] then 1
    else if x[0] < y[0] then -1
    else if x[0] > y[0] then 1
    else LexCompare(x[1..], y[1..])
  }

  /** LexCompare is zero exactly on equal sequences. */
  lemma {:induction false} LexCompareZeroIffEqual(x: seq<WChar>, y: seq<WChar>)
    ensures LexCompare(x, y) == 0 <==> x == y
  {
    if x != [] && y != [] && x[0] == y[0] {
      LexCompareZeroIffEqual(x[1..], y[1..]);
      assert x == [x[0]] + x[1..];
      assert y == [y[0]] + y[1..];
    }
  }

  /** Swapping the arguments negates the result. */
  lemma {:induction false} LexCompareAntisymmetric(x: seq<WChar>, y: seq<WChar>)
    ensures LexCompare(y, x) == -LexCompare(x, y)
  {
    if x != [] && y != [] && x[0] == y[0] {
      LexCompareAntisymmetric(x[1..], y[1..]);
    }
  }

  /** A proper prefix compares less than the longer string. */
  lemma {:induction false} LexComparePrefixLess(x: seq<WChar>, z: seq<WChar>)
    requires z != []
    ensures LexCompare(x, x + z) == -1
  {
    if x != [] {
      assert (x + z)[1..] == x[1..] + z;
      LexComparePrefixLess(x[1..], z);
    }
  }

  /** A common prefix does not influence the comparison. */
  lemma {:induction false} LexCompareSkipCommon(x: seq<WChar>, y: seq<WChar>, i: nat)
    requires i <= |x| && i <= |y| && x[..i] == y[..i]
    ensures LexCompare(x, y) == LexCompare(x[i..], y[i..])
  {
    if i > 0 {
      assert x[0] == x[..i][0] == y[..i][0] == y[0];
      assert x[1..][..i - 1] == x[..i][1..] == y[..i][1..] == y[1..][..i - 1];
      LexCompareSkipCommon(x[1..], y[1..], i - 1);
      assert x[1..][i - 1..] == x[i..];
      assert y[1..][i - 1..] == y[i..];
    }
  }

  /** The sign computation `((-res) < 0) - (res < 0)` of src/strings.c:44. */
  function Sign(res: int): (r: int)
    ensures res > 0 ==> r == 1
    ensures res == 0 ==> r == 0
    ensures res < 0 ==> r == -1
  {
    (if -res < 0 then 1 else 0) - (if res < 0 then 1 else 0)
  }

  /**
    PAL_wcscmp (src/strings.c:35-45): advances while the units agree and
    are not the terminator, then returns the sign of the difference.
  */
  method Wcscmp(str1: seq<WChar>, str2: seq<WChar>) returns (r: int)
    requires Terminated(str1) && Terminated(str2)
    ensures r == LexCompare(Chars(str1), Chars(str2))
  {
    var i := 0;
    while str1[i] == str2[i] && str1[i] != 0
      invariant i <= Len(str1) && i <= Len(str2)
      invariant str1[..i] == str2[..i]
      decreases Len(str1) - i
    {
      i := i + 1;
    }
    var res := str1[i] as int - str2[i] as int;
    r := Sign(res);
    // Relate the stopping point to the reference order.
    var x, y := Chars(str1), Chars(str2);
    assert x[..i] == str1[..i] == str2[..i] == y[..i];
    LexCompareSkipCommon(x, y, i);
    if str1[i] == 0 {
      assert i == Len(str1);
      if str2[i] == 0 {
        assert i == Len(str2);
      } else {
        assert y[i..][0] == str2[i];
      }
    } else {
      assert x[i..][0] == str1[i];
      if str2[i] != 0 {
        assert y[i..][0] == str2[i];
      }
    }
  }

  /**
    A zero comparison means the two strings agree unit for unit up to and
    including their terminators.
  */
  lemma CompareZeroIffSameString(a: seq<WChar>, b: seq<WChar>)
    requires Terminated(a) && Terminated(b)
    ensures LexCompare(Chars(a), Chars(b)) == 0 <==> a[..Len(a) + 1] == b[..Len(b) + 1]
  {
    LexCompareZeroIffEqual(Chars(a), Chars(b));
    assert a[..Len(a) + 1] == Chars(a) + [0];
    assert b[..Len(b) + 1] == Chars(b) + [0];
    if a[..Len(a) + 1] == b[..Len(b) + 1] {
      assert Chars(a) == a[..Len(a) + 1][..Len(a)];
      assert Chars(b) == b[..Len(b) + 1][..Len(b)];
    }
  }

  /** Whether `needle` occurs in `hay` starting at offset `k`. */
  predicate MatchAt(hay: seq<WChar>, needle: seq<WChar>, k: nat)
  {
    k + |needle| <= |hay| && hay[k..k + |needle|] == needle
  }

  /**
    PAL_wcsstr (src/strings.c:47-81): the offset of the leftmost occurrence
    of the needle in the haystack, or None for a null result. An empty
    needle matches at offset 0, also in an empty haystack.
  */
  method Wcsstr(dest: seq<WChar>, src: seq<WChar>) returns (res: Option<nat>)
    requires Terminated(dest) && Terminated(src)
    ensures res.Some? ==> MatchAt(Chars(dest), Chars(src), res.value)
    ensures res.Some? ==> forall k :: 0 <= k < res.value ==> !MatchAt(Chars(dest), Chars(src), k)
    ensures res.None? ==> forall k :: 0 <= k <= Len(dest) ==> !MatchAt(Chars(dest), Chars(src), k)
    ensures Len(src) == 0 ==> res == Some(0)
    ensures Len(src) > Len(dest) ==> res.None?
  {
    ghost var hay, needle := Chars(dest), Chars(src);
    if src[0] == 0 {
      assert needle == [];
      return Some(0);
    }
    var d := 0;
    while dest[d] != 0
      invariant d <= Len(dest)
      invariant forall k :: 0 <= k < d ==> !MatchAt(hay, needle, k)
      decreases Len(dest) - d
    {
      var i := 0;
      while true
        invariant i <= Len(src)
        invariant d + i <= Len(dest)
        invariant dest[d..d + i] == src[..i]
        decreases Len(src) - i
      {
        if src[i] == 0 {
          assert hay[d..d + i] == dest[d..d + i];
          return Some(d);
        } else if dest[d + i] == 0 {
          // The haystack ends before the needle does, here and further on.
          return None;
        } else if dest[d + i] != src[i] {
          assert !MatchAt(hay, needle, d) by {
            if d + |needle| <= |hay| {
              assert hay[d..d + |needle|][i] == dest[d + i];
              assert needle[i] == src[i];
            }
          }
          break;
        }
        assert dest[d..d + i + 1] == dest[d..d + i] + [dest[d + i]];
        assert src[..i + 1] == src[..i] + [src[i]];
        i := i + 1;
      }
      d := d + 1;
    }
    return None;
  }
}
