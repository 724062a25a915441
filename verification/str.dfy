/** str/str.go: the older twin of strs/str.go.

    Substring, Left, Right and the emptiness tests are the same algorithms
    as in strs/str.go (counting runes with utf8.RuneCountInString instead of
    converting first), so they are the Strs functions under their own
    contracts. SubstringStart differs: a start past the end returns the whole
    string, where strs/str.go returns "". IsBlank takes Go's
    unicode.IsSpace as the parameter `isSpace`. */
module Str {

  import Strs
  import GoMath

  /** IsAnyEmpty: true for no arguments or when some argument is "". */
  function IsAnyEmpty(ss: seq<string>): (r: bool)
    ensures r <==> |ss| == 0 || exists k :: 0 <= k < |ss| && ss[k] == ""
  {
    Strs.IsAnyEmpty(ss)
  }

  /** IsNoneEmpty: the negation of IsAnyEmpty. */
  function IsNoneEmpty(ss: seq<string>): (r: bool)
    ensures r <==> |ss| > 0 && forall k :: 0 <= k < |ss| ==> ss[k] != ""
  {
    !IsAnyEmpty(ss)
  }

  /** IsBlank: every rune is white space, so "" is blank. */
  method IsBlank(s: string, isSpace: char -> bool) returns (r: bool)
    ensures r <==> forall i :: 0 <= i < |s| ==> isSpace(s[i])
  {
    var i := 0;
    while i < |s|
      invariant 0 <= i <= |s|
      invariant forall j :: 0 <= j < i ==> isSpace(s[j])
    {
      if !isSpace(s[i]) {
        return false;
      }
      i := i + 1;
    }
    return true;
  }

  /** SubstringStart as written: a start past the end returns the whole string. */
  function SubstringStart(s: string, start: int): (r: string)
    ensures start > |s| ==> r == s
    ensures start <= |s| ==> |r| == |s| - Strs.Clamp(start, |s|)
    ensures r == s[|s| - |r|..]
  {
    var start1 := if start < 0 then start + |s| else start;
    var start2 := if start1 < 0 then 0 else start1;
    if start2 > |s| then s else s[start2..]
  }

  /** The two SubstringStart functions agree except past the end, where this
      one returns the whole string and strs/str.go returns "". */
  lemma SubstringStartAgreesWithStrs(s: string, start: int)
    ensures start <= |s| ==> SubstringStart(s, start) == Strs.SubstringStart(s, start)
    ensures start > |s| ==> SubstringStart(s, start) == s && Strs.SubstringStart(s, start) == ""
  {
  }

  /** A start past the end keeps the whole string as written; the corrected
      function (Strs.SubstringStart) gives "". */
  lemma SubstringStartPastEnd()
    ensures SubstringStart("abc", 5) == "abc"
    ensures Strs.SubstringStart("abc", 5) == ""
  {
  }

  /** Substring: the runes between the normalised start and end. */
  function Substring(s: string, start: int, end: int): (r: string)
    ensures var lo, hi := Strs.Clamp(start, |s|), Strs.Clamp(end, |s|);
            r == if lo <= hi then s[lo..hi] else ""
  {
    Strs.Substring(s, start, end)
  }

  /** Left: the first n runes; "" for a negative n. */
  function Left(s: string, n: int): (r: string)
    ensures n < 0 ==> r == ""
    ensures n >= 0 ==> |r| == GoMath.MinInt(n, |s|)
    ensures r == s[..|r|]
  {
    Strs.Left(s, n)
  }

  /** Right: the last n runes; "" for n <= 0. */
  function Right(s: string, n: int): (r: string)
    ensures n <= 0 ==> r == ""
    ensures n > 0 ==> |r| == GoMath.MinInt(n, |s|)
    ensures r == s[|s| - |r|..]
  {
    Strs.Right(s, n)
  }

  /** Left and Right split a string at any position in range. */
  lemma LeftRightSplit(s: string, n: int)
    requires 0 <= n <= |s|
    ensures Left(s, n) + Right(s, |s| - n) == s
  {
    if n < |s| {
      assert s[..n] + s[n..] == s;
    }
  }
}
