/** strs/str.go: string helpers over rune sequences.

    A Go string is converted to `[]rune` before every index computation, so
    a string is modelled directly as its rune sequence (`seq<char>`); Go's
    byte length is never observed by these functions. */
module Strs {

  import opened Wrappers
  import Errors
  import Fmt
  import GoMath

  /** The value the package returns for "no such index". */
  const IndexNotFound: int := -1

  /** Go's `2<<32 - 1`: the starting value of IndexOfDifference's shortest-length scan. */
  const ShortestStart: int := 0x1_ffff_ffff

  predicate IsEmpty(s: string) {
    |s| == 0
  }

  /** Whether some string of ss, from index i on, is empty (the loop of IsAnyEmpty). */
  predicate SomeEmptyFrom(ss: seq<string>, i: nat)
    decreases |ss| - i
  {
    i < |ss| && (IsEmpty(ss[i]) || SomeEmptyFrom(ss, i + 1))
  }

  lemma {:induction false} SomeEmptyFromMeans(ss: seq<string>, i: nat)
    ensures SomeEmptyFrom(ss, i) <==> exists k :: i <= k < |ss| && ss[k] == ""
    decreases |ss| - i
  {
    if i < |ss| {
      SomeEmptyFromMeans(ss, i + 1);
      if ss[i] != "" && (exists k :: i <= k < |ss| && ss[k] == "") {
        var k :| i <= k < |ss| && ss[k] == "";
        assert i + 1 <= k;
      }
    }
  }

  /** IsAnyEmpty: true for no arguments or when some argument is "". */
  function IsAnyEmpty(ss: seq<string>): (r: bool)
    ensures r <==> |ss| == 0 || exists k :: 0 <= k < |ss| && ss[k] == ""
  {
    SomeEmptyFromMeans(ss, 0);
    |ss| == 0 || SomeEmptyFrom(ss, 0)
  }

  /** IsNoneEmpty: at least one argument, and none of them is "". */
  function IsNoneEmpty(ss: seq<string>): (r: bool)
    ensures r <==> |ss| > 0 && forall k :: 0 <= k < |ss| ==> ss[k] != ""
  {
    !IsAnyEmpty(ss)
  }

  /** An index as Substring reads it: a negative index counts from the end,
      and the result is then clamped into [0, len]. */
  function Clamp(i: int, len: nat): (r: nat)
    ensures r <= len
    ensures 0 <= i <= len ==> r == i
  {
    var j := if i < 0 then i + len else i;
    if j < 0 then 0 else if j > len then len else j
  }

  /** SubstringStart: the runes from `start` on; a negative start counts from
      the end and is clamped to 0, and a start past the end gives "". */
  function SubstringStart(s: string, start: int): (r: string)
    ensures |r| == |s| - Clamp(start, |s|)
    ensures r == s[|s| - |r|..]
  {
    var strLen := |s|;
    var start1 := if start < 0 then start + strLen else start;
    var start2 := if start1 < 0 then 0 else start1;
    if start2 > strLen then "" else s[start2..]
  }

  /** Substring: the runes between start and end, after both are normalised. */
  function Substring(s: string, start: int, end: int): (r: string)
    ensures var lo, hi := Clamp(start, |s|), Clamp(end, |s|);
            r == if lo <= hi then s[lo..hi] else ""
  {
    var strLen := |s|;
    if strLen == 0 then ""
    else
      var end1 := if end < 0 then end + strLen else end;
      var start1 := if start < 0 then start + strLen else start;
      var end2 := if end1 > strLen then strLen else end1;
      if start1 > end2 then ""
      else
        var start2 := if start1 < 0 then 0 else start1;
        var end3 := if end2 < 0 then 0 else end2;
        s[start2..end3]
  }

  /** Left: the first n runes; "" for a negative n, s itself when n exceeds its length. */
  function Left(s: string, n: int): (r: string)
    ensures n < 0 ==> r == ""
    ensures n >= 0 ==> |r| == GoMath.MinInt(n, |s|)
    ensures r == s[..|r|]
  {
    if n < 0 then ""
    else if |s| < n then s
    else s[0..n]
  }

  /** Right: the last n runes; "" for n <= 0, s itself when n exceeds its length. */
  function Right(s: string, n: int): (r: string)
    ensures n <= 0 ==> r == ""
    ensures n > 0 ==> |r| == GoMath.MinInt(n, |s|)
    ensures r == s[|s| - |r|..]
  {
    if n <= 0 then ""
    else
      var strLen := |s|;
      if strLen < n then s else s[strLen - n..]
  }

  /** Left is Substring from 0 for every non-negative count. */
  lemma LeftIsSubstring(s: string, n: int)
    requires n >= 0
    ensures Left(s, n) == Substring(s, 0, n)
  {
  }

  /** Right is SubstringStart from -n for every positive count. */
  lemma RightIsSubstringStart(s: string, n: int)
    requires n > 0
    ensures Right(s, n) == SubstringStart(s, -n)
  {
  }

  /** Splitting at any non-negative position and joining the halves gives s back. */
  lemma LeftSubstringStartSplit(s: string, n: int)
    requires n >= 0
    ensures Left(s, n) + SubstringStart(s, n) == s
  {
    if n <= |s| {
      assert s[..n] + s[n..] == s;
    }
  }

  /** Position p is a common rune of every string: all of them are longer
      than p and agree with the first string there. */
  predicate AgreeAt(ss: seq<string>, p: int) {
    |ss| > 0 && 0 <= p < |ss[0]| && forall k :: 0 <= k < |ss| ==> p < |ss[k]| && ss[k][p] == ss[0][p]
  }

  predicate AllEqual(ss: seq<string>) {
    forall k :: 0 <= k < |ss| ==> ss[k] == ss[0]
  }

  /** Some string is no longer than the scan's starting value, so the scan
      sees the true shortest length. */
  predicate FitsScan(ss: seq<string>) {
    exists k :: 0 <= k < |ss| && |ss[k]| <= ShortestStart
  }

  /** The first loop of IndexOfDifference, shortest half: MinInt over the
      rune lengths, starting from ShortestStart. */
  function Shortest(ss: seq<string>): (r: int)
    ensures r <= ShortestStart
    ensures forall k :: 0 <= k < |ss| ==> r <= |ss[k]|
    ensures r == ShortestStart || exists k :: 0 <= k < |ss| && r == |ss[k]|
  {
    if |ss| == 0 then ShortestStart
    else
      var r := GoMath.MinInt(|ss[|ss| - 1]|, Shortest(ss[..|ss| - 1]));
      assert forall k :: 0 <= k < |ss| - 1 ==> ss[..|ss| - 1][k] == ss[k];
      r
  }

  /** The first loop of IndexOfDifference, longest half: MaxInt over the
      rune lengths, starting from 0. */
  function Longest(ss: seq<string>): (r: int)
    ensures r >= 0
    ensures forall k :: 0 <= k < |ss| ==> |ss[k]| <= r
    ensures r == 0 || exists k :: 0 <= k < |ss| && r == |ss[k]|
  {
    if |ss| == 0 then 0
    else
      var r := GoMath.MaxInt(|ss[|ss| - 1]|, Longest(ss[..|ss| - 1]));
      assert forall k :: 0 <= k < |ss| - 1 ==> ss[..|ss| - 1][k] == ss[k];
      r
  }

  /** The inner loop of IndexOfDifference: some later string differs from the
      first at position pos. */
  predicate DiffersAt(ss: seq<string>, pos: nat)
    requires |ss| > 0
    requires forall k :: 0 <= k < |ss| ==> pos < |ss[k]|
  {
    exists a :: 1 <= a < |ss| && ss[a][pos] != ss[0][pos]
  }

  /** The outer loop of IndexOfDifference: the first position in
      [pos, shortest) where DiffersAt holds, or -1. */
  function ScanFrom(ss: seq<string>, pos: nat, shortest: nat): (r: int)
    requires |ss| > 0
    requires forall k :: 0 <= k < |ss| ==> shortest <= |ss[k]|
    ensures r == -1 || pos <= r < shortest
    ensures forall p :: pos <= p < shortest && (r == -1 || p < r) ==> !DiffersAt(ss, p)
    ensures r != -1 ==> DiffersAt(ss, r)
    decreases shortest - pos
  {
    if pos >= shortest then -1
    else if DiffersAt(ss, pos) then pos
    else ScanFrom(ss, pos + 1, shortest)
  }

  /** IndexOfDifference: the first rune index at which the strings differ. */
  function IndexOfDifference(ss: seq<string>): (r: int)
    ensures r >= -1
    ensures |ss| < 2 ==> r == IndexNotFound
    ensures |ss| >= 2 ==> r <= Shortest(ss)
  {
    if |ss| > 1 then
      // the loop over all strings always runs here, so allStringsNull is false
      var shortest := Shortest(ss);
      var longest := Longest(ss);
      if longest == 0 then IndexNotFound
      else if shortest == 0 then 0
      else
        var firstDiff := ScanFrom(ss, 0, shortest);
        if firstDiff == -1 && shortest != longest then shortest else firstDiff
    else IndexNotFound
  }

  /** Below the shortest length, agreement is exactly the absence of a difference. */
  lemma AgreeBelowShortest(ss: seq<string>, p: nat)
    requires |ss| > 0
    requires forall k :: 0 <= k < |ss| ==> p < |ss[k]|
    ensures AgreeAt(ss, p) <==> !DiffersAt(ss, p)
  {
  }

  /** When some string fits the scan, Shortest is that true shortest length. */
  lemma ShortestIsALength(ss: seq<string>)
    requires FitsScan(ss)
    ensures exists k :: 0 <= k < |ss| && Shortest(ss) == |ss[k]|
  {
    var k0 :| 0 <= k0 < |ss| && |ss[k0]| <= ShortestStart;
    if Shortest(ss) == ShortestStart {
      assert Shortest(ss) == |ss[k0]|;
    }
  }

  /** IndexOfDifference finds the first position where the strings disagree,
      and returns -1 exactly when they are all equal. */
  lemma IndexOfDifferenceIsFirstDifference(ss: seq<string>)
    requires |ss| >= 2 && FitsScan(ss)
    ensures IndexOfDifference(ss) == IndexNotFound <==> AllEqual(ss)
    ensures var r := IndexOfDifference(ss);
            r != IndexNotFound ==> (forall p :: 0 <= p < r ==> AgreeAt(ss, p)) && !AgreeAt(ss, r)
  {
    var r := IndexOfDifference(ss);
    var shortest, longest := Shortest(ss), Longest(ss);
    ShortestIsALength(ss);
    var ks :| 0 <= ks < |ss| && shortest == |ss[ks]|;
    if longest == 0 {
      assert forall k :: 0 <= k < |ss| ==> ss[k] == "";
    } else if shortest == 0 {
      var kl :| 0 <= kl < |ss| && longest == |ss[kl]|;
      assert ss[ks] != ss[kl];
      assert !AgreeAt(ss, 0);
    } else {
      var d := ScanFrom(ss, 0, shortest);
      forall p | 0 <= p < shortest && (d == -1 || p < d)
        ensures AgreeAt(ss, p)
      {
        AgreeBelowShortest(ss, p);
      }
      if d != -1 {
        AgreeBelowShortest(ss, d);
        assert !AgreeAt(ss, d);
        var a :| 1 <= a < |ss| && ss[a][d] != ss[0][d];
        assert ss[a] != ss[0];
      } else if shortest != longest {
        var kl :| 0 <= kl < |ss| && longest == |ss[kl]|;
        assert ss[ks] != ss[kl];
        assert !AgreeAt(ss, shortest) by {
          assert !(shortest < |ss[ks]|);
        }
      } else {
        forall k | 0 <= k < |ss|
          ensures ss[k] == ss[0]
        {
          assert |ss[k]| == shortest == |ss[0]|;
          forall p | 0 <= p < shortest
            ensures ss[k][p] == ss[0][p]
          {
            assert AgreeAt(ss, p);
          }
        }
      }
    }
  }

  /** The loop of IndexOfDifferenceWithTwoStr: from i on, the length of the
      run of equal runes. */
  function MatchEnd(a: string, b: string, i: nat): (r: nat)
    requires i <= |a| && i <= |b| && a[..i] == b[..i]
    ensures i <= r && r <= |a| && r <= |b|
    ensures a[..r] == b[..r]
    ensures r == |a| || r == |b| || a[r] != b[r]
    decreases |a| - i
  {
    if i < |a| && i < |b| && a[i] == b[i] then
      assert a[..i + 1] == a[..i] + [a[i]] && b[..i + 1] == b[..i] + [b[i]];
      MatchEnd(a, b, i + 1)
    else i
  }

  /** IndexOfDifferenceWithTwoStr: -1 exactly when a == b, otherwise the
      length of their common prefix. */
  function IndexOfDifferenceWithTwoStr(a: string, b: string): (r: int)
    ensures r == IndexNotFound <==> a == b
    ensures r != IndexNotFound ==>
              0 <= r <= |a| && r <= |b| && a[..r] == b[..r] && (r == |a| || r == |b| || a[r] != b[r])
  {
    if a == b then IndexNotFound
    else
      var i := MatchEnd(a, b, 0);
      if i >= |a| && i >= |b| then IndexNotFound
      else i
  }

  /** For two strings, the two-string variant and the general one agree. */
  lemma TwoStrAgreesWithGeneral(a: string, b: string)
    requires |a| <= ShortestStart
    ensures IndexOfDifferenceWithTwoStr(a, b) == IndexOfDifference([a, b])
  {
    var ss := [a, b];
    assert FitsScan(ss) by { assert |ss[0]| <= ShortestStart; }
    IndexOfDifferenceIsFirstDifference(ss);
    var r := IndexOfDifference(ss);
    var t := IndexOfDifferenceWithTwoStr(a, b);
    if a == b {
      assert AllEqual(ss);
    } else {
      assert !AllEqual(ss);
      forall p | 0 <= p < t ensures AgreeAt(ss, p) {
        assert a[..t][p] == b[..t][p];
      }
      assert !AgreeAt(ss, t);
      assert r < t ==> AgreeAt(ss, r);
      assert 0 <= t < r ==> AgreeAt(ss, t);
    }
  }

  /** Difference: "" for equal strings, otherwise b from the first index
      where a and b differ. */
  function Difference(a: string, b: string): (r: string)
    ensures a == b ==> r == ""
    ensures |r| <= |b|
    ensures r == b[|b| - |r|..]
    ensures a != b ==>
              var k := |b| - |r|;
              k <= |a| && a[..k] == b[..k] && (k == |a| || k == |b| || a[k] != b[k])
  {
    var i := IndexOfDifferenceWithTwoStr(a, b);
    if i == IndexNotFound then "" else b[i..]
  }

  /** CommonPrefix: "" for no arguments, otherwise the first string cut at
      the first difference. */
  function CommonPrefix(ss: seq<string>): (r: string)
    ensures |ss| == 0 ==> r == ""
    ensures |ss| > 0 ==> |r| <= |ss[0]| && r == ss[0][..|r|]
  {
    if |ss| != 0 then
      var smallestIndexOfDiff := IndexOfDifference(ss);
      if smallestIndexOfDiff == IndexNotFound then ss[0]
      else if smallestIndexOfDiff == 0 then ""
      else ss[0][0..smallestIndexOfDiff]
    else ""
  }

  /** CommonPrefix is the longest common prefix: a prefix of every argument,
      and no argument agrees with the others one rune further. */
  lemma CommonPrefixIsLongest(ss: seq<string>)
    requires |ss| > 0 && FitsScan(ss)
    ensures var r := CommonPrefix(ss);
            (forall k :: 0 <= k < |ss| ==> |r| <= |ss[k]| && ss[k][..|r|] == r) && !AgreeAt(ss, |r|)
  {
    var r := CommonPrefix(ss);
    if |ss| == 1 {
      assert !AgreeAt(ss, |ss[0]|);
    } else {
      IndexOfDifferenceIsFirstDifference(ss);
      var d := IndexOfDifference(ss);
      if d == IndexNotFound {
        assert forall k :: 0 <= k < |ss| ==> ss[k] == ss[0];
        assert !(|ss[0]| < |ss[0]|);
      } else {
        assert |r| == d;
        forall k | 0 <= k < |ss|
          ensures |r| <= |ss[k]| && ss[k][..|r|] == r
        {
          forall p | 0 <= p < d ensures ss[k][p] == ss[0][p] {
            assert AgreeAt(ss, p);
          }
        }
      }
    }
  }

  /** The error Abbreviate reports for a width below `width`. */
  function WidthError(prefix: string, width: int): Errors.Error {
    Errors.Message(prefix + Fmt.Decimal(width))
  }

  const MinWidthText := "minimum abbreviation width is "
  const MinWidthOffsetText := "minimum abbreviation width with offset is "

  /** The offset Abbreviate works with: capped at the length, then moved left
      so that maxWidth - markerLen runes remain after it. */
  function AdjustedOffset(strLen: int, markerLen: int, offset: int, maxWidth: int): int {
    var o1 := if offset > strLen then strLen else offset;
    if strLen - o1 < maxWidth - markerLen then strLen - (maxWidth - markerLen) else o1
  }

  /** Abbreviate as written: the middle branch recurses on the runes before
      the offset and the last branch keeps a prefix, where the evidently
      intended algorithm (AbbreviateIntended) uses the runes after it. */
  function Abbreviate(s: string, marker: string, offset: int, maxWidth: int): (r: Result<string, Errors.Error>)
    ensures s != "" && marker == "" && maxWidth > 0 ==> r == Ok(s[..GoMath.MinInt(maxWidth, |s|)])
    ensures s == "" || (marker == "" && maxWidth <= 0) ==> r == Ok(s)
    ensures r.Err? ==> s != "" && marker != "" && maxWidth < 2 * |marker| + 1
    ensures s != "" && marker != "" && maxWidth < |marker| + 1 ==> r == Err(WidthError(MinWidthText, |marker| + 1))
    ensures s != "" && marker != "" && maxWidth >= |marker| + 1 && |s| <= maxWidth ==> r == Ok(s)
    ensures s != "" && marker != "" && maxWidth >= |marker| + 1 && |s| > maxWidth
            && AdjustedOffset(|s|, |marker|, offset, maxWidth) <= |marker| + 1
            ==> r == Ok(s[..maxWidth - |marker|] + marker) && |r.value| == maxWidth
    ensures s != "" && marker != "" && |marker| + 1 <= maxWidth < 2 * |marker| + 1 && |s| > maxWidth
            && AdjustedOffset(|s|, |marker|, offset, maxWidth) > |marker| + 1
            ==> r == Err(WidthError(MinWidthOffsetText, 2 * |marker| + 1))
    decreases |s|
  {
    if !IsEmpty(s) && marker == "" && maxWidth > 0 then Ok(Substring(s, 0, maxWidth))
    else if IsAnyEmpty([s, marker]) then
      assert s == "" || marker == "" by { assert [s, marker][0] == s && [s, marker][1] == marker; }
      Ok(s)
    else
      assert s != "" && marker != "" by { assert [s, marker][0] == s && [s, marker][1] == marker; }
      var abbrevMarkerLen := |marker|;
      var minAbbrevWidth := abbrevMarkerLen + 1;
      if maxWidth < minAbbrevWidth then Err(WidthError(MinWidthText, minAbbrevWidth))
      else
        var minAbbrevWidthOffset := 2 * abbrevMarkerLen + 1;
        var strLen := |s|;
        if strLen <= maxWidth then Ok(s)
        else
          var offset1 := if offset > strLen then strLen else offset;
          var offset2 := if strLen - offset1 < maxWidth - abbrevMarkerLen
                         then strLen - (maxWidth - abbrevMarkerLen) else offset1;
          if offset2 <= abbrevMarkerLen + 1 then Ok(Substring(s, 0, maxWidth - abbrevMarkerLen) + marker)
          else if maxWidth < minAbbrevWidthOffset then Err(WidthError(MinWidthOffsetText, minAbbrevWidthOffset))
          else if offset2 + maxWidth - abbrevMarkerLen < strLen then
            match Abbreviate(Substring(s, 0, offset2), marker, 0, maxWidth - abbrevMarkerLen)
            case Ok(substr) => Ok(marker + substr)
            case Err(e) => Err(e)
          else Ok(marker + Substring(s, 0, strLen - (maxWidth - abbrevMarkerLen)))
  }

  /** Abbreviate as its algorithm evidently intends: the middle branch
      abbreviates the runes from the offset on, and the last branch keeps the
      last maxWidth - markerLen runes. */
  function AbbreviateIntended(s: string, marker: string, offset: int, maxWidth: int): (r: Result<string, Errors.Error>)
    ensures s != "" && marker == "" && maxWidth > 0 ==> r == Ok(s[..GoMath.MinInt(maxWidth, |s|)])
    ensures s == "" || (marker == "" && maxWidth <= 0) ==> r == Ok(s)
    ensures r.Err? ==> s != "" && marker != "" && maxWidth < 2 * |marker| + 1
    ensures s != "" && marker != "" && r.Ok? ==> |r.value| <= maxWidth
    ensures s != "" && marker != "" && r.Ok? && |s| > maxWidth ==> |r.value| == maxWidth
    ensures s != "" && marker != "" && maxWidth < |marker| + 1 ==> r == Err(WidthError(MinWidthText, |marker| + 1))
    ensures s != "" && marker != "" && maxWidth >= |marker| + 1 && |s| <= maxWidth ==> r == Ok(s)
    ensures s != "" && marker != "" && |marker| + 1 <= maxWidth < 2 * |marker| + 1 && |s| > maxWidth
            && AdjustedOffset(|s|, |marker|, offset, maxWidth) > |marker| + 1
            ==> r == Err(WidthError(MinWidthOffsetText, 2 * |marker| + 1))
    decreases |s|
  {
    if !IsEmpty(s) && marker == "" && maxWidth > 0 then Ok(Substring(s, 0, maxWidth))
    else if IsAnyEmpty([s, marker]) then
      assert s == "" || marker == "" by { assert [s, marker][0] == s && [s, marker][1] == marker; }
      Ok(s)
    else
      assert s != "" && marker != "" by { assert [s, marker][0] == s && [s, marker][1] == marker; }
      var abbrevMarkerLen := |marker|;
      var minAbbrevWidth := abbrevMarkerLen + 1;
      if maxWidth < minAbbrevWidth then Err(WidthError(MinWidthText, minAbbrevWidth))
      else
        var minAbbrevWidthOffset := 2 * abbrevMarkerLen + 1;
        var strLen := |s|;
        if strLen <= maxWidth then Ok(s)
        else
          var offset2 := AdjustedOffset(strLen, abbrevMarkerLen, offset, maxWidth);
          if offset2 <= abbrevMarkerLen + 1 then Ok(Substring(s, 0, maxWidth - abbrevMarkerLen) + marker)
          else if maxWidth < minAbbrevWidthOffset then Err(WidthError(MinWidthOffsetText, minAbbrevWidthOffset))
          else if offset2 + maxWidth - abbrevMarkerLen < strLen then
            match AbbreviateIntended(SubstringStart(s, offset2), marker, 0, maxWidth - abbrevMarkerLen)
            case Ok(substr) => Ok(marker + substr)
            case Err(e) => Err(e)
          else Ok(marker + SubstringStart(s, strLen - (maxWidth - abbrevMarkerLen)))
  }

  /** With offset 0 the result is the first maxWidth - markerLen runes and
      the marker: exactly maxWidth runes. */
  lemma AbbreviateOffsetZero(s: string, marker: string, maxWidth: int)
    requires s != "" && marker != "" && |marker| + 1 <= maxWidth < |s|
    ensures Abbreviate(s, marker, 0, maxWidth) == Ok(s[..maxWidth - |marker|] + marker)
    ensures |Abbreviate(s, marker, 0, maxWidth).value| == maxWidth
  {
    assert AdjustedOffset(|s|, |marker|, 0, maxWidth) == 0;
  }

  /** The same for the intended version. */
  lemma AbbreviateOffsetZeroIntended(s: string, marker: string, maxWidth: int)
    requires s != "" && marker != "" && |marker| + 1 <= maxWidth < |s|
    ensures AbbreviateIntended(s, marker, 0, maxWidth) == Ok(s[..maxWidth - |marker|] + marker)
  {
    assert AdjustedOffset(|s|, |marker|, 0, maxWidth) == 0;
  }

  /** The corrected offset branches for every input: when the window of
      maxWidth - 2 * markerLen runes from the adjusted offset leaves runes
      after it, the result is that window between two markers; otherwise it
      is the marker and the last maxWidth - markerLen runes. Either way the
      result is exactly maxWidth runes. */
  lemma AbbreviateIntendedWindow(s: string, marker: string, offset: int, maxWidth: int)
    requires s != "" && marker != "" && 2 * |marker| + 1 <= maxWidth < |s|
    requires AdjustedOffset(|s|, |marker|, offset, maxWidth) > |marker| + 1
    ensures var o, w := AdjustedOffset(|s|, |marker|, offset, maxWidth), maxWidth - |marker|;
            o + w < |s| ==> AbbreviateIntended(s, marker, offset, maxWidth) == Ok(marker + s[o..o + w - |marker|] + marker)
    ensures var o, w := AdjustedOffset(|s|, |marker|, offset, maxWidth), maxWidth - |marker|;
            o + w >= |s| ==> AbbreviateIntended(s, marker, offset, maxWidth) == Ok(marker + s[|s| - w..])
    ensures |AbbreviateIntended(s, marker, offset, maxWidth).value| == maxWidth
  {
    var o, w := AdjustedOffset(|s|, |marker|, offset, maxWidth), maxWidth - |marker|;
    assert !IsAnyEmpty([s, marker]) by { assert [s, marker][0] == s && [s, marker][1] == marker; }
    if o + w < |s| {
      var t := SubstringStart(s, o);
      assert t == s[o..];
      AbbreviateOffsetZeroIntended(t, marker, w);
      var window := s[o..o + w - |marker|];
      assert t[..w - |marker|] == window;
      assert AbbreviateIntended(t, marker, 0, w) == Ok(window + marker);
      assert AbbreviateIntended(s, marker, offset, maxWidth) == Ok(marker + (window + marker));
      assert marker + (window + marker) == marker + window + marker;
    }
  }

  /** Both versions agree whenever the adjusted offset selects the leading
      branch, which covers every call with offset 0. */
  lemma AbbreviateAgreesOnLeadingBranch(s: string, marker: string, offset: int, maxWidth: int)
    requires AdjustedOffset(|s|, |marker|, offset, maxWidth) <= |marker| + 1
    ensures Abbreviate(s, marker, offset, maxWidth) == AbbreviateIntended(s, marker, offset, maxWidth)
  {
  }

  /** As written, the last branch can exceed maxWidth: 11 runes for a width of 7. */
  lemma AbbreviateTailExceedsWidth()
    ensures Abbreviate("abcdefghijkl", "...", 10, 7) == Ok("...abcdefgh")
    ensures |"...abcdefgh"| > 7
    ensures AbbreviateIntended("abcdefghijkl", "...", 10, 7) == Ok("...ijkl")
  {
    var s := "abcdefghijkl";
    assert |s| == 12;
    assert !IsAnyEmpty([s, "..."]);
    assert AdjustedOffset(12, 3, 10, 7) == 8;
    assert Substring(s, 0, 8) == s[..8] == "abcdefgh";
    assert SubstringStart(s, 8) == s[8..] == "ijkl";
    assert "..." + "abcdefgh" == "...abcdefgh";
    assert "..." + "ijkl" == "...ijkl";
  }

  /** As written, the middle branch shows the runes before the offset rather
      than the window starting at it. */
  lemma AbbreviateMiddleWrongWindow()
    ensures Abbreviate("abcdefghijklmno", "...", 6, 10) == Ok("...abcdef")
  {
    var s := "abcdefghijklmno";
    assert |s| == 15;
    assert !IsAnyEmpty([s, "..."]);
    assert AdjustedOffset(15, 3, 6, 10) == 6;
    assert Substring(s, 0, 6) == s[..6] == "abcdef";
    assert Abbreviate("abcdef", "...", 0, 7) == Ok("abcdef");
    assert "..." + "abcdef" == "...abcdef";
  }

  /** The intended middle branch abbreviates the window from the offset on. */
  lemma AbbreviateMiddleWindow()
    ensures AbbreviateIntended("abcdefghijklmno", "...", 6, 10) == Ok("...ghij...")
  {
    var s := "abcdefghijklmno";
    assert |s| == 15;
    assert !IsAnyEmpty([s, "..."]);
    assert AdjustedOffset(15, 3, 6, 10) == 6;
    var t := SubstringStart(s, 6);
    assert t == s[6..] == "ghijklmno";
    AbbreviateOffsetZeroIntended(t, "...", 7);
    assert t[..4] == "ghij";
    assert "ghij" + "..." == "ghij...";
    assert "..." + "ghij..." == "...ghij...";
  }
}
