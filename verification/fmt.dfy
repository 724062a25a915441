/** Decimal rendering of integers, as `fmt.Sprintf("%d", n)` produces it.
    The error messages of the library embed indices and widths this way. */
module Fmt {

  import Wrappers

  predicate IsDigit(c: char) {
    '0' <= c <= '9'
  }

  function DigitChar(d: nat): (c: char)
    requires d < 10
    ensures IsDigit(c)
    ensures c as int - '0' as int == d
  {
    (d + '0' as int) as char
  }

  /** The decimal digits of a natural number, most significant first, no leading zero. */
  function NatDigits(n: nat): (s: string)
    ensures |s| >= 1
    ensures forall i :: 0 <= i < |s| ==> IsDigit(s[i])
    ensures |s| > 1 ==> s[0] != '0'
    decreases n
  {
    if n < 10 then [DigitChar(n)] else NatDigits(n / 10) + [DigitChar(n % 10)]
  }

  /** `%d`: a minus sign for negative numbers, then the digits of the magnitude. */
  function Decimal(n: int): (s: string)
    ensures |s| >= 1
    ensures n >= 0 <==> s[0] != '-'
  {
    if n < 0 then "-" + NatDigits(-n) else NatDigits(n)
  }

  /** Reads back a run of decimal digits. */
  function ParseDigits(s: string): nat
    requires forall i :: 0 <= i < |s| ==> IsDigit(s[i])
  {
    if |s| == 0 then 0
    else
      assert IsDigit(s[|s| - 1]);
      10 * ParseDigits(s[..|s| - 1]) + (s[|s| - 1] as int - '0' as int)
  }

  /** Reads back the text `Decimal` writes. */
  function ParseDecimal(s: string): Wrappers.Option<int>
  {
    if |s| >= 2 && s[0] == '-' && (forall i :: 1 <= i < |s| ==> IsDigit(s[i])) then
      var magnitude: int := ParseDigits(s[1..]);
      Wrappers.Some(-magnitude)
    else if |s| >= 1 && (forall i :: 0 <= i < |s| ==> IsDigit(s[i])) then
      Wrappers.Some(ParseDigits(s))
    else
      Wrappers.None
  }

  lemma {:induction false} ParseNatDigits(n: nat)
    ensures ParseDigits(NatDigits(n)) == n
    decreases n
  {
    if n >= 10 {
      var s := NatDigits(n);
      assert s[..|s| - 1] == NatDigits(n / 10);
      ParseNatDigits(n / 10);
    }
  }

  /** Round trip: the rendered number reads back as itself. */
  lemma DecimalRoundTrip(n: int)
    ensures ParseDecimal(Decimal(n)) == Wrappers.Some(n)
  {
    if n < 0 {
      NegativeRoundTrip(n);
    } else {
      NonNegativeRoundTrip(n);
    }
  }

  lemma NegativeRoundTrip(n: int)
    requires n < 0
    ensures ParseDecimal(Decimal(n)) == Wrappers.Some(n)
  {
    SignedRoundTrip(-n);
  }

  /** A minus sign before the digits of m reads back as -m. */
  lemma SignedRoundTrip(m: nat)
    ensures ParseDecimal("-" + NatDigits(m)) == Wrappers.Some(-(m as int))
  {
    ParseNatDigits(m);
    ParseSigned(NatDigits(m));
  }

  lemma NonNegativeRoundTrip(n: int)
    requires n >= 0
    ensures ParseDecimal(Decimal(n)) == Wrappers.Some(n)
  {
    var d := NatDigits(n);
    assert Decimal(n) == d;
    ParseNatDigits(n);
    ParseUnsigned(d);
  }

  /** A minus sign before digits reads back as the negated digits. */
  lemma ParseSigned(d: string)
    requires |d| >= 1 && forall i :: 0 <= i < |d| ==> IsDigit(d[i])
    ensures ParseDecimal("-" + d) == Wrappers.Some(-(ParseDigits(d) as int))
  {
    var s := "-" + d;
    assert s[1..] == d;
    forall i | 1 <= i < |s| ensures IsDigit(s[i]) {
      assert s[i] == d[i - 1];
    }
  }

  /** Digits alone read back as themselves. */
  lemma ParseUnsigned(d: string)
    requires |d| >= 1 && forall i :: 0 <= i < |d| ==> IsDigit(d[i])
    ensures ParseDecimal(d) == Wrappers.Some(ParseDigits(d) as int)
  {
    assert IsDigit(d[0]);
  }

  /** Distinct numbers render to distinct text. */
  lemma DecimalInjective(a: int, b: int)
    requires Decimal(a) == Decimal(b)
    ensures a == b
  {
    DecimalRoundTrip(a);
    DecimalRoundTrip(b);
  }
}
