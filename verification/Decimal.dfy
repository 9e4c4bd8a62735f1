/** Decimal rendering of integers, as a JavaScript template literal
    `${n}` renders an integral number, together with the parser that
    inverts it.  The parser is not part of the bot; it is the reference
    against which the rendering (and the fid list built from it) is
    shown to lose no information.
 */
module Decimal {
  import opened Wrappers

  predicate IsDigit(c: char) {
    '0' <= c <= '9'
  }

  predicate AllDigits(s: string) {
    forall i :: 0 <= i < |s| ==> IsDigit(s[i])
  }

  /** A non-empty digit string without a superfluous leading zero. */
  predicate Canonical(s: string) {
    |s| > 0 && AllDigits(s) && (|s| > 1 ==> s[0] != '0')
  }

  function DigitChar(d: nat): (c: char)
    requires d < 10
    ensures IsDigit(c)
  {
    (('0' as int) + d) as char
  }

  function DigitValue(c: char): (d: nat)
    requires IsDigit(c)
    ensures d < 10
    ensures DigitChar(d) == c
  {
    (c as int) - ('0' as int)
  }

  /** The decimal digits of `n`, most significant first. */
  function NatToString(n: nat): (s: string)
    ensures Canonical(s)
    ensures n < 10 <==> |s| == 1
    decreases n
  {
    if n < 10 then [DigitChar(n)]
    else
      var prefix := NatToString(n / 10);
      assert Canonical(prefix);
      prefix + [DigitChar(n % 10)]
  }

  /** `${i}` for an integral number: a minus sign, then the digits of its magnitude. */
  function IntToString(i: int): (s: string)
    ensures |s| > 0
    ensures s[0] == '-' <==> i < 0
    ensures i < 0 ==> Canonical(s[1..])
    ensures i >= 0 ==> Canonical(s)
  {
    if i < 0 then "-" + NatToString(-i) else NatToString(i)
  }

  /** The value of a string of digits, most significant first. */
  function DigitsValue(s: string): nat
    requires AllDigits(s)
  {
    if |s| == 0 then 0
    else DigitsValue(s[..|s| - 1]) * 10 + DigitValue(s[|s| - 1])
  }

  /** Reads a canonical decimal natural number; anything else is rejected. */
  function ParseNat(s: string): (r: Option<nat>)
    ensures r.Some? <==> Canonical(s)
  {
    if Canonical(s) then Some(DigitsValue(s)) else None
  }

  /** Reads what `IntToString` writes: an optional minus sign before a
      canonical magnitude, where "-0" is rejected. */
  function ParseInt(s: string): (r: Option<int>)
    ensures r.Some? && r.value < 0 ==> |s| > 0 && s[0] == '-'
  {
    var negative := |s| > 0 && s[0] == '-';
    var magnitude := ParseNat(if negative then s[1..] else s);
    if magnitude.None? || (negative && magnitude.value == 0) then None
    else if negative then Option<int>.Some(-(magnitude.value as int))
    else Option<int>.Some(magnitude.value as int)
  }

  lemma {:induction false} DigitsValueOfAppend(prefix: string, c: char)
    requires AllDigits(prefix) && IsDigit(c)
    ensures AllDigits(prefix + [c])
    ensures DigitsValue(prefix + [c]) == DigitsValue(prefix) * 10 + DigitValue(c)
  {
    var s := prefix + [c];
    assert s[..|s| - 1] == prefix;
  }

  lemma {:induction false} LeadingNonZeroIsPositive(s: string)
    requires Canonical(s) && s[0] != '0'
    ensures DigitsValue(s) > 0
    decreases |s|
  {
    var prefix := s[..|s| - 1];
    if |s| > 1 {
      assert prefix[0] == s[0];
      LeadingNonZeroIsPositive(prefix);
    }
  }

  /** Parsing undoes rendering. */
  lemma {:induction false} NatRoundTrip(n: nat)
    ensures ParseNat(NatToString(n)) == Some(n)
    decreases n
  {
    if n >= 10 {
      NatRoundTrip(n / 10);
      DigitsValueOfAppend(NatToString(n / 10), DigitChar(n % 10));
      assert DigitsValue(NatToString(n)) == (n / 10) * 10 + n % 10;
    }
  }

  /** Rendering undoes parsing: every canonical digit string is the
      rendering of exactly one number, so the rendering is injective. */
  lemma {:induction false} NatCanonicalRendering(s: string, n: nat)
    requires ParseNat(s) == Some(n)
    ensures NatToString(n) == s
    decreases |s|
  {
    if |s| > 1 {
      var prefix := s[..|s| - 1];
      var c := s[|s| - 1];
      assert prefix + [c] == s;
      assert prefix[0] == s[0];
      assert Canonical(prefix);
      LeadingNonZeroIsPositive(prefix);
      var m := DigitsValue(prefix);
      assert n == m * 10 + DigitValue(c);
      assert n / 10 == m && n % 10 == DigitValue(c);
      NatCanonicalRendering(prefix, m);
    }
  }

  lemma NatToStringInjective(m: nat, n: nat)
    ensures NatToString(m) == NatToString(n) ==> m == n
  {
    NatRoundTrip(m);
    NatRoundTrip(n);
  }

  /** Parsing undoes the rendering of any integer, negative ones included. */
  lemma IntRoundTrip(i: int)
    ensures ParseInt(IntToString(i)) == Some(i)
  {
    if i < 0 {
      var s := IntToString(i);
      assert s[1..] == NatToString(-i);
      NatRoundTrip(-i);
    } else {
      NatRoundTrip(i);
    }
  }
}
