/**
 Decimal text for natural numbers: Python's `str(n)` (used for the row number in
 an archive entry's file name) and fixed-width zero-padded digits (used by
 `strftime('%d.%m.%Y')`), together with the parser that inverts both.
 */
module Decimal {

  function Pow10(w: nat): (p: nat)
    ensures p >= 1
  {
    if w == 0 then 1 else 10 * Pow10(w - 1)
  }

  predicate IsDigit(c: char) {
    '0' <= c <= '9'
  }

  predicate AllDigits(s: string) {
    forall i :: 0 <= i < |s| ==> IsDigit(s[i])
  }

  function DigitChar(d: nat): (c: char)
    requires d < 10
    ensures IsDigit(c)
    ensures DigitValue(c) == d
  {
    "0123456789"[d]
  }

  function DigitValue(c: char): int {
    c as int - '0' as int
  }

  /** The `w` lowest decimal digits of `n`, most significant first, padded with '0'. */
  function FixedDigits(n: nat, w: nat): (s: string)
    requires n < Pow10(w)
    ensures |s| == w
    ensures AllDigits(s)
    decreases w
  {
    if w == 0 then "" else FixedDigits(n / 10, w - 1) + [DigitChar(n % 10)]
  }

  /** Number of digits Python prints for `n`: at least one, no leading zero. */
  function DigitCount(n: nat): (w: nat)
    ensures w >= 1
    ensures n < Pow10(w)
    ensures w > 1 ==> Pow10(w - 1) <= n
  {
    if n < 10 then 1 else 1 + DigitCount(n / 10)
  }

  /** Python's `str(n)` for a non-negative integer. */
  function NatToString(n: nat): (s: string)
    ensures |s| >= 1
    ensures AllDigits(s)
    ensures |s| > 1 ==> s[0] != '0'
  {
    var w := DigitCount(n);
    if w > 1 then LeadingDigitNonZero(n, w); FixedDigits(n, w) else FixedDigits(n, w)
  }

  /** The value of a string of decimal digits, most significant first. */
  function ParseDecimal(s: string): (n: nat)
    requires AllDigits(s)
  {
    if |s| == 0 then 0 else 10 * ParseDecimal(s[..|s| - 1]) + DigitValue(s[|s| - 1])
  }

  /** When `n` needs all `w` digits, the first of them is not '0'. */
  lemma {:induction false} LeadingDigitNonZero(n: nat, w: nat)
    requires n < Pow10(w)
    requires w > 1 && Pow10(w - 1) <= n
    ensures FixedDigits(n, w)[0] != '0'
    decreases w
  {
    if w == 2 {
      assert n / 10 >= 1;
      assert FixedDigits(n / 10, 1) == [DigitChar(n / 10)];
    } else {
      assert Pow10(w - 2) <= n / 10 < Pow10(w - 1);
      LeadingDigitNonZero(n / 10, w - 1);
    }
  }

  /** Parsing fixed-width digits gives the number back. */
  lemma {:induction false} FixedDigitsRoundTrip(n: nat, w: nat)
    requires n < Pow10(w)
    ensures ParseDecimal(FixedDigits(n, w)) == n
    decreases w
  {
    if w > 0 {
      var s := FixedDigits(n, w);
      var prefix := FixedDigits(n / 10, w - 1);
      var last := DigitChar(n % 10);
      assert s == prefix + [last];
      assert s[..|s| - 1] == prefix;
      assert ParseDecimal(s) == 10 * ParseDecimal(prefix) + DigitValue(last);
      FixedDigitsRoundTrip(n / 10, w - 1);
    }
  }

  /** Printing a parsed digit string at its own width gives the string back. */
  lemma {:induction false} ParseDecimalRoundTrip(s: string)
    requires AllDigits(s)
    ensures ParseDecimal(s) < Pow10(|s|)
    ensures FixedDigits(ParseDecimal(s), |s|) == s
  {
    if |s| > 0 {
      var init := s[..|s| - 1];
      ParseDecimalRoundTrip(init);
      var n := ParseDecimal(s);
      assert n / 10 == ParseDecimal(init);
      assert n % 10 == DigitValue(s[|s| - 1]);
      assert DigitChar(n % 10) == s[|s| - 1];
    }
  }

  /** Parsing `str(n)` gives `n` back. */
  lemma NatToStringRoundTrip(n: nat)
    ensures ParseDecimal(NatToString(n)) == n
  {
    FixedDigitsRoundTrip(n, DigitCount(n));
  }

  /** `str` is injective on naturals. */
  lemma NatToStringInjective(m: nat, n: nat)
    requires m != n
    ensures NatToString(m) != NatToString(n)
  {
    NatToStringRoundTrip(m);
    NatToStringRoundTrip(n);
  }
}
