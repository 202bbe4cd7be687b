/**
 * Decimal rendering of integers, as .NET's invariant `ToString()` of an
 * integral value and the zero-padded numeric fields of a custom DateTime
 * format ("yyyy", "MM", "fff", ...) produce it, together with the digit
 * reader that undoes it.
 */
module DecimalText {

  predicate IsDigit(c: char) {
    '0' <= c <= '9'
  }

  predicate AllDigits(s: string) {
    forall i :: 0 <= i < |s| ==> IsDigit(s[i])
  }

  function DigitChar(d: nat): (c: char)
    requires d < 10
    ensures IsDigit(c)
  {
    (d + '0' as int) as char
  }

  function DigitValue(c: char): (d: nat)
    requires IsDigit(c)
    ensures d < 10 && DigitChar(d) == c
  {
    c as int - '0' as int
  }

  /** The shortest decimal text of `n`, most significant digit first. */
  function NatText(n: nat): (s: string)
    ensures |s| >= 1 && AllDigits(s)
    decreases n
  {
    if n < 10 then [DigitChar(n)] else NatText(n / 10) + [DigitChar(n % 10)]
  }

  /** The number a string of decimal digits denotes (leading zeros allowed). */
  function DigitsValue(s: string): nat
    requires AllDigits(s)
    decreases |s|
  {
    if s == [] then 0 else DigitsValue(s[..|s| - 1]) * 10 + DigitValue(s[|s| - 1])
  }

  function Pow10(k: nat): (p: nat)
    ensures p >= 1
  {
    if k == 0 then 1 else 10 * Pow10(k - 1)
  }

  /** Reading the digits back gives the number. */
  lemma {:induction false} NatTextValue(n: nat)
    ensures DigitsValue(NatText(n)) == n
  {
    if n >= 10 {
      var s := NatText(n);
      assert s[..|s| - 1] == NatText(n / 10);
      NatTextValue(n / 10);
    }
  }

  /** The text has a leading zero only when it is the single digit of zero. */
  lemma {:induction false} NatTextLeadingDigit(n: nat)
    ensures NatText(n)[0] == '0' <==> n == 0
    ensures n == 0 ==> NatText(n) == "0"
  {
    if n >= 10 {
      NatTextLeadingDigit(n / 10);
    }
  }

  /** A number below 10^w needs at most w digits. */
  lemma {:induction false} NatTextWidth(n: nat, w: nat)
    requires 1 <= w && n < Pow10(w)
    ensures |NatText(n)| <= w
  {
    if n >= 10 {
      assert w >= 2;
      NatTextWidth(n / 10, w - 1);
    }
  }

  function Zeros(k: nat): (z: string)
    ensures |z| == k && forall i :: 0 <= i < k ==> z[i] == '0'
  {
    seq(k, _ => '0')
  }

  /** `n` in decimal, padded on the left with zeros to at least `w` digits. */
  function ZeroPad(n: nat, w: nat): (s: string)
    ensures |s| >= w && AllDigits(s)
  {
    var t := NatText(n);
    if |t| < w then Zeros(w - |t|) + t else t
  }

  lemma {:induction false} ZerosValue(k: nat)
    ensures AllDigits(Zeros(k)) && DigitsValue(Zeros(k)) == 0
  {
    if k > 0 {
      assert Zeros(k)[..k - 1] == Zeros(k - 1);
      ZerosValue(k - 1);
    }
  }

  /** Leading zeros do not change the value a digit string denotes. */
  lemma {:induction false} LeadingZerosValue(k: nat, s: string)
    requires AllDigits(s)
    ensures AllDigits(Zeros(k) + s) && DigitsValue(Zeros(k) + s) == DigitsValue(s)
    decreases |s|
  {
    var z := Zeros(k) + s;
    if s == [] {
      assert z == Zeros(k);
      ZerosValue(k);
    } else {
      assert z[..|z| - 1] == Zeros(k) + s[..|s| - 1];
      LeadingZerosValue(k, s[..|s| - 1]);
    }
  }

  /** A field below 10^w renders in exactly w digits that read back as the field. */
  lemma ZeroPadFixed(n: nat, w: nat)
    requires 1 <= w && n < Pow10(w)
    ensures |ZeroPad(n, w)| == w && AllDigits(ZeroPad(n, w))
    ensures DigitsValue(ZeroPad(n, w)) == n
  {
    NatTextWidth(n, w);
    NatTextValue(n);
    var t := NatText(n);
    if |t| < w {
      LeadingZerosValue(w - |t|, t);
    }
  }

  /** An optional minus sign followed by at least one digit. */
  predicate IsIntText(s: string) {
    |s| > 0 && if s[0] == '-' then |s| > 1 && AllDigits(s[1..]) else AllDigits(s)
  }

  /** The invariant-culture `ToString()` of an integral value. */
  function IntText(i: int): (s: string)
    ensures IsIntText(s)
  {
    if i < 0 then "-" + NatText(-i) else NatText(i)
  }

  /** An integer text with no superfluous leading zero and no negative zero. */
  predicate IsCanonicalIntText(s: string) {
    IsIntText(s) &&
    var digits := if s[0] == '-' then s[1..] else s;
    digits[0] == '0' ==> digits == "0" && s[0] != '-'
  }

  function IntValue(s: string): int
    requires IsIntText(s)
  {
    var magnitude: int := DigitsValue(if s[0] == '-' then s[1..] else s);
    if s[0] == '-' then -magnitude else magnitude
  }

  /**
   * The integer rendering is canonical, signed exactly when negative, and
   * reads back as the same integer.
   */
  lemma IntTextRoundTrip(i: int)
    ensures IsCanonicalIntText(IntText(i))
    ensures IntValue(IntText(i)) == i
    ensures IntText(i)[0] == '-' <==> i < 0
  {
    var n: nat := if i < 0 then -i else i;
    NatTextValue(n);
    NatTextLeadingDigit(n);
    if i < 0 {
      assert IntText(i)[1..] == NatText(n);
    }
  }

  /** Distinct integers render differently. */
  lemma IntTextInjective(i: int, j: int)
    requires IntText(i) == IntText(j)
    ensures i == j
  {
    IntTextRoundTrip(i);
    IntTextRoundTrip(j);
  }
}
