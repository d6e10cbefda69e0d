/** Decimal rendering of natural numbers and left padding of strings: the two
    JavaScript string built-ins the formatter relies on, `Number.prototype.toString()`
    (base 10, non-negative integers only) and `String.prototype.padStart`. */
module Decimal {

  predicate IsDigit(ch: char) {
    '0' <= ch <= '9'
  }

  predicate AllDigits(s: string) {
    forall i | 0 <= i < |s| :: IsDigit(s[i])
  }

  function Pow10(k: nat): (p: nat)
    ensures p >= 1
  {
    if k == 0 then 1 else 10 * Pow10(k - 1)
  }

  /** The character of decimal digit `d`. */
  function DigitChar(d: nat): (ch: char)
    requires d < 10
    ensures IsDigit(ch) && ch as int - '0' as int == d
  {
    ('0' as int + d) as char
  }

  /** The numeric value of a digit character. */
  function DigitValue(ch: char): (d: nat)
    requires IsDigit(ch)
    ensures d < 10 && DigitChar(d) == ch
  {
    ch as int - '0' as int
  }

  /** The value of a string of decimal digits, most significant first
      (the empty string has value 0). */
  function DigitsValue(s: string): nat
    requires AllDigits(s)
  {
    if s == [] then 0 else DigitsValue(s[..|s| - 1]) * 10 + DigitValue(s[|s| - 1])
  }

  /** `n.toString()`: the shortest decimal numeral of `n`. */
  function NatToString(n: nat): (s: string)
    ensures 1 <= |s|
    ensures AllDigits(s)
    ensures s[0] == '0' <==> n == 0
    ensures n == 0 ==> s == "0"
    decreases n
  {
    if n < 10 then [DigitChar(n)] else NatToString(n / 10) + [DigitChar(n % 10)]
  }

  /** `n` copies of `ch`. */
  function Fill(ch: char, n: nat): (r: string)
    ensures |r| == n
    ensures forall i | 0 <= i < n :: r[i] == ch
  {
    seq(n, _ => ch)
  }

  /** One more copy of `ch` in front of `s` is one more copy in the run of `ch`s
      before it. */
  lemma FillStep(ch: char, n: nat, s: string)
    ensures Fill(ch, n) + ([ch] + s) == Fill(ch, n + 1) + s
  {
    var a, b := Fill(ch, n) + ([ch] + s), Fill(ch, n + 1) + s;
    assert |a| == |b|;
    forall i | 0 <= i < |a|
      ensures a[i] == b[i]
    {
      if i > n { assert a[i] == s[i - n - 1] == b[i]; }
    }
  }

  /** `s.padStart(length, [fill])` with a one-character fill string: `s` itself when it
      is already `length` long or longer, otherwise `s` preceded by as many copies of
      `fill` as it takes to reach `length`, added one at a time. */
  function PadStart(s: string, length: nat, fill: char): (r: string)
    ensures r == Fill(fill, if |s| >= length then 0 else length - |s|) + s
    ensures |r| == if |s| >= length then |s| else length
    decreases length - |s|
  {
    if |s| >= length then
      assert Fill(fill, 0) + s == s;
      s
    else
      FillStep(fill, length - |s| - 1, s);
      PadStart([fill] + s, length, fill)
  }

  /** Padding to one more position than `s` already fills puts one more `fill`
      in front. */
  lemma PadStartStep(s: string, length: nat, fill: char)
    requires |s| < length
    ensures PadStart(s, length, fill) == [fill] + PadStart(s, length - 1, fill)
  {
    var n := length - |s|;
    assert Fill(fill, n) == [fill] + Fill(fill, n - 1);
  }

  /** Digits after a run of '0's still make a numeral. */
  lemma ZerosThenDigits(n: nat, s: string)
    requires AllDigits(s)
    ensures AllDigits(Fill('0', n) + s)
  {
    var r := Fill('0', n) + s;
    forall i | 0 <= i < |r|
      ensures IsDigit(r[i])
    {
      if i >= n { assert r[i] == s[i - n]; }
    }
  }

  /** Reading back a numeral gives the number it was made from. */
  lemma {:induction false} NatToStringValue(n: nat)
    ensures DigitsValue(NatToString(n)) == n
    decreases n
  {
    if n >= 10 {
      var s := NatToString(n);
      NatToStringValue(n / 10);
      assert s[..|s| - 1] == NatToString(n / 10);
      assert DigitValue(s[|s| - 1]) == n % 10;
    }
  }

  /** The numerals of one-, two- and three-digit numbers, digit by digit. */
  lemma NatToStringOneDigit(n: nat)
    requires n < 10
    ensures NatToString(n) == [DigitChar(n)]
  {
  }

  lemma NatToStringTwoDigits(n: nat)
    requires 10 <= n < 100
    ensures NatToString(n) == [DigitChar(n / 10), DigitChar(n % 10)]
  {
    NatToStringOneDigit(n / 10);
  }

  lemma NatToStringThreeDigits(n: nat)
    requires 100 <= n < 1000
    ensures NatToString(n) == [DigitChar(n / 100), DigitChar((n / 10) % 10), DigitChar(n % 10)]
  {
    NatToStringTwoDigits(n / 10);
    assert (n / 10) / 10 == n / 100;
  }

  /** Distinct numbers have distinct numerals. */
  lemma NatToStringInjective(m: nat, n: nat)
    requires NatToString(m) == NatToString(n)
    ensures m == n
  {
    NatToStringValue(m);
    NatToStringValue(n);
  }

  /** A number below 10^k has a numeral of at most k digits. */
  lemma {:induction false} NatToStringLength(n: nat, k: nat)
    requires 1 <= k && n < Pow10(k)
    ensures |NatToString(n)| <= k
    decreases n
  {
    if n >= 10 {
      assert k != 1;
      assert n / 10 < Pow10(k - 1);
      NatToStringLength(n / 10, k - 1);
    }
  }

  /** A number of at least 10^k has a numeral of more than k digits. */
  lemma {:induction false} NatToStringLengthAtLeast(n: nat, k: nat)
    requires Pow10(k) <= n
    ensures k < |NatToString(n)|
    decreases k
  {
    if k > 0 {
      assert n >= 10 && Pow10(k - 1) <= n / 10;
      NatToStringLengthAtLeast(n / 10, k - 1);
    }
  }

  /** Leading zeros do not change the value of a numeral. */
  lemma {:induction false} LeadingZerosValue(z: string, s: string)
    requires forall i | 0 <= i < |z| :: z[i] == '0'
    requires AllDigits(s)
    ensures AllDigits(z + s)
    ensures DigitsValue(z + s) == DigitsValue(s)
    decreases |s|
  {
    if s == [] {
      assert z + s == z;
      ZerosValue(z);
    } else {
      var t := s[..|s| - 1];
      assert (z + s)[..|z + s| - 1] == z + t;
      LeadingZerosValue(z, t);
    }
  }

  lemma {:induction false} ZerosValue(z: string)
    requires forall i | 0 <= i < |z| :: z[i] == '0'
    ensures AllDigits(z) && DigitsValue(z) == 0
    decreases |z|
  {
    if z != [] {
      ZerosValue(z[..|z| - 1]);
    }
  }
}
