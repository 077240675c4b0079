/** Decimal rendering of integers as Java writes them (`Integer.toString(i)`,
    `"" + i`, `Formatter`'s `%d` and `%0Nd`), and the reading of digit strings
    back into numbers that the round-trip properties are stated against. */
module Decimal {

  predicate IsDigit(c: char) { '0' <= c <= '9' }

  predicate AllDigits(s: string) { forall k :: 0 <= k < |s| ==> IsDigit(s[k]) }

  function DigitChar(d: nat): (c: char)
    requires d < 10
    ensures IsDigit(c) && DigitValue(c) == d
  {
    ('0' as int + d) as char
  }

  function DigitValue(c: char): (d: nat)
    requires IsDigit(c)
    ensures d < 10
  {
    c as int - '0' as int
  }

  /** A two-character field of decimal digits at index `k` of `s`. */
  predicate PairAt(s: string, k: int)
  {
    0 <= k && k + 2 <= |s| && IsDigit(s[k]) && IsDigit(s[k + 1])
  }

  /** The number the two-digit field at index `k` denotes. */
  function PairValueAt(s: string, k: int): (v: nat)
    requires PairAt(s, k)
    ensures v < 100
  {
    DigitValue(s[k]) * 10 + DigitValue(s[k + 1])
  }

  /** A two-digit string denotes the same number read as a pair or digit by digit. */
  lemma PairDigitsValue(s: string)
    requires |s| == 2 && PairAt(s, 0)
    ensures AllDigits(s) && DigitsValue(s) == PairValueAt(s, 0)
  {
    var t := s[..1];
    assert t[..0] == [] && t[0] == s[0];
    assert DigitsValue(t) == DigitValue(s[0]);
  }

  /** The number a string of decimal digits denotes (most significant first). */
  function DigitsValue(s: string): nat
    requires AllDigits(s)
  {
    if s == [] then 0 else DigitsValue(s[..|s| - 1]) * 10 + DigitValue(s[|s| - 1])
  }

  /** The shortest decimal digit string of `n`: one digit for `n < 10`, never a leading zero otherwise. */
  function NatToString(n: nat): (r: string)
    ensures AllDigits(r) && |r| >= 1
    ensures n < 10 <==> |r| == 1
    ensures n > 0 ==> r[0] != '0'
    ensures n < 100 ==> |r| <= 2
  {
    if n < 10 then [DigitChar(n)] else NatToString(n / 10) + [DigitChar(n % 10)]
  }

  /** `Integer.toString(i)`, equally `"" + i` and `%d`: the shortest digits of
      `|i|`, preceded by a minus sign when `i` is negative. */
  function IntToString(i: int): (r: string)
    ensures |r| >= 1
    ensures i >= 0 <==> AllDigits(r)
    ensures i < 0 <==> r[0] == '-'
    ensures i > 0 ==> r[0] != '0'
  {
    if i < 0 then
      var r := "-" + NatToString(-i);
      assert !IsDigit(r[0]);
      r
    else NatToString(i)
  }

  /** What the rendering of an int denotes: a non-negative value is its digits
      (one digit exactly below ten); a negative value is a minus sign followed
      by the digits of its magnitude, with no leading zero. */
  lemma IntToStringRoundTrip(i: int)
    ensures i >= 0 ==> AllDigits(IntToString(i)) && DigitsValue(IntToString(i)) == i && (i < 10 <==> |IntToString(i)| == 1)
    ensures i < 0 ==> var r := IntToString(i);
      |r| >= 2 && AllDigits(r[1..]) && DigitsValue(r[1..]) == -i && r[1] != '0'
  {
    if i < 0 {
      NegativeDigits(i);
    } else {
      NatToStringRoundTrip(i);
    }
  }

  lemma NegativeDigits(i: int)
    requires i < 0
    ensures IntToString(i)[1..] == NatToString(-i)
    ensures var r := IntToString(i); |r| >= 2 && AllDigits(r[1..]) && DigitsValue(r[1..]) == -i && r[1] != '0'
  {
    var s := NatToString(-i);
    NatToStringRoundTrip(-i);
    AfterSign(s);
  }

  /** Dropping the minus sign put in front of `s` gives `s` back. */
  lemma AfterSign(s: string)
    ensures |"-" + s| == |s| + 1 && ("-" + s)[1..] == s
  {
  }

  /** Reading back a rendered natural number gives the number. */
  lemma {:induction false} NatToStringRoundTrip(n: nat)
    ensures DigitsValue(NatToString(n)) == n
  {
    var r := NatToString(n);
    if n >= 10 {
      NatToStringRoundTrip(n / 10);
      assert r[..|r| - 1] == NatToString(n / 10);
    }
  }

  function Zeros(n: nat): (r: string)
    ensures |r| == n && forall k :: 0 <= k < n ==> r[k] == '0'
  {
    if n == 0 then [] else Zeros(n - 1) + "0"
  }

  /** `s` preceded by as many '0' as it takes to reach `width` characters. */
  function PadLeftZeros(s: string, width: nat): (r: string)
    ensures |r| == if |s| < width then width else |s|
  {
    if |s| < width then Zeros(width - |s|) + s else s
  }

  /** `Formatter`'s `%0<width>d`: the digits are padded with zeros to `width`
      characters, the zeros going after the minus sign of a negative value. */
  function FormatZeroPadded(i: int, width: nat): (r: string)
    ensures |r| >= width
    ensures 0 <= i < 100 && width == 2 ==> r == [DigitChar(i / 10), DigitChar(i % 10)]
    ensures i >= 0 ==> AllDigits(r) && DigitsValue(r) == i
    ensures i < 0 ==> |r| >= 2 && r[0] == '-'
  {
    if i >= 0 then
      var r := PadLeftZeros(NatToString(i), width);
      LeadingZerosRoundTrip(NatToString(i), width);
      NatToStringRoundTrip(i);
      PadTwoDigits(i);
      r
    else
      "-" + PadLeftZeros(NatToString(-i), if width == 0 then 0 else width - 1)
  }

  /** `%0<width>d` is exactly as long as the wider of `width` and the unpadded
      rendering (sign included), and after a minus sign come digits denoting
      the magnitude. */
  lemma FormatZeroPaddedDenotes(i: int, width: nat)
    ensures |FormatZeroPadded(i, width)| == var n := |IntToString(i)|; if n < width then width else n
    ensures i < 0 ==> var r := FormatZeroPadded(i, width);
      AllDigits(r[1..]) && DigitsValue(r[1..]) == -i
  {
    if i < 0 {
      NegativePadded(i, width);
    }
  }

  lemma NegativePadded(i: int, width: nat)
    requires i < 0
    ensures |FormatZeroPadded(i, width)| == var n := |IntToString(i)|; if n < width then width else n
    ensures var r := FormatZeroPadded(i, width); AllDigits(r[1..]) && DigitsValue(r[1..]) == -i
  {
    var s := NatToString(-i);
    var w := if width == 0 then 0 else width - 1;
    LeadingZerosRoundTrip(s, w);
    NatToStringRoundTrip(-i);
    AfterSign(s);
    AfterSign(PadLeftZeros(s, w));
  }

  /** A number below 100 padded to two places is its tens digit and its units digit. */
  lemma PadTwoDigits(i: nat)
    ensures i < 100 ==> PadLeftZeros(NatToString(i), 2) == [DigitChar(i / 10), DigitChar(i % 10)]
  {
    if i < 10 {
      assert Zeros(1) == "0" && DigitChar(0) == '0';
    } else if i < 100 {
      assert NatToString(i / 10) == [DigitChar(i / 10)];
    }
  }

  /** Zeros put in front of a digit string do not change the number it denotes. */
  lemma {:induction false} LeadingZerosRoundTrip(s: string, width: nat)
    requires AllDigits(s)
    ensures AllDigits(PadLeftZeros(s, width))
    ensures DigitsValue(PadLeftZeros(s, width)) == DigitsValue(s)
  {
    if |s| < width {
      ZerosPrefixValue(Zeros(width - |s|), s);
    }
  }

  lemma {:induction false} ZerosPrefixValue(z: string, s: string)
    requires forall k :: 0 <= k < |z| ==> z[k] == '0'
    requires AllDigits(s)
    ensures AllDigits(z + s) && DigitsValue(z + s) == DigitsValue(s)
  {
    if s == [] {
      ZerosValue(z);
      assert z + s == z;
    } else {
      var t := z + s;
      assert t[..|t| - 1] == z + s[..|s| - 1];
      ZerosPrefixValue(z, s[..|s| - 1]);
    }
  }

  lemma {:induction false} ZerosValue(z: string)
    requires forall k :: 0 <= k < |z| ==> z[k] == '0'
    ensures AllDigits(z) && DigitsValue(z) == 0
  {
    if z != [] {
      ZerosValue(z[..|z| - 1]);
    }
  }
}
