/**
 * Decimal rendering of integers as done by std::to_string, Python's str()
 * and the "{}" / "{:0N}" format specifications, and the digit-string reading
 * that undoes it.
 */
module Decimal {

  predicate IsDigit(c: char) {
    '0' <= c <= '9'
  }

  predicate AllDigits(s: string) {
    forall i :: 0 <= i < |s| ==> IsDigit(s[i])
  }

  function DigitChar(d: nat): (c: char)
    requires d < 10
    ensures IsDigit(c) && c as int - '0' as int == d
  {
    (d + '0' as int) as char
  }

  function DigitValue(c: char): (d: nat)
    requires IsDigit(c)
    ensures d < 10 && DigitChar(d) == c
  {
    c as int - '0' as int
  }

  /** Shortest decimal representation of n: no sign, no leading zero. */
  function NatToString(n: nat): (s: string)
    ensures |s| >= 1 && AllDigits(s)
    ensures |s| > 1 ==> s[0] != '0'
  {
    if n < 10 then [DigitChar(n)] else NatToString(n / 10) + [DigitChar(n % 10)]
  }

  /** std::to_string / str() of a signed integer. */
  function IntToString(x: int): (s: string)
    ensures |s| >= 1
    ensures x < 0 <==> s[0] == '-'
  {
    if x < 0 then "-" + NatToString(-x) else NatToString(x)
  }

  /** The value of a string of decimal digits. */
  function DigitsValue(s: string): nat
    requires AllDigits(s)
  {
    if s == [] then 0 else DigitsValue(s[..|s| - 1]) * 10 + DigitValue(s[|s| - 1])
  }

  /** Reading the digits back gives the number that was rendered. */
  lemma {:induction false} NatToStringRoundTrip(n: nat)
    ensures DigitsValue(NatToString(n)) == n
  {
    if n >= 10 {
      var s := NatToString(n);
      assert s[..|s| - 1] == NatToString(n / 10);
      NatToStringRoundTrip(n / 10);
    }
  }

  lemma NatToStringInjective(m: nat, n: nat)
    requires NatToString(m) == NatToString(n)
    ensures m == n
  {
    NatToStringRoundTrip(m);
    NatToStringRoundTrip(n);
  }

  /** Distinct integers, negative ones included, have distinct std::to_string texts. */
  lemma IntToStringInjective(x: int, y: int)
    requires IntToString(x) == IntToString(y)
    ensures x == y
  {
    if x < 0 {
      assert y < 0;
      assert NatToString(-x) == IntToString(x)[1..];
      assert NatToString(-y) == IntToString(y)[1..];
      NatToStringInjective(-x, -y);
    } else {
      assert y >= 0;
      NatToStringInjective(x, y);
    }
  }

  function Zeros(k: nat): (s: string)
    ensures |s| == k && forall i :: 0 <= i < k ==> s[i] == '0'
  {
    if k == 0 then "" else "0" + Zeros(k - 1)
  }

  /** Python's "{:0W}" of a non-negative integer: zero-padded on the left to at least W characters. */
  function PadNat(n: nat, width: nat): (s: string)
    ensures |s| == if |NatToString(n)| < width then width else |NatToString(n)|
    ensures s[|s| - |NatToString(n)|..] == NatToString(n)
    ensures forall i :: 0 <= i < |s| - |NatToString(n)| ==> s[i] == '0'
  {
    var digits := NatToString(n);
    (if |digits| < width then Zeros(width - |digits|) else "") + digits
  }

  /** Padding with zeros keeps the value: the padded string reads back as n. */
  lemma {:induction false} PadNatValue(n: nat, width: nat)
    ensures AllDigits(PadNat(n, width)) && DigitsValue(PadNat(n, width)) == n
  {
    var digits := NatToString(n);
    if |digits| < width {
      LeadingZeros(width - |digits|, digits);
    }
    NatToStringRoundTrip(n);
  }

  lemma {:induction false} LeadingZeros(k: nat, s: string)
    requires AllDigits(s)
    ensures AllDigits(Zeros(k) + s) && DigitsValue(Zeros(k) + s) == DigitsValue(s)
  {
    if k > 0 {
      var rest := Zeros(k - 1) + s;
      LeadingZeros(k - 1, s);
      LeadingZero(rest);
      assert Zeros(k) + s == "0" + rest;
    } else {
      assert Zeros(k) + s == s;
    }
  }

  lemma {:induction false} LeadingZero(s: string)
    requires AllDigits(s)
    ensures AllDigits("0" + s) && DigitsValue("0" + s) == DigitsValue(s)
  {
    if s != [] {
      var t := "0" + s;
      assert t[..|t| - 1] == "0" + s[..|s| - 1];
      LeadingZero(s[..|s| - 1]);
    }
  }

  function Pow10(k: nat): (r: nat)
    ensures r >= 1
  {
    if k == 0 then 1 else 10 * Pow10(k - 1)
  }

  /** A number below 10^k has at most k digits. */
  lemma {:induction false} NatToStringLength(n: nat, k: nat)
    requires 1 <= k && n < Pow10(k)
    ensures |NatToString(n)| <= k
  {
    if n >= 10 {
      NatToStringLength(n / 10, k - 1);
    }
  }

  /** Reading two digit strings written one after the other. */
  lemma {:induction false} DigitsValueAppend(x: string, y: string)
    requires AllDigits(x) && AllDigits(y)
    ensures AllDigits(x + y) && DigitsValue(x + y) == DigitsValue(x) * Pow10(|y|) + DigitsValue(y)
  {
    if y == [] {
      assert x + y == x;
    } else {
      var y' := y[..|y| - 1];
      var d := DigitValue(y[|y| - 1]);
      assert (x + y)[..|x + y| - 1] == x + y' && (x + y)[|x + y| - 1] == y[|y| - 1];
      DigitsValueAppend(x, y');
      var a, b, p := DigitsValue(x), DigitsValue(y'), Pow10(|y'|);
      assert DigitsValue(x + y) == (a * p + b) * 10 + d;
      assert DigitsValue(y) == b * 10 + d;
      assert Pow10(|y|) == p * 10;
      ShiftDigit(a, p, b, d);
    }
  }

  lemma ShiftDigit(a: int, p: int, b: int, d: int)
    ensures (a * p + b) * 10 + d == a * (p * 10) + (b * 10 + d)
  {
  }
}
