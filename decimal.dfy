/** Decimal digit strings: reading a run of ASCII digits as a number (what
    `Number` does with the fields of a date string) and writing a number
    with leading zeros (what the date library's `yyyy`, `MM` and `dd`
    tokens do). */
module Decimal {

  predicate IsDigit(c: char) {
    '0' <= c <= '9'
  }

  predicate AllDigits(s: string) {
    forall i :: 0 <= i < |s| ==> IsDigit(s[i])
  }

  /** The value of an ASCII digit character. */
  function Digit(c: char): int {
    c as int - '0' as int
  }

  function Pow10(k: nat): (p: nat)
    ensures p >= 1
  {
    if k == 0 then 1 else 10 * Pow10(k - 1)
  }

  function DigitChar(n: nat): (c: char)
    requires n < 10
    ensures IsDigit(c) && Digit(c) == n
  {
    ('0' as int + n) as char
  }

  /** The value of a string of ASCII digits, most significant first. */
  function DecimalValue(s: string): (n: nat)
    requires AllDigits(s)
    ensures n < Pow10(|s|)
  {
    if s == [] then 0
    else DecimalValue(s[..|s| - 1]) * 10 + Digit(s[|s| - 1])
  }

  /** The shortest decimal spelling of `n` (no leading zero unless `n` is 0). */
  function Digits(n: nat): (s: string)
    ensures AllDigits(s) && |s| >= 1
    ensures DecimalValue(s) == n
    ensures |s| == 1 || Pow10(|s| - 1) <= n
    decreases n
  {
    if n < 10 then [DigitChar(n)]
    else
      var s := Digits(n / 10) + [DigitChar(n % 10)];
      assert s[..|s| - 1] == Digits(n / 10);
      s
  }

  function Zeros(k: nat): (s: string)
    ensures |s| == k && AllDigits(s)
  {
    if k == 0 then [] else Zeros(k - 1) + ['0']
  }

  lemma {:induction false} ZerosValue(k: nat)
    ensures DecimalValue(Zeros(k)) == 0
  {
    if k > 0 {
      assert Zeros(k)[..k - 1] == Zeros(k - 1);
      ZerosValue(k - 1);
    }
  }

  /** Leading zeros do not change the value of a digit string. */
  lemma {:induction false} LeadingZerosValue(k: nat, s: string)
    requires AllDigits(s)
    ensures AllDigits(Zeros(k) + s) && DecimalValue(Zeros(k) + s) == DecimalValue(s)
  {
    var t := Zeros(k) + s;
    assert AllDigits(t) by {
      forall i | 0 <= i < |t| ensures IsDigit(t[i]) {
        if i < k { assert t[i] == Zeros(k)[i]; } else { assert t[i] == s[i - k]; }
      }
    }
    if s == [] {
      assert t == Zeros(k);
      ZerosValue(k);
    } else {
      assert t[..|t| - 1] == Zeros(k) + s[..|s| - 1];
      LeadingZerosValue(k, s[..|s| - 1]);
    }
  }

  lemma {:induction false} Pow10Monotone(i: nat, j: nat)
    requires i <= j
    ensures Pow10(i) <= Pow10(j)
    decreases j - i
  {
    if i < j {
      Pow10Monotone(i, j - 1);
    }
  }

  /** `n` written with at least `width` digits, padded with leading zeros. */
  function PadDecimal(n: nat, width: nat): (s: string)
    ensures AllDigits(s) && DecimalValue(s) == n
    ensures 0 < width && n < Pow10(width) ==> |s| == width
    ensures |s| >= width
  {
    var d := Digits(n);
    var pad := if |d| < width then width - |d| else 0;
    LeadingZerosValue(pad, d);
    assert 0 < width && n < Pow10(width) ==> |d| <= width by {
      if 0 < width && n < Pow10(width) && |d| > width {
        Pow10Monotone(width, |d| - 1);
      }
    }
    Zeros(pad) + d
  }

  /** A number ten times `a` plus a digit determines both. */
  lemma LastDigitSplit(a: int, x: int, b: int, y: int)
    requires 0 <= x <= 9 && 0 <= y <= 9 && a * 10 + x == b * 10 + y
    ensures a == b && x == y
  {
  }

  /** Two digit strings of the same length with the same value are equal. */
  lemma {:induction false} SameValueSameDigits(s: string, t: string)
    requires AllDigits(s) && AllDigits(t) && |s| == |t|
    requires DecimalValue(s) == DecimalValue(t)
    ensures s == t
  {
    if s != [] {
      var n := |s| - 1;
      var a, b := DecimalValue(s[..n]), DecimalValue(t[..n]);
      var x, y := Digit(s[n]), Digit(t[n]);
      assert a * 10 + x == b * 10 + y;
      assert IsDigit(s[n]) && IsDigit(t[n]);
      assert 0 <= x <= 9 && 0 <= y <= 9;
      LastDigitSplit(a, x, b, y);
      SameValueSameDigits(s[..n], t[..n]);
      assert s == s[..n] + [s[n]] && t == t[..n] + [t[n]];
    }
  }

  /** A value at least 10^width needs more than `width` digits. */
  lemma {:induction false} WideValue(s: string, width: nat)
    requires AllDigits(s) && DecimalValue(s) >= Pow10(width)
    ensures |s| > width
  {
    if |s| <= width {
      Pow10Monotone(|s|, width);
    }
  }
}
