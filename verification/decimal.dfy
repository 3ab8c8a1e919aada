/**
  Decimal digit strings and the 32-bit integer range the label works in.
  `Digits` is what `Int32.ToString()` prints for a non-negative value and
  `PadLeft` what the "D<width>" format adds to it.
 */
module Decimal {

  const INT32_MIN: int := -0x8000_0000
  const INT32_MAX: int := 0x7FFF_FFFF

  /** A C# `int`. */
  type Int32 = x: int | INT32_MIN <= x <= INT32_MAX

  function Abs(x: int): nat {
    if x < 0 then -x else x
  }

  function Max(a: int, b: int): int {
    if a < b then b else a
  }

  function Min(a: int, b: int): int {
    if a < b then a else b
  }

  function Pow10(k: nat): nat {
    if k == 0 then 1 else 10 * Pow10(k - 1)
  }

  lemma {:induction false} Pow10Positive(k: nat)
    ensures Pow10(k) >= 1
  {
    if k > 0 {
      Pow10Positive(k - 1);
    }
  }

  lemma {:induction false} Pow10Monotone(a: nat, b: nat)
    requires a <= b
    ensures Pow10(a) <= Pow10(b)
  {
    if a < b {
      Pow10Monotone(a, b - 1);
      Pow10Positive(b - 1);
    }
  }

  /** Up to nine digits every power of ten, and so every clamp bound, fits in an `int`. */
  lemma Pow10AtMostNine(k: nat)
    requires k <= 9
    ensures 1 <= Pow10(k) <= 1_000_000_000
  {
    Pow10Positive(k);
    Pow10Monotone(k, 9);
    assert Pow10(9) == 1_000_000_000 by {
      assert Pow10(1) == 10;
      assert Pow10(2) == 100;
      assert Pow10(3) == 1000;
      assert Pow10(4) == 10000;
      assert Pow10(5) == 100000;
      assert Pow10(6) == 1000000;
      assert Pow10(7) == 10000000;
      assert Pow10(8) == 100000000;
    }
  }

  predicate IsDigit(c: char) {
    '0' <= c <= '9'
  }

  predicate AllDigits(s: seq<char>) {
    forall i :: 0 <= i < |s| ==> IsDigit(s[i])
  }

  function DigitChar(d: nat): (c: char)
    requires d < 10
    ensures IsDigit(c)
  {
    (('0' as int) + d) as char
  }

  function DigitValue(c: char): nat
    requires IsDigit(c)
  {
    (c as int) - ('0' as int)
  }

  /** The decimal representation of `k`, most significant digit first, without leading zeros. */
  function Digits(k: nat): (s: seq<char>)
    ensures |s| >= 1
    ensures AllDigits(s)
    decreases k
  {
    if k < 10 then [DigitChar(k)] else Digits(k / 10) + [DigitChar(k % 10)]
  }

  /** The number a string of decimal digits denotes; the empty string denotes 0. */
  function ValueOf(s: seq<char>): nat
    requires AllDigits(s)
  {
    if |s| == 0 then 0 else 10 * ValueOf(s[..|s| - 1]) + DigitValue(s[|s| - 1])
  }

  function Zeros(n: nat): (z: seq<char>)
    ensures |z| == n
  {
    seq(n, _ => '0')
  }

  /** `s` left-padded with '0' to at least `width` characters, as the "D<width>" format does. */
  function PadLeft(s: seq<char>, width: int): seq<char> {
    if |s| >= width then s else Zeros(width - |s|) + s
  }

  /** Reading back the digits of `k` gives `k`. */
  lemma {:induction false} ValueOfDigits(k: nat)
    ensures ValueOf(Digits(k)) == k
    decreases k
  {
    if k >= 10 {
      var s := Digits(k);
      assert s[..|s| - 1] == Digits(k / 10);
      ValueOfDigits(k / 10);
    }
  }

  /** A non-zero value is printed without a leading zero. */
  lemma {:induction false} DigitsCanonical(k: nat)
    requires k > 0
    ensures Digits(k)[0] != '0'
    decreases k
  {
    if k >= 10 {
      DigitsCanonical(k / 10);
    }
  }

  /** `k` needs at most `n` digits exactly when it is below `10^n`. */
  lemma {:induction false} DigitsFit(k: nat, n: nat)
    requires n >= 1
    ensures |Digits(k)| <= n <==> k < Pow10(n)
    decreases k
  {
    if k < 10 {
      Pow10Monotone(1, n);
    } else {
      assert |Digits(k)| == |Digits(k / 10)| + 1;
      if n == 1 {
        assert Pow10(1) == 10;
      } else {
        DigitsFit(k / 10, n - 1);
        assert Pow10(n) == 10 * Pow10(n - 1);
        assert k / 10 < Pow10(n - 1) <==> k < 10 * Pow10(n - 1);
      }
    }
  }

  lemma {:induction false} ValueOfZeros(n: nat)
    ensures AllDigits(Zeros(n))
    ensures ValueOf(Zeros(n)) == 0
  {
    if n > 0 {
      assert Zeros(n)[..n - 1] == Zeros(n - 1);
      ValueOfZeros(n - 1);
    }
  }

  /** Leading zeros do not change the value of a digit string. */
  lemma {:induction false} ValueOfZeroPadded(n: nat, s: seq<char>)
    requires AllDigits(s)
    ensures AllDigits(Zeros(n) + s)
    ensures ValueOf(Zeros(n) + s) == ValueOf(s)
    decreases |s|
  {
    ValueOfZeros(n);
    if |s| == 0 {
      assert Zeros(n) + s == Zeros(n);
    } else {
      var t := Zeros(n) + s;
      assert t[..|t| - 1] == Zeros(n) + s[..|s| - 1];
      ValueOfZeroPadded(n, s[..|s| - 1]);
    }
  }

  /** Padding keeps a digit string all digits and its value, and makes it `max(width, |s|)` long. */
  lemma PadLeftDigits(s: seq<char>, width: int)
    requires AllDigits(s)
    ensures AllDigits(PadLeft(s, width))
    ensures |PadLeft(s, width)| == Max(width, |s|)
    ensures ValueOf(PadLeft(s, width)) == ValueOf(s)
  {
    if |s| < width {
      ValueOfZeroPadded(width - |s|, s);
    }
  }
}
