/** Decimal numerals: reading digit strings, writing the shortest and the zero-padded
    numeral of a number, and powers. */
module Digits {

  function Pow(b: nat, k: nat): (r: nat)
    ensures b > 0 ==> r > 0
  {
    if k == 0 then 1 else b * Pow(b, k - 1)
  }

  predicate IsDigit(c: char) {
    '0' <= c <= '9'
  }

  predicate AllDigits(s: string) {
    forall i :: 0 <= i < |s| ==> IsDigit(s[i])
  }

  function DigitOf(c: char): (d: nat)
    requires IsDigit(c)
    ensures d < 10
  {
    c as int - '0' as int
  }

  function DigitChar(d: nat): (c: char)
    requires d < 10
    ensures IsDigit(c) && DigitOf(c) == d
  {
    '0' + d as char
  }

  /** The number a digit string denotes; the empty string denotes zero. */
  function ValueOf(s: string): nat
    requires AllDigits(s)
  {
    if s == "" then 0 else 10 * ValueOf(s[..|s| - 1]) + DigitOf(s[|s| - 1])
  }

  /** The numeral without leading zeros. */
  function Numeral(n: nat): (s: string)
    ensures |s| >= 1 && AllDigits(s)
  {
    if n < 10 then [DigitChar(n)] else Numeral(n / 10) + [DigitChar(n % 10)]
  }

  /** The numeral padded with leading zeros up to `width` characters. */
  function Padded(n: nat, width: nat): (s: string) {
    var s := Numeral(n);
    if |s| >= width then s else seq(width - |s|, _ => '0') + s
  }

  lemma {:induction false} ValueBelowPower(s: string)
    requires AllDigits(s)
    ensures ValueOf(s) < Pow(10, |s|)
  {
    if s != "" {
      ValueBelowPower(s[..|s| - 1]);
    }
  }

  lemma {:induction false} NumeralDenotes(n: nat)
    ensures ValueOf(Numeral(n)) == n
  {
    if n >= 10 {
      NumeralDenotes(n / 10);
      assert Numeral(n)[..|Numeral(n)| - 1] == Numeral(n / 10);
    }
  }

  /** Digit strings of one length are determined by their value. */
  lemma {:induction false} EqualValueEqualText(a: string, b: string)
    requires AllDigits(a) && AllDigits(b) && |a| == |b| && ValueOf(a) == ValueOf(b)
    ensures a == b
  {
    if a != "" {
      var n := |a| - 1;
      EqualValueEqualText(a[..n], b[..n]);
      assert DigitOf(a[n]) == DigitOf(b[n]);
      assert a == a[..n] + [a[n]] && b == b[..n] + [b[n]];
    }
  }

  lemma {:induction false} NumeralIsShortest(n: nat, s: string)
    requires s != "" && AllDigits(s) && ValueOf(s) == n
    ensures |Numeral(n)| <= |s|
    decreases |s|
  {
    if n >= 10 {
      assert |s| > 1;
      NumeralIsShortest(n / 10, s[..|s| - 1]);
    }
  }

  lemma {:induction false} LeadingZeros(zeros: string, s: string)
    requires forall i :: 0 <= i < |zeros| ==> zeros[i] == '0'
    requires AllDigits(s)
    ensures AllDigits(zeros + s) && ValueOf(zeros + s) == ValueOf(s)
    decreases |zeros| + |s|
  {
    var t := zeros + s;
    if s != "" {
      LeadingZeros(zeros, s[..|s| - 1]);
      assert t[..|t| - 1] == zeros + s[..|s| - 1];
    } else if zeros != "" {
      assert t == zeros;
      LeadingZeros(zeros[..|zeros| - 1], "");
      assert t[..|t| - 1] == zeros[..|zeros| - 1] + "";
    }
  }

  lemma {:induction false} NumeralFits(n: nat, width: nat)
    requires n < Pow(10, width) && width >= 1
    ensures |Numeral(n)| <= width
    decreases width
  {
    if n >= 10 {
      assert Pow(10, 1) == 10;
      assert width >= 2;
      assert n / 10 < Pow(10, width - 1);
      NumeralFits(n / 10, width - 1);
    }
  }

  lemma PaddedDenotes(n: nat, width: nat)
    requires n < Pow(10, width) && width >= 1
    ensures |Padded(n, width)| == width && AllDigits(Padded(n, width)) && ValueOf(Padded(n, width)) == n
  {
    NumeralDenotes(n);
    NumeralFits(n, width);
    LeadingZeros(seq(width - |Numeral(n)|, _ => '0'), Numeral(n));
    if |Numeral(n)| == width {
      assert Padded(n, width) == Numeral(n);
    }
  }

  lemma Reassociate(a: int, b: int, c: int)
    ensures a * (b * c) == (a * b) * c
  {
  }

  lemma {:induction false} PowAdd(b: nat, j: nat, k: nat)
    ensures Pow(b, j + k) == Pow(b, j) * Pow(b, k)
  {
    if j > 0 {
      PowAdd(b, j - 1, k);
      Reassociate(b, Pow(b, j - 1), Pow(b, k));
    }
  }

  lemma {:induction false} TenIsTwoTimesFive(k: nat)
    ensures Pow(10, k) == Pow(2, k) * Pow(5, k)
  {
    if k > 0 {
      TenIsTwoTimesFive(k - 1);
      var x, y := Pow(2, k - 1), Pow(5, k - 1);
      assert 10 * (x * y) == (2 * x) * (5 * y);
    }
  }
}
