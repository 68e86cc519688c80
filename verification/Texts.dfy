/** Strings as Rust sees them: a sequence of Unicode scalar values with a UTF-8 byte length
    and the lexical order of the encoded bytes, which is the order of the scalar values. */
module Texts {

  /** The number of bytes of one scalar value in UTF-8. */
  function Utf8Width(c: char): nat {
    if c as int < 0x80 then 1 else if c as int < 0x800 then 2 else if c as int < 0x1_0000 then 3 else 4
  }

  function Utf8Len(s: string): (n: nat)
    ensures |s| <= n
  {
    if s == "" then 0 else Utf8Width(s[0]) + Utf8Len(s[1..])
  }

  /** The position of the first `c`, or the length when there is none. */
  function FirstOf(s: string, c: char): (k: nat)
    ensures k <= |s| && (k < |s| ==> s[k] == c)
    ensures forall i :: 0 <= i < k ==> s[i] != c
  {
    if s == "" || s[0] == c then 0 else 1 + FirstOf(s[1..], c)
  }

  /** Lexical order: `a` is a prefix of `b`, or smaller at the first difference. */
  predicate TextLe(a: string, b: string) {
    a == "" || (b != "" && (a[0] < b[0] || (a[0] == b[0] && TextLe(a[1..], b[1..]))))
  }

  lemma {:induction false} TextLeTotal(a: string, b: string)
    ensures TextLe(a, b) || TextLe(b, a)
  {
    if a != "" && b != "" && a[0] == b[0] { TextLeTotal(a[1..], b[1..]); }
  }

  lemma {:induction false} TextLeAntisymmetric(a: string, b: string)
    requires TextLe(a, b) && TextLe(b, a)
    ensures a == b
  {
    if a != "" && b != "" {
      TextLeAntisymmetric(a[1..], b[1..]);
      assert a == [a[0]] + a[1..] && b == [b[0]] + b[1..];
    }
  }

  lemma {:induction false} TextLeTransitive(a: string, b: string, c: string)
    requires TextLe(a, b) && TextLe(b, c)
    ensures TextLe(a, c)
  {
    if a != "" && a[0] == b[0] == c[0] { TextLeTransitive(a[1..], b[1..], c[1..]); }
  }

  // --- UTF-8 ---------------------------------------------------------------------------

  /** The UTF-8 encoding of one scalar value. */
  function Utf8(c: char): seq<nat> {
    var n := c as int;
    if n < 0x80 then [n]
    else if n < 0x800 then [0xC0 + n / 0x40, 0x80 + n % 0x40]
    else if n < 0x1_0000 then [0xE0 + n / 0x40 / 0x40, 0x80 + n / 0x40 % 0x40, 0x80 + n % 0x40]
    else [0xF0 + n / 0x40 / 0x40 / 0x40, 0x80 + n / 0x40 / 0x40 % 0x40, 0x80 + n / 0x40 % 0x40, 0x80 + n % 0x40]
  }

  function Utf8Bytes(s: string): seq<nat> {
    if s == "" then [] else Utf8(s[0]) + Utf8Bytes(s[1..])
  }

  predicate BytesLe(a: seq<nat>, b: seq<nat>) {
    a == [] || (b != [] && (a[0] < b[0] || (a[0] == b[0] && BytesLe(a[1..], b[1..]))))
  }

  /** The modelled length is the number of bytes of the encoding. */
  lemma {:induction false} LengthIsBytes(s: string)
    ensures Utf8Len(s) == |Utf8Bytes(s)|
  {
    if s != "" {
      LengthIsBytes(s[1..]);
    }
  }

  /** Of two numbers, either the leading digits are in order, or they agree and the last ones are. */
  lemma DigitsInOrder(n: nat, m: nat)
    requires n < m
    ensures n / 0x40 < m / 0x40 || (n / 0x40 == m / 0x40 && n % 0x40 < m % 0x40)
  {
  }

  /** The leading byte grows with the length of the encoding. */
  lemma LeadingByte(c: char)
    ensures |Utf8(c)| == 1 ==> Utf8(c)[0] < 0x80
    ensures |Utf8(c)| == 2 ==> 0xC0 <= Utf8(c)[0] < 0xE0
    ensures |Utf8(c)| == 3 ==> 0xE0 <= Utf8(c)[0] < 0xF0
    ensures |Utf8(c)| == 4 ==> 0xF0 <= Utf8(c)[0]
  {
  }

  lemma LongerIsLater(c: char, d: char)
    requires c < d
    ensures |Utf8(c)| <= |Utf8(d)|
    ensures |Utf8(c)| < |Utf8(d)| ==> Utf8(c)[0] < Utf8(d)[0]
  {
    LeadingByte(c);
    LeadingByte(d);
  }

  /** The encoding with its leading byte first and six bits in every other byte. */
  lemma Utf8Digits(c: char)
    ensures 1 <= |Utf8(c)| <= 4
    ensures |Utf8(c)| == 1 ==> Utf8(c) == [c as int]
    ensures |Utf8(c)| >= 2 ==> Utf8(c)[|Utf8(c)| - 1] == 0x80 + c as int % 0x40
    ensures |Utf8(c)| == 2 ==> Utf8(c)[0] == 0xC0 + c as int / 0x40
    ensures |Utf8(c)| >= 3 ==> Utf8(c)[|Utf8(c)| - 2] == 0x80 + c as int / 0x40 % 0x40
    ensures |Utf8(c)| == 3 ==> Utf8(c)[0] == 0xE0 + c as int / 0x40 / 0x40
    ensures |Utf8(c)| == 4 ==> Utf8(c)[1] == 0x80 + c as int / 0x40 / 0x40 % 0x40
    ensures |Utf8(c)| == 4 ==> Utf8(c)[0] == 0xF0 + c as int / 0x40 / 0x40 / 0x40
  {
  }

  /** Two encodings first differ within both of them, and there as the scalar values do. */
  lemma EncodingsDiffer(c: char, d: char) returns (k: nat)
    requires c < d
    ensures k < |Utf8(c)| && k < |Utf8(d)| && Utf8(c)[k] < Utf8(d)[k]
    ensures forall i :: 0 <= i < k ==> Utf8(c)[i] == Utf8(d)[i]
  {
    hide Utf8;
    LongerIsLater(c, d);
    Utf8Digits(c);
    Utf8Digits(d);
    k := 0;
    if |Utf8(c)| == |Utf8(d)| {
      var n, m := c as int, d as int;
      var n1, m1 := n / 0x40, m / 0x40;
      var n2, m2 := n1 / 0x40, m1 / 0x40;
      k := |Utf8(c)| - 1;
      DigitsInOrder(n, m);
      if k > 0 && n1 < m1 {
        k := k - 1;
        DigitsInOrder(n1, m1);
        if k > 0 && n2 < m2 {
          k := k - 1;
          DigitsInOrder(n2, m2);
          if k > 0 && n2 / 0x40 < m2 / 0x40 {
            k := k - 1;
          }
        }
      }
    }
  }

  lemma {:induction false} FirstDifferenceDecides(a: seq<nat>, b: seq<nat>, k: nat)
    requires k < |a| && k < |b| && a[k] < b[k] && forall i :: 0 <= i < k ==> a[i] == b[i]
    ensures BytesLe(a, b) && !BytesLe(b, a)
    decreases k
  {
    if k > 0 {
      FirstDifferenceDecides(a[1..], b[1..], k - 1);
    }
  }

  lemma {:induction false} CommonPrefixCancels(p: seq<nat>, a: seq<nat>, b: seq<nat>)
    ensures BytesLe(p + a, p + b) <==> BytesLe(a, b)
    decreases |p|
  {
    if p == [] {
      assert p + a == a && p + b == b;
    } else {
      CommonPrefixCancels(p[1..], a, b);
      assert (p + a)[1..] == p[1..] + a && (p + b)[1..] == p[1..] + b;
    }
  }

  lemma SmallerFirst(c: char, x: seq<nat>, d: char, y: seq<nat>)
    requires c < d
    ensures BytesLe(Utf8(c) + x, Utf8(d) + y) && !BytesLe(Utf8(d) + y, Utf8(c) + x)
  {
    var k := EncodingsDiffer(c, d);
    FirstDifferenceDecides(Utf8(c) + x, Utf8(d) + y, k);
  }

  /** The lexical order of texts is the order of their UTF-8 bytes. */
  lemma {:induction false} TextOrderIsByteOrder(a: string, b: string)
    ensures TextLe(a, b) <==> BytesLe(Utf8Bytes(a), Utf8Bytes(b))
  {
    if a != "" && b != "" {
      hide Utf8;
      var x, y := Utf8Bytes(a[1..]), Utf8Bytes(b[1..]);
      if a[0] < b[0] {
        SmallerFirst(a[0], x, b[0], y);
      } else if b[0] < a[0] {
        SmallerFirst(b[0], y, a[0], x);
      } else {
        CommonPrefixCancels(Utf8(a[0]), x, y);
        TextOrderIsByteOrder(a[1..], b[1..]);
      }
    }
  }
}
