/** Authored-object identifiers: 128-bit numbers written as 26 Crockford base-32 characters. */
module Ulids {
  import opened Options
  import opened Digits
  import opened Texts

  const LENGTH: nat := 26
  const ALPHABET: string := "0123456789ABCDEFGHJKMNPQRSTVWXYZ"
  const TWO_48: nat := 0x1_0000_0000_0000
  const TWO_80: nat := 0x1_0000_0000_0000_0000_0000
  const TWO_128: nat := 0x1_0000_0000_0000_0000_0000_0000_0000_0000

  // --- Characters ----------------------------------------------------------------------

  function Upper(c: char): char {
    if 'a' <= c <= 'z' then c - 'a' + 'A' else c
  }

  /** The digit a character stands for, in either case, with the aliases O, I and L. */
  function Decode(c: char): (d: Option<nat>)
    ensures d.Some? ==> d.value < 32
  {
    var u := Upper(c);
    if u == '0' || u == 'O' then Some(0)
    else if u == '1' || u == 'I' || u == 'L' then Some(1)
    else if '2' <= u <= '9' then Some(u as int - '0' as int)
    else if 'A' <= u <= 'H' then Some(u as int - 'A' as int + 10)
    else if 'J' <= u <= 'K' then Some(u as int - 'J' as int + 18)
    else if 'M' <= u <= 'N' then Some(u as int - 'M' as int + 20)
    else if 'P' <= u <= 'T' then Some(u as int - 'P' as int + 22)
    else if 'V' <= u <= 'Z' then Some(u as int - 'V' as int + 27)
    else None
  }

  predicate Decodes(s: string) {
    forall i :: 0 <= i < |s| ==> Decode(s[i]).Some?
  }

  lemma LowDigitsDecode(d: nat)
    requires d < 16
    ensures Decode(ALPHABET[d]) == Some(d)
  {
  }

  lemma HighDigitsDecode(d: nat)
    requires 16 <= d < 32
    ensures Decode(ALPHABET[d]) == Some(d)
  {
  }

  lemma DigitsDecode(d: nat)
    requires d < 32
    ensures Decode(ALPHABET[d]) == Some(d)
  {
    hide Decode;
    if d < 16 {
      LowDigitsDecode(d);
    } else {
      HighDigitsDecode(d);
    }
  }

  lemma Neighbours(d: nat)
    requires d < 31
    ensures ALPHABET[d] < ALPHABET[d + 1]
  {
  }

  lemma {:induction false} LaterIsGreater(d: nat, e: nat)
    requires d < e < 32
    ensures ALPHABET[d] < ALPHABET[e]
    decreases e
  {
    hide ALPHABET;
    Neighbours(e - 1);
    if d < e - 1 {
      LaterIsGreater(d, e - 1);
    }
  }

  lemma AlphabetAscends(d: nat, e: nat)
    requires d < 32 && e < 32
    ensures ALPHABET[d] <= ALPHABET[e] <==> d <= e
    ensures ALPHABET[d] == ALPHABET[e] ==> d == e
  {
    if d < e {
      LaterIsGreater(d, e);
    } else if e < d {
      LaterIsGreater(e, d);
    }
  }

  // --- Texts ---------------------------------------------------------------------------

  /** The number a text stands for. */
  ghost function Value(s: string): nat
    requires Decodes(s)
  {
    if s == "" then 0 else 32 * Value(s[..|s| - 1]) + Decode(s[|s| - 1]).value
  }

  /** The last `n` base-32 digits of `v`. */
  ghost function Encoded(v: nat, n: nat): (s: string)
    ensures |s| == n
  {
    if n == 0 then "" else Encoded(v / 32, n - 1) + [ALPHABET[v % 32]]
  }

  /** The text with every alias replaced by its digit. */
  ghost function Canonical(s: string): string
    requires Decodes(s)
  {
    seq(|s|, i requires 0 <= i < |s| => ALPHABET[Decode(s[i]).value])
  }

  /** The texts that name an identifier. */
  ghost predicate Names(s: string) {
    |s| == LENGTH && Decodes(s) && Decode(s[0]).value <= 7
  }

  lemma {:induction false} EncodedDenotes(v: nat, n: nat)
    requires v < Pow(32, n)
    ensures Decodes(Encoded(v, n)) && Value(Encoded(v, n)) == v
  {
    if n > 0 {
      var front := Encoded(v / 32, n - 1);
      EncodedDenotes(v / 32, n - 1);
      DigitsDecode(v % 32);
      assert Encoded(v, n)[..n - 1] == front;
    }
  }

  lemma DigitAppended(d: nat, p: nat, x: nat, e: nat)
    requires d * p <= x < (d + 1) * p && e < 32
    ensures d * (32 * p) <= 32 * x + e < (d + 1) * (32 * p)
  {
    assert d * (32 * p) == 32 * (d * p);
    assert (d + 1) * (32 * p) == 32 * ((d + 1) * p);
  }

  lemma {:induction false} ValueBounds(s: string)
    requires Decodes(s) && s != ""
    ensures Decode(s[0]).value * Pow(32, |s| - 1) <= Value(s) < (Decode(s[0]).value + 1) * Pow(32, |s| - 1)
  {
    hide Decode;
    var n := |s| - 1;
    if n == 0 {
      assert s[..0] == "";
    } else {
      ValueBounds(s[..n]);
      assert s[..n][0] == s[0];
      DigitAppended(Decode(s[0]).value, Pow(32, n - 1), Value(s[..n]), Decode(s[n]).value);
    }
  }

  lemma TopPower()
    ensures 8 * Pow(32, 25) == TWO_128
  {
    assert Pow(32, 5) == 0x200_0000;
    PowAdd(32, 5, 5);
    PowAdd(32, 10, 10);
    PowAdd(32, 20, 5);
  }

  /** A decodable text of the right length stays below 2^128 exactly when its first digit is at most 7. */
  lemma FirstDigitDecides(s: string)
    requires |s| == LENGTH && Decodes(s)
    ensures Value(s) < TWO_128 <==> Decode(s[0]).value <= 7
  {
    hide Decode, Value;
    ValueBounds(s);
    TopPower();
    var d, p := Decode(s[0]).value, Pow(32, 25);
    hide Pow;
    if d <= 7 {
      assert (d + 1) * p <= 8 * p;
    } else {
      assert d * p >= 8 * p;
    }
  }

  /** Every identifier has a text that names it. */
  lemma EncodingNames(v: nat)
    requires v < TWO_128
    ensures Names(Encoded(v, LENGTH)) && Value(Encoded(v, LENGTH)) == v
  {
    TopPower();
    assert Pow(32, 26) == 32 * Pow(32, 25);
    EncodedDenotes(v, LENGTH);
    FirstDigitDecides(Encoded(v, LENGTH));
  }

  lemma {:induction false} EncodedValue(s: string)
    requires Decodes(s)
    ensures Encoded(Value(s), |s|) == Canonical(s)
  {
    hide Decode;
    if s != "" {
      var n := |s| - 1;
      EncodedValue(s[..n]);
      assert Value(s) / 32 == Value(s[..n]) && Value(s) % 32 == Decode(s[n]).value;
      assert Canonical(s) == Canonical(s[..n]) + [ALPHABET[Decode(s[n]).value]];
    }
  }

  /** Two texts name one identifier exactly when they differ in aliases only. */
  lemma SameIdentifier(s: string, t: string)
    requires Names(s) && Names(t)
    ensures Value(s) == Value(t) <==> Canonical(s) == Canonical(t)
  {
    EncodedValue(s);
    EncodedValue(t);
    FirstDigitDecides(s);
    FirstDigitDecides(t);
    EncodingNames(Value(s));
    EncodingNames(Value(t));
  }

  // --- Order ---------------------------------------------------------------------------

  lemma {:induction false} LastCharacterDecides(a: string, c: char, b: string, d: char)
    requires |a| == |b|
    ensures TextLe(a + [c], b + [d]) <==> if a == b then c <= d else TextLe(a, b)
  {
    if a == "" {
      assert a + [c] == [c] && b + [d] == [d];
      assert TextLe([c][1..], [d][1..]);
    } else {
      LastCharacterDecides(a[1..], c, b[1..], d);
      assert (a + [c])[1..] == a[1..] + [c] && (b + [d])[1..] == b[1..] + [d];
      assert a == [a[0]] + a[1..] && b == [b[0]] + b[1..];
    }
  }

  lemma {:induction false} EncodingKeepsOrder(v: nat, w: nat, n: nat)
    requires v < Pow(32, n) && w < Pow(32, n)
    ensures v <= w <==> TextLe(Encoded(v, n), Encoded(w, n))
    decreases n
  {
    hide Decode, Decodes;
    if n > 0 {
      var a, b := Encoded(v / 32, n - 1), Encoded(w / 32, n - 1);
      EncodingKeepsOrder(v / 32, w / 32, n - 1);
      EncodedDenotes(v / 32, n - 1);
      EncodedDenotes(w / 32, n - 1);
      AlphabetAscends(v % 32, w % 32);
      hide TextLe, Value;
      LastCharacterDecides(a, ALPHABET[v % 32], b, ALPHABET[w % 32]);
    }
  }

  /** Identifiers sort as numbers exactly as their texts sort. */
  lemma TextOrderIsNumericOrder(v: nat, w: nat)
    requires v < TWO_128 && w < TWO_128
    ensures v <= w <==> TextLe(Encoded(v, LENGTH), Encoded(w, LENGTH))
  {
    TopPower();
    assert Pow(32, 26) == 32 * Pow(32, 25);
    EncodingKeepsOrder(v, w, LENGTH);
  }

  // --- Parts ---------------------------------------------------------------------------

  function FromParts(timestamp: nat, randomness: nat): nat {
    (timestamp % TWO_48) * TWO_80 + randomness % TWO_80
  }

  function Timestamp(v: nat): nat {
    v / TWO_80
  }

  function Randomness(v: nat): nat {
    v % TWO_80
  }

  /** The parts are cut to 48 and 80 bits, come back, and make up the whole identifier. */
  lemma PartsRoundTrip(timestamp: nat, randomness: nat, v: nat)
    requires v < TWO_128
    ensures FromParts(timestamp, randomness) < TWO_128
    ensures Timestamp(FromParts(timestamp, randomness)) == timestamp % TWO_48
    ensures Randomness(FromParts(timestamp, randomness)) == randomness % TWO_80
    ensures FromParts(Timestamp(v), Randomness(v)) == v
  {
    assert Timestamp(v) < TWO_48;
  }

  /** Identifiers with an earlier time have the earlier text, whatever their randomness. */
  lemma EarlierTextIsEarlierTime(t: nat, u: nat, r: nat, q: nat)
    requires t < u < TWO_48
    ensures !TextLe(Encoded(FromParts(u, q), LENGTH), Encoded(FromParts(t, r), LENGTH))
  {
    PartsRoundTrip(t, r, 0);
    PartsRoundTrip(u, q, 0);
    hide Encoded, TextLe;
    assert FromParts(t, r) < FromParts(u, q);
    hide FromParts;
    TextOrderIsNumericOrder(FromParts(u, q), FromParts(t, r));
  }

  // --- Writing and reading -------------------------------------------------------------

  lemma SuffixOfEncoded(v: nat, n: nat)
    requires n > 0
    ensures Encoded(v, n)[n - 1] == ALPHABET[v % 32] && Encoded(v, n)[..n - 1] == Encoded(v / 32, n - 1)
  {
  }

  /** Writes the digits from the last to the first. */
  method Display(v: nat) returns (text: string)
    requires v < TWO_128
    ensures Names(text) && Value(text) == v && text == Canonical(text)
  {
    var encoded := new char[LENGTH](_ => '0');
    var value := v;
    var k := LENGTH;
    while k > 0
      invariant 0 <= k <= LENGTH
      invariant Encoded(v, LENGTH) == Encoded(value, k) + encoded[k..]
    {
      SuffixOfEncoded(value, k);
      ghost var front, done := Encoded(value / 32, k - 1), encoded[k..];
      encoded[k - 1] := ALPHABET[value % 32];
      assert encoded[k..] == done;
      assert encoded[k - 1..] == [ALPHABET[value % 32]] + done;
      assert Encoded(value, k) + done == front + encoded[k - 1..];
      value := value / 32;
      k := k - 1;
    }
    text := encoded[..];
    assert text == Encoded(v, LENGTH);
    EncodingNames(v);
    EncodedValue(text);
  }

  datatype ParseError = InvalidLength(actual: nat) | InvalidCharacter(character: char, index: nat) | Overflow

  datatype ParseResult = Parsed(value: nat) | Refused(error: ParseError)

  /** One digit appended in 128-bit arithmetic, or nothing when it does not fit. */
  function Appended(value: nat, digit: nat): Option<nat> {
    if 32 * value >= TWO_128 then None
    else if 32 * value + digit >= TWO_128 then None
    else Some(32 * value + digit)
  }

  lemma PowersBelowTop(k: nat)
    requires k <= 25
    ensures 8 * Pow(32, k) <= TWO_128
  {
    TopPower();
    PowAdd(32, k, 25 - k);
    var p, q := Pow(32, k), Pow(32, 25 - k);
    assert p * 1 <= p * q;
  }

  lemma PrefixFits(t: string)
    requires 0 < |t| <= LENGTH && Decodes(t) && Decode(t[0]).value <= 7
    ensures Value(t) < TWO_128
  {
    hide Decode, Value, Pow;
    ValueBounds(t);
    PowersBelowTop(|t| - 1);
    var d, p := Decode(t[0]).value, Pow(32, |t| - 1);
    assert (d + 1) * p <= 8 * p;
  }

  lemma AppendFits(s: string, k: nat)
    requires k < |s| == LENGTH && Decodes(s[..k + 1]) && Decode(s[0]).value <= 7
    ensures Decodes(s[..k]) && Appended(Value(s[..k]), Decode(s[k]).value) == Some(Value(s[..k + 1]))
  {
    hide Decode;
    var t := s[..k + 1];
    assert t[0] == s[0] && t[k] == s[k];
    assert forall i :: 0 <= i < k ==> s[..k][i] == t[i];
    assert t[..|t| - 1] == s[..k];
    PrefixFits(t);
  }

  /** Reads a text, stopping at the first character that cannot be read. */
  method FromStr(input: string) returns (r: ParseResult)
    ensures r.Parsed? <==> Names(input)
    ensures r.Parsed? ==> r.value == Value(input) < TWO_128
    ensures r == Refused(InvalidLength(|input|)) <==> |input| != LENGTH
    ensures r == Refused(Overflow) <==> |input| == LENGTH && Decode(input[0]).Some? && Decode(input[0]).value > 7
    ensures r.Refused? && r.error.InvalidCharacter? ==>
              r.error.index < |input| && input[r.error.index] == r.error.character && Decode(r.error.character).None?
              && Decodes(input[..r.error.index])
  {
    var actual := |input|;
    if actual != LENGTH {
      return Refused(InvalidLength(actual));
    }
    var value := 0;
    for k := 0 to LENGTH
      invariant Decodes(input[..k]) && value == Value(input[..k])
      invariant k > 0 ==> Decode(input[0]).value <= 7
    {
      var digit := Decode(input[k]);
      if digit.None? {
        return Refused(InvalidCharacter(input[k], k));
      }
      if k == 0 && digit.value > 7 {
        return Refused(Overflow);
      }
      assert forall i :: 0 <= i < k ==> input[..k + 1][i] == input[..k][i];
      AppendFits(input, k);
      var appended := Appended(value, digit.value);
      value := appended.value;
    }
    assert input[..LENGTH] == input;
    FirstDigitDecides(input);
    r := Parsed(value);
  }

  /** A character stands for a digit exactly when, in capitals, it is that digit's own character or
      one of its aliases: O for zero, I and L for one. */
  lemma DecodeMeans(c: char, d: nat)
    requires d < 32
    ensures Decode(c) == Some(d) <==>
            Upper(c) == ALPHABET[d] || (d == 0 && Upper(c) == 'O') || (d == 1 && (Upper(c) == 'I' || Upper(c) == 'L'))
  {
    AlphabetRanges(d);
    hide ALPHABET;
  }

  lemma AlphabetRanges(d: nat)
    requires d < 32
    ensures ALPHABET[d] as int ==
            if d < 10 then '0' as int + d
            else if d < 18 then 'A' as int + d - 10
            else if d < 20 then 'J' as int + d - 18
            else if d < 22 then 'M' as int + d - 20
            else if d < 27 then 'P' as int + d - 22
            else 'V' as int + d - 27
  {
  }
}
