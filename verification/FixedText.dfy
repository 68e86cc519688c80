/** The decimal text of fixed-point values: `FromStr` and `Display`. */
module FixedText {
  import opened Digits
  import opened FixedPoint
  import opened Numbers
  import opened Options
  import opened Texts

  const I64_MAX: int := 0x7FFF_FFFF_FFFF_FFFF

  /** A decimal cut at its leading minus sign and its first point. */
  datatype Decimal = Decimal(negative: bool, whole: string, point: bool, fraction: string)

  function Cut(s: string): Decimal {
    var negative := s != "" && s[0] == '-';
    var unsigned := if negative then s[1..] else s;
    var k := FirstOf(unsigned, '.');
    if k < |unsigned| then Decimal(negative, unsigned[..k], true, unsigned[k + 1..])
    else Decimal(negative, unsigned, false, "")
  }

  /** The text a decimal was cut from. */
  function Joined(d: Decimal): string {
    if d.negative then "-" + Unsigned(d) else Unsigned(d)
  }

  function Unsigned(d: Decimal): string {
    if d.point then d.whole + "." + d.fraction else d.whole
  }

  /** At least one digit before the point, and 1 to 16 digits after it when there is one. */
  predicate Grammatical(d: Decimal) {
    && d.whole != "" && AllDigits(d.whole) && AllDigits(d.fraction)
    && (if d.point then 1 <= |d.fraction| <= 16 else d.fraction == "")
  }

  /** Reading a digit string as `i64` fails only on overflow. */
  function ReadI64(digits: string): Option<int>
    requires AllDigits(digits)
  {
    if ValueOf(digits) <= I64_MAX then Some(ValueOf(digits)) else None
  }

  function ParseFraction(digits: string): Option<int>
    requires AllDigits(digits) && 1 <= |digits| <= 16
  {
    match ReadI64(digits)
    case None => None
    case Some(decimal) =>
      var fives := Pow(5, |digits|);
      if decimal % fives != 0 then None
      else Some(decimal / fives * Pow(2, 16 - |digits|))
  }

  function ParseMagnitude(d: Decimal): Option<int>
    requires Grammatical(d)
  {
    match ReadI64(d.whole)
    case None => None
    case Some(whole) =>
      if whole > 32768 then None
      else if d.fraction == "" then Some(whole * ONE)
      else match ParseFraction(d.fraction)
        case None => None
        case Some(f) => Some(whole * ONE + f)
  }

  function Parse(s: string): Option<i32> {
    var d := Cut(s);
    if d.point && (d.fraction == "" || |d.fraction| > 16) then None
    else if d.whole == "" || !AllDigits(d.whole) || !AllDigits(d.fraction) then None
    else match ParseMagnitude(d)
      case None => None
      case Some(raw) => Checked(if d.negative then -raw else raw)
  }

  /** `raw / 65536` equals the number the decimal denotes, compared without division. */
  ghost predicate Denotes(d: Decimal, raw: int)
    requires Grammatical(d)
  {
    var ten := Pow(10, |d.fraction|);
    (if d.negative then -raw else raw) * ten == (ValueOf(d.whole) * ten + ValueOf(d.fraction)) * ONE
  }

  lemma CutJoined(d: Decimal)
    requires Grammatical(d)
    ensures Cut(Joined(d)) == d
  {
    var u := Unsigned(d);
    PointFollowsWhole(d);
    assert u[0] == d.whole[0];
    if d.negative {
      assert Joined(d)[1..] == u;
    }
  }

  lemma PointFollowsWhole(d: Decimal)
    requires Grammatical(d)
    ensures FirstOf(Unsigned(d), '.') == |d.whole| && Unsigned(d)[..|d.whole|] == d.whole
    ensures d.point ==> Unsigned(d)[|d.whole| + 1..] == d.fraction
  {
    hide FirstOf;
    var u := Unsigned(d);
    assert forall i :: 0 <= i < |d.whole| ==> u[i] == d.whole[i] != '.';
    assert d.point ==> u[|d.whole|] == '.';
  }

  lemma JoinedCut(s: string)
    ensures Joined(Cut(s)) == s
  {
    hide FirstOf;
    var d := Cut(s);
    var u := if d.negative then s[1..] else s;
    assert u == Unsigned(d) by {
      if d.point {
        SplitAtPoint(u, FirstOf(u, '.'));
      }
    }
    if d.negative {
      assert s == "-" + u;
    }
  }

  lemma SplitAtPoint(u: string, k: nat)
    requires k < |u| && u[k] == '.'
    ensures u == u[..k] + "." + u[k + 1..]
  {
  }

  // --- Exactness -----------------------------------------------------------------------

  lemma {:induction false} OddDivisorSurvivesDoubling(v: nat, f: nat, j: nat, e: nat)
    requires v % 2 == 1 && e * v == f * Pow(2, j)
    ensures f % v == 0
    decreases j
  {
    if j == 0 {
      assert f == e * v;
      ExactQuotient(f, v, e);
    } else {
      var h := f * Pow(2, j - 1);
      assert e * v == 2 * h;
      assert e % 2 == 0 by { OddTimesOdd(e, v); }
      assert e / 2 * v * 2 == e * v;
      OddDivisorSurvivesDoubling(v, f, j - 1, e / 2);
    }
  }

  lemma OddTimesOdd(e: nat, v: nat)
    requires v % 2 == 1 && (e * v) % 2 == 0
    ensures e % 2 == 0
  {
    var a, b := e / 2, v / 2;
    assert e % 2 == 1 ==> e * v == (2 * a + 1) * (2 * b + 1) == 2 * (2 * a * b + a + b) + 1;
  }

  lemma ExactQuotient(n: nat, d: nat, q: nat)
    requires d > 0 && n == q * d
    ensures n % d == 0 && n / d == q
  {
    FloorIsUnique(q, n / d, n, d) by {
      DivisionBounds(n, d);
    }
  }

  lemma {:induction false} FivePowersAreOdd(k: nat)
    ensures Pow(5, k) % 2 == 1
  {
    if k > 0 { FivePowersAreOdd(k - 1); }
  }

  lemma SixteenBits(k: nat)
    requires k <= 16
    ensures Pow(2, k) * Pow(2, 16 - k) == ONE
  {
    PowAdd(2, k, 16 - k);
    assert Pow(2, 8) == 256;
    PowAdd(2, 8, 8);
  }

  /** A `k`-digit fraction `f` is `e / 65536` exactly when `5^k` divides `f`: the power of two
      in `10^k` always cancels, the power of five never does. */
  lemma FractionIsExact(f: nat, k: nat, e: int)
    requires k <= 16
    ensures e * Pow(10, k) == f * ONE <==> f % Pow(5, k) == 0 && e == f / Pow(5, k) * Pow(2, 16 - k)
  {
    var t, v, u := Pow(2, k), Pow(5, k), Pow(2, 16 - k);
    assert e * Pow(10, k) == f * ONE <==> e * v == f * u by {
      TenIsTwoTimesFive(k);
      SixteenBits(k);
      CommonFactorCancels(e, f, t, v, u);
    }
    FivePowersAreOdd(k);
    OddQuotient(f, v, 16 - k, e);
  }

  lemma OddQuotient(f: nat, v: nat, j: nat, e: int)
    requires v % 2 == 1
    ensures e * v == f * Pow(2, j) <==> f % v == 0 && e == f / v * Pow(2, j)
  {
    var u := Pow(2, j);
    if e * v == f * u {
      NonnegativeFactor(e, v);
      OddDivisorSurvivesDoubling(v, f, j, e);
    }
    if f % v == 0 {
      MultipleScales(f, v, u, e);
    }
  }

  lemma CommonFactorCancels(e: int, f: int, t: nat, v: nat, u: nat)
    requires t > 0
    ensures e * (t * v) == f * (t * u) <==> e * v == f * u
  {
    Rearrange(e, t, v);
    Rearrange(f, t, u);
    CancelFactor(e * v, f * u, t);
  }

  lemma MultipleScales(f: nat, v: nat, u: nat, e: int)
    requires v > 0 && f % v == 0
    ensures e * v == f * u <==> e == f / v * u
  {
    var g := f / v;
    assert f == v * g;
    Rearrange(u, g, v);
    CancelFactor(e, g * u, v);
  }

  lemma Rearrange(a: int, b: int, c: int)
    ensures a * (b * c) == (a * c) * b == (a * b) * c
  {
  }

  lemma NonnegativeFactor(a: int, b: int)
    requires b > 0 && a * b >= 0
    ensures a >= 0
  {
  }

  lemma CancelFactor(a: int, b: int, t: nat)
    requires t > 0
    ensures a * t == b * t <==> a == b
  {
    if a < b { ScaledOrder(a + 1, b, t); assert (a + 1) * t == a * t + t; }
    if b < a { ScaledOrder(b + 1, a, t); assert (b + 1) * t == b * t + t; }
  }

  /** `FromStr` accepts exactly the grammatical decimals that denote a representable value, and
      returns that value. */
  lemma ParseIsExact(s: string, raw: int)
    ensures Parse(s) == Some(raw) <==> Grammatical(Cut(s)) && FitsI32(raw) && Denotes(Cut(s), raw)
  {
    var d := Cut(s);
    if Grammatical(d) {
      MagnitudeIsExact(d, if d.negative then -raw else raw);
    }
  }

  lemma MagnitudeIsExact(d: Decimal, m: int)
    requires Grammatical(d)
    ensures ParseMagnitude(d) == Some(m) ==> Denotes(d, if d.negative then -m else m)
    ensures Denotes(d, if d.negative then -m else m) && m <= 0x8000_0000 ==> ParseMagnitude(d) == Some(m)
  {
    var k, w, f := |d.fraction|, ValueOf(d.whole), ValueOf(d.fraction);
    WholeSplitsOff(m, w, f, Pow(10, k));
    assert Denotes(d, if d.negative then -m else m) <==> (m - w * ONE) * Pow(10, k) == f * ONE;
    FractionParses(d.fraction, m - w * ONE);
  }

  /** The fraction digits contribute `e` units exactly when they denote `e / 65536`. */
  lemma FractionParses(digits: string, e: int)
    requires AllDigits(digits) && |digits| <= 16
    ensures e * Pow(10, |digits|) == ValueOf(digits) * ONE <==>
            (if digits == "" then e == 0 else ParseFraction(digits) == Some(e))
    ensures e * Pow(10, |digits|) == ValueOf(digits) * ONE ==> e >= 0
  {
    FractionIsExact(ValueOf(digits), |digits|, e);
    FractionReads(digits);
    if e * Pow(10, |digits|) == ValueOf(digits) * ONE {
      NonnegativeFactor(e, Pow(10, |digits|));
    }
  }

  lemma WholeSplitsOff(m: int, w: nat, f: nat, ten: nat)
    ensures m * ten == (w * ten + f) * ONE <==> (m - w * ONE) * ten == f * ONE
  {
    assert (m - w * ONE) * ten == m * ten - w * ONE * ten;
  }

  lemma FractionReads(digits: string)
    requires AllDigits(digits) && |digits| <= 16
    ensures ValueOf(digits) <= I64_MAX
  {
    ValueBelowPower(digits);
    PowAdd(10, |digits|, 16 - |digits|);
    assert Pow(10, 4) == 10000;
    PowAdd(10, 4, 4);
    PowAdd(10, 8, 8);
    ScaledOrder(1, Pow(10, 16 - |digits|), Pow(10, |digits|));
  }

  // --- Display -------------------------------------------------------------------------

  /** A decimal denoting `raw` has `raw`'s integer part, and its digits scale the remainder. */
  lemma PartsAreDetermined(d: Decimal, raw: int)
    requires Grammatical(d) && Denotes(d, raw)
    ensures raw < 0 ==> d.negative
    ensures ValueOf(d.whole) == Abs(raw) / ONE
    ensures ValueOf(d.fraction) * ONE == Abs(raw) % ONE * Pow(10, |d.fraction|)
  {
    hide Pow, ValueOf;
    ValueBelowPower(d.fraction);
    SplitDetermines(if d.negative then -raw else raw, ValueOf(d.whole), ValueOf(d.fraction), Pow(10, |d.fraction|));
  }

  lemma SplitDetermines(m: int, w: nat, f: nat, ten: nat)
    requires f < ten && m * ten == (w * ten + f) * ONE
    ensures m >= 0 && w == m / ONE && f * ONE == m % ONE * ten
  {
    NonnegativeFactor(m, ten);
    WholeSplitsOff(m, w, f, ten);
    BoundedScale(m - w * ONE, f, ten);
  }

  lemma BoundedScale(e: int, f: nat, ten: nat)
    requires e * ten == f * ONE && f < ten
    ensures 0 <= e < ONE
  {
    NonnegativeFactor(e, ten);
    assert (ONE - e) * ten == (ten - f) * ONE > 0;
    NonnegativeFactor(ONE - e, ten);
  }

  /** Without a trailing zero, `p` fraction digits are the fewest that express the value. */
  lemma FewestPlaces(e: nat, f: nat, p: nat, g: nat, k: nat)
    requires f * ONE == e * Pow(10, p) && f % 10 != 0
    requires g * ONE == e * Pow(10, k)
    ensures p <= k
    ensures p == k ==> f == g
  {
    if k < p {
      ExtraPlaceIsZero(e, f, p - k, g, k);
      assert false;
    }
  }

  lemma ExtraPlaceIsZero(e: nat, f: nat, j: nat, g: nat, k: nat)
    requires j >= 1 && f * ONE == e * Pow(10, j + k) && g * ONE == e * Pow(10, k)
    ensures f % 10 == 0
  {
    var x, y := Pow(10, j), Pow(10, k);
    PowAdd(10, j, k);
    Rearrange(e, x, y);
    Rearrange(x, g, ONE);
    assert f == x * g;
    Rearrange(g, 10, Pow(10, j - 1));
    assert f == 10 * (g * Pow(10, j - 1));
  }

  /** The decimal `Display` prints: no leading zero, no trailing zero, a sign only if negative. */
  ghost predicate Canonical(d: Decimal, raw: i32) {
    && Grammatical(d) && Denotes(d, raw)
    && d.negative == (raw < 0)
    && d.whole == Numeral(Abs(raw) / ONE)
    && (d.point ==> ValueOf(d.fraction) % 10 != 0)
  }

  lemma CanonicalIsShortest(d: Decimal, raw: i32, s: string)
    requires Canonical(d, raw) && Parse(s) == Some(raw)
    ensures |Joined(d)| <= |s|
    ensures |Joined(d)| == |s| ==> Joined(d) == s
  {
    var c := Cut(s);
    JoinedCut(s);
    ParseIsExact(s, raw);
    PartsAreDetermined(c, raw);
    PartsAreDetermined(d, raw);
    NumeralIsShortest(Abs(raw) / ONE, c.whole);
    if d.point {
      FewestPlaces(Abs(raw) % ONE, ValueOf(d.fraction), |d.fraction|, ValueOf(c.fraction), |c.fraction|);
    }
    if |Joined(d)| == |s| {
      assert |c.whole| == |d.whole| && |c.fraction| == |d.fraction|;
      NumeralDenotes(Abs(raw) / ONE);
      EqualValueEqualText(c.whole, d.whole);
      EqualValueEqualText(c.fraction, d.fraction);
      assert c == d;
    }
  }

  /** Prints the shortest text that parses back to `raw`; no other text of that length does. */
  method Display(raw: i32) returns (text: string)
    ensures Parse(text) == Some(raw)
    ensures forall s :: Parse(s) == Some(raw) ==> |text| <= |s|
    ensures forall s :: Parse(s) == Some(raw) && |s| == |text| ==> s == text
  {
    var magnitude := Abs(raw);
    var integer := ShiftDown(magnitude);
    var fraction := magnitude % ONE * 152_587_890_625;
    var places := 16;
    text := Numeral(integer);
    ghost var d := Decimal(raw < 0, text, false, "");
    FiveToSixteen(magnitude % ONE);
    if fraction != 0 {
      fraction, places := StripZeros(magnitude % ONE, fraction, places);
      PaddedDenotes(fraction, places);
      var digits := Padded(fraction, places);
      d := Decimal(raw < 0, text, true, digits);
      text := text + "." + digits;
    }
    DisplayedIsCanonical(d, raw);
    if raw < 0 {
      text := "-" + text;
    }
    assert text == Joined(d);
    CanonicalText(d, raw);
  }

  /** Drops the trailing zeros of `fraction / 10^places` without changing what it denotes. */
  method StripZeros(ghost e: nat, fraction0: nat, places0: nat) returns (fraction: nat, places: nat)
    requires 0 < fraction0 && e < ONE && fraction0 * ONE == e * Pow(10, places0)
    ensures fraction % 10 != 0 && fraction * ONE == e * Pow(10, places)
    ensures 1 <= places <= places0 && fraction < Pow(10, places)
  {
    fraction, places := fraction0, places0;
    while fraction % 10 == 0
      invariant fraction > 0 && places <= places0
      invariant fraction * ONE == e * Pow(10, places)
      decreases fraction
    {
      PlaceRemains(e, fraction, places);
      fraction := fraction / 10;
      places := places - 1;
    }
    PlaceRemains(e, fraction, places);
  }

  lemma CanonicalText(d: Decimal, raw: i32)
    requires Canonical(d, raw)
    ensures Parse(Joined(d)) == Some(raw)
    ensures forall s :: Parse(s) == Some(raw) ==> |Joined(d)| <= |s| && (|s| == |Joined(d)| ==> s == Joined(d))
  {
    CutJoined(d);
    ParseIsExact(Joined(d), raw);
    forall s | Parse(s) == Some(raw) ensures |Joined(d)| <= |s| && (|s| == |Joined(d)| ==> s == Joined(d)) {
      CanonicalIsShortest(d, raw, s);
    }
  }

  lemma FiveToSixteen(e: nat)
    ensures e * 152_587_890_625 * ONE == e * Pow(10, 16)
  {
    assert Pow(10, 4) == 10000;
    PowAdd(10, 4, 4);
    PowAdd(10, 8, 8);
  }

  /** A nonzero remainder needs at least one place, and its digits fit the places left. */
  lemma PlaceRemains(e: nat, f: nat, p: nat)
    requires 0 < f && e < ONE && f * ONE == e * Pow(10, p)
    ensures p >= 1 && f < Pow(10, p)
    ensures f % 10 == 0 ==> f / 10 * ONE == e * Pow(10, p - 1)
  {
    assert (ONE - e) * Pow(10, p) > 0;
    assert f * ONE < Pow(10, p) * ONE;
    assert p >= 1;
    assert e * Pow(10, p) == 10 * (e * Pow(10, p - 1));
  }

  lemma DisplayedIsCanonical(d: Decimal, raw: i32)
    requires Grammatical(d) && d.negative == (raw < 0) && d.whole == Numeral(Abs(raw) / ONE)
    requires ValueOf(d.fraction) * ONE == Abs(raw) % ONE * Pow(10, |d.fraction|)
    requires d.point ==> ValueOf(d.fraction) % 10 != 0
    ensures Canonical(d, raw)
  {
    var w := Abs(raw) / ONE;
    NumeralDenotes(w);
    assert Abs(raw) - w * ONE == Abs(raw) % ONE;
    WholeSplitsOff(Abs(raw), w, ValueOf(d.fraction), Pow(10, |d.fraction|));
  }
}
