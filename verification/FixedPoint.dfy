/** Signed 16.16 fixed-point arithmetic on raw `i32` values. A raw value `x` denotes the
    number `x / 65536`; wide intermediates are unbounded integers here because scaled
    `i32` operands never leave the 64-bit range. */
module FixedPoint {
  import opened Numbers
  import opened Options

  const ONE: int := 0x1_0000

  /** `>> 16` on a signed value, which rounds toward negative infinity. */
  function ShiftDown(x: int): int {
    x / ONE
  }

  function FromInt(v: i32): i32 {
    Clamp(v * ONE)
  }

  function Floor(x: i32): i32 {
    FromInt(ShiftDown(x))
  }

  function Ceil(x: i32): i32 {
    Clamp(ShiftDown(x + 65535) * ONE)
  }

  function Signum(x: int): int {
    if x < 0 then -1 else if x == 0 then 0 else 1
  }

  function Round(x: i32): i32 {
    Clamp(ShiftDown(Abs(x) + 32768) * ONE * Signum(x))
  }

  function DivRaw(n: i32, d: i32): int
    requires d != 0
  {
    FlooredQuotient(n * ONE, d)
  }

  function Checked(raw: int): Option<i32> {
    if FitsI32(raw) then Some(raw) else None
  }

  function SaturatingAdd(a: i32, b: i32): i32 { Clamp(a + b) }

  function SaturatingSub(a: i32, b: i32): i32 { Clamp(a - b) }

  function SaturatingMul(a: i32, b: i32): i32 { Clamp(ShiftDown(a * b)) }

  function SaturatingDiv(n: i32, d: i32): i32 {
    if d == 0 then
      if n < 0 then I32_MIN else if n == 0 then 0 else I32_MAX
    else
      Clamp(DivRaw(n, d))
  }

  function CheckedMul(a: i32, b: i32): Option<i32> { Checked(ShiftDown(a * b)) }

  function CheckedDiv(n: i32, d: i32): Option<i32> {
    if d == 0 then None else Checked(DivRaw(n, d))
  }

  /** Multiplication floors the exact product; the checked form succeeds exactly when that
      floor is representable, and the saturating form is the closest representable value. */
  lemma MultiplicationFloors(a: i32, b: i32, q: int)
    requires IsFloor(q, a * b, ONE)
    ensures CheckedMul(a, b) == (if FitsI32(q) then Some(q) else None)
    ensures SaturatingMul(a, b) == Clamp(q)
  {
    assert IsFloor(ShiftDown(a * b), a * b, ONE);
    FloorIsUnique(q, ShiftDown(a * b), a * b, ONE);
  }

  /** Division floors the exact scaled quotient whatever the signs of its operands. */
  lemma DivisionFloors(n: i32, d: i32, q: int)
    requires d != 0 && IsFloor(q, n * ONE, d)
    ensures CheckedDiv(n, d) == (if FitsI32(q) then Some(q) else None)
    ensures SaturatingDiv(n, d) == Clamp(q)
  {
    FlooredQuotientIsFloor(n * ONE, d);
    FloorIsUnique(q, DivRaw(n, d), n * ONE, d);
  }

  /** A zero divisor saturates as every large enough multiple of the numerator does. */
  lemma ZeroDivisorSaturates(n: i32, k: int)
    requires k > I32_MAX
    ensures SaturatingDiv(n, 0) == Clamp(n * k) && CheckedDiv(n, 0) == None
  {
    if n > 0 {
      assert n * k >= k;
    } else if n < 0 {
      assert n * k <= -k;
    }
  }

  ghost predicate WholeNumber(x: int) {
    x % ONE == 0
  }

  /** Rounding gives the nearest whole number, halves away from zero, except within half a
      unit of the top of the range, where it saturates to a value that is not whole. */
  lemma RoundIsNearest(x: i32)
    ensures x < 0x7FFF_8000 <==> WholeNumber(Round(x))
    ensures x < 0x7FFF_8000 ==> 2 * Abs(x - Round(x)) <= ONE
    ensures x < 0x7FFF_8000 && 2 * Abs(x - Round(x)) == ONE ==> Abs(Round(x)) > Abs(x)
    ensures x >= 0x7FFF_8000 ==> Round(x) == I32_MAX
  {
    RoundMagnitude(Abs(x));
    var w := ShiftDown(Abs(x) + 32768) * ONE;
    assert w * Signum(x) == if x < 0 then -w else w;
  }

  lemma RoundMagnitude(a: nat)
    ensures var w := ShiftDown(a + 32768) * ONE;
      w <= a + 32768 < w + ONE && WholeNumber(w) && WholeNumber(-w) && (a == 0 ==> w == 0)
  {
  }

  /** Floor is the greatest whole number not above the argument, throughout the range. */
  lemma FloorIsGreatestWhole(x: i32, w: int)
    requires WholeNumber(w) && w <= x
    ensures WholeNumber(Floor(x)) && w <= Floor(x) <= x
  {
    var f := ShiftDown(x);
    assert f * ONE <= x < f * ONE + ONE;
    assert w == w / ONE * ONE;
  }

  /** Ceiling is the least whole number not below the argument, except above 32767, where it
      saturates to a value that is not whole. */
  lemma CeilIsLeastWhole(x: i32, w: int)
    requires WholeNumber(w) && x <= w
    ensures x <= 0x7FFF_0000 <==> WholeNumber(Ceil(x))
    ensures x <= Ceil(x) <= w
    ensures x > 0x7FFF_0000 ==> Ceil(x) == I32_MAX
  {
    var m := ShiftDown(x + 65535);
    assert m * ONE <= x + 65535 < m * ONE + ONE;
    assert w == w / ONE * ONE;
  }

  // Integer arithmetic of derived stats saturates the same way over `i64` intermediates.

  function IntDivide(a: i32, b: i32): Option<i32> {
    if b == 0 then None
    else if a == I32_MIN && b == -1 then Some(I32_MAX)
    else
      QuotientFits(a, b);
      if TruncRem(a, b) != 0 && (a < 0) != (b < 0) then Some(TruncDiv(a, b) - 1) else Some(TruncDiv(a, b))
  }

  /** Apart from `MIN / -1` neither the truncated nor the floored quotient overflows. */
  lemma QuotientFits(a: i32, b: i32)
    requires b != 0 && !(a == I32_MIN && b == -1)
    ensures FitsI32(TruncDiv(a, b)) && FitsI32(FlooredQuotient(a, b))
  {
    if b == 1 || b == -1 {
      assert TruncDiv(a, b) == a * b && TruncRem(a, b) == 0;
    } else {
      QuotientHalves(Abs(a), Abs(b));
    }
  }

  lemma QuotientHalves(n: nat, m: int)
    requires m >= 2
    ensures 0 <= 2 * (n / m) <= n
  {
    DivisionBounds(n, m);
    assert n / m * 2 <= n / m * m;
  }

  /** Integer division floors and saturates, and fails exactly on a zero divisor. */
  lemma IntDivideFloors(a: i32, b: i32, q: int)
    requires b != 0 ==> IsFloor(q, a, b)
    ensures IntDivide(a, b) == (if b == 0 then None else Some(Clamp(q)))
  {
    if b != 0 {
      FlooredQuotientIsFloor(a, b);
      FloorIsUnique(q, FlooredQuotient(a, b), a, b);
    }
  }
}
