/** Machine integers: the `i32` range, saturation into it, and Rust's truncating
    division together with the flooring quotient the engine builds from it. */
module Numbers {

  const I32_MIN: int := -0x8000_0000
  const I32_MAX: int := 0x7FFF_FFFF

  type i32 = x: int | I32_MIN <= x <= I32_MAX

  type u32 = x: int | 0 <= x <= 0xFFFF_FFFF

  predicate FitsI32(x: int) {
    I32_MIN <= x <= I32_MAX
  }

  function Clamp(x: int): (r: i32)
  {
    if x < I32_MIN then I32_MIN else if x > I32_MAX then I32_MAX else x
  }

  function Abs(x: int): nat {
    if x < 0 then -x else x
  }

  /** Saturation changes nothing in range and otherwise picks the closest bound. */
  lemma ClampIsNearest(x: int, y: i32)
    ensures FitsI32(x) ==> Clamp(x) == x
    ensures Abs(x - Clamp(x)) <= Abs(x - y)
    ensures Abs(x - Clamp(x)) == Abs(x - y) ==> y == Clamp(x)
  {
  }

  /** Rust's `/`: rounds toward zero. */
  function TruncDiv(n: int, d: int): int
    requires d != 0
  {
    var q := Abs(n) / Abs(d);
    if (n < 0) == (d < 0) then q else -q
  }

  /** Rust's `%`: takes the sign of the dividend. */
  function TruncRem(n: int, d: int): int
    requires d != 0
  {
    n - d * TruncDiv(n, d)
  }

  /** The correction both `div_raw` and `int_divide` apply to a truncated quotient. */
  function FlooredQuotient(n: int, d: int): int
    requires d != 0
  {
    if TruncRem(n, d) != 0 && (n < 0) != (d < 0) then TruncDiv(n, d) - 1 else TruncDiv(n, d)
  }

  /** `q` is the greatest integer not above the exact quotient `n / d`: what it leaves over is
      smaller than the divisor and has its sign. */
  ghost predicate IsFloor(q: int, n: int, d: int)
    requires d != 0
  {
    var r := n - q * d;
    if d > 0 then 0 <= r < d else d < r <= 0
  }

  lemma FlooredQuotientIsFloor(n: int, d: int)
    requires d != 0
    ensures IsFloor(FlooredQuotient(n, d), n, d)
  {
    TruncLeavesLess(n, d);
    var q := TruncDiv(n, d);
    assert (q - 1) * d == q * d - d && d * q == q * d;
  }

  /** Truncation leaves less than one divisor over, on the dividend's side of zero. */
  lemma TruncLeavesLess(n: int, d: int)
    requires d != 0
    ensures var r := n - TruncDiv(n, d) * d; Abs(r) < Abs(d) && (if n < 0 then r <= 0 else r >= 0)
  {
    var m, t := Abs(d), Abs(n) / Abs(d);
    DivisionBounds(Abs(n), m);
    SignedProduct(t, d, n < 0);
  }

  lemma SignedProduct(t: int, d: int, negative: bool)
    ensures var q := if negative == (d < 0) then t else -t;
      q * d == if negative then -(t * Abs(d)) else t * Abs(d)
  {
  }

  lemma DivisionBounds(n: nat, m: int)
    requires m > 0
    ensures n / m * m <= n < n / m * m + m
  {
    assert n == m * (n / m) + n % m;
  }

  lemma FloorIsUnique(p: int, q: int, n: int, d: int)
    requires d != 0 && IsFloor(p, n, d) && IsFloor(q, n, d)
    ensures p == q
  {
    assert p * d - q * d == (p - q) * d;
    if p < q {
      ScaledOrder(p - q, -1, d);
    } else if q < p {
      ScaledOrder(1, p - q, d);
    }
  }

  lemma ScaledOrder(a: int, b: int, d: int)
    requires a <= b
    ensures d > 0 ==> a * d <= b * d
    ensures d < 0 ==> b * d <= a * d
  {
    if d > 0 {
      assert 0 <= (b - a) * d == b * d - a * d;
    } else if d < 0 {
      assert 0 <= (b - a) * -d == a * d - b * d;
    }
  }
}
