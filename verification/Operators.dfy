/** What the binary operators compute, against exact arithmetic on the numbers denoted. */
module Operators {
  import opened Evaluation
  import opened Expressions
  import opened FixedPoint
  import opened Numbers
  import opened Options

  ghost predicate SameNumericKind(a: Value, b: Value) {
    (a.IntValue? && b.IntValue?) || (a.FixedValue? && b.FixedValue?)
  }

  /** The stored integer, and how many of it make one. */
  ghost function Stored(v: Value): i32
    requires v.IntValue? || v.FixedValue?
  {
    if v.IntValue? then v.number else v.raw
  }

  ghost function Scale(v: Value): int
    requires v.IntValue? || v.FixedValue?
  {
    if v.IntValue? then 1 else ONE
  }

  ghost function Denoted(stored: int, scale: int): real
    requires scale > 0
  {
    stored as real / scale as real
  }

  /** The operator on real numbers. */
  ghost function Exact(op: BinaryOp, x: real, y: real): real
    requires op == Divide ==> y != 0.0
  {
    match op
    case Add => x + y
    case Subtract => x - y
    case Multiply => x * y
    case Divide => x / y
    case Min => if x <= y then x else y
    case Max => if x <= y then y else x
  }

  lemma ScaledLe(y: int, s: int, n: int, d: int)
    requires s > 0 && d > 0
    ensures y as real / s as real <= n as real / d as real <==> y * d <= n * s
  {
    var u, v := y as real / s as real, n as real / d as real;
    var sr, dr := s as real, d as real;
    assert u * sr == y as real && v * dr == n as real;
    assert (y * d) as real == (u * sr) * dr && (n * s) as real == (v * dr) * sr;
    assert (u * sr) * dr == u * (sr * dr) && (v * dr) * sr == v * (sr * dr);
    assert sr * dr > 0.0;
  }

  lemma ProductFraction(a: int, b: int, s: int)
    requires s > 0
    ensures s * s > 0 && Denoted(a, s) * Denoted(b, s) == (a * b) as real / (s * s) as real
  {
    var x, y, sr := Denoted(a, s), Denoted(b, s), s as real;
    assert x * sr == a as real && y * sr == b as real;
    assert (a * b) as real == (x * sr) * (y * sr) == (x * y) * (sr * sr);
    assert (s * s) as real == sr * sr;
    assert sr * sr > 0.0;
  }

  lemma QuotientFraction(a: int, b: int, s: int)
    requires s > 0 && b != 0
    ensures Denoted(b, s) != 0.0
    ensures Denoted(a, s) / Denoted(b, s) == (if b > 0 then a else -a) as real / Abs(b) as real
  {
    var x, y, sr := Denoted(a, s), Denoted(b, s), s as real;
    assert x * sr == a as real && y * sr == b as real;
    assert y != 0.0;
    var q := x / y;
    assert q * y == x;
    assert q * (b as real) == a as real;
  }

  lemma FloorBelow(y: int, q: int, n: int, d: int)
    requires d != 0 && IsFloor(q, n, d)
    ensures d > 0 ==> (y * d <= n <==> y <= q)
    ensures d < 0 ==> (y * d >= n <==> y <= q)
  {
    if y <= q {
      ScaledOrder(y, q, d);
    } else {
      ScaledOrder(q + 1, y, d);
      assert (q + 1) * d == q * d + d;
    }
  }

  lemma SumBelow(y: int, a: int, b: int, s: int)
    requires s > 0
    ensures Denoted(y, s) <= Denoted(a, s) + Denoted(b, s) <==> y <= a + b
    ensures Denoted(y, s) <= Denoted(a, s) - Denoted(b, s) <==> y <= a - b
    ensures Denoted(a, s) <= Denoted(b, s) <==> a <= b
  {
    var u, x, z, sr := Denoted(y, s), Denoted(a, s), Denoted(b, s), s as real;
    assert u * sr == y as real;
    assert x * sr == a as real;
    assert z * sr == b as real;
    hide Denoted;
    assert (x + z) * sr == (a + b) as real;
    assert (x - z) * sr == (a - b) as real;
    RealCompare(u, y, x + z, a + b, sr);
    RealCompare(u, y, x - z, a - b, sr);
    RealCompare(x, a, z, b, sr);
  }

  lemma RealCompare(u: real, n: int, v: real, m: int, s: real)
    requires s > 0.0 && u * s == n as real && v * s == m as real
    ensures u <= v <==> n <= m
  {
    assert (v - u) * s == (m - n) as real;
  }

  lemma ProductBelow(y: int, a: int, b: int, s: int, q: int)
    requires s > 0 && IsFloor(q, a * b, s)
    ensures Denoted(y, s) <= Denoted(a, s) * Denoted(b, s) <==> y <= q
  {
    ProductFraction(a, b, s);
    hide IsFloor;
    ScaledLe(y, s, a * b, s * s);
    FloorBelow(y, q, a * b, s);
    assert y * (s * s) == (y * s) * s;
    ScaledOrderOf(y * s, a * b, s);
  }

  lemma ScaledOrderOf(a: int, b: int, s: int)
    requires s > 0
    ensures a * s <= b * s <==> a <= b
  {
    if a <= b {
      ScaledOrder(a, b, s);
    } else {
      ScaledOrder(b + 1, a, s);
      assert (b + 1) * s == b * s + s;
    }
  }

  lemma QuotientBelow(y: int, a: int, b: int, s: int, q: int)
    requires s > 0 && b != 0 && IsFloor(q, a * s, b)
    ensures Denoted(b, s) != 0.0
    ensures Denoted(y, s) <= Denoted(a, s) / Denoted(b, s) <==> y <= q
  {
    QuotientFraction(a, b, s);
    ScaledLe(y, s, if b > 0 then a else -a, Abs(b));
    FloorBelow(y, q, a * s, b);
    assert y * -b == -(y * b) && -a * s == -(a * s);
  }

  /** `r` is the greatest number of its kind that is not above the exact result, or the least of
      the kind when all of them are above it; `y` ranges over the kind. */
  ghost predicate Nearest(r: i32, y: i32, exact: real, scale: int)
    requires scale > 0
  {
    && (Denoted(y, scale) <= exact ==> y <= r)
    && (Denoted(r, scale) <= exact || r == I32_MIN)
  }

  lemma IntOperator(op: BinaryOp, a: i32, b: i32, y: i32)
    requires op == Divide ==> b != 0
    ensures op == Divide ==> Denoted(b, 1) != 0.0
    ensures ApplyInt(op, a, b).Yields? && ApplyInt(op, a, b).value.IntValue?
    ensures Nearest(ApplyInt(op, a, b).value.number, y, Exact(op, Denoted(a, 1), Denoted(b, 1)), 1)
  {
    if op == Divide {
      var q := FlooredQuotient(a, b);
      FlooredQuotientIsFloor(a, b);
      IntDivideFloors(a, b, q);
      assert a * 1 == a;
      QuotientBelow(y, a, b, 1, q);
      QuotientBelow(Clamp(q), a, b, 1, q);
    } else {
      assert IsFloor(a * b, a * b, 1);
      ResultBelow(op, a, b, y, 1, a * b);
    }
  }

  lemma FixedOperator(op: BinaryOp, a: i32, b: i32, y: i32)
    requires op == Divide ==> b != 0
    ensures op == Divide ==> Denoted(b, ONE) != 0.0
    ensures ApplyFixed(op, a, b).Yields? && ApplyFixed(op, a, b).value.FixedValue?
    ensures Nearest(ApplyFixed(op, a, b).value.raw, y, Exact(op, Denoted(a, ONE), Denoted(b, ONE)), ONE)
  {
    if op == Divide {
      var q := FlooredQuotient(a * ONE, b);
      FlooredQuotientIsFloor(a * ONE, b);
      QuotientBelow(y, a, b, ONE, q);
      QuotientBelow(Clamp(q), a, b, ONE, q);
    } else {
      var q := ShiftDown(a * b);
      assert IsFloor(q, a * b, ONE);
      ResultBelow(op, a, b, y, ONE, q);
    }
  }

  /** The clamped result of an operator other than division, given the floored product. */
  ghost function Clamped(op: BinaryOp, a: i32, b: i32, product: int): i32 {
    match op
    case Add => Clamp(a + b)
    case Subtract => Clamp(a - b)
    case Min => if a <= b then a else b
    case Max => if a >= b then a else b
    case _ => Clamp(product)
  }

  lemma ResultBelow(op: BinaryOp, a: i32, b: i32, y: i32, s: int, product: int)
    requires op != Divide && s > 0 && IsFloor(product, a * b, s)
    ensures Nearest(Clamped(op, a, b, product), y, Exact(op, Denoted(a, s), Denoted(b, s)), s)
  {
    var r := Clamped(op, a, b, product);
    hide Denoted, IsFloor;
    SumBelow(y, a, b, s);
    SumBelow(r, a, b, s);
    SumBelow(0, y, a, s);
    SumBelow(0, y, b, s);
    ProductBelow(y, a, b, s, product);
    ProductBelow(r, a, b, s, product);
  }

  /** Every operator divides by zero exactly when it is a division by a zero, and otherwise gives
      the exact result rounded down to its kind and held within its range. */
  lemma OperatorsRoundDown(op: BinaryOp, a: Value, b: Value, y: i32)
    requires SameNumericKind(a, b)
    ensures Apply(op, a, b) == DivisionByZero <==> op == Divide && Stored(b) == 0
    ensures op == Divide && Stored(b) != 0 ==> Denoted(Stored(b), Scale(b)) != 0.0
    ensures !(op == Divide && Stored(b) == 0) ==>
              && Apply(op, a, b).Yields? && SameNumericKind(Apply(op, a, b).value, a)
              && Nearest(Stored(Apply(op, a, b).value), y,
                         Exact(op, Denoted(Stored(a), Scale(a)), Denoted(Stored(b), Scale(b))), Scale(a))
  {
    hide Exact, Denoted, Nearest;
    if op == Divide && Stored(b) == 0 {
    } else if a.IntValue? {
      IntOperator(op, Stored(a), Stored(b), y);
    } else {
      FixedOperator(op, Stored(a), Stored(b), y);
    }
  }
}
