/** Bounded draws: rejection sampling over 32-bit words, and the signed range built on it. */
module RejectionSampling {
  import opened Numbers
  import opened Options

  const WORDS: int := 0x1_0000_0000

  /** Draws below this are redrawn: the negated bound, reduced by the bound. */
  function Threshold(bound: u32): u32
    requires bound != 0
  {
    (WORDS - bound) % WORDS % bound
  }

  /** What one draw contributes: a value below the bound, or a redraw. */
  function Sample(bound: u32, draw: u32): Option<u32>
    requires bound != 0
  {
    if draw >= Threshold(bound) then Some(draw % bound) else None
  }

  /** The draws that yield a given value. */
  ghost function DrawsFor(bound: u32, value: int): set<int>
    requires bound != 0
  {
    set draw: int | 0 <= draw < WORDS && Sample(bound, draw) == Some(value)
  }

  // --- Exact counting ------------------------------------------------------------------

  lemma {:induction false} OneResiduePerBlock(lo: int, b: int, r: int) returns (v: int)
    requires b > 0 && 0 <= r < b
    ensures lo <= v < lo + b && v % b == r
    ensures forall w :: lo <= w < lo + b && w % b == r ==> w == v
  {
    var q, s := lo / b, lo % b;
    assert lo == b * q + s;
    v := if r >= s then b * q + r else b * q + b + r;
    Residue(b, q, r);
    Residue(b, q + 1, r);
    assert b * (q + 1) == b * q + b;
    forall w | lo <= w < lo + b && w % b == r ensures w == v {
      SameResidue(b, w, v, r);
    }
  }

  lemma Residue(b: int, q: int, r: int)
    requires b > 0 && 0 <= r < b
    ensures (b * q + r) % b == r
  {
    var n := b * q + r;
    assert n == b * (n / b) + n % b;
    assert b * (q - n / b) == n % b - r;
    Multiple(b, q - n / b);
  }

  lemma Multiple(b: int, k: int)
    requires b > 0
    ensures -b < b * k < b ==> k == 0
  {
    if k >= 1 { ScaledOrder(1, k, b); }
    if k <= -1 { ScaledOrder(k, -1, b); }
  }

  lemma SameResidue(b: int, w: int, v: int, r: int)
    requires b > 0 && w % b == r && v % b == r && -b < w - v < b
    ensures w == v
  {
    assert w == b * (w / b) + r && v == b * (v / b) + r;
    assert w - v == b * (w / b - v / b);
    Multiple(b, w / b - v / b);
  }

  ghost function Residues(lo: int, hi: int, b: int, r: int): set<int>
    requires b > 0
  {
    set v: int | lo <= v < hi && v % b == r
  }

  lemma {:induction false} BlocksShareEvenly(lo: int, q: nat, b: int, r: int)
    requires b > 0 && 0 <= r < b
    ensures |Residues(lo, lo + q * b, b, r)| == q
    decreases q
  {
    if q == 0 {
      assert Residues(lo, lo + q * b, b, r) == {};
    } else {
      var mid := lo + (q - 1) * b;
      assert lo + q * b == mid + b;
      assert mid >= lo by { ScaledOrder(0, q - 1, b); }
      BlocksShareEvenly(lo, q - 1, b, r);
      OneBlockMore(lo, mid, b, r);
    }
  }

  lemma OneBlockMore(lo: int, mid: int, b: int, r: int)
    requires b > 0 && 0 <= r < b && lo <= mid
    ensures |Residues(lo, mid + b, b, r)| == |Residues(lo, mid, b, r)| + 1
  {
    var v := OneResiduePerBlock(mid, b, r);
    var some, more := Residues(lo, mid, b, r), Residues(lo, mid + b, b, r);
    assert forall x :: x in more <==> x in some || x == v;
    assert v !in some;
    assert more == some + {v};
  }

  lemma ThresholdIsRemainder(bound: u32)
    requires bound != 0
    ensures WORDS - Threshold(bound) == WORDS / bound * bound
    ensures Threshold(bound) == WORDS % bound
  {
    var q, r := WORDS / bound, WORDS % bound;
    assert WORDS == bound * q + r;
    assert WORDS - bound == bound * (q - 1) + r;
    Residue(bound, q - 1, r);
  }

  /** Rejection sampling is exactly unbiased: every value below the bound is reached by the same
      number of draws, and no other value is reached. */
  lemma DrawsAreUniform(bound: u32, value: int)
    requires bound != 0
    ensures |DrawsFor(bound, value)| == if 0 <= value < bound then WORDS / bound else 0
  {
    ThresholdIsRemainder(bound);
    if 0 <= value < bound {
      BlocksShareEvenly(Threshold(bound), WORDS / bound, bound, value);
      assert DrawsFor(bound, value) == Residues(Threshold(bound), WORDS, bound, value);
    } else {
      assert DrawsFor(bound, value) == {};
    }
  }

  /** Redraws until a draw is accepted. The given words are what the generator would produce; with
      none left the draw is still pending. */
  method GenRangeU32(words: seq<u32>, bound: u32) returns (value: Option<u32>, used: nat)
    requires bound != 0
    ensures used <= |words|
    ensures value.Some? ==> used > 0 && value == Sample(bound, words[used - 1]) && value.value < bound
    ensures forall i :: 0 <= i < (if value.Some? then used - 1 else |words|) ==> Sample(bound, words[i]) == None
  {
    var threshold := Threshold(bound);
    used := 0;
    while used < |words|
      invariant used <= |words|
      invariant forall i :: 0 <= i < used ==> Sample(bound, words[i]) == None
    {
      var draw := words[used];
      used := used + 1;
      if draw >= threshold {
        return Some(draw % bound), used;
      }
    }
    value := None;
  }

  // --- The signed range ----------------------------------------------------------------

  /** Reinterprets a signed word as unsigned. */
  function AsU32(x: i32): u32 {
    if x < 0 then x + WORDS else x
  }

  function AsI32(x: u32): i32 {
    if x >= 0x8000_0000 then x - WORDS else x
  }

  /** Flips the top bit of a word. */
  function FlipTop(x: u32): u32 {
    (x + 0x8000_0000) % WORDS
  }

  lemma SetTop(x: bv32)
    requires x < 0x8000_0000
    ensures (x + 0x8000_0000) as int == x as int + 0x8000_0000 < WORDS
  {
  }

  lemma FlipTwice(x: bv32)
    ensures (x ^ 0x8000_0000) ^ 0x8000_0000 == x
    ensures x < 0x8000_0000 ==> x ^ 0x8000_0000 == x + 0x8000_0000
    ensures x >= 0x8000_0000 ==> x ^ 0x8000_0000 < 0x8000_0000
  {
  }

  lemma LowWord(x: bv32)
    ensures x as int < WORDS
  {
  }

  /** On the 32-bit words of the source, flipping the top bit is the exclusive or. */
  lemma FlipIsXor(x: bv32)
    ensures x as int < WORDS && (x ^ 0x8000_0000) as int == FlipTop(x as int)
  {
    var y := x ^ 0x8000_0000;
    FlipTwice(x);
    FlipTwice(y);
    LowWord(x);
    LowWord(y);
    if x < 0x8000_0000 {
      SetTop(x);
      WrapsUp(x as int, y as int);
    } else {
      SetTop(y);
      WrapsDown(x as int, y as int);
    }
  }

  lemma WrapsUp(x: int, y: int)
    requires 0 <= x && y == x + 0x8000_0000 < WORDS
    ensures FlipTop(x) == y
  {
  }

  lemma WrapsDown(x: int, y: int)
    requires 0 <= y && x == y + 0x8000_0000 < WORDS
    ensures FlipTop(x) == y
  {
  }

  function Span(lo: i32, hi: i32): int {
    FlipTop(AsU32(hi)) - FlipTop(AsU32(lo)) + 1
  }

  /** The value an offset from `lo` stands for; the sum must not leave the word. */
  function FromOffset(lo: i32, offset: u32): i32
    requires FlipTop(AsU32(lo)) + offset < WORDS
  {
    AsI32(FlipTop(FlipTop(AsU32(lo)) + offset))
  }

  /** Offsets below the span map one to one, in order, onto the inclusive range, without overflow,
      up to and including the full span of all words. */
  lemma OffsetsCoverRange(lo: i32, hi: i32, offset: u32)
    requires lo <= hi
    ensures Span(lo, hi) == hi - lo + 1 && 1 <= Span(lo, hi) <= WORDS
    ensures offset < Span(lo, hi) ==> FlipTop(AsU32(lo)) + offset < WORDS && FromOffset(lo, offset) == lo + offset <= hi
  {
    assert FlipTop(AsU32(lo)) == lo + 0x8000_0000 && FlipTop(AsU32(hi)) == hi + 0x8000_0000;
  }

  /** The result of one draw over `[lo, hi]`, when it is not redrawn. */
  function SampleI32(lo: i32, hi: i32, draw: u32): Option<i32>
    requires lo < hi
  {
    OffsetsCoverRange(lo, hi, 0);
    var offset := if Span(lo, hi) == WORDS then Some(draw) else Sample(Span(lo, hi), draw);
    if offset.None? then None
    else
      assert offset.value < Span(lo, hi);
      OffsetsCoverRange(lo, hi, offset.value);
      Some(FromOffset(lo, offset.value))
  }

  /** Every value of the inclusive range is reached by the same number of draws. */
  lemma SignedDrawsAreUniform(lo: i32, hi: i32, x: i32)
    requires lo < hi
    ensures |set draw: int | 0 <= draw < WORDS && SampleI32(lo, hi, draw) == Some(x)| ==
            if lo <= x <= hi then WORDS / (hi - lo + 1) else 0
  {
    OffsetsCoverRange(lo, hi, 0);
    var span := Span(lo, hi);
    var draws := set draw: int | 0 <= draw < WORDS && SampleI32(lo, hi, draw) == Some(x);
    if span == WORDS {
      forall draw | 0 <= draw < WORDS ensures SampleI32(lo, hi, draw) == Some(lo + draw) {
        OffsetsCoverRange(lo, hi, draw);
      }
      assert draws == {x - lo};
    } else {
      forall draw | 0 <= draw < WORDS
        ensures SampleI32(lo, hi, draw) == Some(x) <==> Sample(span, draw) == Some(x - lo)
      {
        var offset := Sample(span, draw);
        if offset.Some? { OffsetsCoverRange(lo, hi, offset.value); }
      }
      assert draws == DrawsFor(span, x - lo);
      DrawsAreUniform(span, x - lo);
    }
  }

  /** Draws from `[lo, hi]`; an empty or one-value range returns `lo` without drawing. */
  method GenRangeI32(words: seq<u32>, lo: i32, hi: i32) returns (value: Option<i32>, used: nat)
    ensures lo >= hi ==> value == Some(lo) && used == 0
    ensures used <= |words|
    ensures lo < hi && value.Some? ==>
              used > 0 && value == SampleI32(lo, hi, words[used - 1]) && lo <= value.value <= hi
    ensures lo < hi ==> forall i :: 0 <= i < (if value.Some? then used - 1 else |words|) ==>
              SampleI32(lo, hi, words[i]) == None
  {
    if lo >= hi {
      return Some(lo), 0;
    }
    var span := Span(lo, hi);
    OffsetsCoverRange(lo, hi, 0);
    var offset: Option<u32>;
    if span == WORDS {
      if words == [] {
        return None, 0;
      }
      offset, used := Some(words[0]), 1;
    } else {
      offset, used := GenRangeU32(words, span);
      if offset.None? {
        return None, used;
      }
    }
    OffsetsCoverRange(lo, hi, offset.value);
    return Some(FromOffset(lo, offset.value)), used;
  }

  // --- Which value a word gives --------------------------------------------------------

  /** Only the lowest words are rejected, fewer than the bound of them, and an accepted word gives
      its remainder. */
  lemma SampleIsRemainder(bound: u32, draw: u32)
    requires bound != 0
    ensures Sample(bound, draw) == if draw < WORDS % bound then None else Some(draw % bound)
  {
    ThresholdIsRemainder(bound);
  }

  /** An accepted word gives `lo` plus its remainder by the size of the range. */
  lemma SignedSampleIsOffset(lo: i32, hi: i32, draw: u32)
    requires lo < hi
    ensures SampleI32(lo, hi, draw) ==
            if draw < WORDS % (hi - lo + 1) then None else Some(lo + draw % (hi - lo + 1))
  {
    var span := hi - lo + 1;
    OffsetsCoverRange(lo, hi, 0);
    OffsetsCoverRange(lo, hi, draw % span);
    hide Span, FromOffset;
    if span < WORDS {
      SampleIsRemainder(span, draw);
      hide Sample;
    } else {
      assert draw % span == draw && WORDS % span == 0;
    }
  }
}
