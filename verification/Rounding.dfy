/** The rounding macros of libavutil, over ideal integers: RSHIFT, ROUNDED_DIV, AV_CEIL_RSHIFT,
    FFUDIV and FFUMOD. */
module Rounding {
  import opened Bits

  /** C's `/`, which truncates toward zero. */
  function TruncDiv(a: int, b: int): int
    requires b > 0
  {
    if a >= 0 then a / b else -(-a / b)
  }

  function RShift(a: int, b: nat): int {
    if a > 0 then Shr(a + Shr(Shl(1, b), 1), b) else Shr(a + Shr(Shl(1, b), 1) - 1, b)
  }

  function RoundedDiv(a: int, b: int): int
    requires b > 0
  {
    TruncDiv(if a > 0 then a + Shr(b, 1) else a - Shr(b, 1), b)
  }

  /** AV_CEIL_RSHIFT when b is not a compile-time constant, and when it is. */
  function CeilRShiftVariable(a: int, b: nat): int { -Shr(-a, b) }
  function CeilRShiftConstant(a: int, b: nat): int { Shr(a + Shl(1, b) - 1, b) }

  function FfUdiv(a: int, b: int): int
    requires b > 0
  {
    TruncDiv(if a > 0 then a else a - b + 1, b)
  }

  function FfUmod(a: int, b: int): int
    requires b > 0
  {
    a - b * FfUdiv(a, b)
  }

  /** p = b * q is the multiple of b nearest to a; of two equally near ones, the one further from 0. */
  predicate IsNearest(a: int, b: int, p: int) {
    && -b <= 2 * (a - p) <= b
    && (2 * (a - p) == b ==> p < 0 && a <= 0)
    && (2 * (a - p) == -b ==> p > 0 && a > 0)
  }

  lemma NearestUnique(a: int, b: int, q: int, q': int)
    requires b > 0 && IsNearest(a, b, b * q) && IsNearest(a, b, b * q')
    ensures q == q'
  {
    if q < q' { MulGap(b, q, q'); }
    if q' < q { MulGap(b, q', q); }
  }

  /** The product of a divisor and a truncated quotient, next to the dividend. */
  lemma TruncDivProduct(a: int, b: int)
    requires b > 0
    ensures a >= 0 ==> b * TruncDiv(a, b) <= a < b * TruncDiv(a, b) + b
    ensures a < 0 ==> b * TruncDiv(a, b) - b < a <= b * TruncDiv(a, b)
  {
    if a >= 0 {
      assert a == b * (a / b) + a % b;
    } else {
      assert -a == b * (-a / b) + -a % b;
      assert b * -(-a / b) == -(b * (-a / b));
    }
  }

  lemma ShrProduct(a: int, n: nat)
    ensures Pow2(n) * Shr(a, n) <= a < Pow2(n) * Shr(a, n) + Pow2(n)
  {
    hide *;
    ShrLowMul(a, n);
  }

  /** ROUNDED_DIV rounds to nearest, ties away from zero, for every positive divisor. */
  lemma RoundedDivIsNearest(a: int, b: int)
    requires b > 0
    ensures IsNearest(a, b, b * RoundedDiv(a, b))
  {
    hide Shr, TruncDiv;
    ShrSmall(b);
    var h := b / 2;
    TruncDivProduct(if a > 0 then a + h else a - h, b);
  }

  lemma HalfBit(b: nat)
    requires b >= 1
    ensures Shr(Shl(1, b), 1) == Pow2(b - 1) && Pow2(b) == 2 * Pow2(b - 1)
  {
    hide Shl;
    ShlOne(b);
    ShrSmall(Pow2(b));
  }

  lemma RShiftIsNearest(a: int, b: nat)
    requires b >= 1
    ensures IsNearest(a, Pow2(b), Pow2(b) * RShift(a, b))
  {
    hide Shr, Shl, Pow2;
    HalfBit(b);
    ShrProduct(if a > 0 then a + Pow2(b - 1) else a + Pow2(b - 1) - 1, b);
  }

  /** RSHIFT is ROUNDED_DIV by a power of two, except when shifting a non-positive number by zero:
      there it is one too small. */
  lemma RShiftIsRoundedDiv(a: int, b: nat)
    ensures RShift(a, b) == RoundedDiv(a, Pow2(b)) <==> b >= 1 || a > 0
  {
    if b >= 1 {
      hide *;
      RShiftIsNearest(a, b);
      RoundedDivIsNearest(a, Pow2(b));
      NearestUnique(a, Pow2(b), RShift(a, b), RoundedDiv(a, Pow2(b)));
    } else {
      assert Shl(1, 0) == 1 && Shr(1, 1) == 0;
      TruncByOne(a);
    }
  }

  /** Shifting by zero leaves a positive number alone and takes one from any other. */
  lemma RShiftByZero(a: int)
    ensures RShift(a, 0) == if a > 0 then a else a - 1
  {
    assert Shl(1, 0) == 1 && Shr(1, 1) == 0;
  }

  lemma TruncByOne(a: int)
    ensures TruncDiv(a, 1) == a
  {
  }

  /** Both arms of AV_CEIL_RSHIFT give the ceiling. */
  lemma CeilRShiftIsCeiling(a: int, b: nat)
    ensures CeilRShiftVariable(a, b) == CeilRShiftConstant(a, b)
    ensures var p := Pow2(b) * CeilRShiftConstant(a, b); a <= p < a + Pow2(b)
  {
    hide Shr, Shl, Pow2;
    ShlOne(b);
    ShrProduct(-a, b);
    ShrProduct(a + Pow2(b) - 1, b);
    var q, q', d := CeilRShiftVariable(a, b), CeilRShiftConstant(a, b), Pow2(b);
    assert d * -q == -(d * q);
    if q < q' { MulGap(d, q, q'); }
    if q' < q { MulGap(d, q', q); }
  }

  /** FFUDIV rounds down, so FFUMOD is never negative. */
  lemma FfUdivIsFloor(a: int, b: int)
    requires b > 0
    ensures 0 <= FfUmod(a, b) < b && a == b * FfUdiv(a, b) + FfUmod(a, b)
    ensures FfUdiv(a, b) == a / b && FfUmod(a, b) == a % b
  {
    TruncDivProduct(if a > 0 then a else a - b + 1, b);
    hide TruncDiv;
    DivModUnique(a, b, FfUdiv(a, b), FfUmod(a, b));
  }
}
