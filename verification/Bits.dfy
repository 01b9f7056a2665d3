/** Machine words as integers.

    C's bitwise operators are defined here bit by bit, and its shifts one bit at a time, so that
    the arithmetic meaning of a mask, a shift or an `|` is something that has to be proved.
    Wrap-around is always written out with `Low`. */
module Bits {

  type byte = x: int | 0 <= x < 0x100
  type u16 = x: int | 0 <= x < 0x1_0000
  type u32 = x: int | 0 <= x < 0x1_0000_0000
  type u64 = x: int | 0 <= x < 0x1_0000_0000_0000_0000
  type i32 = x: int | -0x8000_0000 <= x < 0x8000_0000
  type i64 = x: int | -0x8000_0000_0000_0000 <= x < 0x8000_0000_0000_0000

  function Pow2(n: nat): (r: int)
    ensures r >= 1
  {
    if n == 0 then 1 else 2 * Pow2(n - 1)
  }

  /** C's `x & y`. */
  function And(x: nat, y: nat): (r: nat)
    ensures r <= x && r <= y
  {
    if x == 0 || y == 0 then 0
    else (if x % 2 == 1 && y % 2 == 1 then 1 else 0) + 2 * And(x / 2, y / 2)
  }

  /** C's `x | y`. */
  function Or(x: nat, y: nat): (r: nat)
    ensures r >= x && r >= y
    decreases x + y
  {
    if x == 0 then y else if y == 0 then x
    else (if x % 2 == 1 || y % 2 == 1 then 1 else 0) + 2 * Or(x / 2, y / 2)
  }

  /** C's `x ^ y`. */
  function Xor(x: nat, y: nat): nat
    decreases x + y
  {
    if x == 0 then y else if y == 0 then x
    else (if x % 2 != y % 2 then 1 else 0) + 2 * Xor(x / 2, y / 2)
  }

  /** C's `x >> n`: on a negative operand this is the arithmetic shift, which rounds down. */
  function Shr(x: int, n: nat): (r: int)
    ensures x >= 0 ==> 0 <= r <= x
    decreases n
  {
    if n == 0 then x else Shr(x / 2, n - 1)
  }

  /** C's `x << n` before any reduction to the word size. */
  function Shl(x: int, n: nat): (r: int)
    ensures x >= 0 ==> r >= x
    decreases n
  {
    if n == 0 then x else 2 * Shl(x, n - 1)
  }

  /** The n lowest two's complement bits of x: C's conversion to an n-bit unsigned word. */
  function Low(x: int, n: nat): (r: nat)
    ensures r < Pow2(n)
    decreases n
  {
    if n == 0 then 0 else x % 2 + 2 * Low(x / 2, n - 1)
  }

  /** C's `~x` on a `width`-bit word: the complement of x is -1 - x. */
  function Not(width: nat, x: nat): nat { Low(-1 - x, width) }

  /** The two's complement reading of a `width`-bit word. */
  function Signed(width: nat, x: nat): int
    requires 0 < width
  {
    if x < Pow2(width - 1) then x else x - Pow2(width)
  }

  // Powers of two

  lemma {:induction false} Pow2Monotone(m: nat, n: nat)
    requires m <= n
    ensures Pow2(m) <= Pow2(n)
  {
    if m < n { Pow2Monotone(m, n - 1); }
  }

  lemma {:induction false} Pow2Strict(m: nat, n: nat)
    requires m < n
    ensures Pow2(m) < Pow2(n)
  {
    Pow2Monotone(m, n - 1);
  }

  lemma {:induction false} ShlPow2(m: nat, n: nat)
    ensures Shl(Pow2(m), n) == Pow2(m + n)
  {
    if n > 0 { ShlPow2(m, n - 1); }
  }

  lemma ShlOne(n: nat)
    ensures Shl(1, n) == Pow2(n)
  {
    ShlPow2(0, n);
  }

  lemma Pow2Mul(m: nat, n: nat)
    ensures Pow2(m + n) == Pow2(m) * Pow2(n)
  {
    ShlPow2(m, n);
    ShlMul(Pow2(m), n);
  }

  /** `Pow2` at the word sizes and bit positions the code uses. */
  lemma Pow2Values()
    ensures Pow2(0) == 1 && Pow2(1) == 2 && Pow2(2) == 4 && Pow2(3) == 8 && Pow2(4) == 16
    ensures Pow2(5) == 0x20 && Pow2(6) == 0x40 && Pow2(7) == 0x80 && Pow2(8) == 0x100
    ensures Pow2(10) == 0x400 && Pow2(11) == 0x800 && Pow2(12) == 0x1000 && Pow2(13) == 0x2000
    ensures Pow2(15) == 0x8000 && Pow2(16) == 0x1_0000 && Pow2(17) == 0x2_0000
    ensures Pow2(18) == 0x4_0000 && Pow2(21) == 0x20_0000 && Pow2(22) == 0x40_0000
    ensures Pow2(24) == 0x100_0000 && Pow2(26) == 0x400_0000 && Pow2(27) == 0x800_0000
    ensures Pow2(30) == 0x4000_0000 && Pow2(31) == 0x8000_0000 && Pow2(32) == 0x1_0000_0000
  {
  }

  lemma WordSizes()
    ensures Pow2(8) == 0x100 && Pow2(16) == 0x1_0000 && Pow2(32) == 0x1_0000_0000
  {
    Pow2Values();
  }

  lemma Pow2Wide()
    ensures Pow2(48) == 0x1_0000_0000_0000
    ensures Pow2(63) == 0x8000_0000_0000_0000 && Pow2(64) == 0x1_0000_0000_0000_0000
  {
    Pow2Values();
    Pow2Mul(24, 24); Pow2Mul(32, 31);
  }

  // Shifts and low bits as division

  /** A word is its high part, shifted back, plus its low part. */
  lemma {:induction false} ShrLow(x: int, n: nat)
    ensures x == Shl(Shr(x, n), n) + Low(x, n)
    decreases n
  {
    if n > 0 { ShrLow(x / 2, n - 1); }
  }

  lemma {:induction false} ShlSub(x: int, y: int, n: nat)
    ensures Shl(x - y, n) == Shl(x, n) - Shl(y, n)
  {
    if n > 0 { ShlSub(x, y, n - 1); }
  }

  lemma {:induction false} ShlMul(x: int, n: nat)
    ensures Shl(x, n) == x * Pow2(n)
  {
    if n > 0 {
      ShlMul(x, n - 1);
      assert 2 * (x * Pow2(n - 1)) == x * (2 * Pow2(n - 1));
    }
  }

  lemma MulGap(d: int, a: int, b: int)
    requires d > 0 && a < b
    ensures d * a + d <= d * b
  {
    assert d * (b - a - 1) >= 0;
  }

  lemma DivModUniqueFrom(d: int, q0: int, r0: int, q: int, r: int)
    requires d > 0 && d * q0 + r0 == d * q + r && 0 <= r0 < d && 0 <= r < d
    ensures q0 == q && r0 == r
  {
    if q < q0 { MulGap(d, q, q0); }
    if q0 < q { MulGap(d, q0, q); }
  }

  /** A quotient and remainder are determined by the division equation. */
  lemma DivModUnique(x: int, d: int, q: int, r: int)
    requires d > 0 && x == d * q + r && 0 <= r < d
    ensures x / d == q && x % d == r
  {
    DivModUniqueFrom(d, x / d, x % d, q, r);
  }

  lemma ShrLowMul(x: int, n: nat)
    ensures x == Pow2(n) * Shr(x, n) + Low(x, n)
  {
    hide *;
    ShrLow(x, n);
    ShlMul(Shr(x, n), n);
  }

  /** A right shift is division rounding down, and the bits it drops are the remainder. */
  lemma ShrIsDiv(x: int, n: nat)
    ensures Shr(x, n) == x / Pow2(n)
    ensures Low(x, n) == x % Pow2(n)
  {
    hide *;
    ShrLowMul(x, n);
    DivModUnique(x, Pow2(n), Shr(x, n), Low(x, n));
  }

  lemma {:induction false} LowSmall(x: nat, n: nat)
    requires x < Pow2(n)
    ensures Low(x, n) == x && Shr(x, n) == 0
    decreases n
  {
    if n > 0 { LowSmall(x / 2, n - 1); }
  }

  lemma {:induction false} LowMinusOne(n: nat)
    ensures Low(-1, n) == Pow2(n) - 1
  {
    if n > 0 { LowMinusOne(n - 1); }
  }

  lemma {:induction false} LowNegative(x: int, n: nat)
    requires x < 0 <= x + Pow2(n)
    ensures Low(x, n) == x + Pow2(n)
    decreases n
  {
    if n > 0 { LowNegative(x / 2, n - 1); }
  }

  lemma {:induction false} LowPow2(n: nat)
    ensures Low(Pow2(n), n) == 0
  {
    if n > 0 { LowPow2(n - 1); }
  }

  lemma {:induction false} ShrBound(x: nat, m: nat, n: nat)
    requires x < Pow2(m + n)
    ensures Shr(x, m) < Pow2(n)
    decreases m
  {
    if m > 0 { ShrBound(x / 2, m - 1, n); }
  }

  lemma {:induction false} ShrAdd(x: int, m: nat, n: nat)
    ensures Shr(Shr(x, m), n) == Shr(x, m + n)
    decreases m
  {
    if m > 0 { ShrAdd(x / 2, m - 1, n); }
  }

  /** Bits above a shifted field are the field's own. */
  lemma {:induction false} ShrField(x: int, y: nat, n: nat)
    requires y < Pow2(n)
    ensures Shr(Shl(x, n) + y, n) == x && Low(Shl(x, n) + y, n) == y
    decreases n
  {
    if n > 0 {
      assert (Shl(x, n) + y) / 2 == Shl(x, n - 1) + y / 2;
      ShrField(x, y / 2, n - 1);
    }
  }

  lemma {:induction false} LowBit(x: int, w: nat, b: nat)
    requires b < w
    ensures Shr(Low(x, w), b) % 2 == Shr(x, b) % 2
    decreases b
  {
    if b > 0 { LowBit(x / 2, w - 1, b - 1); }
  }

  /** Shifting up within a word and down again loses only what left the word. */
  lemma {:induction false} ShrShl(x: int, n: nat, w: nat)
    requires n <= w
    ensures Shr(Low(Shl(x, n), w), n) == Low(x, w - n)
    decreases n
  {
    if n > 0 {
      LowOfDouble(Shl(x, n - 1), w);
      ShrShl(x, n - 1, w - 1);
    }
  }

  lemma {:induction false} LowLow(x: int, w: nat, m: nat)
    requires m <= w
    ensures Low(Low(x, w), m) == Low(x, m)
    decreases m
  {
    if m > 0 { LowLow(x / 2, w - 1, m - 1); }
  }

  /** Reducing an operand of a sum or of a left shift first does not change the reduced result. */
  lemma {:induction false} LowAdd(x: int, y: int, w: nat)
    ensures Low(Low(x, w) + y, w) == Low(x + y, w)
    decreases w
  {
    if w > 0 {
      var b := x % 2;
      assert (Low(x, w) + y) / 2 == Low(x / 2, w - 1) + (b + y) / 2;
      assert (x + y) / 2 == x / 2 + (b + y) / 2;
      LowAdd(x / 2, (b + y) / 2, w - 1);
    }
  }

  lemma {:induction false} LowShl(x: int, w: nat, n: nat)
    ensures Low(Shl(Low(x, w), n), w) == Low(Shl(x, n), w)
    decreases n
  {
    if n == 0 {
      LowLow(x, w, w);
    } else {
      LowShl(x, w, n - 1);
      LowDouble(Shl(Low(x, w), n - 1), w);
      LowDouble(Shl(x, n - 1), w);
    }
  }

  lemma LowDouble(x: int, w: nat)
    ensures Low(2 * x, w) == Low(2 * Low(x, w), w)
  {
    if w > 0 {
      LowOfDouble(x, w);
      LowOfDouble(Low(x, w), w);
      hide *;
      LowLow(x, w, w - 1);
    }
  }

  lemma LowOfDouble(x: int, w: nat)
    requires w > 0
    ensures Low(2 * x, w) == 2 * Low(x, w - 1)
  {
    assert 2 * x / 2 == x;
  }

  lemma ShlAdd(x: int, y: int, m: nat)
    ensures Shl(x + y, m) == Shl(x, m) + Shl(y, m)
  {
    ShlSub(x + y, y, m);
  }

  lemma {:induction false} ShlShl(x: int, m: nat, n: nat)
    ensures Shl(Shl(x, m), n) == Shl(x, m + n)
  {
    if n > 0 { ShlShl(x, m, n - 1); }
  }

  lemma Pow2Six(n: nat)
    ensures Pow2(n + 6) == 64 * Pow2(n)
  {
    assert Pow2(n + 2) == 4 * Pow2(n);
    assert Pow2(n + 4) == 4 * Pow2(n + 2);
  }

  lemma ShrSmall(x: int)
    ensures Shr(x, 1) == x / 2 && Shr(x, 2) == x / 4 && Shr(x, 3) == x / 8
    ensures Shr(x, 4) == x / 16 && Shr(x, 5) == x / 32 && Shr(x, 6) == x / 64
  {
    ShrAdd(x, 2, 1);
    ShrAdd(x, 2, 2);
    ShrAdd(x, 4, 1);
    ShrAdd(x, 4, 2);
  }

  // Masks

  /** One unfolding of `And` at a mask written as its lowest bit and the rest. */
  lemma AndStep(x: nat, b: nat, y: nat)
    requires b < 2
    ensures And(x, 2 * y + b) == b * (x % 2) + 2 * And(x / 2, y)
  {
    assert (2 * y + b) / 2 == y && (2 * y + b) % 2 == b;
  }

  /** Masking with the n lowest ones keeps the n lowest bits. */
  lemma {:induction false} AndLow(x: nat, n: nat)
    ensures And(x, Pow2(n) - 1) == Low(x, n)
  {
    if n > 0 {
      AndStep(x, 1, Pow2(n - 1) - 1);
      AndLow(x / 2, n - 1);
    }
  }

  /** Masking with a shifted mask masks the shifted word. */
  lemma {:induction false} AndShl(x: nat, y: nat, k: nat)
    ensures And(x, Shl(y, k)) == Shl(And(Shr(x, k), y), k)
    decreases k
  {
    if k > 0 {
      AndStep(x, 0, Shl(y, k - 1));
      AndShl(x / 2, y, k - 1);
    }
  }

  /** Masking with a low field and a mask further up. */
  lemma {:induction false} AndField(x: nat, k: nat, w: nat, y: nat)
    requires k <= w
    ensures And(x, Pow2(k) - 1 + Shl(y, w)) == Low(x, k) + Shl(And(Shr(x, w), y), w)
    decreases k
  {
    hide And;
    if k == 0 {
      AndShl(x, y, w);
    } else {
      AndStep(x, 1, Pow2(k - 1) - 1 + Shl(y, w - 1));
      AndField(x / 2, k - 1, w - 1, y);
    }
  }

  /** Testing one bit. */
  lemma AndBit(x: nat, k: nat)
    ensures And(x, Pow2(k)) == if Shr(x, k) % 2 == 1 then Pow2(k) else 0
  {
    hide Shl, Shr;
    assert Shl(1, k) == Pow2(k) by { ShlPow2(0, k); }
    AndShl(x, 1, k);
    AndStep(Shr(x, k), 1, 0);
    ShlSub(0, 0, k);
  }

  /** Testing one bit of a word that may have wrapped. */
  lemma AndBitLow(x: int, w: nat, b: nat)
    requires b < w
    ensures And(Low(x, w), Pow2(b)) != 0 <==> Shr(x, b) % 2 == 1
  {
    hide *;
    AndBit(Low(x, w), b);
    LowBit(x, w, b);
  }

  /** A run of ones in positions k..k+w-1. */
  lemma Ones(w: nat, k: nat)
    ensures Shl(Pow2(w) - 1, k) == Pow2(w + k) - Pow2(k)
  {
    ShlPow2(w, k);
    ShlPow2(0, k);
    ShlSub(Pow2(w), 1, k);
  }

  /** Masking with a run of ones keeps exactly those bits, in place. */
  lemma AndRun(x: nat, w: nat, k: nat)
    ensures And(x, Shl(Pow2(w) - 1, k)) == Shl(Low(Shr(x, k), w), k)
  {
    hide *;
    AndShl(x, Pow2(w) - 1, k);
    AndLow(Shr(x, k), w);
  }

  lemma NotValue(width: nat, x: nat)
    requires x < Pow2(width)
    ensures Not(width, x) == Pow2(width) - 1 - x
  {
    hide Low;
    LowNegative(-1 - x, width);
  }

  /** Clearing the low k bits of a word tests whether the word is at least 2^k. */
  lemma AndHigh(width: nat, x: nat, k: nat)
    requires k <= width && x < Pow2(width)
    ensures And(x, Not(width, Pow2(k) - 1)) != 0 <==> x >= Pow2(k)
  {
    hide *;
    var w := width - k;
    Pow2Monotone(k, width);
    NotValue(width, Pow2(k) - 1);
    Ones(w, k);
    AndRun(x, w, k);
    ShrBound(x, k, w);
    LowSmall(Shr(x, k), w);
    ShrLow(x, k);
    ShlNone(k);
    if x < Pow2(k) { LowSmall(x, k); }
  }

  lemma ShlNone(k: nat)
    ensures Shl(0, k) == 0
  {
    ShlSub(0, 0, k);
  }

  lemma ShrNone(x: int)
    ensures Shr(x, 0) == x
  {
  }

  /** Shifting out every bit but the sign. */
  lemma {:induction false} ShrSign(x: int, n: nat)
    requires 0 <= x + Pow2(n) < 2 * Pow2(n)
    ensures Shr(x, n) == if x < 0 then -1 else 0
    decreases n
  {
    if n > 0 { ShrSign(x / 2, n - 1); }
  }

  /** Joining disjoint bit fields with `|` is addition. */
  lemma {:induction false} OrDisjoint(x: nat, y: nat, k: nat)
    requires y < Pow2(k)
    ensures Or(Shl(x, k), y) == Shl(x, k) + y
    ensures Or(y, Shl(x, k)) == Shl(x, k) + y
    decreases k
  {
    if k > 0 {
      var h := Shl(x, k - 1);
      assert (2 * h) / 2 == h && (2 * h) % 2 == 0;
      OrDisjoint(x, y / 2, k - 1);
    }
  }

  lemma {:induction false} OrNone(y: nat)
    ensures Or(0, y) == y && Or(y, 0) == y
  {
  }

  /** One unfolding of `Or`. */
  lemma OrStep(x: nat, y: nat)
    ensures Or(x, y) % 2 == (if x % 2 == 1 || y % 2 == 1 then 1 else 0)
    ensures Or(x, y) / 2 == Or(x / 2, y / 2)
  {
  }

  /** An or keeps high and low bits apart. */
  lemma {:induction false} OrSplit(x: nat, y: nat, k: nat)
    ensures Shr(Or(x, y), k) == Or(Shr(x, k), Shr(y, k))
    ensures Low(Or(x, y), k) == Or(Low(x, k), Low(y, k))
    decreases k
  {
    hide Or;
    if k == 0 {
      OrNone(0);
    } else {
      OrStep(x, y);
      OrStep(Low(x, k), Low(y, k));
      OrSplit(x / 2, y / 2, k - 1);
    }
  }

  /** Flipping all k bits is subtraction from 2^k - 1. */
  lemma {:induction false} XorOnes(x: nat, k: nat)
    requires x < Pow2(k)
    ensures Xor(Pow2(k) - 1, x) == Pow2(k) - 1 - x
  {
    if k > 0 {
      XorOnes(x / 2, k - 1);
      var y := Pow2(k - 1) - 1;
      assert (2 * y + 1) / 2 == y && (2 * y + 1) % 2 == 1;
    }
  }
}
