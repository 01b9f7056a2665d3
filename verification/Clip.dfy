/** The branch-light clips and saturating adds of libavutil. */
module Clip {
  import opened Bits

  function Clamp(a: int, lo: int, hi: int): int {
    if a < lo then lo else if a > hi then hi else a
  }

  /** `((a + (1 << p)) & ~((2 << p) - 1)) ? (a >> (w-1)) ^ ((1 << p) - 1) : a` on w-bit words. */
  function SignedClip(w: nat, a: int, p: nat): int
    requires w > 0
  {
    if And(Low(Low(a, w) + Shl(1, p), w), Not(w, Shl(2, p) - 1)) != 0
    then Signed(w, Xor(Low(Shr(a, w - 1), w), Shl(1, p) - 1))
    else a
  }

  /** av_clip_intp2_c. From p = 30 on `2 << p` overflows an int. */
  function ClipIntp2(a: i32, p: nat): int
    requires p <= 29
  {
    SignedClip(32, a, p)
  }

  /** av_clip_uintp2_c. At p = 31 `1 << p` overflows an int. */
  function ClipUintp2(a: i32, p: nat): int
    requires p <= 30
  {
    if And(Low(a, 32), Not(32, Shl(1, p) - 1)) != 0
    then And(Low(Shr(-1 - a, 31), 32), Shl(1, p) - 1)
    else Low(a, 32)
  }

  function ClipUint8(a: i32): int {
    if And(Low(a, 32), Not(32, 0xFF)) != 0 then Low(Shr(-1 - a, 31), 8) else Low(a, 8)
  }

  function ClipUint16(a: i32): int {
    if And(Low(a, 32), Not(32, 0xFFFF)) != 0 then Low(Shr(-1 - a, 31), 16) else Low(a, 16)
  }

  function ClipInt8(a: i32): int {
    if And(Low(a + 0x80, 32), Not(32, 0xFF)) != 0
    then Signed(8, Low(Xor(Low(Shr(a, 31), 32), 0x7F), 8))
    else Signed(8, Low(a, 8))
  }

  function ClipInt16(a: i32): int {
    if And(Low(a + 0x8000, 32), Not(32, 0xFFFF)) != 0
    then Signed(16, Low(Xor(Low(Shr(a, 31), 32), 0x7FFF), 16))
    else Signed(16, Low(a, 16))
  }

  /** av_clipl_int32_c. The 64-bit sum a + 2^31 must not overflow. */
  function ClipInt32(a: i64): int
    requires a + 0x8000_0000 < 0x8000_0000_0000_0000
  {
    if And(Low(a + 0x8000_0000, 64), Not(64, 0xFFFF_FFFF)) != 0
    then Signed(32, Low(Xor(Low(Shr(a, 63), 64), 0x7FFF_FFFF), 32))
    else Signed(32, Low(a, 32))
  }

  /** The clamp is the number of the range that is nearest, and the only one. */
  lemma ClampIsNearest(a: int, lo: int, hi: int, x: int)
    requires lo <= x <= hi
    ensures lo <= Clamp(a, lo, hi) <= hi
    ensures lo <= a <= hi ==> Clamp(a, lo, hi) == a
    ensures x != Clamp(a, lo, hi) ==> Distance(a, Clamp(a, lo, hi)) < Distance(a, x)
  {
  }

  function Distance(a: int, b: int): int { if a < b then b - a else a - b }

  // Each clip is a clamp

  lemma SignedClipIsClamp(w: nat, a: int, p: nat)
    requires p + 2 < w && -Pow2(w - 1) <= a < Pow2(w - 1)
    ensures SignedClip(w, a, p) == Clamp(a, -Pow2(p), Pow2(p) - 1)
  {
    hide And, Low, Xor, Shr, Shl, Not, Pow2;
    ClipTest(w, a, p);
    ClipSign(w, a, p);
    Pow2Strict(p, w - 1);
  }

  /** The test adds the bias 2^p and asks whether anything is left above bit p. */
  lemma ClipTest(w: nat, a: int, p: nat)
    requires p + 2 < w && -Pow2(w - 1) <= a < Pow2(w - 1)
    ensures And(Low(Low(a, w) + Shl(1, p), w), Not(w, Shl(2, p) - 1)) != 0 <==> !(-Pow2(p) <= a < Pow2(p))
  {
    hide *;
    Bias(w, p);
    LowAdd(a, Pow2(p), w);
    var b := a + Pow2(p);
    if b < 0 { LowNegative(b, w); } else { LowSmall(b, w); }
    AndHigh(w, Low(b, w), p + 1);
  }

  lemma Bias(w: nat, p: nat)
    requires p + 2 < w
    ensures Shl(1, p) == Pow2(p) && Shl(2, p) == Pow2(p + 1) == 2 * Pow2(p)
    ensures Pow2(w) == 2 * Pow2(w - 1) && 2 * Pow2(p) < Pow2(w - 1)
  {
    ShlPow2(0, p);
    ShlPow2(1, p);
    Pow2Strict(p + 1, w - 1);
  }

  /** The branch-free bound: the sign word, flipped below bit p. */
  lemma ClipSign(w: nat, a: int, p: nat)
    requires p + 2 < w && -Pow2(w - 1) <= a < Pow2(w - 1)
    ensures Signed(w, Xor(Low(Shr(a, w - 1), w), Shl(1, p) - 1)) == if a < 0 then -Pow2(p) else Pow2(p) - 1
  {
    hide And, Low, Xor, Shr, Shl, Not, Pow2;
    Bias(w, p);
    ShrSign(a, w - 1);
    if a < 0 {
      LowMinusOne(w);
      XorOnes(Pow2(p) - 1, w);
    } else {
      LowSmall(0, w);
      XorZero(Pow2(p) - 1);
    }
  }

  lemma XorZero(x: nat)
    ensures Xor(0, x) == x
  {
  }

  lemma ClipSizes()
    ensures Pow2(31) == 0x8000_0000 && Pow2(32) == 0x1_0000_0000
    ensures Pow2(7) == 0x80 && Pow2(8) == 0x100 && Pow2(15) == 0x8000 && Pow2(16) == 0x1_0000
  {
    Pow2Values();
  }

  lemma ClipIntp2IsClamp(a: i32, p: nat)
    requires p <= 29
    ensures ClipIntp2(a, p) == Clamp(a, -Pow2(p), Pow2(p) - 1)
  {
    hide SignedClip, Pow2;
    ClipSizes();
    SignedClipIsClamp(32, a, p);
  }

  lemma ClipUintp2IsClamp(a: i32, p: nat)
    requires p <= 30
    ensures ClipUintp2(a, p) == Clamp(a, 0, Pow2(p) - 1)
  {
    hide And, Low, Shr, Shl, Not, Pow2;
    ClipSizes();
    ShlOne(p);
    Pow2Monotone(p, 30);
    Pow2Strict(30, 31);
    UnsignedWord(a);
    AndHigh(32, Low(a, 32), p);
    NegatedSign(a, 32);
    AndLow(Low(Shr(-1 - a, 31), 32), p);
    LowLow(Shr(-1 - a, 31), 32, p);
    NegatedSign(a, p);
  }

  lemma UnsignedWord(a: i32)
    ensures Low(a, 32) == if a < 0 then a + 0x1_0000_0000 else a
  {
    hide *;
    ClipSizes();
    if a < 0 { LowNegative(a, 32); } else { LowSmall(a, 32); }
  }

  /** `(~a) >> 31` is all ones for a non-negative a and zero for a negative one, at any width. */
  lemma NegatedSign(a: i32, n: nat)
    ensures Low(Shr(-1 - a, 31), n) == if a < 0 then 0 else Pow2(n) - 1
  {
    hide *;
    ClipSizes();
    ShrSign(-1 - a, 31);
    LowMinusOne(n);
    LowSmall(0, n);
  }

  // The fixed-width clips are the general ones at p = 8, 16, 7, 15 and 31

  lemma ClipUint8IsClamp(a: i32)
    ensures ClipUint8(a) == ClipUintp2(a, 8) == Clamp(a, 0, 255)
  {
    hide And, Low, Shr, Shl, Not, Pow2;
    ClipSizes();
    ShlOne(8);
    ClipUintp2IsClamp(a, 8);
    UnsignedWord(a);
    AndHigh(32, Low(a, 32), 8);
    NegatedSign(a, 8);
    if 0 <= a < 0x100 { LowSmall(a, 8); }
  }

  lemma ClipUint16IsClamp(a: i32)
    ensures ClipUint16(a) == ClipUintp2(a, 16) == Clamp(a, 0, 65535)
  {
    hide And, Low, Shr, Shl, Not, Pow2;
    ClipSizes();
    ShlOne(16);
    ClipUintp2IsClamp(a, 16);
    UnsignedWord(a);
    AndHigh(32, Low(a, 32), 16);
    NegatedSign(a, 16);
    if 0 <= a < 0x1_0000 { LowSmall(a, 16); }
  }

  /** The signed form stored in a (p+1)-bit integer: storing it loses nothing. */
  lemma NarrowClip(w: nat, a: int, p: nat)
    requires p + 2 < w && -Pow2(w - 1) <= a < Pow2(w - 1)
    ensures var test := And(Low(a + Pow2(p), w), Not(w, Pow2(p + 1) - 1)) != 0;
      var kept := if test then Xor(Low(Shr(a, w - 1), w), Pow2(p) - 1) else a;
      Signed(p + 1, Low(kept, p + 1)) == Clamp(a, -Pow2(p), Pow2(p) - 1)
  {
    hide *;
    Bias(w, p);
    LowAdd(a, Pow2(p), w);
    ClipTest(w, a, p);
    ClipSign(w, a, p);
    ShrSign(a, w - 1);
    if -Pow2(p) <= a < Pow2(p) {
      SignedLow(a, p);
    } else if a < 0 {
      LowMinusOne(w);
      Pow2Monotone(p, w);
      XorOnes(Pow2(p) - 1, w);
      LowOfNegative(w, p);
      SignedLow(-Pow2(p), p);
    } else {
      Pow2Positive(w);
      LowSmall(0, w);
      XorZero(Pow2(p) - 1);
      SignedLow(Pow2(p) - 1, p);
    }
    ClampIs(a, -Pow2(p), Pow2(p) - 1);
  }

  lemma ClampIs(a: int, lo: int, hi: int)
    ensures Clamp(a, lo, hi) == if a < lo then lo else if a > hi then hi else a
  {
  }

  lemma Pow2Positive(w: nat)
    ensures 0 < Pow2(w)
  {
  }

  /** A value in range survives being stored in p+1 bits and read back. */
  lemma SignedLow(x: int, p: nat)
    requires -Pow2(p) <= x < Pow2(p)
    ensures Signed(p + 1, Low(x, p + 1)) == x
  {
    hide Low;
    assert Pow2(p + 1) == 2 * Pow2(p);
    if x < 0 { LowNegative(x, p + 1); } else { LowSmall(x, p + 1); }
  }

  /** The word 2^w - 2^p holds -2^p, at any smaller width too. */
  lemma LowOfNegative(w: nat, p: nat)
    requires p < w
    ensures 0 <= Pow2(w) - Pow2(p)
    ensures Low(Pow2(w) - Pow2(p), p + 1) == Low(-Pow2(p), p + 1)
  {
    hide *;
    Pow2Monotone(p, w);
    Pow2Positive(p);
    LowNegative(-Pow2(p), w);
    LowLow(-Pow2(p), w, p + 1);
  }

  lemma ClipInt8IsClamp(a: i32)
    ensures ClipInt8(a) == ClipIntp2(a, 7) == Clamp(a, -128, 127)
  {
    hide And, Low, Xor, Shr, Shl, Not, Pow2, Signed, SignedClip;
    ClipSizes();
    NarrowClip(32, a, 7);
    ClipIntp2IsClamp(a, 7);
  }

  lemma ClipInt16IsClamp(a: i32)
    ensures ClipInt16(a) == ClipIntp2(a, 15) == Clamp(a, -32768, 32767)
  {
    hide And, Low, Xor, Shr, Shl, Not, Pow2, Signed, SignedClip;
    ClipSizes();
    NarrowClip(32, a, 15);
    ClipIntp2IsClamp(a, 15);
  }

  lemma ClipInt32IsClamp(a: i64)
    requires a + 0x8000_0000 < 0x8000_0000_0000_0000
    ensures ClipInt32(a) == Clamp(a, -0x8000_0000, 0x7FFF_FFFF)
  {
    hide And, Low, Xor, Shr, Shl, Not, Pow2, Signed;
    ClipSizes();
    Pow2Wide();
    NarrowClip(64, a, 31);
  }

  // Saturating arithmetic

  function Saturate(x: int): (r: i32) { Clamp(x, -0x8000_0000, 0x7FFF_FFFF) }

  function SatAdd32(a: i32, b: i32): int { ClipInt32(a + b) }
  function SatSub32(a: i32, b: i32): int { ClipInt32(a - b) }

  /** av_sat_dadd32_c and av_sat_dsub32_c saturate twice. */
  function SatDadd32(a: i32, b: i32): int {
    SatRange(b, b);
    SatAdd32(a, SatAdd32(b, b))
  }

  function SatDsub32(a: i32, b: i32): int {
    SatRange(b, b);
    SatSub32(a, SatAdd32(b, b))
  }

  lemma SatRange(a: i32, b: i32)
    ensures SatAdd32(a, b) == Saturate(a + b) == Clamp(a + b, -0x8000_0000, 0x7FFF_FFFF)
    ensures SatSub32(a, b) == Saturate(a - b) == Clamp(a - b, -0x8000_0000, 0x7FFF_FFFF)
  {
    hide ClipInt32;
    ClipInt32IsClamp(a + b);
    ClipInt32IsClamp(a - b);
  }

  lemma SatDaddIsNested(a: i32, b: i32)
    ensures SatDadd32(a, b) == Saturate(a + Saturate(2 * b))
    ensures SatDsub32(a, b) == Saturate(a - Saturate(2 * b))
  {
    hide ClipInt32, SatAdd32, SatSub32;
    SatRange(b, b);
    SatRange(a, Saturate(2 * b));
  }

  lemma SatDaddMonotone(a: i32, b: i32, a': i32, b': i32)
    requires a <= a' && b <= b'
    ensures SatDadd32(a, b) <= SatDadd32(a', b')
  {
    hide SatDadd32, SatDsub32;
    SatDaddIsNested(a, b);
    SatDaddIsNested(a', b');
  }

  /** Saturating the doubled operand first differs from saturating once exactly when doubling
      overflows and the operands pull in opposite directions. */
  lemma SatDaddOnce(a: i32, b: i32)
    ensures SatDadd32(a, b) == Saturate(a + 2 * b)
       <==> -0x8000_0000 <= 2 * b <= 0x7FFF_FFFF || !(a < 0 < b || b < 0 < a)
  {
    hide SatDadd32, SatDsub32;
    SatDaddIsNested(a, b);
  }

  /** The subtracting form differs when the operands have the same sign; the asymmetric range makes
      zero count as positive and lets a = -1 through. */
  lemma SatDsubOnce(a: i32, b: i32)
    ensures SatDsub32(a, b) == Saturate(a - 2 * b)
       <==> -0x8000_0000 <= 2 * b <= 0x7FFF_FFFF || !((0 <= a && 0 < b) || (a < -1 && b < 0))
  {
    hide SatDadd32, SatDsub32;
    SatDaddIsNested(a, b);
  }
}
