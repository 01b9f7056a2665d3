/** The in-register bit counts of libavutil: av_popcount_c, av_popcount64_c and av_parity_c.

    The word is treated as ever wider fields, each holding the number of ones of the bits it
    replaces; `Fields` describes the word after each stage for any field width. */
module Popcount {
  import opened Bits

  /** The number of ones in the binary form of x. */
  function Count(x: nat): (c: nat) {
    if x == 0 then 0 else x % 2 + Count(x / 2)
  }

  /** x with every 2-, 4- or 8-bit field replaced by the count of its ones. */
  function Fields2(x: nat): nat { if x == 0 then 0 else Count(x % 4) + 4 * Fields2(x / 4) }
  function Fields4(x: nat): nat { if x == 0 then 0 else Count(x % 16) + 16 * Fields4(x / 16) }
  function Fields8(x: nat): nat { if x == 0 then 0 else Count(x % 256) + 256 * Fields8(x / 256) }

  /** A mask with d in each of n fields of the given base. */
  function Repeat(d: nat, base: nat, n: nat): nat {
    if n == 0 then 0 else d + base * Repeat(d, base, n - 1)
  }

  lemma Masks()
    ensures Repeat(1, 4, 16) == 0x55555555
    ensures Repeat(3, 16, 8) == 0x33333333
    ensures Repeat(15, 256, 4) == 0x0F0F0F0F
  {
    assert Repeat(1, 4, 8) == 0x5555;
    assert Repeat(1, 4, 12) == 0x555555;
  }

  lemma CountSmall(x: nat)
    requires x < 4
    ensures Count(x) == x % 2 + x / 2
  {
  }

  lemma CountSplit4(x: nat)
    requires x < 16
    ensures Count(x) == Count(x % 4) + Count(x / 4)
    ensures Count(x) <= 4
  {
    CountSplit(x, 2);
    ShrSmall(x);
    ShrIsDiv(x, 2);
    CountSmall(x % 4);
    CountSmall(x / 4);
  }

  /** The ones of a word are those of its low part and those of its high part. */
  lemma {:induction false} CountSplit(x: nat, k: nat)
    ensures Count(x) == Count(Low(x, k)) + Count(Shr(x, k))
    decreases k
  {
    if k > 0 {
      CountSplit(x / 2, k - 1);
      CountDouble(Low(x / 2, k - 1), x % 2);
    }
  }

  lemma CountDouble(y: nat, b: nat)
    requires b < 2
    ensures Count(2 * y + b) == Count(y) + b
  {
    assert (2 * y + b) / 2 == y && (2 * y + b) % 2 == b;
  }

  lemma SmallShifts(y: int)
    ensures Shl(y, 2) == 4 * y && Shl(y, 4) == 16 * y && Shl(y, 8) == 256 * y
  {
    assert Shl(y, 6) == 4 * Shl(y, 4);
  }

  lemma SmallLows(x: int)
    ensures Low(x, 1) == x % 2 && Low(x, 2) == x % 4 && Low(x, 4) == x % 16
    ensures Shr(x, 2) == x / 4 && Shr(x, 4) == x / 16 && Shr(x, 8) == x / 256
  {
    hide *;
    ShrIsDiv(x, 1); ShrIsDiv(x, 2); ShrIsDiv(x, 4); ShrIsDiv(x, 8);
    SmallPowers();
  }

  lemma SmallPowers()
    ensures Pow2(1) == 2 && Pow2(2) == 4 && Pow2(4) == 16 && Pow2(8) == 256
  {
    Pow2Values();
  }

  /** Masking the lowest field of each pair of fields, one pair at a time. */
  lemma AndPair(x: nat, y: nat)
    ensures And(x, 1 + 4 * y) == x % 2 + 4 * And(x / 4, y)
    ensures And(x, 3 + 16 * y) == x % 4 + 16 * And(x / 16, y)
    ensures And(x, 15 + 256 * y) == x % 16 + 256 * And(x / 256, y)
  {
    hide *;
    SmallPowers();
    SmallLows(x);
    SmallShifts(y);
    SmallShifts(And(x / 4, y)); SmallShifts(And(x / 16, y)); SmallShifts(And(x / 256, y));
    AndField(x, 1, 2, y); AndField(x, 2, 4, y); AndField(x, 4, 8, y);
  }

  /** One field at a time: the counts in the lowest fields, and the fields above them. */
  lemma FieldSteps(x: nat)
    ensures Fields2(x) == Count(x % 4) + 4 * Fields2(x / 4)
    ensures Fields4(x) == Count(x % 16) + 16 * Fields4(x / 16)
    ensures Fields8(x) == Count(x % 256) + 256 * Fields8(x / 256)
  {
    hide Count;
    CountZero();
  }

  lemma CountZero()
    ensures Count(0) == 0
  {
  }

  lemma RepeatStep(d: nat, base: nat, n: nat)
    ensures Repeat(d, base, 0) == 0
    ensures Repeat(d, base, n + 1) == d + base * Repeat(d, base, n)
  {
  }

  /** A word of w bits loses its lowest field. */
  lemma DropField(x: nat, w: nat)
    requires x < Pow2(w)
    ensures w == 0 ==> x == 0
    ensures w >= 2 ==> x / 4 < Pow2(w - 2)
    ensures w >= 4 ==> x / 16 < Pow2(w - 4)
    ensures w >= 8 ==> x / 256 < Pow2(w - 8)
  {
    if w >= 2 { assert Pow2(w) == 4 * Pow2(w - 2); }
    if w >= 4 { assert Pow2(w - 2) == 4 * Pow2(w - 4); }
    if w >= 8 {
      assert Pow2(w - 4) == 4 * Pow2(w - 6);
      assert Pow2(w - 6) == 4 * Pow2(w - 8);
    }
  }

  lemma AndNone(x: nat)
    ensures And(x, 0) == 0
    ensures Fields2(0) == Fields4(0) == Fields8(0) == 0
  {
  }

  /** x -= (x >> 1) & 0x5555... */
  lemma {:induction false} Stage1(x: nat, n: nat)
    requires x < Pow2(2 * n)
    ensures x - And(x / 2, Repeat(1, 4, n)) == Fields2(x)
    decreases n
  {
    hide *;
    DropField(x, 2 * n);
    if n == 0 {
      RepeatStep(1, 4, 0);
      AndNone(x / 2);
    } else {
      Stage1(x / 4, n - 1);
      RepeatStep(1, 4, n - 1);
      AndPair(x / 2, Repeat(1, 4, n - 1));
      FieldSteps(x);
      CountSmall(x % 4);
      Quarters(x);
    }
  }

  lemma Quarters(x: nat)
    ensures x == x % 4 + 4 * (x / 4)
    ensures x / 2 / 4 == x / 4 / 2 && x / 2 % 2 == x % 4 / 2
    ensures x % 4 == x % 4 % 2 + 2 * (x % 4 / 2)
  {
    var q, r := x / 4, x % 4;
    assert x / 2 == 2 * q + r / 2;
    assert x / 2 == 4 * (q / 2) + (2 * (q % 2) + r / 2);
  }

  /** x = (x & 0x3333...) + ((x >> 2) & 0x3333...) */
  lemma {:induction false} Stage2(x: nat, n: nat)
    requires x < Pow2(4 * n)
    ensures And(Fields2(x), Repeat(3, 16, n)) + And(Fields2(x) / 4, Repeat(3, 16, n)) == Fields4(x)
    decreases n
  {
    hide *;
    DropField(x, 4 * n);
    RepeatStep(3, 16, if n == 0 then 0 else n - 1);
    if n == 0 {
      AndNone(Fields2(x));
      AndNone(Fields2(x) / 4);
    } else {
      var m := Repeat(3, 16, n - 1);
      Stage2(x / 16, n - 1);
      TwoFields2(x);
      var y, z := Fields2(x), Fields2(x / 16);
      AndPair(y, m);
      AndPair(y / 4, m);
      assert y % 4 + y / 4 % 4 == Count(x % 16) && y / 16 == z && y / 4 / 16 == z / 4;
      FieldSteps(x);
    }
  }

  lemma TwoFields2(x: nat)
    ensures Fields2(x) % 4 + Fields2(x) / 4 % 4 == Count(x % 16)
    ensures Fields2(x) / 16 == Fields2(x / 16)
  {
    hide *;
    FieldSteps(x);
    FieldSteps(x / 4);
    CountSmall(x % 4);
    CountSmall(x / 4 % 4);
    CountSplit4(x % 16);
    Nibble(x);
    TwoParts(Fields2(x), Count(x % 4), Count(x / 4 % 4), Fields2(x / 16));
  }

  lemma Nibble(x: nat)
    ensures x % 4 == x % 16 % 4 && x / 4 % 4 == x % 16 / 4 && x / 4 / 4 == x / 16
    ensures x % 4 % 2 <= 1 && x % 4 / 2 <= 1 && x / 4 % 4 % 2 <= 1 && x / 4 % 4 / 2 <= 1
  {
  }

  lemma TwoParts(y: nat, a: nat, b: nat, z: nat)
    requires y == a + 4 * b + 16 * z && a <= 2 && b <= 2
    ensures y % 4 + y / 4 % 4 == a + b && y / 16 == z
  {
    assert y / 4 == b + 4 * z;
  }

  /** x = (x + (x >> 4)) & 0x0F0F... */
  lemma {:induction false} Stage3(x: nat, n: nat)
    requires x < Pow2(8 * n)
    ensures And(Fields4(x) + Fields4(x) / 16, Repeat(15, 256, n)) == Fields8(x)
    decreases n
  {
    hide *;
    DropField(x, 8 * n);
    RepeatStep(15, 256, if n == 0 then 0 else n - 1);
    if n == 0 {
      AndNone(Fields4(x) + Fields4(x) / 16);
    } else {
      Stage3(x / 256, n - 1);
      var z := Fields4(x / 256);
      AndPair(Fields4(x) + Fields4(x) / 16, Repeat(15, 256, n - 1));
      FourFields(x);
      FieldSteps(x);
      FieldSteps(x / 256);
      CountNibble(x / 256 % 16);
      ThreeParts(Fields4(x), Count(x % 16), Count(x % 256 / 16), z, Count(x / 256 % 16), Fields4(x / 256 / 16));
    }
  }

  lemma CountNibble(x: nat)
    requires x < 16
    ensures Count(x) <= 4
  {
    CountSplit4(x);
  }

  lemma FourFields(x: nat)
    ensures Fields4(x) == Count(x % 16) + 16 * Count(x % 256 / 16) + 256 * Fields4(x / 256)
    ensures Count(x % 16) + Count(x % 256 / 16) == Count(x % 256)
    ensures Count(x % 16) <= 4 && Count(x % 256 / 16) <= 4
  {
    hide *;
    Byte(x);
    FieldSteps(x);
    FieldSteps(x / 16);
    CountNibble(x % 16);
    CountNibble(x % 256 / 16);
    CountSplit(x % 256, 4);
    SmallLows(x % 256);
  }

  lemma Byte(x: nat)
    ensures x % 256 % 16 == x % 16 && x % 256 / 16 == x / 16 % 16 && x / 16 / 16 == x / 256
    ensures x % 256 / 16 < 16
  {
    var q, r := x / 256, x % 256;
    assert x / 16 == 16 * q + r / 16;
  }

  lemma ThreeParts(z: nat, a: nat, b: nat, y: nat, e: nat, f: nat)
    requires z == a + 16 * b + 256 * y && a <= 4 && b <= 4 && y == e + 16 * f && e <= 4
    ensures (z + z / 16) % 16 == a + b && (z + z / 16) / 256 == y + y / 16
  {
    assert z / 16 == b + 16 * y;
    assert y / 16 == f;
    CarryFree(z + z / 16, a + b, b + e, f + y);
  }

  lemma CarryFree(t: nat, p: nat, q: nat, r: nat)
    requires t == p + 16 * q + 256 * r && p < 16 && q < 16
    ensures t % 16 == p && t / 256 == r
  {
  }

  /** Folding four byte counts: x += x >> 8; (x + (x >> 16)) & 0x3F. */
  lemma Fold(w: nat, b0: nat, b1: nat, b2: nat, b3: nat)
    requires w == b0 + 0x100 * b1 + 0x1_0000 * b2 + 0x100_0000 * b3
    requires b0 <= 8 && b1 <= 8 && b2 <= 8 && b3 <= 8
    ensures w + w / 0x100 < 0x1_0000_0000
    ensures var u := w + w / 0x100; u + u / 0x1_0000 < 0x1_0000_0000 && (u + u / 0x1_0000) % 64 == b0 + b1 + b2 + b3
  {
    assert w / 0x100 == b1 + 0x100 * b2 + 0x1_0000 * b3;
    var u := w + w / 0x100;
    assert u / 0x1_0000 == b2 + b3 + 0x100 * b3;
    var t := b0 + b1 + b2 + b3;
    assert u + u / 0x1_0000 == t + 64 * (4 * (b1 + b2 + b3) + 0x400 * (b2 + b3) + 0x4_0000 * b3);
  }

  lemma CountByte(x: nat)
    requires x < 0x100
    ensures Count(x) <= 8
  {
    CountSplit(x, 4);
    hide Count;
    SmallLows(x);
    CountNibble(x % 16);
    CountNibble(x / 16);
  }

  lemma CountLowByte(x: nat)
    ensures Count(x) == Count(x % 256) + Count(x / 256)
  {
    hide *;
    CountSplit(x, 8);
    ShrIsDiv(x, 8);
    SmallPowers();
  }

  lemma FieldsNone(x: nat)
    requires x == 0
    ensures Fields8(x) == 0 && Count(x) == 0
  {
  }

  /** The last stage adds up the four byte counts. */
  lemma Stage4(x: nat)
    requires x < 0x1_0000_0000
    ensures var w := Fields8(x);
      && w + w / 0x100 < 0x1_0000_0000
      && var u := w + w / 0x100;
      && u + u / 0x1_0000 < 0x1_0000_0000 && (u + u / 0x1_0000) % 64 == Count(x)
  {
    hide *;
    var x1 := x / 256;
    var x2 := x1 / 256;
    var x3 := x2 / 256;
    FieldSteps(x); FieldSteps(x1); FieldSteps(x2); FieldSteps(x3);
    CountLowByte(x); CountLowByte(x1); CountLowByte(x2); CountLowByte(x3);
    CountByte(x % 256); CountByte(x1 % 256); CountByte(x2 % 256); CountByte(x3 % 256);
    FieldsNone(x3 / 256);
    Fold(Fields8(x), Count(x % 256), Count(x1 % 256), Count(x2 % 256), Count(x3 % 256));
  }

  /** The shifts and masks of the four stages, as arithmetic. */
  lemma WordShifts(x: nat)
    ensures Shr(x, 1) == x / 2 && Shr(x, 2) == x / 4 && Shr(x, 4) == x / 16
    ensures Shr(x, 8) == x / 0x100 && Shr(x, 16) == x / 0x1_0000
    ensures And(x, 0x3F) == x % 64
  {
    hide *;
    ShrIsDiv(x, 1); ShrIsDiv(x, 2); ShrIsDiv(x, 4); ShrIsDiv(x, 8); ShrIsDiv(x, 16); ShrIsDiv(x, 6);
    AndLow(x, 6);
    WordPowers();
  }

  lemma WordPowers()
    ensures Pow2(1) == 2 && Pow2(2) == 4 && Pow2(4) == 16 && Pow2(6) == 64 && Pow2(8) == 0x100
    ensures Pow2(16) == 0x1_0000 && Pow2(32) == 0x1_0000_0000
  {
    Pow2Values();
  }

  /** The four stages in the operators of the code, with no overflow anywhere. */
  lemma WordStages(x: u32)
    ensures x - And(Shr(x, 1), 0x55555555) == Fields2(x)
    ensures And(Fields2(x), 0x33333333) + And(Shr(Fields2(x), 2), 0x33333333) == Fields4(x)
    ensures Fields4(x) + Shr(Fields4(x), 4) < 0x1_0000_0000
    ensures And(Fields4(x) + Shr(Fields4(x), 4), 0x0F0F0F0F) == Fields8(x)
  {
    hide *;
    Masks();
    WordPowers();
    Stage1(x, 16); Stage2(x, 8); Stage3(x, 4);
    WordShifts(x); WordShifts(Fields2(x)); WordShifts(Fields4(x));
  }

  lemma WordFold(x: u32)
    ensures var w := Fields8(x);
      && w + Shr(w, 8) < 0x1_0000_0000
      && var u := w + Shr(w, 8);
      && u + Shr(u, 16) < 0x1_0000_0000 && And(u + Shr(u, 16), 0x3F) == Count(x)
  {
    hide *;
    Stage4(x);
    var w := Fields8(x);
    WordShifts(w);
    WordShifts(w + w / 0x100);
    WordShifts(w + w / 0x100 + (w + w / 0x100) / 0x1_0000);
  }

  /** av_popcount_c: no intermediate sum overflows, and the result is the number of ones. */
  method PopCount(x0: u32) returns (n: nat)
    ensures n == Count(x0)
  {
    hide *;
    WordStages(x0);
    WordFold(x0);
    var x := x0;
    x := x - And(Shr(x, 1), 0x55555555);
    x := And(x, 0x33333333) + And(Shr(x, 2), 0x33333333);
    var sum: u32 := x + Shr(x, 4);
    x := And(sum, 0x0F0F0F0F);
    x := x + Shr(x, 8);
    sum := x + Shr(x, 16);
    n := And(sum, 0x3F);
  }

  /** av_popcount64_c */
  method PopCount64(x: u64) returns (n: nat)
    ensures n == Count(x)
  {
    hide *;
    WordPowers();
    CountSplit(x, 32);
    HighWord(x);
    var low := PopCount(Low(x, 32));
    var high := PopCount(Shr(x, 32));
    n := low + high;
  }

  lemma HighWord(x: u64)
    ensures Shr(x, 32) < 0x1_0000_0000
  {
    hide *;
    Pow2Wide();
    WordPowers();
    ShrBound(x, 32, 32);
  }

  function Parity(x: nat): nat { Count(x) % 2 }

  /** av_parity_c */
  method WordParity(v: u32) returns (p: nat)
    ensures p == Parity(v) == Count(v) % 2
  {
    hide And;
    var n := PopCount(v);
    AndStep(n, 1, 0);
    AndNone(n / 2);
    p := And(n, 1);
  }

  /** The parity bit by bit: nothing is even, and each one turns the parity around. */
  lemma ParityBits(x: nat, b: nat)
    requires b < 2
    ensures Parity(0) == 0
    ensures Parity(2 * x + b) == if b == 0 then Parity(x) else 1 - Parity(x)
  {
    hide Count;
    CountZero();
    CountDouble(x, b);
  }

  /** Each carry of a sum of bits is a common one: how `^` and `&` share out the ones of two words. */
  lemma {:induction false} CountXorAnd(x: nat, y: nat)
    ensures Count(Xor(x, y)) + 2 * Count(And(x, y)) == Count(x) + Count(y)
    decreases x + y
  {
    hide Count;
    CountZero();
    if x != 0 && y != 0 {
      CountXorAnd(x / 2, y / 2);
      CountDouble(x / 2, x % 2);
      CountDouble(y / 2, y % 2);
      CountDouble(Xor(x / 2, y / 2), if x % 2 != y % 2 then 1 else 0);
      CountDouble(And(x / 2, y / 2), if x % 2 == 1 && y % 2 == 1 then 1 else 0);
    }
  }

  /** The parity of x ^ y is the exclusive or of the parities. */
  lemma {:induction false} ParityXor(x: nat, y: nat)
    ensures Parity(Xor(x, y)) == 1 <==> Parity(x) != Parity(y)
    ensures Parity(x) <= 1
  {
    hide Count, Xor, And;
    CountXorAnd(x, y);
  }
}
