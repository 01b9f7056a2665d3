/** Byte swapping (libavutil's bswap.h) and the four-character tags of common.h. */
module ByteSwap {
  import opened Bits

  /** The n low bytes of a word, least significant first. */
  function ToBytes(x: nat, n: nat): (s: seq<byte>)
    ensures |s| == n
  {
    if n == 0 then [] else [x % 0x100] + ToBytes(x / 0x100, n - 1)
  }

  function Reverse(s: seq<byte>): (r: seq<byte>)
    ensures |r| == |s|
    ensures forall i :: 0 <= i < |s| ==> r[i] == s[|s| - 1 - i]
  {
    if s == [] then [] else Reverse(s[1..]) + [s[0]]
  }

  /** AV_BSWAP16C, AV_BSWAP32C and AV_BSWAP64C on a word of w bits. */
  function Swap16C(x: nat, w: nat): nat {
    Or(And(Low(Shl(x, 8), w), 0xFF00), And(Shr(x, 8), 0x00FF))
  }

  function Swap32C(x: nat, w: nat): nat {
    Or(Low(Shl(Swap16C(x, w), 16), w), Swap16C(Shr(x, 16), w))
  }

  function Swap64C(x: nat): nat {
    Or(Low(Shl(Swap32C(x, 64), 32), 64), Swap32C(Shr(x, 32), 64))
  }

  function Swap16(x: u16): (r: u16) {
    Sizes();
    Low(Or(Shr(x, 8), Shl(x, 8)), 16)
  }

  function Swap32(x: u32): (r: u32) {
    Swap32Bytes(x, 32);
    Swap32C(x, 32)
  }

  /** C's conversion to uint32_t. */
  function Low32(x: nat): (r: u32) {
    Sizes();
    Low(x, 32)
  }

  /** `(uint64_t)s << 32 | t` */
  function JoinWords(s: u32, t: u32): (r: u64) {
    JoinFits(s, t);
    Or(Low(Shl(s, 32), 64), t)
  }

  function Swap64(x: u64): (r: u64) {
    JoinWords(Swap32(Low32(x)), Swap32(Low32(Shr(x, 32))))
  }

  function MkTag(a: byte, b: byte, c: byte, d: byte): nat {
    Or(Or(Or(a, Shl(b, 8)), Shl(c, 16)), Shl(d, 24))
  }

  function MkBeTag(a: byte, b: byte, c: byte, d: byte): nat {
    Or(Or(Or(d, Shl(c, 8)), Shl(b, 16)), Shl(a, 24))
  }

  // Fields of a word

  lemma Sizes()
    ensures Pow2(8) == 0x100 && Pow2(16) == 0x1_0000 && Pow2(24) == 0x100_0000
    ensures Pow2(32) == 0x1_0000_0000 && Pow2(64) == 0x1_0000_0000_0000_0000
    ensures Shl(0xFF, 8) == 0xFF00
  {
    Pow2Values();
    Pow2Wide();
    ShlMul(0xFF, 8);
  }

  lemma Shifts(x: nat)
    ensures Shl(x, 8) == x * 0x100 && Shl(x, 16) == x * 0x1_0000
    ensures Shl(x, 24) == x * 0x100_0000 && Shl(x, 32) == x * 0x1_0000_0000
    ensures Shr(x, 8) == x / 0x100 && Shr(x, 16) == x / 0x1_0000 && Shr(x, 32) == x / 0x1_0000_0000
    ensures Low(x, 8) == x % 0x100 && Low(x, 16) == x % 0x1_0000 && Low(x, 32) == x % 0x1_0000_0000
  {
    hide *;
    Sizes();
    ShlMul(x, 8); ShlMul(x, 16); ShlMul(x, 24); ShlMul(x, 32);
    ShrIsDiv(x, 8); ShrIsDiv(x, 16); ShrIsDiv(x, 32);
  }

  /** Swapping the two low bytes, at any word size of at least 16 bits. */
  lemma Swap16Value(x: nat, w: nat)
    requires w >= 16
    ensures Swap16C(x, w) == x % 0x100 * 0x100 + x / 0x100 % 0x100
  {
    hide And, Or, Low, Shl, Shr, Pow2;
    Sizes();
    var y := Low(Shl(x, 8), w);
    AndShl(y, 0xFF, 8);
    ShrShl(x, 8, w);
    AndLow(Low(x, w - 8), 8);
    LowLow(x, w - 8, 8);
    AndLow(Shr(x, 8), 8);
    Shifts(x);
    Shifts(x / 0x100);
    Shifts(x % 0x100);
    OrDisjoint(x % 0x100, x / 0x100 % 0x100, 8);
  }

  /** A half-word swap of the low bytes reverses them, and fits. */
  lemma Swap16Bytes(x: nat, w: nat)
    requires w >= 16
    ensures Swap16C(x, w) < 0x1_0000
    ensures ToBytes(Swap16C(x, w), 2) == Reverse(ToBytes(x, 2))
  {
    hide Swap16C;
    Swap16Value(x, w);
    TwoBytes(x);
    TwoBytes(Swap16C(x, w));
    Digits(x % 0x100, x / 0x100 % 0x100);
  }

  lemma Digits(hi: nat, lo: nat)
    requires hi < 0x100 && lo < 0x100
    ensures (hi * 0x100 + lo) % 0x100 == lo && (hi * 0x100 + lo) / 0x100 % 0x100 == hi
    ensures Reverse([hi, lo]) == [lo, hi]
  {
    assert [hi, lo][1..] == [lo];
  }

  lemma TwoBytes(x: nat)
    ensures ToBytes(x, 2) == [x % 0x100, x / 0x100 % 0x100]
  {
    assert ToBytes(x / 0x100, 1) == [x / 0x100 % 0x100];
  }

  // Bytes of a word made of two halves

  lemma {:induction false} ToBytesSplit(x: nat, m: nat, n: nat)
    ensures ToBytes(x, m + n) == ToBytes(x, m) + ToBytes(Shr(x, 8 * m), n)
    decreases m
  {
    hide Shr;
    if m == 0 {
      ShrNone(x);
    } else {
      ToBytesSplit(x / 0x100, m - 1, n);
      NextByte(x, m);
    }
  }

  lemma NextByte(x: nat, m: nat)
    requires m > 0
    ensures Shr(x / 0x100, 8 * (m - 1)) == Shr(x, 8 * m)
  {
    hide *;
    Shifts(x);
    ShrAdd(x, 8, 8 * (m - 1));
    assert 8 + 8 * (m - 1) == 8 * m;
  }

  lemma {:induction false} ToBytesLow(x: nat, n: nat)
    ensures ToBytes(Low(x, 8 * n), n) == ToBytes(x, n)
    decreases n
  {
    hide Low;
    if n > 0 {
      ToBytesLow(x / 0x100, n - 1);
      LowByte(x, 8 * n);
    }
  }

  lemma LowByte(x: nat, w: nat)
    requires w >= 8
    ensures Low(x, w) % 0x100 == x % 0x100 && Low(x, w) / 0x100 == Low(x / 0x100, w - 8)
  {
    hide *;
    LowLow(x, w, 8);
    Shifts(x);
    Shifts(Low(x, w));
    LowShr(x, 8, w);
  }

  lemma {:induction false} LowShr(x: int, n: nat, w: nat)
    requires n <= w
    ensures Shr(Low(x, w), n) == Low(Shr(x, n), w - n)
    decreases n
  {
    if n > 0 { LowShr(x / 2, n - 1, w - 1); }
  }

  lemma {:induction false} ReverseAppend(a: seq<byte>, b: seq<byte>)
    ensures Reverse(a + b) == Reverse(b) + Reverse(a)
  {
  }

  /** Swapping the halves of a word after reversing each reverses the whole word. */
  lemma SwapHalves(x: nat, n: nat, s: nat, t: nat)
    requires t < Pow2(8 * n)
    requires ToBytes(s, n) == Reverse(ToBytes(x, n))
    requires ToBytes(t, n) == Reverse(ToBytes(Shr(x, 8 * n), n))
    ensures ToBytes(Shl(s, 8 * n) + t, n + n) == Reverse(ToBytes(x, n + n))
  {
    hide *;
    var y := Shl(s, 8 * n) + t;
    ShrField(s, t, 8 * n);
    ToBytesSplit(y, n, n);
    ToBytesLow(y, n);
    ToBytesSplit(x, n, n);
    ReverseAppend(ToBytes(x, n), ToBytes(Shr(x, 8 * n), n));
  }

  lemma {:induction false} BytesDetermine(x: nat, y: nat, n: nat)
    requires x < Pow2(8 * n) && y < Pow2(8 * n)
    requires ToBytes(x, n) == ToBytes(y, n)
    ensures x == y
    decreases n
  {
    if n > 0 {
      hide Pow2;
      ByteBound(x, n);
      ByteBound(y, n);
      assert ToBytes(x, n)[0] == ToBytes(y, n)[0] && ToBytes(x, n)[1..] == ToBytes(y, n)[1..];
      BytesDetermine(x / 0x100, y / 0x100, n - 1);
    } else {
      assert Pow2(0) == 1;
    }
  }

  lemma ByteBound(x: nat, n: nat)
    requires n > 0 && x < Pow2(8 * n)
    ensures x / 0x100 < Pow2(8 * (n - 1))
  {
    hide *;
    assert 8 + 8 * (n - 1) == 8 * n;
    ShrBound(x, 8, 8 * (n - 1));
    Shifts(x);
  }

  // The swaps reverse the bytes

  lemma Swap16Reverses(x: u16)
    ensures ToBytes(Swap16(x), 2) == Reverse(ToBytes(x, 2))
    ensures Swap16(x) == Swap16C(x, 16)
  {
    hide And, Or, Low, Shl, Shr, Pow2, Swap16C;
    Sizes();
    Shifts(x);
    OrDisjoint(x, x / 0x100, 8);
    Shifts(x * 0x100 + x / 0x100);
    Swap16Bytes(x, 16);
    Swap16Value(x, 16);
    ShortWord(x);
  }

  lemma ShortWord(x: u16)
    ensures (x * 0x100 + x / 0x100) % 0x1_0000 == x % 0x100 * 0x100 + x / 0x100 % 0x100
  {
    var q, r := x / 0x100, x % 0x100;
    assert x * 0x100 + q == q * 0x1_0000 + (r * 0x100 + q);
  }

  lemma Swap32Bytes(x: nat, w: nat)
    requires w >= 32
    ensures Swap32C(x, w) < 0x1_0000_0000
    ensures ToBytes(Swap32C(x, w), 4) == Reverse(ToBytes(x, 4))
  {
    hide And, Or, Low, Shl, Shr, Pow2, Swap16C, ToBytes, Reverse;
    Sizes();
    var s, t := Swap16C(x, w), Swap16C(Shr(x, 16), w);
    Swap16Bytes(x, w);
    Swap16Bytes(Shr(x, 16), w);
    Shifts(s);
    Pow2Monotone(32, w);
    LowSmall(Shl(s, 16), w);
    OrDisjoint(s, t, 16);
    SwapHalves(x, 2, s, t);
  }

  lemma Swap32Reverses(x: u32)
    ensures ToBytes(Swap32(x), 4) == Reverse(ToBytes(x, 4))
  {
    hide ToBytes, Reverse, Swap32C;
    Swap32Bytes(x, 32);
  }

  /** av_bswap64 swaps the two 32-bit halves; the macro form does the same on one 64-bit word. */
  lemma Swap64Reverses(x: u64)
    ensures ToBytes(Swap64(x), 8) == Reverse(ToBytes(x, 8))
    ensures Swap64C(x) == Swap64(x)
  {
    hide *;
    Swap64Halves(x);
    HighWord(x);
    Swap32Bytes(x, 64);
    Swap32Bytes(Shr(x, 32), 64);
    Swap32Bytes(Low(x, 32), 32);
    Swap32Bytes(Low(Shr(x, 32), 32), 32);
    ToBytesLow(x, 4);
    Sizes();
    assert 8 * 4 == 32;
    JoinFits(Swap32C(x, 64), Swap32C(Shr(x, 32), 64));
    BytesDetermine(Swap32C(x, 64), Swap32C(Low(x, 32), 32), 4);
    BytesDetermine(Swap32C(Shr(x, 32), 64), Swap32C(Shr(x, 32), 32), 4);
    SwapHalves(x, 4, Swap32C(x, 64), Swap32C(Shr(x, 32), 64));
  }

  lemma Swap64Halves(x: u64)
    ensures Swap64(x) == Or(Low(Shl(Swap32C(Low(x, 32), 32), 32), 64), Swap32C(Low(Shr(x, 32), 32), 32))
    ensures Swap64C(x) == Or(Low(Shl(Swap32C(x, 64), 32), 64), Swap32C(Shr(x, 32), 64))
  {
    hide And, Or, Low, Shl, Shr, Pow2, Swap32C;
  }

  lemma HighWord(x: u64)
    ensures Low(Shr(x, 32), 32) == Shr(x, 32)
  {
    hide *;
    Sizes();
    ShrBound(x, 32, 32);
    LowSmall(Shr(x, 32), 32);
  }

  lemma JoinFits(s: nat, t: nat)
    requires s < 0x1_0000_0000 && t < 0x1_0000_0000
    ensures Or(Low(Shl(s, 32), 64), t) == Shl(s, 32) + t < 0x1_0000_0000_0000_0000
  {
    hide *;
    Sizes();
    Shifts(s);
    LowSmall(Shl(s, 32), 64);
    OrDisjoint(s, t, 32);
  }

  lemma {:induction false} ReverseTwice(s: seq<byte>)
    ensures Reverse(Reverse(s)) == s
  {
  }

  /** Every swap is its own inverse. */
  lemma Swap16Twice(x: u16)
    ensures Swap16(Swap16(x)) == x
  {
    hide *;
    Sizes();
    Swap16Reverses(x);
    Swap16Reverses(Swap16(x));
    ReverseTwice(ToBytes(x, 2));
    BytesDetermine(Swap16(Swap16(x)), x, 2);
  }

  lemma Swap32Twice(x: u32)
    ensures Swap32(Swap32(x)) == x
  {
    hide *;
    Sizes();
    Swap32Reverses(x);
    Swap32Reverses(Swap32(x));
    ReverseTwice(ToBytes(x, 4));
    BytesDetermine(Swap32(Swap32(x)), x, 4);
  }

  lemma Swap64Twice(x: u64)
    ensures Swap64(Swap64(x)) == x
  {
    hide *;
    Sizes();
    Swap64Reverses(x);
    Swap64Reverses(Swap64(x));
    ReverseTwice(ToBytes(x, 8));
    BytesDetermine(Swap64(Swap64(x)), x, 8);
  }

  // Tags

  lemma MkTagBytes(a: byte, b: byte, c: byte, d: byte)
    ensures MkTag(a, b, c, d) < 0x1_0000_0000
    ensures ToBytes(MkTag(a, b, c, d), 4) == [a, b, c, d]
  {
    hide And, Or, Low, Shl, Shr, Pow2, ToBytes;
    Sizes();
    Shifts(b); Shifts(c); Shifts(d);
    OrDisjoint(b, a, 8);
    OrDisjoint(c, a + b * 0x100, 16);
    OrDisjoint(d, a + b * 0x100 + c * 0x1_0000, 24);
    FourBytes(a, b, c, d);
  }

  lemma FourBytes(a: byte, b: byte, c: byte, d: byte)
    ensures ToBytes(a + b * 0x100 + c * 0x1_0000 + d * 0x100_0000, 4) == [a, b, c, d]
  {
    hide *;
    var x := a + b * 0x100 + c * 0x1_0000 + d * 0x100_0000;
    FourDigits(a, b, c, d);
    TwoBytes(x);
    TwoBytes(x / 0x1_0000);
    Shifts(x);
    ToBytesSplit(x, 2, 2);
  }

  lemma FourDigits(a: byte, b: byte, c: byte, d: byte)
    ensures var x := a + b * 0x100 + c * 0x1_0000 + d * 0x100_0000;
      && x % 0x100 == a && x / 0x100 % 0x100 == b
      && x / 0x1_0000 % 0x100 == c && x / 0x1_0000 / 0x100 % 0x100 == d
  {
    var x := a + b * 0x100 + c * 0x1_0000 + d * 0x100_0000;
    assert x / 0x100 == b + c * 0x100 + d * 0x1_0000;
    assert x / 0x1_0000 == c + d * 0x100;
  }

  /** The big-endian tag is the byte-swapped little-endian one. */
  lemma MkBeTagSwaps(a: byte, b: byte, c: byte, d: byte)
    ensures MkTag(a, b, c, d) < 0x1_0000_0000
    ensures MkBeTag(a, b, c, d) == Swap32(MkTag(a, b, c, d))
  {
    hide MkTag, Swap32, ToBytes;
    MkTagBytes(a, b, c, d);
    MkTagBytes(d, c, b, a);
    assert MkBeTag(a, b, c, d) == MkTag(d, c, b, a) by { SameTag(a, b, c, d); }
    Swap32Reverses(MkTag(a, b, c, d));
    assert Reverse([a, b, c, d]) == [d, c, b, a];
    Sizes();
    assert 8 * 4 == 32;
    BytesDetermine(MkBeTag(a, b, c, d), Swap32(MkTag(a, b, c, d)), 4);
  }

  lemma SameTag(a: byte, b: byte, c: byte, d: byte)
    ensures MkBeTag(a, b, c, d) == MkTag(d, c, b, a)
  {
  }
}
