/** The UTF-16 reader and writer of libavutil (GET_UTF16 and PUT_UTF16), against sections 2.1 and
    2.2 of RFC 2781. Neither macro checks its argument: the writer takes any 32-bit value. */
module Utf16 {
  import opened Bits
  import opened Outcomes

  /** The code points UTF-16 can carry. */
  predicate IsScalar(v: int) { 0 <= v < 0xD800 || 0xE000 <= v < 0x11_0000 }

  /** The writer's units. Above 0x10FFFF there is no such encoding: of the bits that no longer fit, bit
      13 shows up in the first unit, bits 11, 12, 14 and 15 coincide with ones of the marker, and the
      rest are lost. */
  function Encode(v: u32): (s: seq<u16>)
    ensures 1 <= |s| <= 2
  {
    if v < 0x1_0000 then [v]
    else
      var high, low := (v - 0x1_0000) / 0x400, (v - 0x1_0000) % 0x400;
      [FirstUnit(high), 0xDC00 + low]
  }

  function FirstUnit(high: nat): u16 {
    if high < 0x400 then 0xD800 + high else 0xD800 + 0x2000 * (high / 0x2000 % 2) + high % 0x800
  }

  function Decode(s: seq<u16>): (r: Decoded)
    ensures r.Value? ==> 1 <= r.used <= 2 && r.used <= |s| && IsScalar(r.value)
  {
    if s == [] then EndOfInput
    else if !(0xD800 <= s[0] < 0xE000) then Value(s[0], 1)
    else if |s| == 1 then EndOfInput
    else if s[0] < 0xDC00 && 0xDC00 <= s[1] < 0xE000 then
      Value(0x1_0000 + (s[0] as int - 0xD800) * 0x400 + (s[1] as int - 0xDC00), 2)
    else Invalid(2)
  }

  /** When the reader answers what: a unit outside D800..DFFF stands for itself; one inside needs a
      second unit, and is an error unless it is the high half of a pair and the other the low half. */
  lemma Reads(s: seq<u16>)
    ensures Decode(s).EndOfInput? <==> s == [] || (|s| == 1 && 0xD800 <= s[0] <= 0xDFFF)
    ensures Decode(s) == Invalid(2) <==>
            |s| >= 2 && 0xD800 <= s[0] <= 0xDFFF && !(s[0] <= 0xDBFF && 0xDC00 <= s[1] <= 0xDFFF)
    ensures Decode(s).Invalid? ==> Decode(s).used == 2
    ensures forall v, used :: Decode(s) == Value(v, used) <==>
            || (used == 1 && s != [] && v == s[0] && !(0xD800 <= v <= 0xDFFF))
            || (used == 2 && |s| >= 2 && 0xD800 <= s[0] <= 0xDBFF && 0xDC00 <= s[1] <= 0xDFFF
                && v == 0x1_0000 + (s[0] as int - 0xD800) * 0x400 + (s[1] as int - 0xDC00))
  {
  }

  /** What the writer writes: every value below 0x10000 as it is, a surrogate too, and any other as two
      units, the second with its low ten bits, the first with bits 0..10 and 13 of the rest. */
  lemma Writes(v: u32)
    ensures v < 0x1_0000 ==> Encode(v) == [v]
    ensures v >= 0x1_0000 ==>
              var rest := (v - 0x1_0000) / 0x400;
              |Encode(v)| == 2 && Encode(v)[1] == 0xDC00 + v % 0x400
              && Encode(v)[0] == 0xD800 + rest % 0x800 + (if rest / 0x2000 % 2 == 1 then 0x2000 else 0)
  {
  }

  // The writer

  lemma OrFive(x: nat)
    requires x < 32
    ensures Or(27, x) == 27 + 4 * (x / 4 % 2)
  {
    hide Or;
    OrStep(27, x);
    OrStep(13, x / 2);
    OrStep(6, x / 4);
    OrStep(3, x / 8);
    OrStep(1, x / 16);
    OrNone(0);
  }

  /** The marker is five bits above eleven. */
  lemma MarkerSplit(y: nat)
    requires y < 0x1_0000
    ensures Or(0xD800, y) == 0x800 * Or(27, y / 0x800) + y % 0x800
  {
    Pow2Values();
    hide *;
    OrSplit(0xD800, y, 11);
    ShrIsDiv(0xD800, 11);
    ShrIsDiv(y, 11);
    OrNone(y % 0x800);
    ShrLowMul(Or(0xD800, y), 11);
  }

  lemma UnitBits(high: nat, y: nat)
    requires y == high % 0x1_0000
    ensures y / 0x800 < 32
    ensures 0x800 * (27 + 4 * (y / 0x800 / 4 % 2)) + y % 0x800
         == 0xD800 + 0x2000 * (high / 0x2000 % 2) + high % 0x800
  {
    hide *;
    var k := high / 0x1_0000;
    assert high / 0x2000 == 8 * k + y / 0x2000;
    assert y / 0x800 / 4 == y / 0x2000;
    DivModUnique(high, 0x800, 32 * k + y / 0x800, y % 0x800);
  }

  lemma HighUnit(high: nat)
    ensures Low(Or(0xD800, high), 16) == FirstUnit(high)
  {
    SurrogateWords();
    hide Low, Or, Shr, Shl, Pow2;
    OrSplit(0xD800, high, 16);
    LowSmall(0xD800, 16);
    ShrIsDiv(high, 16);
    UnitBits(high, Low(high, 16));
    MarkerSplit(Low(high, 16));
    OrFive(Low(high, 16) / 0x800);
  }

  lemma LowUnit(x: nat)
    ensures Or(0xDC00, And(x, 0x3FF)) == 0xDC00 + x % 0x400
  {
    SurrogateWords();
    hide *;
    AndLow(x, 10);
    ShrIsDiv(x, 10);
    OrDisjoint(0x37, x % 0x400, 10);
  }

  lemma SurrogateWords()
    ensures Pow2(10) == 0x400 && Pow2(16) == 0x1_0000
    ensures Shl(0x36, 10) == 0xD800 && Shl(0x37, 10) == 0xDC00
  {
    Pow2Values();
    ShlMul(0x36, 10);
    ShlMul(0x37, 10);
  }

  /** PUT_UTF16 */
  method PutUtf16(val: u32) returns (out: seq<u16>)
    ensures out == Encode(val)
  {
    hide And, Or, Shr, Low, Pow2;
    out := [];
    var tmp: u16;
    if val < 0x1_0000 {
      tmp := val;
      out := out + [tmp];
    } else {
      SurrogateWords();
      ShrIsDiv(val - 0x1_0000, 10);
      HighUnit((val - 0x1_0000) / 0x400);
      LowUnit(val - 0x1_0000);
      tmp := Low(Or(0xD800, Shr(val - 0x1_0000, 10)), 16);
      out := out + [tmp];
      tmp := Or(0xDC00, And(val - 0x1_0000, 0x3FF));
      out := out + [tmp];
    }
  }

  // The reader

  /** Subtracting a surrogate base from a unit, in unsigned 32-bit arithmetic. */
  lemma UnitMinus(u: u16, base: u16)
    ensures Low(u - base as int, 32) == if u >= base then u - base else u - base as int + 0x1_0000_0000
  {
    WordSizes();
    hide *;
    if u >= base { LowSmall(u - base, 32); } else { LowNegative(u - base as int, 32); }
  }

  lemma PairValue(hi: nat, lo: nat)
    requires hi < 0x400 && lo < 0x400
    ensures Low(lo + Low(Shl(hi, 10), 32) + 0x1_0000, 32) == 0x1_0000 + hi * 0x400 + lo
  {
    WordSizes();
    SurrogateWords();
    hide *;
    ShlMul(hi, 10);
    LowSmall(hi * 0x400, 32);
    LowSmall(0x1_0000 + hi * 0x400 + lo, 32);
  }

  /** GET_UTF16: `s` is what the unit expression would yield, from here to the end of the input. */
  method GetUtf16(s: seq<u16>) returns (r: Decoded)
    ensures r == Decode(s)
  {
    hide Low, Shl, Pow2;
    WordSizes();
    if s == [] { return EndOfInput; }
    var val: u32 := s[0];
    UnitMinus(s[0], 0xD800);
    var hi: u32 := Low(val - 0xD800, 32);
    if hi < 0x800 {
      if |s| == 1 { return EndOfInput; }
      UnitMinus(s[1], 0xDC00);
      val := Low(s[1] as int - 0xDC00, 32);
      if val > 0x3FF || hi > 0x3FF { return Invalid(2); }
      PairValue(hi, val);
      val := Low(val + Low(Shl(hi, 10), 32) + 0x1_0000, 32);
      return Value(val, 2);
    }
    return Value(val, 1);
  }
}
