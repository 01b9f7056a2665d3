/** GET_UTF8, and the proof that its sliding mask finds the length the first byte announces.

    After j continuation bytes `top` is 2^(6+5j) while the first byte has moved up by 6j bits, so
    the loop test looks at bit 6-j of the first byte; `val` wraps at 32 bits in the six-byte form. */
module Utf8Reader {
  import opened Bits
  import opened Outcomes
  import opened Utf8

  lemma {:induction false} AssembleSplit(x: nat, s: seq<byte>, k: nat)
    requires k < |s|
    ensures Assemble(x, s, k) == Shl(x, 6 * k) + Assemble(0, s, k)
    decreases k
  {
    if k > 0 {
      AssembleSplit(x, s, k - 1);
      ShlShl(x, 6 * k - 6, 6);
      assert Shl(Shl(x, 6 * k - 6), 6) == 64 * Shl(x, 6 * k - 6);
    }
  }

  /** Bit 6-j of the first byte says whether a byte follows the j-th continuation byte. */
  lemma LeadBit(lead: byte, j: nat)
    requires 0xC0 <= lead < 0xFE && j < LeadWidth(lead)
    ensures Shr(lead, 6 - j) % 2 == 1 <==> j + 1 < LeadWidth(lead)
  {
    hide Shr;
    ShrSmall(lead);
  }

  /** A first byte moved up over j continuation bytes, seen from bit 6+5j. */
  lemma SlidingBit(lead: nat, y: nat, j: nat)
    requires y < Pow2(6 * j) && j <= 6
    ensures Shr(Shl(lead, 6 * j) + y, 6 + 5 * j) == Shr(lead, 6 - j)
  {
    hide *;
    var m, n := 6 * j, 6 - j;
    ShrField(lead, y, m);
    ShrAdd(Shl(lead, m) + y, m, n);
    assert m + n == 6 + 5 * j;
  }

  lemma AssembledBit(x: nat, s: seq<byte>, j: nat)
    requires j < |s| && j <= 6
    ensures Shr(Assemble(x, s, j), 6 + 5 * j) == Shr(x, 6 - j)
  {
    assert Pow2(0) == 1;
    hide *;
    AssembleSplit(x, s, j);
    AssembleBound(0, 0, s, j);
    SlidingBit(x, Assemble(0, s, j), j);
  }

  /** The loop test, on the word that holds the first byte and j continuation bytes. */
  lemma LoopTest(s: seq<byte>, j: nat)
    requires j < |s| && 0xC0 <= s[0] < 0xFE && j < LeadWidth(s[0])
    ensures And(Low(Assemble(s[0], s, j), 32), Pow2(6 + 5 * j)) != 0 <==> j + 1 < LeadWidth(s[0])
  {
    hide *;
    AssembledBit(s[0], s, j);
    LeadBit(s[0], j);
    AndBitLow(Assemble(s[0], s, j), 32, 6 + 5 * j);
  }

  /** Above its payload the first byte has marker bits only, at or above position 8 - n. */
  lemma LeadSplit(lead: byte) returns (ones: nat, payload: nat)
    requires 0xC0 <= lead < 0xFE
    ensures var n := LeadWidth(lead);
      2 <= n <= 6 && payload == lead - LeadMark(n) < Pow2(7 - n) && lead == Shl(ones, 8 - n) + payload
  {
    var n := LeadWidth(lead);
    Pow2Values();
    ones, payload := Pow2(n) - 1, lead - LeadMark(n);
    Ones(n, 8 - n);
  }

  /** Cutting a word off below a field's markers leaves the field's payload. */
  lemma CutMarkers(ones: nat, payload: nat, y: nat, m: nat, k: nat)
    requires Shl(payload, k) + y < Pow2(m + k)
    ensures Low(Shl(Shl(ones, m) + payload, k) + y, m + k) == Shl(payload, k) + y
  {
    hide *;
    ShlAdd(Shl(ones, m), payload, k);
    ShlShl(ones, m, k);
    ShrField(ones, Shl(payload, k) + y, m + k);
  }

  /** What the final mask leaves of the accumulated value: the payload bits, without the markers. */
  lemma MaskedValue(s: seq<byte>, j: nat)
    requires 0 < j < |s| && 0xC0 <= s[0] < 0xFE && j + 1 == LeadWidth(s[0])
    ensures LeadMark(j + 1) <= s[0]
    ensures Low(Assemble(s[0], s, j), 7 + 5 * j) == Assemble(s[0] - LeadMark(j + 1), s, j)
    ensures Assemble(s[0] - LeadMark(j + 1), s, j) < Pow2(6 + 5 * j)
  {
    hide *;
    var ones, payload := LeadSplit(s[0]);
    var m, k := 7 - j, 6 * j;
    assert Assemble(payload, s, j) < Pow2(6 + 5 * j) <= Pow2(m + k) by {
      AssembleBound(payload, 6 - j, s, j);
      assert 6 - j + k == 6 + 5 * j;
      Pow2Monotone(6 + 5 * j, m + k);
    }
    AssembleSplit(s[0], s, j);
    AssembleSplit(payload, s, j);
    CutMarkers(ones, payload, Assemble(0, s, j), m, k);
    assert m + k == 7 + 5 * j;
  }

  /** The mask `(top << 1) - 1`. For j = 5 the shift overflows to zero and the mask is all ones. */
  lemma MaskWord(j: nat)
    requires 0 < j <= 5
    ensures Low(Low(Shl(Pow2(6 + 5 * j), 1), 32) - 1, 32) == Pow2(7 + 5 * j) - 1
  {
    hide *;
    var m := 7 + 5 * j;
    ShlPow2(m - 1, 1);
    if j == 5 {
      LowPow2(32);
      LowMinusOne(32);
    } else {
      Pow2Strict(m, 32);
      LowSmall(Pow2(m), 32);
      LowSmall(Pow2(m) - 1, 32);
    }
  }

  lemma FinalMask(x: int, j: nat)
    requires 0 < j <= 5
    ensures And(Low(x, 32), Low(Low(Shl(Pow2(6 + 5 * j), 1), 32) - 1, 32)) == Low(x, 7 + 5 * j)
  {
    hide *;
    MaskWord(j);
    AndLow(Low(x, 32), 7 + 5 * j);
    LowLow(x, 32, 7 + 5 * j);
  }

  lemma AsciiFits(x: nat)
    requires x < 0x80
    ensures x < Pow2(32)
  {
  }

  /** For a one-byte character `top` is zero, so the loop is skipped and the mask is all ones. */
  lemma FinalMaskAscii(x: nat)
    requires x < 0x80
    ensures And(x, Low(Low(Shl(0, 1), 32) - 1, 32)) == x
  {
    hide *;
    ShlSub(0, 0, 1);
    AsciiFits(x);
    LowSmall(0, 32);
    LowMinusOne(32);
    AndLow(x, 32);
    LowSmall(x, 32);
  }

  /** The tests on the first byte: its top bit, and its two top bits. */
  lemma LeadTests(b: byte)
    ensures Shr(And(b, 128), 1) == if b < 0x80 then 0 else Pow2(6)
    ensures And(b, 0xC0) == 0x80 || b >= 0xFE <==> LeadWidth(b) == 0
  {
    TopBits(b);
    hide And;
    ShrSmall(And(b, 128));
    assert Pow2(6) == 64;
  }

  lemma TopBits(b: byte)
    ensures And(b, 128) == if b < 0x80 then 0 else 128
    ensures And(b, 0xC0) == 64 * (b / 64)
  {
    ByteMasks();
    hide *;
    AndBit(b, 7);
    AndRun(b, 2, 6);
    TwoTopBits(b);
  }

  lemma ByteMasks()
    ensures Pow2(7) == 128 && Shl(Pow2(2) - 1, 6) == 0xC0
  {
    ShlSix(3);
  }

  lemma TwoTopBits(b: byte)
    ensures Shl(Low(Shr(b, 6), 2), 6) == 64 * (b / 64)
    ensures Shr(b, 7) % 2 == 1 <==> b >= 128
  {
    hide *;
    ShrSmall(b);
    ShrAdd(b, 6, 1);
    ShrSmall(b / 64);
    LowTwo(b / 64);
    ShlSix(b / 64);
  }

  lemma LowTwo(x: nat)
    requires x < 4
    ensures Low(x, 2) == x
  {
  }

  lemma AssembleNext(s: seq<byte>, j: nat)
    requires j + 1 < |s| && IsContinuation(s[j + 1])
    ensures Assemble(s[0], s, j + 1) == Assemble(s[0], s, j) * 64 + (s[j + 1] as int - 128)
  {
  }

  /** One loop step on the wrapped word: `val = (val << 6) + tmp`. */
  lemma ReadStep(s: seq<byte>, j: nat)
    requires j + 1 < |s| && IsContinuation(s[j + 1])
    ensures Low(Low(Shl(Low(Assemble(s[0], s, j), 32), 6), 32) + (s[j + 1] as int - 128), 32)
         == Low(Assemble(s[0], s, j + 1), 32)
  {
    hide *;
    var x, t := Assemble(s[0], s, j), s[j + 1] as int - 128;
    AssembleNext(s, j);
    ShlSix(x);
    LowShl(x, 32, 6);
    LowAdd(Shl(x, 6), t, 32);
  }

  lemma ShlSix(x: int)
    ensures Shl(x, 6) == x * 64
  {
    assert Shl(x, 3) == 8 * x;
  }

  /** `top <<= 5` does not overflow before the sixth byte is read. */
  lemma TopStep(j: nat)
    requires j < 5
    ensures Low(Shl(Pow2(6 + 5 * j), 5), 32) == Pow2(6 + 5 * (j + 1))
  {
    hide *;
    ShlPow2(6 + 5 * j, 5);
    Pow2Strict(6 + 5 * (j + 1), 32);
    LowSmall(Pow2(6 + 5 * (j + 1)), 32);
  }

  /** The value of `top` and `val` when `pos` bytes have been read. */
  function Top(s: seq<byte>, pos: nat): nat
    requires 0 < pos <= |s|
  {
    if s[0] < 0x80 then 0 else Pow2(6 + 5 * (pos - 1))
  }

  function Word(s: seq<byte>, pos: nat): (w: nat)
    requires 0 < pos <= |s|
    ensures w < 0x1_0000_0000
  {
    WordSizes();
    Low(Assemble(s[0], s, pos - 1), 32)
  }

  lemma Started(s: seq<byte>)
    requires s != []
    ensures Word(s, 1) == s[0]
    ensures Shr(And(s[0], 128), 1) == Top(s, 1)
    ensures And(s[0], 0xC0) == 0x80 || s[0] >= 0xFE <==> LeadWidth(s[0]) == 0
  {
    hide And, Shr, Low, Pow2;
    LeadTests(s[0]);
    WordSizes();
    LowSmall(s[0], 32);
  }

  lemma GuardTest(s: seq<byte>, pos: nat)
    requires 0 < pos <= |s| && pos <= LeadWidth(s[0])
    ensures And(Word(s, pos), Top(s, pos)) != 0 <==> pos < LeadWidth(s[0])
  {
    hide Low, Pow2, Shr;
    if s[0] < 0x80 {
      assert And(Word(s, pos), 0) == 0;
    } else {
      hide And;
      LoopTest(s, pos - 1);
    }
  }

  lemma Advance(s: seq<byte>, pos: nat)
    requires 0 < pos < |s| && pos < LeadWidth(s[0])
    ensures Shr(s[pos] as int - 128, 6) == 0 <==> IsContinuation(s[pos])
    ensures IsContinuation(s[pos]) ==>
              && Low(Low(Shl(Word(s, pos), 6), 32) + (s[pos] as int - 128), 32) == Word(s, pos + 1)
              && Low(Shl(Top(s, pos), 5), 32) == Top(s, pos + 1)
  {
    hide Low, Pow2, Shr, Shl, Assemble;
    ShrSmall(s[pos] as int - 128);
    if IsContinuation(s[pos]) { ReadStep(s, pos - 1); }
    TopStep(pos - 1);
  }

  lemma Finished(s: seq<byte>, pos: nat)
    requires 0 < pos <= |s| && pos == LeadWidth(s[0])
    ensures LeadMark(pos) <= s[0]
    ensures And(Word(s, pos), Low(Low(Shl(Top(s, pos), 1), 32) - 1, 32)) == Assemble(s[0] - LeadMark(pos), s, pos - 1)
  {
    hide Low, Pow2, Shr, Shl, And, Assemble;
    if s[0] < 0x80 {
      Started(s);
      FinalMaskAscii(s[0]);
      AssembleNone(s[0], s);
    } else {
      MaskedValue(s, pos - 1);
      FinalMask(Assemble(s[0], s, pos - 1), pos - 1);
    }
  }

  lemma AssembleNone(x: nat, s: seq<byte>)
    requires s != []
    ensures Assemble(x, s, 0) == x
  {
  }

  /** GET_UTF8: `s` is what the byte expression would yield, from here to the end of the input. */
  method GetUtf8(s: seq<byte>) returns (r: Decoded)
    ensures r == Decode(s)
  {
    hide And, Shr, Shl, Low, Pow2, Assemble, Top, Word, LeadMark;
    WordSizes();
    if s == [] { return EndOfInput; }
    Started(s);
    var val: u32, pos := s[0], 1;
    var top: u32 := Shr(And(val, 128), 1);
    if And(val, 0xC0) == 0x80 || val >= 0xFE { return Invalid(pos); }
    ghost var n := LeadWidth(s[0]);
    GuardTest(s, pos);
    while And(val, top) != 0
      invariant 1 <= pos <= n && pos <= |s|
      invariant val == Word(s, pos) && top == Top(s, pos)
      invariant And(val, top) != 0 <==> pos < n
      invariant FirstBreak(s, pos, n) == FirstBreak(s, 1, n)
      decreases |s| - pos
    {
      if pos == |s| { return EndOfInput; }
      Advance(s, pos);
      var tmp := s[pos] as int - 128;
      pos := pos + 1;
      if Shr(tmp, 6) != 0 { return Invalid(pos); }
      val := Low(Low(Shl(val, 6), 32) + tmp, 32);
      top := Low(Shl(top, 5), 32);
      GuardTest(s, pos);
    }
    Finished(s, pos);
    val := And(val, Low(Low(Shl(top, 1), 32) - 1, 32));
    return Value(val, pos);
  }
}
