/** PUT_UTF8, and the proof that its shift-and-mask loop writes the table's encoding. */
module Utf8Writer {
  import opened Bits
  import opened Utf8

  /** floor(log2 v), and 0 at 0. */
  function Log2(v: nat): nat { if v < 2 then 0 else 1 + Log2(v / 2) }

  lemma {:induction false} Log2Bounds(v: nat, k: nat)
    requires Pow2(k) <= v < Pow2(k + 1)
    ensures Log2(v) == k
  {
    if k > 0 { Log2Bounds(v / 2, k - 1); }
  }

  lemma {:induction false} Log2Range(v: nat) returns (k: nat)
    requires v > 0
    ensures Pow2(k) <= v < Pow2(k + 1) && Log2(v) == k
  {
    if v < 2 { k := 0; } else { k := Log2Range(v / 2); k := k + 1; }
  }

  /** The writer's length formula is the length table. */
  lemma WidthFormula(v: nat)
    requires 0x80 <= v < 0x8000_0000
    ensures (Log2(v) + 4) / 5 == Width(v)
  {
    var k := Log2Range(v);
    Pow2Values();
    Log2Order(k, v);
  }

  lemma Log2Order(k: nat, v: nat)
    requires Pow2(k) <= v < Pow2(k + 1)
    ensures forall m: nat {:trigger Pow2(m)} :: v < Pow2(m) <==> k < m
  {
    forall m: nat ensures v < Pow2(m) <==> k < m {
      if k < m { Pow2Monotone(k + 1, m); } else { Pow2Monotone(m, k); }
    }
  }

  /** `0x80 | (x & 0x3f)` is the continuation byte for the low six bits. */
  lemma ContinuationByte(x: nat)
    ensures Or(0x80, And(x, 0x3F)) == 128 + x % 64
  {
    Pow2Values();
    AndLow(x, 6);
    ShrIsDiv(x, 6);
    hide And, Or, Low, Shr;
    assert Shl(2, 6) == 0x80;
    OrDisjoint(2, x % 64, 6);
  }

  /** `(256 - (256 >> n)) | payload` is the first byte of an n-byte character. */
  lemma LeadByte(n: nat, payload: nat)
    requires 2 <= n <= 6 && payload < Pow2(7 - n)
    ensures Or(256 - Shr(256, n), payload) == LeadMark(n) + payload
  {
    Pow2Values();
    assert Shr(256, n) == Pow2(8 - n);
    assert 256 - Shr(256, n) == LeadMark(n);
    var m := Pow2(n + 1) - 2;
    assert Shl(m, 7 - n) == LeadMark(n);
    OrDisjoint(m, payload, 7 - n);
  }

  /** The writer stays within C's defined shifts exactly on code points below 2^31: above that its
      length formula gives seven bytes and a shift by 36 of a 32-bit word. */
  lemma WriterShiftDefined(v: u32)
    requires v >= 0x80
    ensures ((Log2(v) + 4) / 5 - 1) * 6 < 32 <==> v < 0x8000_0000
  {
    if v < 0x8000_0000 {
      WidthFormula(v);
    } else {
      Pow2Values();
      Log2Bounds(v, 31);
    }
  }

  lemma WriterLead(v: nat)
    requires 0x80 <= v < 0x8000_0000
    ensures Low(Or(256 - Shr(256, Width(v)), Shr(v, 6 * (Width(v) - 1))), 8) == Lead(v)
  {
    hide And, Or, Shr, Shl, Low;
    Pow2Values();
    LeadFits(v);
    LeadByte(Width(v), Shr(v, 6 * (Width(v) - 1)));
    LowSmall(Lead(v), 8);
  }

  /** What the writer has emitted when 6k bits of v are still to come. */
  function Written(v: nat, k: nat): seq<byte>
    requires v < 0x8000_0000 && k < Width(v)
  {
    LeadFits(v);
    [Lead(v)] + Tail(Shr(v, 6 * k), Width(v) - 1 - k)
  }

  lemma WrittenAll(v: nat)
    requires v < 0x8000_0000
    ensures Written(v, 0) == Encode(v)
    ensures Written(v, Width(v) - 1) == [Lead(v)]
  {
    assert Shr(v, 0) == v;
  }

  lemma WriterStep(v: nat, k: nat)
    requires v < 0x8000_0000 && 0 < k < Width(v)
    ensures Or(0x80, And(Shr(v, 6 * k - 6), 0x3F)) < 0x100
    ensures Written(v, k) + [Or(0x80, And(Shr(v, 6 * k - 6), 0x3F))] == Written(v, k - 1)
  {
    hide And, Or, Shr, Lead, Width;
    var x := Shr(v, 6 * (k - 1));
    assert Shr(v, 6 * k) == x / 64 by {
      ShrAdd(v, 6 * (k - 1), 6);
      ShrIsDiv(x, 6);
      Pow2Values();
    }
    ContinuationByte(x);
  }

  /** PUT_UTF8: the bytes are appended to `out` one at a time. */
  method PutUtf8(val: u32) returns (out: seq<byte>)
    requires val < 0x8000_0000
    ensures out == Encode(val)
  {
    hide And, Or, Shr, Low, Log2, Pow2, LeadMark, Lead, Encode, Written;
    WrittenAll(val);
    LeadFits(val);
    out := [];
    var tmp: byte;
    if val < 0x80 {
      tmp := val;
      out := out + [tmp];
    } else {
      WidthFormula(val);
      WriterLead(val);
      var bytes := (Log2(val) + 4) / 5;
      var shift := (bytes - 1) * 6;
      tmp := Low(Or(256 - Shr(256, bytes), Shr(val, shift)), 8);
      out := out + [tmp];
      while shift >= 6
        invariant 0 <= shift < 6 * bytes && shift % 6 == 0
        invariant out == Written(val, shift / 6)
      {
        WriterStep(val, shift / 6);
        shift := shift - 6;
        tmp := Or(0x80, And(Shr(val, shift), 0x3F));
        out := out + [tmp];
      }
    }
  }
}
