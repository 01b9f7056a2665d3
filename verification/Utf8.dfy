/** The UTF-8 reader and writer of libavutil (GET_UTF8 and PUT_UTF8), in the one-to-six byte form
    of section 2 of RFC 2279.

    `Encode` and `Decode` say what that section's table says; the methods compute with the sliding
    mask, the shift counter and the word-sized temporaries of the two macros. */
module Utf8 {
  import opened Bits
  import opened Outcomes

  // The encoding table

  /** The number of bytes for a code point below 2^31. */
  function Width(v: nat): (n: nat)
    ensures 1 <= n <= 6
  {
    if v < 0x80 then 1
    else if v < 0x800 then 2
    else if v < 0x1_0000 then 3
    else if v < 0x20_0000 then 4
    else if v < 0x400_0000 then 5
    else 6
  }

  /** The marker bits of the first byte of an n-byte character. */
  function LeadMark(n: nat): (m: byte)
  {
    if n == 2 then 0xC0
    else if n == 3 then 0xE0
    else if n == 4 then 0xF0
    else if n == 5 then 0xF8
    else if n == 6 then 0xFC
    else 0
  }

  /** The low 6k bits of v, six to a continuation byte, most significant first. */
  function Tail(v: nat, k: nat): (s: seq<byte>)
    ensures |s| == k
    decreases k
  {
    if k == 0 then [] else Tail(v / 64, k - 1) + [128 + v % 64]
  }

  function Lead(v: nat): (b: nat)
  {
    LeadMark(Width(v)) + Shr(v, 6 * (Width(v) - 1))
  }

  /** An n-byte character holds 5n + 1 bits, of which 7 - n sit in the first byte. */
  lemma LeadFits(v: nat)
    requires v < 0x8000_0000
    ensures Width(v) == 1 ==> Lead(v) == v
    ensures Width(v) > 1 ==>
              Shr(v, 6 * (Width(v) - 1)) < Pow2(7 - Width(v)) == 0x100 - LeadMark(Width(v)) - Pow2(7 - Width(v))
    ensures Lead(v) < 0xFE
  {
    Pow2Values();
    var n := Width(v);
    if n > 1 {
      hide Shr;
      assert v < Pow2(5 * n + 1);
      ShrBound(v, 6 * (n - 1), 7 - n);
    }
  }

  function Encode(v: nat): (s: seq<byte>)
    requires v < 0x8000_0000
    ensures |s| == Width(v)
  {
    LeadFits(v);
    [Lead(v)] + Tail(v, Width(v) - 1)
  }

  // The decoding table

  /** The length a first byte announces; 0 for a byte that cannot start a character. */
  function LeadWidth(b: byte): (n: nat)
    ensures n <= 6
  {
    if b < 0x80 then 1
    else if b < 0xC0 then 0
    else if b < 0xE0 then 2
    else if b < 0xF0 then 3
    else if b < 0xF8 then 4
    else if b < 0xFC then 5
    else if b < 0xFE then 6
    else 0
  }

  predicate IsContinuation(b: byte) { 0x80 <= b < 0xC0 }

  /** The first index from i on that is n, or past the end, or not a continuation byte. */
  function FirstBreak(s: seq<byte>, i: nat, n: nat): (j: nat)
    requires i <= n && i <= |s|
    ensures i <= j <= n && j <= |s|
    ensures forall k :: i <= k < j ==> IsContinuation(s[k])
    ensures j == n || j == |s| || !IsContinuation(s[j])
    decreases n - i
  {
    if i == n || i == |s| || !IsContinuation(s[i]) then i else FirstBreak(s, i + 1, n)
  }

  /** x followed by the low six bits of each of the bytes s[1], ..., s[k]. */
  function Assemble(x: nat, s: seq<byte>, k: nat): (v: nat)
    requires k < |s|
    ensures v >= x
    decreases k
  {
    if k == 0 then x else Assemble(x, s, k - 1) * 64 + s[k] % 64
  }

  /** A value of m bits and k continuation bytes make m + 6k bits. */
  lemma {:induction false} AssembleBound(x: nat, m: nat, s: seq<byte>, k: nat)
    requires k < |s| && x < Pow2(m)
    ensures Assemble(x, s, k) < Pow2(m + 6 * k)
    decreases k
  {
    if k > 0 {
      AssembleBound(x, m, s, k - 1);
      Pow2Six(m + 6 * k - 6);
    }
  }

  /** One character from the front of s: the first byte announces a length, and the bytes after it
      must be continuation bytes. Over-long forms and surrogates are accepted, as in the macro. */
  function Decode(s: seq<byte>): (r: Decoded)
    ensures r.Value? ==> 1 <= r.used <= 6 && r.used <= |s| && r.used == LeadWidth(s[0])
    ensures r.Invalid? ==> 1 <= r.used <= 6 && r.used <= |s|
    ensures r.EndOfInput? ==> |s| < 6
  {
    if s == [] then EndOfInput
    else
      var n := LeadWidth(s[0]);
      if n == 0 then Invalid(1)
      else
        var stop := FirstBreak(s, 1, n);
        if stop == n then Value(Assemble(s[0] - LeadMark(n), s, n - 1), n)
        else if stop < |s| then Invalid(stop + 1)
        else EndOfInput
  }
}
