/** UTF-16 over whole streams, and transcoding between UTF-8 and UTF-16. */
module Utf16Stream {
  import opened Bits
  import opened Outcomes
  import opened Utf16
  import U8 = Utf8
  import S8 = Utf8Stream

  function EncodeAll(vs: seq<u32>): seq<u16> {
    if vs == [] then [] else Encode(vs[0]) + EncodeAll(vs[1..])
  }

  function DecodeAll(s: seq<u16>): Text
    decreases |s|
  {
    if s == [] then Text([])
    else
      match Decode(s)
      case Value(v, used) =>
        (match DecodeAll(s[used..])
         case Text(vs) => Text([v] + vs)
         case Malformed => Malformed)
      case _ => Malformed
  }

  predicate AllScalar(vs: seq<nat>) {
    forall i :: 0 <= i < |vs| ==> IsScalar(vs[i])
  }

  lemma DecodeEncode(v: u32, rest: seq<u16>)
    requires IsScalar(v)
    ensures Decode(Encode(v) + rest) == Value(v, |Encode(v)|)
  {
  }

  lemma EncodeDecode(s: seq<u16>)
    requires Decode(s).Value?
    ensures Encode(Decode(s).value) == s[..Decode(s).used]
  {
  }

  lemma {:induction false} DecodesScalars(s: seq<u16>)
    requires DecodeAll(s).Text?
    ensures AllScalar(DecodeAll(s).values)
    decreases |s|
  {
    hide Decode;
    if s != [] { DecodesScalars(s[Decode(s).used..]); }
  }

  /** Decoding undoes encoding over a whole stream exactly when every code point is a scalar value:
      not a surrogate and at most 0x10FFFF. */
  lemma {:induction false} RoundTrip(vs: seq<u32>)
    ensures DecodeAll(EncodeAll(vs)) == Text(vs) <==> AllScalar(vs)
  {
    if AllScalar(vs) {
      RoundTripScalars(vs);
    } else if DecodeAll(EncodeAll(vs)) == Text(vs) {
      DecodesScalars(EncodeAll(vs));
    }
  }

  lemma {:induction false} RoundTripScalars(vs: seq<u32>)
    requires AllScalar(vs)
    ensures DecodeAll(EncodeAll(vs)) == Text(vs)
  {
    hide Decode, Encode;
    if vs != [] {
      var s, rest := EncodeAll(vs), EncodeAll(vs[1..]);
      DecodeEncode(vs[0], rest);
      assert s[|Encode(vs[0])|..] == rest;
      RoundTripScalars(vs[1..]);
    }
  }

  /** Every stream of units the reader accepts re-encodes to itself. */
  lemma {:induction false} Reencode(s: seq<u16>)
    requires DecodeAll(s).Text?
    ensures AllScalar(DecodeAll(s).values)
    ensures EncodeAll(DecodeAll(s).values) == s
    decreases |s|
  {
    hide Decode, Encode;
    DecodesScalars(s);
    if s != [] {
      var used := Decode(s).used;
      EncodeDecode(s);
      Reencode(s[used..]);
      assert DecodeAll(s).values[1..] == DecodeAll(s[used..]).values;
      assert s == s[..used] + s[used..];
    }
  }

  // Order

  /** One code point at the top of the basic plane, the other above it. */
  predicate Exceptional(v: u32, w: u32) {
    0xE000 <= v < 0x1_0000 <= w || 0xE000 <= w < 0x1_0000 <= v
  }

  lemma OrderException(v: u32, w: u32)
    requires IsScalar(v) && IsScalar(w) && v < w
    ensures if Exceptional(v, w) then S8.Below(Encode(w), Encode(v)) else S8.Below(Encode(v), Encode(w))
  {
    var a, b := Encode(v), Encode(w);
    if |a| == 2 && a[0] == b[0] {
      assert a[1..] == [a[1]] && b[1..] == [b[1]];
    }
  }

  /** The first place where the texts differ has such a pair. */
  predicate Misordered(a: seq<u32>, b: seq<u32>) {
    && a != [] && b != []
    && if a[0] == b[0] then Misordered(a[1..], b[1..]) else Exceptional(a[0], b[0])
  }

  /** The order of the units of two texts is the order of their code points, except that it is the
      opposite one if they first differ in a code point of E000..FFFF against a supplementary one. */
  lemma {:induction false} UnitOrder(a: seq<u32>, b: seq<u32>)
    requires AllScalar(a) && AllScalar(b)
    ensures S8.LexLess(EncodeAll(a), EncodeAll(b)) <==> (S8.LexLess(a, b) != Misordered(a, b))
    decreases |a|
  {
    hide Encode, Exceptional;
    if a != [] && b != [] {
      var s, t := EncodeAll(a[1..]), EncodeAll(b[1..]);
      if a[0] == b[0] {
        S8.LexPrefix(Encode(a[0]), s, t);
        UnitOrder(a[1..], b[1..]);
      } else {
        FirstUnits(a[0], b[0], s, t);
      }
    }
  }

  lemma FirstUnits(v: u32, w: u32, s: seq<u16>, t: seq<u16>)
    requires IsScalar(v) && IsScalar(w) && v != w
    ensures S8.LexLess(Encode(v) + s, Encode(w) + t) <==> (v < w) != Exceptional(v, w)
  {
    if v < w { OrderException(v, w); } else { OrderException(w, v); }
    hide Encode;
    if (v < w) != Exceptional(v, w) {
      S8.BelowDecides(Encode(v), Encode(w), s, t);
    } else {
      S8.BelowDecides(Encode(w), Encode(v), t, s);
    }
  }

  // Transcoding

  function Utf8To16(s: seq<byte>): Option<seq<u16>> {
    match S8.DecodeAll(s)
    case Text(vs) =>
      S8.ValuesInRange(s);
      Some(EncodeAll(vs))
    case Malformed => None
  }

  function Utf16To8(s: seq<u16>): Option<seq<byte>> {
    match DecodeAll(s)
    case Text(vs) =>
      DecodesScalars(s);
      Some(S8.EncodeAll(vs))
    case Malformed => None
  }

  /** Shortest-form UTF-8 text of scalar values, as a scan of the bytes can tell. */
  predicate IsScalarText(s: seq<byte>)
    decreases |s|
  {
    s == [] ||
    match U8.Decode(s)
    case Value(v, used) => IsScalar(v) && used == U8.Width(v) && IsScalarText(s[used..])
    case _ => false
  }

  lemma {:induction false} ScalarTextDecodes(s: seq<byte>)
    requires IsScalarText(s)
    ensures S8.DecodeAll(s).Text? && AllScalar(S8.DecodeAll(s).values) && S8.EncodeAll(S8.Values(s)) == s
    decreases |s|
  {
    hide U8.Decode, U8.Encode, U8.Width, IsScalar;
    if s != [] {
      var used := U8.Decode(s).used;
      S8.ShortestForm(s);
      ScalarTextDecodes(s[used..]);
      assert S8.Values(s)[1..] == S8.Values(s[used..]);
      assert s == s[..used] + s[used..];
    }
  }

  lemma {:induction false} ScalarsMakeText(vs: seq<S8.CodePoint>)
    requires AllScalar(vs)
    ensures IsScalarText(S8.EncodeAll(vs))
  {
    hide U8.Decode, U8.Encode, U8.Width, IsScalar;
    if vs != [] {
      var s, rest := S8.EncodeAll(vs), S8.EncodeAll(vs[1..]);
      S8.DecodeEncode(vs[0], rest);
      assert s[U8.Width(vs[0])..] == rest;
      ScalarsMakeText(vs[1..]);
    }
  }

  /** The scan accepts exactly what the writer can make of scalar values. */
  lemma ScalarTexts(s: seq<byte>)
    ensures IsScalarText(s) <==> exists vs: seq<S8.CodePoint> :: AllScalar(vs) && s == S8.EncodeAll(vs)
  {
    hide IsScalarText;
    if IsScalarText(s) {
      ScalarTextDecodes(s);
      assert s == S8.EncodeAll(S8.Values(s));
    }
    if vs: seq<S8.CodePoint> :| AllScalar(vs) && s == S8.EncodeAll(vs) { ScalarsMakeText(vs); }
  }

  function ThereAndBack(s: seq<byte>): Option<seq<byte>> {
    match Utf8To16(s)
    case Some(us) => Utf16To8(us)
    case None => None
  }

  /** Transcoding UTF-8 to UTF-16 and back is the identity exactly on shortest-form text of scalar
      values; on any other bytes it fails or returns different bytes. */
  lemma TranscodeIdentity(s: seq<byte>)
    ensures ThereAndBack(s) == Some(s) <==> IsScalarText(s)
  {
    hide IsScalarText;
    if IsScalarText(s) {
      ScalarTextDecodes(s);
      RoundTripScalars(S8.Values(s));
    }
    if ThereAndBack(s) == Some(s) {
      var us := Utf8To16(s).value;
      DecodesScalars(us);
      ScalarsMakeText(DecodeAll(us).values);
    }
  }

  /** In the other direction every unit stream the reader accepts survives. */
  lemma TranscodeBack(us: seq<u16>)
    ensures Utf16To8(us).Some? <==> DecodeAll(us).Text?
    ensures Utf16To8(us).Some? ==> Utf8To16(Utf16To8(us).value) == Some(us)
  {
    if DecodeAll(us).Text? {
      Reencode(us);
      S8.RoundTrip(DecodeAll(us).values);
    }
  }
}
