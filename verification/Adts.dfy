/** ADTS framing of AAC (addAdtsPacket and getFreqIndex in mux_stream.cpp), against the header
    layout of section 6.2 of ISO/IEC 13818-7.

    `Header` is what the muxer computes byte by byte. `Layout` is the standard's sequence of bit
    fields, and the parser reads fields, not the muxer's bytes. */
module Adts {
  import opened Bits
  import opened Outcomes

  const ADTS_LENGTH := 7
  const MAX_FRAME := 8191

  datatype AudioParams = AudioParams(profile: int, sampleRate: int, channels: int)
  datatype Frame = Frame(audio: AudioParams, payload: seq<byte>)

  function GetFreqIndex(sampleRate: int): int {
    if sampleRate == 96000 then 0
    else if sampleRate == 88200 then 1
    else if sampleRate == 64000 then 2
    else if sampleRate == 48000 then 3
    else if sampleRate == 44100 then 4
    else if sampleRate == 32000 then 5
    else if sampleRate == 24000 then 6
    else if sampleRate == 22050 then 7
    else if sampleRate == 16000 then 8
    else if sampleRate == 12000 then 9
    else if sampleRate == 11025 then 10
    else if sampleRate == 8000 then 11
    else if sampleRate == 7350 then 12
    else -1
  }

  const RATES: seq<int> := [96000, 88200, 64000, 48000, 44100, 32000, 24000, 22050, 16000, 12000, 11025, 8000, 7350]

  lemma FreqIndexInverts(rate: int, i: int)
    ensures GetFreqIndex(rate) == i && i >= 0 <==> 0 <= i < |RATES| && RATES[i] == rate
    ensures GetFreqIndex(rate) >= -1
  {
  }

  /** The standard's rates: three families halved down the table, and a last one of its own. */
  lemma RateFamilies()
    ensures |RATES| == 13 && RATES[..3] == [96000, 88200, 64000] && RATES[12] == 7350
    ensures forall i :: 0 <= i < 9 ==> RATES[i] == 2 * RATES[i + 3]
    ensures forall i, j :: 0 <= i < j < 13 ==> RATES[i] > RATES[j]
  {
    assert RATES[..3] == [96000, 88200, 64000];
  }

  /** The header for a frame of `length` bytes in all, each expression cut to a byte as in C. */
  function Header(audio: AudioParams, length: nat): (h: seq<byte>)
    ensures |h| == ADTS_LENGTH
  {
    var freqIdx := GetFreqIndex(audio.sampleRate);
    [0xFF,
     0xF9,
     ToByte(Shl(audio.profile - 1, 6) + Shl(freqIdx, 2) + Shr(audio.channels, 2)),
     ToByte(Shl(And(Low(audio.channels, 32), 3), 6) + Shr(length, 11)),
     ToByte(Shr(And(length, 0x7FF), 3)),
     ToByte(Shl(And(length, 7), 5) + 0x1F),
     0xFC]
  }

  function ToByte(x: int): (b: byte) {
    ByteSize();
    Low(x, 8)
  }

  lemma ByteSize()
    ensures Pow2(8) == 0x100
  {
  }

  function Encode(f: Frame): seq<byte> {
    Header(f.audio, |f.payload| + ADTS_LENGTH) + f.payload
  }

  /** What thirteen bits of length, two of profile, three of channels and the rate table can say. */
  predicate InRange(audio: AudioParams, n: nat) {
    1 <= audio.profile <= 4 && 0 <= audio.channels <= 7 && GetFreqIndex(audio.sampleRate) >= 0 && n <= MAX_FRAME
  }

  predicate Representable(f: Frame) { InRange(f.audio, |f.payload| + ADTS_LENGTH) }

  // Bit fields, most significant first

  datatype Field = Field(value: nat, width: nat)

  function TotalWidth(widths: seq<nat>): nat {
    if widths == [] then 0 else widths[0] + TotalWidth(widths[1..])
  }

  function Widths(fs: seq<Field>): (w: seq<nat>)
    ensures |w| == |fs|
  {
    if fs == [] then [] else [fs[0].width] + Widths(fs[1..])
  }

  function Pack(fs: seq<Field>): nat {
    if fs == [] then 0 else Shl(fs[0].value, TotalWidth(Widths(fs[1..]))) + Pack(fs[1..])
  }

  function Unpack(x: nat, widths: seq<nat>): (fs: seq<Field>)
    ensures |fs| == |widths|
    decreases |widths|
  {
    if widths == [] then []
    else
      var below := TotalWidth(widths[1..]);
      [Field(Shr(x, below), widths[0])] + Unpack(Low(x, below), widths[1..])
  }

  predicate FieldsFit(fs: seq<Field>) {
    forall i :: 0 <= i < |fs| ==> fs[i].value < Pow2(fs[i].width)
  }

  lemma {:induction false} PackBound(fs: seq<Field>)
    requires FieldsFit(fs)
    ensures Pack(fs) < Pow2(TotalWidth(Widths(fs)))
  {
    if fs != [] {
      var below := TotalWidth(Widths(fs[1..]));
      PackBound(fs[1..]);
      FieldBound(fs[0].value, fs[0].width, below);
      assert Widths(fs)[1..] == Widths(fs[1..]);
    }
  }

  lemma FieldBound(v: nat, width: nat, below: nat)
    requires v < Pow2(width)
    ensures Shl(v, below) + Pow2(below) <= Pow2(width + below)
  {
    hide *;
    ShlPow2(width, below);
    ShlOne(below);
    ShlSub(Pow2(width), v, below);
    ShlMonotone(1, Pow2(width) - v, below);
  }

  lemma {:induction false} ShlMonotone(x: int, y: int, n: nat)
    requires x <= y
    ensures Shl(x, n) <= Shl(y, n)
  {
    if n > 0 { ShlMonotone(x, y, n - 1); }
  }

  /** Fields packed side by side come apart again. */
  lemma {:induction false} UnpackPack(fs: seq<Field>)
    requires FieldsFit(fs)
    ensures Unpack(Pack(fs), Widths(fs)) == fs
  {
    if fs != [] {
      hide Pow2, Shl, Shr, Low;
      var rest := fs[1..];
      PackBound(rest);
      UnpackPack(rest);
      ShrField(fs[0].value, Pack(rest), TotalWidth(Widths(rest)));
      assert Widths(fs)[1..] == Widths(rest);
    }
  }

  // The header as fields

  /** Section 6.2: syncword, ID, layer, protection_absent, profile, sampling_frequency_index,
      private_bit, channel_configuration, original_copy, home, the two copyright bits,
      frame_length, buffer_fullness, number_of_raw_data_blocks. */
  const HEADER_WIDTHS: seq<nat> := [12, 1, 2, 1, 2, 4, 1, 3, 1, 1, 1, 1, 13, 11, 2]

  function Layout(profile: nat, index: nat, channels: nat, length: nat): (fs: seq<Field>) {
    [Field(0xFFF, 12), Field(1, 1), Field(0, 2), Field(1, 1), Field(profile, 2), Field(index, 4), Field(0, 1),
     Field(channels, 3), Field(0, 1), Field(0, 1), Field(0, 1), Field(0, 1),
      Field(length, 13), Field(0x7FF, 11), Field(0, 2)]
  }

  /** The bytes of a header as one big-endian number. */
  function BigEndian(s: seq<byte>): nat {
    if s == [] then 0 else BigEndian(s[..|s| - 1]) * 0x100 + s[|s| - 1]
  }

  /** The audio parameters and frame length of an unprotected frame with a known sample rate. */
  function ParseFields(h: seq<Field>): Option<(AudioParams, nat)>
    requires |h| == |HEADER_WIDTHS|
  {
    if !(h[0].value == 0xFFF && h[2].value == 0 && h[3].value == 1) then None
    else if h[5].value >= |RATES| then None
    else Some((AudioParams(h[4].value + 1, RATES[h[5].value], h[7].value), h[12].value))
  }

  /** Reads one frame: a header, then as many bytes as its frame length announces. */
  function ParseFrame(s: seq<byte>): (r: Option<(Frame, nat)>)
    ensures r.Some? ==> 0 < r.value.1 <= |s|
  {
    if |s| < ADTS_LENGTH then None
    else
      match ParseFields(Unpack(BigEndian(s[..ADTS_LENGTH]), HEADER_WIDTHS))
      case None => None
      case Some((audio, length)) =>
        if ADTS_LENGTH <= length <= |s| then Some((Frame(audio, s[ADTS_LENGTH..length]), length)) else None
  }

  function ParseStream(s: seq<byte>): Option<seq<Frame>>
    decreases |s|
  {
    if s == [] then Some([])
    else
      hide ParseFrame;
      match ParseFrame(s)
      case None => None
      case Some((f, used)) =>
        match ParseStream(s[used..])
        case None => None
        case Some(fs) => Some([f] + fs)
  }

  function EncodeStream(fs: seq<Frame>): seq<byte> {
    if fs == [] then [] else Encode(fs[0]) + EncodeStream(fs[1..])
  }

  /** The header of any frame, in range or not: each byte keeps what fits it, so a length above 8191
      spills into the fields before it, and so do a channel count and an index that do not fit. */
  lemma HeaderOfAny(audio: AudioParams, n: nat)
    ensures var p, f, c := audio.profile - 1, GetFreqIndex(audio.sampleRate), audio.channels;
      Header(audio, n) == [0xFF, 0xF9, (p * 64 + f * 4 + c / 4) % 256, (c % 4 * 64 + n / 2048) % 256,
                           n % 2048 / 8, n % 8 * 32 + 31, 0xFC]
  {
    var p, f, c := audio.profile - 1, GetFreqIndex(audio.sampleRate), audio.channels;
    hide GetFreqIndex, And, Low, Shl, Shr, Pow2;
    HeaderPowers();
    ByteSize();
    LowLow(c, 32, 2); ShrIsDiv(c, 2);
    AndLow(Low(c, 32), 2); AndLow(n, 11); AndLow(n, 3);
    ShrIsDiv(n, 11); ShrIsDiv(n, 3); ShrIsDiv(n % 2048, 3);
    ShlMul(p, 6); ShlMul(f, 2); ShlMul(c % 4, 6); ShlMul(n % 8, 5);
    ShrIsDiv(p * 64 + f * 4 + c / 4, 8);
    ShrIsDiv(c % 4 * 64 + n / 2048, 8);
    LowSmall(n % 2048 / 8, 8);
    LowSmall(n % 8 * 32 + 31, 8);
  }

  lemma HeaderPowers()
    ensures Pow2(1) == 2 && Pow2(4) == 16 && Pow2(12) == 4096
    ensures Pow2(2) == 4 && Pow2(3) == 8 && Pow2(5) == 32 && Pow2(6) == 64 && Pow2(11) == 2048
    ensures Pow2(13) == 0x2000 && Pow2(30) == 0x4000_0000 && Pow2(32) == 0x1_0000_0000
    ensures Pow2(34) == 0x4_0000_0000 && Pow2(38) == 0x40_0000_0000 && Pow2(40) == 0x100_0000_0000
    ensures Pow2(43) == 0x800_0000_0000 && Pow2(44) == 0x1000_0000_0000
  {
    Pow2Values();
  }

  lemma BigEndianSeven(s: seq<byte>)
    requires |s| == 7
    ensures BigEndian(s) == s[0] as int * 0x1_0000_0000_0000 + s[1] as int * 0x100_0000_0000
                            + s[2] as int * 0x1_0000_0000
                            + s[3] as int * 0x100_0000 + s[4] as int * 0x1_0000 + s[5] as int * 0x100 + s[6]
  {
    BigEndianLast(s);
    BigEndianLast(s[..6]); BigEndianLast(s[..5]); BigEndianLast(s[..4]);
    BigEndianLast(s[..3]); BigEndianLast(s[..2]); BigEndianLast(s[..1]);
    hide BigEndian;
    assert s[..6][..5] == s[..5] && s[..5][..4] == s[..4] && s[..4][..3] == s[..3];
    assert s[..3][..2] == s[..2] && s[..2][..1] == s[..1] && s[..1][..0] == [];
  }

  lemma BigEndianLast(s: seq<byte>)
    requires s != []
    ensures BigEndian(s) == BigEndian(s[..|s| - 1]) * 0x100 + s[|s| - 1]
    ensures BigEndian([]) == 0
  {
  }

  lemma PackCons(v: nat, w: nat, rest: seq<Field>, below: nat, power: nat)
    requires TotalWidth(Widths(rest)) == below && Pow2(below) == power
    ensures Pack([Field(v, w)] + rest) == v * power + Pack(rest)
    ensures TotalWidth(Widths([Field(v, w)] + rest)) == w + below
  {
    ShlMul(v, below);
    hide Pow2, Shl;
    var fs := [Field(v, w)] + rest;
    assert fs[1..] == rest && Widths(fs)[1..] == Widths(rest);
  }

  lemma PackZero(w: nat, rest: seq<Field>, below: nat)
    requires TotalWidth(Widths(rest)) == below
    ensures Pack([Field(0, w)] + rest) == Pack(rest)
    ensures TotalWidth(Widths([Field(0, w)] + rest)) == w + below
  {
    PackCons(0, w, rest, below, Pow2(below));
  }

  lemma LayoutValue(p: nat, f: nat, c: nat, n: nat)
    ensures Pack(Layout(p, f, c, n)) == 0xFFF * 0x1000_0000_0000 + 0x800_0000_0000 + 0x100_0000_0000
                                       + p * 0x40_0000_0000
                                        + f * 0x4_0000_0000 + c * 0x4000_0000 + n * 0x2000 + 0x7FF * 4
    ensures TotalWidth(Widths(Layout(p, f, c, n))) == 56
  {
    hide Pack, TotalWidth, Widths, Pow2;
    HeaderPowers();
    PackNone();
    var r := [Field(0, 2)] + [];
    PackZero(2, [], 0);
    PackCons(0x7FF, 11, r, 2, 4);
    r := [Field(0x7FF, 11)] + r;
    PackCons(n, 13, r, 13, 0x2000);
    r := [Field(n, 13)] + r;
    PackZero(1, r, 26);
    r := [Field(0, 1)] + r;
    PackZero(1, r, 27);
    r := [Field(0, 1)] + r;
    PackZero(1, r, 28);
    r := [Field(0, 1)] + r;
    PackZero(1, r, 29);
    r := [Field(0, 1)] + r;
    PackCons(c, 3, r, 30, 0x4000_0000);
    r := [Field(c, 3)] + r;
    PackZero(1, r, 33);
    r := [Field(0, 1)] + r;
    PackCons(f, 4, r, 34, 0x4_0000_0000);
    r := [Field(f, 4)] + r;
    PackCons(p, 2, r, 38, 0x40_0000_0000);
    r := [Field(p, 2)] + r;
    PackCons(1, 1, r, 40, 0x100_0000_0000);
    r := [Field(1, 1)] + r;
    PackZero(2, r, 41);
    r := [Field(0, 2)] + r;
    PackCons(1, 1, r, 43, 0x800_0000_0000);
    r := [Field(1, 1)] + r;
    PackCons(0xFFF, 12, r, 44, 0x1000_0000_0000);
    r := [Field(0xFFF, 12)] + r;
    assert r == Layout(p, f, c, n);
  }

  lemma PackNone()
    ensures Pack([]) == 0 && TotalWidth(Widths([])) == 0 && Pow2(0) == 1
  {
  }

  /** The standard's fields for a frame of n bytes. */
  function HeaderLayout(audio: AudioParams, n: nat): seq<Field>
    requires InRange(audio, n)
  {
    Layout(audio.profile - 1, GetFreqIndex(audio.sampleRate), audio.channels, n)
  }

  /** In range, the muxer's seven bytes are the standard's fields. */
  lemma HeaderIsLayout(audio: AudioParams, n: nat)
    requires InRange(audio, n)
    ensures BigEndian(Header(audio, n)) == Pack(HeaderLayout(audio, n))
  {
    var p, f, c := audio.profile - 1, GetFreqIndex(audio.sampleRate), audio.channels;
    hide Header, BigEndian, Pack, Layout, GetFreqIndex;
    FreqIndexInverts(audio.sampleRate, f);
    HeaderOfAny(audio, n);
    NoSpill(p, f, c, n);
    BigEndianSeven(Header(audio, n));
    LayoutValue(p, f, c, n);
  }

  /** In range every field keeps to its own bits. */
  lemma NoSpill(p: nat, f: nat, c: nat, n: nat)
    requires p <= 3 && f <= 12 && c <= 7 && n <= MAX_FRAME
    ensures (p * 64 + f * 4 + c / 4) % 256 == p * 64 + f * 4 + c / 4
    ensures (c % 4 * 64 + n / 2048) % 256 == c % 4 * 64 + n / 2048
    ensures c == c / 4 * 4 + c % 4
    ensures n == n / 2048 * 2048 + n % 2048 / 8 * 8 + n % 8
  {
  }

  /** The standard's fields are read back from the muxer's header. */
  lemma HeaderFields(audio: AudioParams, n: nat)
    requires InRange(audio, n)
    ensures Unpack(BigEndian(Header(audio, n)), HEADER_WIDTHS) == HeaderLayout(audio, n)
  {
    hide Header, BigEndian, Pack, Unpack, Widths, FieldsFit, Layout, GetFreqIndex;
    FreqIndexInverts(audio.sampleRate, GetFreqIndex(audio.sampleRate));
    HeaderIsLayout(audio, n);
    LayoutFits(audio.profile - 1, GetFreqIndex(audio.sampleRate), audio.channels, n);
    UnpackPack(HeaderLayout(audio, n));
  }

  lemma FieldsParse(audio: AudioParams, n: nat)
    requires InRange(audio, n)
    ensures ParseFields(HeaderLayout(audio, n)) == Some((audio, n))
  {
    hide GetFreqIndex;
    FreqIndexInverts(audio.sampleRate, GetFreqIndex(audio.sampleRate));
  }

  lemma LayoutFits(p: nat, f: nat, c: nat, n: nat)
    requires p <= 3 && f <= 12 && c <= 7 && n <= MAX_FRAME
    ensures FieldsFit(Layout(p, f, c, n))
    ensures Widths(Layout(p, f, c, n)) == HEADER_WIDTHS
  {
    hide Widths, Pow2;
    HeaderPowers();
    WidthsAre(Layout(p, f, c, n));
  }

  lemma {:induction false} WidthsAre(fs: seq<Field>)
    ensures forall i :: 0 <= i < |fs| ==> Widths(fs)[i] == fs[i].width
  {
    if fs != [] { WidthsAre(fs[1..]); }
  }

  // Framing

  lemma ParseEncode(f: Frame, rest: seq<byte>)
    requires Representable(f)
    ensures ParseFrame(Encode(f) + rest) == Some((f, |Encode(f)|))
  {
    hide Header, Unpack, BigEndian, ParseFields, HeaderLayout, GetFreqIndex;
    var s, n := Encode(f) + rest, |f.payload| + ADTS_LENGTH;
    assert s[..ADTS_LENGTH] == Header(f.audio, n);
    assert s[ADTS_LENGTH..n] == f.payload;
    HeaderFields(f.audio, n);
    FieldsParse(f.audio, n);
  }

  lemma {:induction false} ParseEncodeStream(fs: seq<Frame>)
    requires forall i :: 0 <= i < |fs| ==> Representable(fs[i])
    ensures ParseStream(EncodeStream(fs)) == Some(fs)
  {
    hide ParseFrame, Encode;
    if fs != [] {
      var rest := EncodeStream(fs[1..]);
      EncodeSize(fs[0]);
      ParseEncode(fs[0], rest);
      assert (Encode(fs[0]) + rest)[|Encode(fs[0])|..] == rest;
      ParseEncodeStream(fs[1..]);
      assert fs == [fs[0]] + fs[1..];
    }
  }

  lemma EncodeSize(f: Frame)
    ensures |Encode(f)| == |f.payload| + ADTS_LENGTH
  {
  }

  lemma {:induction false} UnpackFits(x: nat, widths: seq<nat>)
    requires x < Pow2(TotalWidth(widths))
    ensures FieldsFit(Unpack(x, widths)) && Widths(Unpack(x, widths)) == widths
    decreases |widths|
  {
    if widths != [] {
      hide Pow2, Shr, Low, Unpack;
      var below := TotalWidth(widths[1..]);
      UnpackCons(x, widths);
      ShrBound(x, below, widths[0]);
      UnpackFits(Low(x, below), widths[1..]);
      var fs := Unpack(x, widths);
      assert fs[1..] == Unpack(Low(x, below), widths[1..]);
      forall i | 0 <= i < |fs| ensures fs[i].value < Pow2(fs[i].width) {
        if i > 0 { assert fs[i] == fs[1..][i - 1]; }
      }
    }
  }

  lemma UnpackCons(x: nat, widths: seq<nat>)
    requires widths != []
    ensures var below := TotalWidth(widths[1..]);
      Unpack(x, widths) == [Field(Shr(x, below), widths[0])] + Unpack(Low(x, below), widths[1..])
  {
  }

  lemma {:induction false} BigEndianBound(s: seq<byte>)
    ensures BigEndian(s) < Pow2(8 * |s|)
  {
    if s == [] {
      assert Pow2(0) == 1;
    } else {
      BigEndianBound(s[..|s| - 1]);
      ByteMore(8 * (|s| - 1));
      hide Pow2;
      assert 8 * (|s| - 1) + 8 == 8 * |s|;
    }
  }

  lemma ByteMore(n: nat)
    ensures Pow2(n + 8) == 0x100 * Pow2(n)
  {
    Pow2Six(n);
    assert Pow2(n + 8) == 4 * Pow2(n + 6);
  }

  /** Fields read from seven bytes are no wider than the layout says. */
  lemma UnpackedHeader(s: seq<byte>)
    requires |s| == ADTS_LENGTH
    ensures var h := Unpack(BigEndian(s), HEADER_WIDTHS);
      h[4].value < 4 && h[7].value < 8 && h[12].value <= MAX_FRAME
  {
    hide BigEndian, Unpack, TotalWidth, Widths, Pow2;
    HeaderPowers();
    BigEndianBound(s);
    HeaderTotal();
    var h := Unpack(BigEndian(s), HEADER_WIDTHS);
    UnpackFits(BigEndian(s), HEADER_WIDTHS);
    WidthsAre(h);
    assert h[4].width == 2 && h[7].width == 3 && h[12].width == 13;
  }

  /** Whatever the parser returns is representable. */
  lemma ParsedRepresentable(s: seq<byte>)
    ensures ParseFrame(s).Some? ==> Representable(ParseFrame(s).value.0)
  {
    hide BigEndian, Unpack, GetFreqIndex;
    if ParseFrame(s).Some? {
      UnpackedHeader(s[..ADTS_LENGTH]);
      RateListed(Unpack(BigEndian(s[..ADTS_LENGTH]), HEADER_WIDTHS)[5].value);
    }
  }

  lemma RateListed(i: nat)
    ensures i < |RATES| ==> GetFreqIndex(RATES[i]) == i
  {
  }

  lemma HeaderTotal()
    ensures TotalWidth(HEADER_WIDTHS) == 56
  {
    hide TotalWidth, Layout, Widths;
    LayoutValue(0, 0, 0, 0);
    LayoutFits(0, 0, 0, 0);
  }

  lemma {:induction false} ParsedStreamRepresentable(s: seq<byte>)
    ensures ParseStream(s).Some? ==>
              forall i :: 0 <= i < |ParseStream(s).value| ==> Representable(ParseStream(s).value[i])
    decreases |s|
  {
    hide ParseFrame, Representable;
    if s != [] && ParseFrame(s).Some? {
      ParsedRepresentable(s);
      ParsedStreamRepresentable(s[ParseFrame(s).value.1..]);
    }
  }

  /** A parser that follows the frame lengths splits the muxer's output back into exactly the frames
      that went in, with their parameters, if and only if every one of them is representable: with a
      longer frame, an unlisted rate or a parameter out of range it cannot. */
  lemma Deframe(fs: seq<Frame>)
    ensures ParseStream(EncodeStream(fs)) == Some(fs) <==> forall i :: 0 <= i < |fs| ==> Representable(fs[i])
  {
    hide ParseStream, EncodeStream, Representable;
    if forall i :: 0 <= i < |fs| ==> Representable(fs[i]) {
      ParseEncodeStream(fs);
    } else if ParseStream(EncodeStream(fs)) == Some(fs) {
      ParsedStreamRepresentable(EncodeStream(fs));
    }
  }
}
