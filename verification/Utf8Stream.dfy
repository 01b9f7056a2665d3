/** What the UTF-8 reader and writer do over whole streams: they undo each other, the encoding is
    the unique shortest form, it preserves order, and a reader that starts anywhere in a stream
    can tell whether it is at a character boundary. */
module Utf8Stream {
  import opened Bits
  import opened Outcomes
  import opened Utf8

  type CodePoint = v: int | 0 <= v < 0x8000_0000

  /** The writer run over a sequence of code points. */
  function EncodeAll(vs: seq<CodePoint>): seq<byte> {
    if vs == [] then [] else Encode(vs[0]) + EncodeAll(vs[1..])
  }

  /** The reader run until the input is used up. */
  function DecodeAll(s: seq<byte>): Text
    decreases |s|
  {
    if s == [] then Text([])
    else
      match Decode(s)
      case Value(v, used) =>
        (match DecodeAll(s[used..])
         case Text(vs) => Text([v] + vs)
         case Malformed => Malformed)
      case _ => Malformed
  }

  // One character

  lemma {:induction false} TailContinues(v: nat, k: nat)
    ensures forall i :: 0 <= i < k ==> IsContinuation(Tail(v, k)[i])
    decreases k
  {
    if k > 0 { TailContinues(v / 64, k - 1); }
  }

  /** The continuation bytes of v put v back behind its leading bits. */
  lemma {:induction false} AssembleTail(v: nat, k: nat, s: seq<byte>)
    requires k < |s| && s[1..k + 1] == Tail(v, k)
    ensures Assemble(Shr(v, 6 * k), s, k) == v
    decreases k
  {
    if k > 0 {
      assert s[1..k] == s[1..k + 1][..k - 1];
      assert s[k] == s[1..k + 1][k - 1];
      AssembleTail(v / 64, k - 1, s);
      ShrSixUp(v, k);
    }
  }

  lemma ShrSixUp(v: nat, k: nat)
    requires k > 0
    ensures Shr(v, 6 * k) == Shr(v / 64, 6 * (k - 1))
  {
    hide *;
    ShrSmall(v);
    ShrAdd(v, 6, 6 * (k - 1));
  }

  /** Conversely, an assembled value determines the bytes it was assembled from. */
  lemma {:induction false} TailAssemble(x: nat, k: nat, s: seq<byte>)
    requires k < |s| && forall i :: 1 <= i <= k ==> IsContinuation(s[i])
    ensures Tail(Assemble(x, s, k), k) == s[1..k + 1]
    ensures Shr(Assemble(x, s, k), 6 * k) == x
    decreases k
  {
    hide Shr;
    if k == 0 {
      ShrNone(x);
    } else {
      TailAssemble(x, k - 1, s);
      ShrSixUp(Assemble(x, s, k), k);
      assert s[1..k + 1] == s[1..k] + [s[k]];
    }
  }

  lemma {:induction false} FirstBreakRun(s: seq<byte>, i: nat, n: nat)
    requires i <= n <= |s| && forall k :: i <= k < n ==> IsContinuation(s[k])
    ensures FirstBreak(s, i, n) == n
    decreases n - i
  {
    if i < n { FirstBreakRun(s, i + 1, n); }
  }

  /** The first byte announces the length the writer chose. */
  lemma LeadAnnounces(v: CodePoint)
    ensures Lead(v) < 0x100 && LeadWidth(Lead(v)) == Width(v)
    ensures Lead(v) - LeadMark(Width(v)) == Shr(v, 6 * (Width(v) - 1))
  {
    LeadFits(v);
    hide Shr;
    Pow2Values();
  }

  /** The reader undoes the writer, whatever follows. */
  lemma DecodeEncode(v: CodePoint, rest: seq<byte>)
    ensures Decode(Encode(v) + rest) == Value(v, Width(v))
  {
    var s, n := Encode(v) + rest, Width(v);
    LeadAnnounces(v);
    TailContinues(v, n - 1);
    assert s[1..n] == Tail(v, n - 1);
    forall k | 1 <= k < n ensures IsContinuation(s[k]) {
      assert s[k] == s[1..n][k - 1];
    }
    hide Shr, LeadWidth, LeadMark, Width, Pow2;
    FirstBreakRun(s, 1, n);
    AssembleTail(v, n - 1, s);
  }

  /** The reader undoes the writer over every stream, and uses up every byte of it. */
  lemma {:induction false} RoundTrip(vs: seq<CodePoint>)
    ensures DecodeAll(EncodeAll(vs)) == Text(vs)
  {
    hide Decode, Encode, Width;
    if vs != [] {
      var s := EncodeAll(vs);
      DecodeEncode(vs[0], EncodeAll(vs[1..]));
      assert s[Width(vs[0])..] == EncodeAll(vs[1..]);
      RoundTrip(vs[1..]);
    }
  }

  // The tables in bits

  /** The i-th continuation byte carries the i-th group of six bits. */
  lemma {:induction false} TailAt(v: nat, k: nat, i: nat)
    requires i < k
    ensures Tail(v, k)[i] == 0x80 + Shr(v, 6 * (k - 1 - i)) % 64
    decreases k
  {
    hide Shr;
    if i == k - 1 {
      ShrNone(v);
    } else {
      TailAt(v / 64, k - 1, i);
      ShrSixUp(v, k - 1 - i);
    }
  }

  /** A first byte announces n bytes by n ones and a zero at its top; one byte, by a zero. */
  lemma LeadOnes(b: byte, n: nat)
    requires 1 <= n <= 6
    ensures LeadWidth(b) == n <==> if n == 1 then b < 0x80 else 0x100 - Pow2(8 - n) <= b < 0x100 - Pow2(7 - n)
    ensures LeadWidth(b) == 0 <==> 0x80 <= b < 0xC0 || b >= 0xFE
    ensures LeadMark(n) == if n == 1 then 0 else 0x100 - Pow2(8 - n)
  {
    Pow2Values();
  }

  /** The writer's bytes, bit by bit: as few as hold the value, the ones of the first byte saying how
      many, then the value's bits in order. */
  lemma EncodeBits(v: CodePoint)
    ensures var s := Encode(v);
      var n := |s|;
      && (if n == 1 then v < 0x80 && s[0] == v
          else n <= 6 && v < Pow2(5 * n + 1) && v >= (if n == 2 then 0x80 else Pow2(5 * n - 4)))
      && (n > 1 ==> s[0] == 0x100 - Pow2(8 - n) + Shr(v, 6 * (n - 1)))
      && forall i :: 1 <= i < n ==> s[i] == 0x80 + Shr(v, 6 * (n - 1 - i)) % 64
  {
    WidthBits(v);
    LeadFits(v);
    hide Shr, Pow2, LeadWidth, LeadMark, Width;
    var s, n := Encode(v), Width(v);
    LeadOnes(s[0], n);
    assert s[1..] == Tail(v, n - 1);
    forall i | 1 <= i < n ensures s[i] == 0x80 + Shr(v, 6 * (n - 1 - i)) % 64 {
      TailAt(v, n - 1, i - 1);
      assert s[i] == s[1..][i - 1];
    }
  }

  lemma WidthBits(v: CodePoint)
    ensures var n := Width(v);
      if n == 1 then v < 0x80
      else n <= 6 && v < Pow2(5 * n + 1) && v >= (if n == 2 then 0x80 else Pow2(5 * n - 4))
  {
    Pow2Values();
  }

  /** What the reader takes: any first byte with enough bytes 80..BF after it. There is no test for the
      shortest form, for surrogates or for a largest value. */
  lemma Accepts(s: seq<byte>)
    ensures Decode(s).Value? <==>
            && s != [] && 1 <= LeadWidth(s[0]) <= |s|
            && forall i :: 1 <= i < LeadWidth(s[0]) ==> 0x80 <= s[i] < 0xC0
    ensures Decode(s).Value? ==> Decode(s).used == LeadWidth(s[0])
  {
    hide LeadWidth, LeadMark, Assemble;
  }

  lemma AcceptedParts(s: seq<byte>)
    requires Decode(s).Value?
    ensures var n := Decode(s).used;
      && 1 <= n <= |s| && n <= 6 && LeadWidth(s[0]) == n
      && (forall i :: 1 <= i < n ==> IsContinuation(s[i]))
      && LeadMark(n) <= s[0] && Decode(s).value == Assemble(s[0] - LeadMark(n), s, n - 1)
  {
    hide Assemble;
  }

  /** Its value has the bits of the first byte after the announcement and six of each other byte. */
  lemma AcceptedBits(s: seq<byte>)
    requires Decode(s).Value?
    ensures var v, n := Decode(s).value, Decode(s).used;
      && (if n == 1 then v == s[0] else Shr(v, 6 * (n - 1)) == s[0] as int - (0x100 - Pow2(8 - n)))
      && forall i :: 1 <= i < n ==> Shr(v, 6 * (n - 1 - i)) % 64 == s[i] as int - 0x80
  {
    hide Decode, Shr, Pow2, LeadWidth, LeadMark, Tail, Assemble;
    AcceptedParts(s);
    var v, n := Decode(s).value, Decode(s).used;
    LeadOnes(s[0], n);
    TailAssemble(s[0] - LeadMark(n), n - 1, s);
    AssembleZero(s[0], s);
    forall i | 1 <= i < n ensures Shr(v, 6 * (n - 1 - i)) % 64 == s[i] as int - 0x80 {
      TailAt(v, n - 1, i - 1);
      assert s[i] == s[1..n][i - 1];
    }
  }

  lemma AssembleZero(x: nat, s: seq<byte>)
    requires s != []
    ensures Assemble(x, s, 0) == x
  {
  }

  /** An error is reported at the first byte that cannot stand where it is, with all bytes up to it read:
      a first byte 80..BF, FE or FF, or anything but 80..BF among those announced. */
  lemma Rejects(s: seq<byte>, used: nat)
    ensures Decode(s) == Invalid(used) <==>
            || (used == 1 && s != [] && (0x80 <= s[0] < 0xC0 || s[0] >= 0xFE))
            || (2 <= used <= |s| && used <= LeadWidth(s[0]) && !(0x80 <= s[used - 1] < 0xC0)
                && forall i :: 1 <= i < used - 1 ==> 0x80 <= s[i] < 0xC0)
  {
    if s != [] { LeadOnes(s[0], 1); }
    hide LeadWidth, LeadMark, Assemble, Pow2;
  }

  /** It runs out of input exactly on a beginning of something that could still be accepted. */
  lemma RunsOut(s: seq<byte>)
    ensures Decode(s).EndOfInput? <==>
            s == [] || (|s| < LeadWidth(s[0]) && forall i :: 1 <= i < |s| ==> 0x80 <= s[i] < 0xC0)
  {
    hide LeadWidth, LeadMark, Assemble;
  }

  // Shortest form

  /** An n-byte character of any kind carries at most 5n + 1 bits, 7 for n = 1. */
  lemma ValueBound(s: seq<byte>)
    requires Decode(s).Value?
    ensures Width(Decode(s).value) <= Decode(s).used && Decode(s).value < 0x8000_0000
  {
    var n := LeadWidth(s[0]);
    if n == 1 {
      assert Assemble(s[0], s, 0) == s[0];
    } else {
      PayloadBound(s[0]);
      AssembleBound(s[0] - LeadMark(n), 7 - n, s, n - 1);
      assert 7 - n + 6 * (n - 1) == 5 * n + 1;
      WidthTable(Decode(s).value, n);
    }
  }

  lemma PayloadBound(lead: byte)
    requires LeadWidth(lead) > 1
    ensures 0 <= lead - LeadMark(LeadWidth(lead)) < Pow2(7 - LeadWidth(lead))
  {
    Pow2Values();
  }

  lemma WidthTable(v: nat, n: nat)
    requires 2 <= n <= 6 && v < Pow2(5 * n + 1)
    ensures Width(v) <= n && v < 0x8000_0000
  {
    Pow2Values();
  }

  /** The writer's form is the shortest the reader accepts for a value, and the only one of its
      length: what the reader took equals what the writer would emit just when it is that long. */
  lemma ShortestForm(s: seq<byte>)
    requires Decode(s).Value?
    ensures Decode(s).value < 0x8000_0000
    ensures Width(Decode(s).value) <= Decode(s).used
    ensures s[..Decode(s).used] == Encode(Decode(s).value) <==> Decode(s).used == Width(Decode(s).value)
  {
    var v, n := Decode(s).value, LeadWidth(s[0]);
    ValueBound(s);
    if n == Width(v) {
      TailAssemble(s[0] - LeadMark(n), n - 1, s);
      assert s[..n] == [s[0]] + s[1..n];
      assert Lead(v) == s[0];
    }
  }

  lemma {:induction false} ValuesInRange(s: seq<byte>)
    requires DecodeAll(s).Text?
    ensures forall i :: 0 <= i < |DecodeAll(s).values| ==> 0 <= DecodeAll(s).values[i] < 0x8000_0000
    decreases |s|
  {
    hide Decode;
    if s != [] {
      ValueBound(s);
      ValuesInRange(s[Decode(s).used..]);
    }
  }

  /** The code points of a text the reader accepts. */
  function Values(s: seq<byte>): (vs: seq<CodePoint>)
    requires DecodeAll(s).Text?
    ensures vs == DecodeAll(s).values
  {
    ValuesInRange(s);
    DecodeAll(s).values
  }

  /** Of all the byte streams the reader takes for one text the writer's is the shortest, and no other is
      as short. */
  lemma {:induction false} ShortestText(s: seq<byte>)
    requires DecodeAll(s).Text?
    ensures |EncodeAll(Values(s))| <= |s|
    ensures |EncodeAll(Values(s))| == |s| <==> EncodeAll(Values(s)) == s
    decreases |s|
  {
    hide Decode, Encode, Width;
    if s != [] {
      var v, used := Decode(s).value, Decode(s).used;
      ShortestForm(s);
      ShortestText(s[used..]);
      assert Values(s)[0] == v && Values(s)[1..] == Values(s[used..]);
      assert s == s[..used] + s[used..];
      SameSplit(Encode(v), EncodeAll(Values(s[used..])), s[..used], s[used..]);
    }
  }

  /** Two joined sequences with parts no longer than the other's have the same length only part by part. */
  lemma SameSplit(a: seq<byte>, s: seq<byte>, b: seq<byte>, t: seq<byte>)
    requires |a| <= |b| && |s| <= |t|
    requires (a == b <==> |a| == |b|) && (s == t <==> |s| == |t|)
    ensures |a + s| == |b + t| <==> a + s == b + t
  {
  }

  /** On any input the reader looks at no more than five bytes after the first: what it answers
      does not depend on anything later. */
  lemma ReadsAtMostSix(s: seq<byte>, rest: seq<byte>)
    requires |s| >= 6
    ensures !Decode(s).EndOfInput?
    ensures Decode(s + rest) == Decode(s)
  {
    assert (s + rest)[0] == s[0];
    if LeadWidth(s[0]) > 0 {
      FirstBreakPrefix(s, rest, 1, LeadWidth(s[0]));
      if FirstBreak(s, 1, LeadWidth(s[0])) == LeadWidth(s[0]) {
        AssemblePrefix(s[0] - LeadMark(LeadWidth(s[0])), s, rest, LeadWidth(s[0]) - 1);
      }
    }
  }

  lemma {:induction false} FirstBreakPrefix(s: seq<byte>, rest: seq<byte>, i: nat, n: nat)
    requires i <= n <= |s|
    ensures FirstBreak(s + rest, i, n) == FirstBreak(s, i, n)
    decreases n - i
  {
    if i < n && IsContinuation(s[i]) { FirstBreakPrefix(s, rest, i + 1, n); }
  }

  lemma {:induction false} AssemblePrefix(x: nat, s: seq<byte>, rest: seq<byte>, k: nat)
    requires k < |s|
    ensures Assemble(x, s + rest, k) == Assemble(x, s, k)
    decreases k
  {
    if k > 0 { AssemblePrefix(x, s, rest, k - 1); }
  }

  // Order

  predicate LexLess(a: seq<int>, b: seq<int>) {
    if b == [] then false
    else if a == [] then true
    else a[0] < b[0] || (a[0] == b[0] && LexLess(a[1..], b[1..]))
  }

  /** a and b differ within their common length, and a is smaller where they first do. */
  predicate Below(a: seq<int>, b: seq<int>) {
    a != [] && b != [] && (a[0] < b[0] || (a[0] == b[0] && Below(a[1..], b[1..])))
  }

  lemma {:induction false} BelowDecides(a: seq<int>, b: seq<int>, s: seq<int>, t: seq<int>)
    requires Below(a, b)
    ensures LexLess(a + s, b + t) && !LexLess(b + t, a + s)
  {
    assert (a + s)[1..] == a[1..] + s && (b + t)[1..] == b[1..] + t;
    if a[0] == b[0] { BelowDecides(a[1..], b[1..], s, t); }
  }

  lemma {:induction false} LexPrefix(p: seq<int>, s: seq<int>, t: seq<int>)
    ensures LexLess(p + s, p + t) <==> LexLess(s, t)
  {
    if p == [] {
      assert p + s == s && p + t == t;
    } else {
      assert (p + s)[1..] == p[1..] + s && (p + t)[1..] == p[1..] + t;
      LexPrefix(p[1..], s, t);
    }
  }

  lemma {:induction false} BelowAppend(a: seq<int>, b: seq<int>, s: seq<int>, t: seq<int>)
    requires Below(a, b)
    ensures Below(a + s, b + t)
  {
    assert (a + s)[1..] == a[1..] + s && (b + t)[1..] == b[1..] + t;
    if a[0] == b[0] { BelowAppend(a[1..], b[1..], s, t); }
  }

  lemma {:induction false} BelowPrefix(p: seq<int>, a: seq<int>, b: seq<int>)
    requires Below(a, b)
    ensures Below(p + a, p + b)
  {
    if p == [] {
      assert p + a == a && p + b == b;
    } else {
      assert (p + a)[1..] == p[1..] + a && (p + b)[1..] == p[1..] + b;
      BelowPrefix(p[1..], a, b);
    }
  }

  /** Of two numbers that agree above their low 6k bits, the smaller has the smaller tail. */
  lemma {:induction false} TailOrder(v: nat, w: nat, k: nat)
    requires v < w && Shr(v, 6 * k) == Shr(w, 6 * k)
    ensures Below(Tail(v, k), Tail(w, k))
    decreases k
  {
    hide Shr;
    if k == 0 {
      ShrNone(v);
      ShrNone(w);
    } else {
      ShrSixUp(v, k);
      ShrSixUp(w, k);
      if v / 64 < w / 64 {
        TailOrder(v / 64, w / 64, k - 1);
        BelowAppend(Tail(v / 64, k - 1), Tail(w / 64, k - 1), [128 + v % 64], [128 + w % 64]);
      } else {
        BelowPrefix(Tail(v / 64, k - 1), [128 + v % 64], [128 + w % 64]);
      }
    }
  }

  lemma {:induction false} ShrMonotone(v: int, w: int, n: nat)
    requires v <= w
    ensures Shr(v, n) <= Shr(w, n)
    decreases n
  {
    if n > 0 { ShrMonotone(v / 2, w / 2, n - 1); }
  }

  /** The smaller code point has the smaller encoding, decided before either encoding ends. */
  lemma EncodeOrder(v: CodePoint, w: CodePoint)
    requires v < w
    ensures Below(Encode(v), Encode(w))
  {
    hide Shr, Pow2, LeadMark;
    LeadAnnounces(v);
    LeadAnnounces(w);
    var n := Width(v);
    if n == Width(w) {
      ShrMonotone(v, w, 6 * (n - 1));
      if Lead(v) == Lead(w) {
        TailOrder(v, w, n - 1);
        assert Encode(v)[1..] == Tail(v, n - 1) && Encode(w)[1..] == Tail(w, n - 1);
      }
    } else {
      assert Lead(v) < Lead(w);
    }
  }

  /** Byte order of the encodings is the order of the texts. */
  lemma {:induction false} OrderPreserved(a: seq<CodePoint>, b: seq<CodePoint>)
    ensures LexLess(EncodeAll(a), EncodeAll(b)) <==> LexLess(a, b)
    decreases |a|
  {
    if a != [] && b != [] {
      var s, t := EncodeAll(a[1..]), EncodeAll(b[1..]);
      if a[0] == b[0] {
        LexPrefix(Encode(a[0]), s, t);
        OrderPreserved(a[1..], b[1..]);
      } else if a[0] < b[0] {
        EncodeOrder(a[0], b[0]);
        BelowDecides(Encode(a[0]), Encode(b[0]), s, t);
      } else {
        EncodeOrder(b[0], a[0]);
        BelowDecides(Encode(b[0]), Encode(a[0]), t, s);
      }
    }
  }

  // Self-synchronisation

  /** Where the j-th character of the stream starts. */
  function Boundary(vs: seq<CodePoint>, j: nat): (i: nat)
    requires j <= |vs|
    ensures i <= |EncodeAll(vs)|
    decreases j
  {
    if j == 0 then 0 else |Encode(vs[0])| + Boundary(vs[1..], j - 1)
  }

  /** The number of the character that starts at byte i, or -1 if byte i is inside a character. */
  function CharAt(vs: seq<CodePoint>, i: nat): (j: int)
    requires i < |EncodeAll(vs)|
    ensures -1 <= j < |vs|
    decreases |vs|
  {
    var n := |Encode(vs[0])|;
    if i == 0 then 0
    else if i < n then -1
    else if CharAt(vs[1..], i - n) < 0 then -1
    else 1 + CharAt(vs[1..], i - n)
  }

  lemma {:induction false} CharAtBoundary(vs: seq<CodePoint>, i: nat, j: nat)
    requires i < |EncodeAll(vs)| && j < |vs|
    ensures Boundary(vs, j) == i <==> CharAt(vs, i) == j
    decreases |vs|
  {
    hide Encode, Width;
    var n := |Encode(vs[0])|;
    if j > 0 && i >= n { CharAtBoundary(vs[1..], i - n, j - 1); }
  }

  lemma DecodeInside(v: CodePoint, rest: seq<byte>, i: nat)
    requires 0 < i < Width(v)
    ensures Decode((Encode(v) + rest)[i..]) == Invalid(1)
  {
    hide Width, Tail;
    TailContinues(v, Width(v) - 1);
    assert (Encode(v) + rest)[i..][0] == Encode(v)[i] == Tail(v, Width(v) - 1)[i - 1];
  }

  lemma {:induction false} DecodeAt(vs: seq<CodePoint>, i: nat)
    requires i < |EncodeAll(vs)|
    ensures var j := CharAt(vs, i);
      Decode(EncodeAll(vs)[i..]) == if j < 0 then Invalid(1) else Value(vs[j], Width(vs[j]))
    decreases |vs|
  {
    hide Decode, Encode, Width;
    var v, rest := vs[0], EncodeAll(vs[1..]);
    var n := Width(v);
    if i == 0 {
      assert (Encode(v) + rest)[0..] == Encode(v) + rest;
      DecodeEncode(v, rest);
    } else if i < n {
      DecodeInside(v, rest, i);
    } else {
      assert (Encode(v) + rest)[i..] == rest[i - n..];
      DecodeAt(vs[1..], i - n);
    }
  }

  /** Started at a character boundary the reader returns that character; started anywhere else it
      fails on the first byte it reads. */
  lemma SelfSynchronising(vs: seq<CodePoint>, i: nat)
    requires i < |EncodeAll(vs)|
    ensures Decode(EncodeAll(vs)[i..]).Value? <==> exists j :: 0 <= j < |vs| && Boundary(vs, j) == i
    ensures forall j :: 0 <= j < |vs| && Boundary(vs, j) == i ==>
              Decode(EncodeAll(vs)[i..]) == Value(vs[j], Width(vs[j]))
    ensures !Decode(EncodeAll(vs)[i..]).Value? ==> Decode(EncodeAll(vs)[i..]) == Invalid(1)
  {
    DecodeAt(vs, i);
    hide *;
    forall j | 0 <= j < |vs| ensures Boundary(vs, j) == i <==> CharAt(vs, i) == j {
      CharAtBoundary(vs, i, j);
    }
    if CharAt(vs, i) >= 0 { assert Boundary(vs, CharAt(vs, i)) == i; }
  }
}
