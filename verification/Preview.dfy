/** Equidistant previews (frame_extractor.cpp): where each preview frame is sought, and the loops
    that read packets until a frame of the wanted stream decodes. */
module Preview {
  import opened Bits
  import opened Outcomes

  function Abs(x: int): int { if x < 0 then -x else x }

  /** C's `/` on int64_t. */
  function CDiv(a: int, b: int): int
    requires b != 0
  {
    if (a < 0) != (b < 0) then -(Abs(a) / Abs(b)) else Abs(a) / Abs(b)
  }

  /** The quotient is rounded toward zero: the remainder has the sign of the dividend. */
  lemma CDivTruncates(a: int, b: int)
    requires b != 0
    ensures var r := a - b * CDiv(a, b);
      && (a >= 0 ==> 0 <= r < Abs(b))
      && (a <= 0 ==> -Abs(b) < r <= 0)
  {
    QuotientAndRest(Abs(a), Abs(b));
    Signs(Abs(b), Abs(a) / Abs(b));
  }

  lemma QuotientAndRest(x: int, y: int)
    requires y > 0
    ensures 0 <= x - y * (x / y) < y
  {
  }

  lemma Signs(y: int, q: int)
    ensures -y * q == -(y * q) && y * -q == -(y * q) && -y * -q == y * q
  {
  }

  const NO_DURATION := -0x8000_0000_0000_0000

  /** A stream without a duration of its own takes the container's divided by the denominator of the
      stream's time base; the numerator and the unit of the container's duration play no part. */
  function VideoDuration(stream: i64, denominator: i32, container: i64): int {
    if stream == NO_DURATION && denominator != 0 then CDiv(container, denominator) else stream
  }

  function SeekPosition(duration: int, count: nat, k: nat): int
    requires count > 0
  {
    CDiv(duration, count) * k + CDiv(CDiv(duration, count), 2)
  }

  lemma Distribute(n: int, q: int, k: int, h: int)
    ensures n * (q * k + h) == (n * q) * k + n * h
  {
    assert n * (q * k) == (n * q) * k;
  }

  lemma OddTimes(k: int, x: int)
    ensures (2 * k + 1) * x == 2 * (x * k) + x
  {
  }

  lemma AtLeast(n: nat, x: int, y: int)
    requires x <= y
    ensures n * x <= n * y
  {
  }

  lemma PlusOne(n: int, x: int, c: int)
    ensures n * (x + c) == n * x + n * c
  {
  }

  /** The sought positions are the middles of the `count` regions of the video, to within rounding:
      never late, and early by less than k + 1 units. */
  lemma PositionIsMiddle(d: nat, n: nat, k: nat)
    requires k < n
    ensures 2 * (n * SeekPosition(d, n, k)) <= (2 * k + 1) * d < 2 * (n * (SeekPosition(d, n, k) + (k + 1)))
    ensures 0 <= SeekPosition(d, n, k) <= d
  {
    hide *;
    var q, r, h := PositionParts(d, n, k);
    Middle(n, q, r, h, k, d, SeekPosition(d, n, k));
    NotBeyond(n, k, d, SeekPosition(d, n, k));
  }

  lemma PositionParts(d: nat, n: nat, k: nat) returns (q: nat, r: nat, h: nat)
    requires n > 0
    ensures d == n * q + r && r < n && 2 * h <= q <= 2 * h + 1 && SeekPosition(d, n, k) == q * k + h >= 0
  {
    q, r := d / n, d % n;
    h := q / 2;
    assert q * k >= 0;
  }

  lemma Middle(n: nat, q: nat, r: nat, h: nat, k: nat, d: nat, p: nat)
    requires d == n * q + r && r < n && 2 * h <= q <= 2 * h + 1 && p == q * k + h
    ensures 2 * (n * p) <= (2 * k + 1) * d < 2 * (n * (p + (k + 1)))
  {
    var a := n * q;
    Distribute(n, q, k, h);
    PlusOne(n, p, k + 1);
    PlusOne(n, k, 1);
    AtLeast(n, 2 * h, q);
    AtLeast(n, q, 2 * h + 1);
    Distribute(n, 2, h, 1);
    Distribute(n, 2, h, 0);
    OddTimes(k, d);
    OddTimes(k, n);
    Spread(a, r, k);
    AtLeast(2 * k + 1, r + 1, n);
    OddTimes(k, r + 1);
    assert (r + 1) * k == r * k + k;
    TwoTimes(n, h);
  }

  lemma TwoTimes(n: int, h: int)
    ensures (n * 2) * h == 2 * (n * h)
  {
  }

  lemma Spread(a: int, r: int, k: int)
    ensures (a + r) * k == a * k + r * k
  {
  }

  lemma NotBeyond(n: nat, k: nat, d: nat, p: nat)
    requires k < n && 2 * (n * p) <= (2 * k + 1) * d
    ensures p <= d
  {
    if p > d {
      AtLeast(n, d + 1, p);
      PlusOne(n, d, 1);
      OddTimes(k, d);
      AtLeast(d, k + 1, n);
      PlusOne(d, k, 1);
    }
  }

  lemma PositionsEquidistant(d: nat, n: nat, k: nat)
    requires k + 1 < n
    ensures SeekPosition(d, n, k + 1) - SeekPosition(d, n, k) == d / n
  {
    var q := d / n;
    assert q * (k + 1) == q * k + q;
  }

  /** A negative duration is sought as its mirror image. */
  lemma PositionsMirrored(d: int, n: nat, k: nat)
    requires n > 0
    ensures SeekPosition(-d, n, k) == -SeekPosition(d, n, k)
  {
    CDivMirrored(d, n);
    CDivMirrored(CDiv(d, n), 2);
    hide CDiv;
    MinusTimes(CDiv(d, n), k);
  }

  lemma CDivMirrored(a: int, b: nat)
    requires b > 0
    ensures CDiv(-a, b) == -CDiv(a, b)
  {
    assert Abs(-a) == Abs(a);
    if a == 0 { assert 0 / (b as int) == 0; }
  }

  lemma MinusTimes(x: int, y: int)
    ensures -x * y == -(x * y)
  {
  }

  /** Each position lies in its own region exactly when the video has at least one unit for each. */
  lemma PositionInRegion(d: nat, n: nat, k: nat)
    requires k < n
    ensures k * (d / n) <= SeekPosition(d, n, k) < (k + 1) * (d / n) <==> d >= n
  {
    var q := d / n;
    assert q * k == k * q && (k + 1) * q == k * q + q;
    assert d == n * q + d % n;
    if q >= 1 { assert n * q >= n; }
  }

  // The extraction loops

  /** What the decoder answers when it is fed a packet: more input needed, an error, or a frame. */
  datatype Response = Again | Failure | Frame(picture: int)
  datatype Packet = Packet(streamIndex: int, response: Response)

  /** The first packet of the wanted stream that yields a frame. */
  function FirstFrame(packets: seq<Packet>, video: int): Option<int> {
    if packets == [] then None
    else if packets[0].streamIndex == video && packets[0].response.Frame? then Some(packets[0].response.picture)
    else FirstFrame(packets[1..], video)
  }

  lemma {:induction false} FirstFrameIs(packets: seq<Packet>, video: int)
    ensures FirstFrame(packets, video).Some? <==>
            exists i :: 0 <= i < |packets| && packets[i].streamIndex == video && packets[i].response.Frame?
    ensures FirstFrame(packets, video).Some? ==>
            exists i :: 0 <= i < |packets| && packets[i] == Packet(video, Frame(FirstFrame(packets, video).value))
              && forall j :: 0 <= j < i ==> !(packets[j].streamIndex == video && packets[j].response.Frame?)
  {
    if packets != [] {
      if packets[0].streamIndex == video && packets[0].response.Frame? {
        assert packets[0] == Packet(video, Frame(FirstFrame(packets, video).value));
      } else {
        var rest := packets[1..];
        FirstFrameIs(rest, video);
        if FirstFrame(rest, video).Some? {
          var i :| 0 <= i < |rest| && rest[i] == Packet(video, Frame(FirstFrame(rest, video).value))
            && forall j :: 0 <= j < i ==> !(rest[j].streamIndex == video && rest[j].response.Frame?);
          assert packets[i + 1] == rest[i];
          forall j | 0 <= j < i + 1
            ensures !(packets[j].streamIndex == video && packets[j].response.Frame?)
          {
            if j > 0 { assert packets[j] == rest[j - 1]; }
          }
        } else {
          forall i | 0 <= i < |packets|
            ensures !(packets[i].streamIndex == video && packets[i].response.Frame?)
          {
            if i > 0 { assert packets[i] == rest[i - 1]; }
          }
        }
      }
    }
  }

  /** The inner loop: `packets` is what can be read from the sought position before a read fails. */
  method ExtractFrame(packets: seq<Packet>, video: int) returns (r: Option<int>)
    ensures r == FirstFrame(packets, video)
  {
    var next := 0;
    while true
      invariant next <= |packets|
      invariant FirstFrame(packets[next..], video) == FirstFrame(packets, video)
      decreases |packets| - next
    {
      if next == |packets| { return None; }
      var packet := packets[next];
      next := next + 1;
      if packet.streamIndex == video {
        match packet.response {
          case Again => continue;
          case Frame(picture) => return Some(picture);
          case Failure =>
        }
      }
    }
  }

  /** A bitmap after the call: the first frame to be had from a position, or what it was before. */
  predicate Shows(after: int, before: int, packets: seq<Packet>, video: int) {
    after == match FirstFrame(packets, video) case Some(picture) => picture case None => before
  }

  /** The first `done` bitmaps show what is found from the positions sought in a video of this duration,
      the others are as before, and `result` tells whether a frame was found for each. */
  predicate Filled(after: seq<int>, before: seq<int>, done: nat, result: bool, duration: int, video: int,
                   source: int -> seq<Packet>)
  {
    && done <= |after| == |before|
    && (forall k :: 0 <= k < done ==>
          Shows(after[k], before[k], source(SeekPosition(duration, |after|, k)), video))
    && (forall k :: done <= k < |after| ==> after[k] == before[k])
    && (result <==> forall k :: 0 <= k < done ==>
          FirstFrame(source(SeekPosition(duration, |after|, k)), video).Some?)
  }

  /** Each bitmap shows what is found from the middle of its region of a video of d units, to within the
      rounding of the positions. */
  ghost predicate ShowsMiddles(after: seq<int>, before: seq<int>, d: nat, video: int, source: int -> seq<Packet>)
    requires |after| == |before|
  {
    var n := |after|;
    forall k :: 0 <= k < n ==>
      exists p :: Shows(after[k], before[k], source(p), video)
                  && 2 * (n * p) <= (2 * k + 1) * d < 2 * (n * (p + (k + 1)))
  }

  lemma FilledShowsMiddles(after: seq<int>, before: seq<int>, result: bool, d: nat, video: int,
                           source: int -> seq<Packet>)
    requires |after| == |before|
    ensures Filled(after, before, |after|, result, d, video, source) ==> ShowsMiddles(after, before, d, video, source)
  {
    hide Shows, SeekPosition;
    var n := |after|;
    forall k | 0 <= k < n && Filled(after, before, n, result, d, video, source)
      ensures exists p :: Shows(after[k], before[k], source(p), video)
                          && 2 * (n * p) <= (2 * k + 1) * d < 2 * (n * (p + (k + 1)))
    {
      PositionIsMiddle(d, n, k);
      assert Shows(after[k], before[k], source(SeekPosition(d, n, k)), video);
    }
  }

  lemma FillNext(after: seq<int>, before: seq<int>, k: nat, picture: int, result: bool, duration: int,
                 video: int, source: int -> seq<Packet>)
    requires k < |after| && Filled(after, before, k, result, duration, video, source)
    requires Shows(picture, before[k], source(SeekPosition(duration, |after|, k)), video)
    ensures var found := FirstFrame(source(SeekPosition(duration, |after|, k)), video).Some?;
      Filled(after[k := picture], before, k + 1, result && found, duration, video, source)
  {
    hide SeekPosition, Shows, FirstFrame;
  }

  /** frame_extractor_fill_with_preview: every bitmap whose region yields a frame is filled with it,
      the others are left alone, and the result tells whether all were filled. The duration that counts
      is the stream's own, or without one the container's over the denominator; each bitmap is taken
      from the middle of its region. */
  method FillWithPreview(stream: i64, denominator: i32, container: i64, bitmaps: array<int>, video: int,
                         source: int -> seq<Packet>)
    returns (result: bool)
    requires bitmaps.Length > 0
    modifies bitmaps
    ensures stream != -0x8000_0000_0000_0000 || denominator == 0 ==>
              Filled(bitmaps[..], old(bitmaps[..]), bitmaps.Length, result, stream, video, source)
    ensures stream == -0x8000_0000_0000_0000 && denominator != 0 ==>
              Filled(bitmaps[..], old(bitmaps[..]), bitmaps.Length, result, CDiv(container, denominator), video, source)
    ensures stream >= 0 ==> ShowsMiddles(bitmaps[..], old(bitmaps[..]), stream, video, source)
    ensures stream == -0x8000_0000_0000_0000 && denominator > 0 && container >= 0 ==>
              forall d: nat :: d * denominator <= container < (d + 1) * denominator ==>
                ShowsMiddles(bitmaps[..], old(bitmaps[..]), d, video, source)
  {
    hide Filled, ShowsMiddles, SeekPosition, CDiv;
    result := true;
    var duration := VideoDuration(stream, denominator, container);
    var count := bitmaps.Length;
    var offset := CDiv(CDiv(duration, count), 2);
    ghost var before := bitmaps[..];
    FillNone(before, duration, video, source);
    for pos := 0 to count
      invariant Filled(bitmaps[..], before, pos, result, duration, video, source)
    {
      var seekPosition := CDiv(duration, count) * pos + offset;
      SeekPositionIs(duration, count, pos);
      var frame := ExtractFrame(source(seekPosition), video);
      ghost var last := bitmaps[..];
      FilledTo(last, before, pos, result, duration, video, source);
      FillNext(last, before, pos, match frame case Some(picture) => picture case None => last[pos],
               result, duration, video, source);
      match frame {
        case None =>
          result := false;
          assert last == last[pos := last[pos]];
        case Some(picture) =>
          bitmaps[pos] := picture;
          assert bitmaps[..] == last[pos := picture];
      }
    }
    if duration >= 0 { FilledShowsMiddles(bitmaps[..], before, result, duration, video, source); }
    if denominator > 0 && container >= 0 { OneQuotient(container, denominator); }
  }

  lemma FillNone(before: seq<int>, duration: int, video: int, source: int -> seq<Packet>)
    ensures Filled(before, before, 0, true, duration, video, source)
  {
  }

  lemma FilledTo(after: seq<int>, before: seq<int>, done: nat, result: bool, duration: int, video: int,
                 source: int -> seq<Packet>)
    requires Filled(after, before, done, result, duration, video, source)
    ensures |after| == |before| && forall k :: done <= k < |after| ==> after[k] == before[k]
  {
  }

  lemma SeekPositionIs(duration: int, count: nat, k: nat)
    requires count > 0
    ensures SeekPosition(duration, count, k) == CDiv(duration, count) * k + CDiv(CDiv(duration, count), 2)
  {
  }

  lemma OneQuotient(a: nat, b: nat)
    requires b > 0
    ensures forall d: nat :: d * b <= a < (d + 1) * b ==> d == CDiv(a, b)
  {
    forall d: nat | d * b <= a < (d + 1) * b ensures d == CDiv(a, b) {
      DivModUnique(a, b, d, a - d * b);
    }
  }
}
