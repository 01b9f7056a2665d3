/** Conservation, isolation and recovery over whole runs of the muxer. */
module MuxConservation {
  import opened Bits
  import opened Outcomes
  import opened Adts
  import opened MuxModel
  import opened MuxRuns

  // Per track

  function PacketsOn(out: seq<Packet>, t: nat): seq<Packet> {
    if out == [] then []
    else PacketsOn(out[..|out| - 1], t) + if out[|out| - 1].streamIndex == t then [out[|out| - 1]] else []
  }

  predicate WritesTo(op: Op, t: nat) { op.Write? && op.track == t }

  /** The frames given to track t, in order. */
  function Payloads(ops: seq<Op>, t: nat): seq<seq<byte>> {
    if ops == [] then []
    else
      var op := ops[|ops| - 1];
      Payloads(ops[..|ops| - 1], t) + if WritesTo(op, t) then [op.payload] else []
  }

  /** How many bytes a write adds: 7 on an AAC track, the size of the registered parameter sets for a
      key frame of an H.264 or H.265 track, nothing otherwise. */
  function PrefixSize(hist: seq<Op>, op: Op): nat
    requires op.Write?
  {
    if !Known(hist, op.track) then 0
    else
      var id := Streams(hist)[op.track].codecId;
      if id == 2 then 7
      else if id in {0, 1} && op.flags % 2 == 1 then
        (match LastParams(hist, op.track) case Some(ps) => |ps| case None => 0)
      else 0
  }

  function PrefixSizes(ops: seq<Op>, t: nat): seq<nat> {
    if ops == [] then []
    else
      var hist, op := ops[..|ops| - 1], ops[|ops| - 1];
      PrefixSizes(hist, t) + if WritesTo(op, t) then [PrefixSize(hist, op)] else []
  }

  predicate Strips(p: Packet, k: nat, payload: seq<byte>) {
    k <= |p.data| && p.data[k..] == payload
  }

  lemma ExpectedSize(hist: seq<Op>, op: Op)
    requires op.Write? && Known(hist, op.track)
    ensures |Expected(hist, op)| == PrefixSize(hist, op)
  {
    hide Header, Streams, LastParams;
  }

  lemma PacketsOnStep(out: seq<Packet>, p: Packet, t: nat)
    ensures PacketsOn(out + [p], t) == PacketsOn(out, t) + if p.streamIndex == t then [p] else []
  {
    assert (out + [p])[..|out|] == out;
  }

  /** What the last operation of a run adds to the output. */
  lemma LastWritten(ops: seq<Op>)
    requires ops != [] && LegalRun(ops)
    ensures var hist, op := ops[..|ops| - 1], ops[|ops| - 1];
      && LegalRun(hist)
      && (!op.Write? ==> Final(ops).written == Final(hist).written)
      && (op.Write? ==> Known(hist, op.track)
                        && var p := Packet(op.track, Expected(hist, op) + op.payload, op.pts);
                           Final(ops).written == Final(hist).written + [p])
  {
    hide Run, Final, Streams, Expected, Step;
    RunLast(ops);
    WrittenStep(ops);
  }

  /** Cutting from each packet of a track the bytes that were added gives exactly the frames written
      to that track, in order: none lost, duplicated, reordered or moved to another track. */
  lemma {:induction false} Conservation(ops: seq<Op>, t: nat)
    requires LegalRun(ops)
    ensures var out := PacketsOn(Final(ops).written, t);
      && |out| == |Payloads(ops, t)| == |PrefixSizes(ops, t)|
      && forall i :: 0 <= i < |out| ==> Strips(out[i], PrefixSizes(ops, t)[i], Payloads(ops, t)[i])
  {
    hide Run, Final, Expected, PrefixSize;
    if ops == [] {
      EmptyRun();
    } else {
      var hist, op := ops[..|ops| - 1], ops[|ops| - 1];
      LastWritten(ops);
      Conservation(hist, t);
      if op.Write? {
        ExpectedSize(hist, op);
        PacketsOnStep(Final(hist).written, Packet(op.track, Expected(hist, op) + op.payload, op.pts), t);
      }
    }
  }

  // Byte totals

  function OutputBytes(out: seq<Packet>): nat {
    if out == [] then 0 else OutputBytes(out[..|out| - 1]) + |out[|out| - 1].data|
  }

  function InputBytes(ops: seq<Op>): nat {
    if ops == [] then 0
    else
      var op := ops[|ops| - 1];
      InputBytes(ops[..|ops| - 1]) + if op.Write? then |op.payload| else 0
  }

  /** Frames written to AAC tracks. */
  function AacFrames(ops: seq<Op>): nat {
    if ops == [] then 0
    else
      var hist, op := ops[..|ops| - 1], ops[|ops| - 1];
      AacFrames(hist) + if op.Write? && Known(hist, op.track) && Streams(hist)[op.track].codecId == 2 then 1 else 0
  }

  /** The sizes of the parameter sets current at each key frame of an H.264 or H.265 track. */
  function KeyFrameBytes(ops: seq<Op>): nat {
    if ops == [] then 0
    else
      var hist, op := ops[..|ops| - 1], ops[|ops| - 1];
      KeyFrameBytes(hist) +
      if op.Write? && Known(hist, op.track) && op.flags % 2 == 1 && Streams(hist)[op.track].codecId in {0, 1}
      then (match LastParams(hist, op.track) case Some(ps) => |ps| case None => 0)
      else 0
  }

  lemma PrefixKinds(hist: seq<Op>, op: Op)
    requires op.Write? && Known(hist, op.track)
    ensures var id := Streams(hist)[op.track].codecId;
      PrefixSize(hist, op) == if id == 2 then 7
                              else if id in {0, 1} && op.flags % 2 == 1 then
                                (match LastParams(hist, op.track) case Some(ps) => |ps| case None => 0)
                              else 0
  {
    hide Streams, LastParams;
  }

  lemma OutputBytesStep(out: seq<Packet>, p: Packet)
    ensures OutputBytes(out + [p]) == OutputBytes(out) + |p.data|
  {
    assert (out + [p])[..|out|] == out;
  }

  /** Every output byte is an input byte, one of 7 header bytes of an AAC frame, or a byte of the
      parameter sets put before an H.264 or H.265 key frame. */
  lemma {:induction false} ByteTotals(ops: seq<Op>)
    requires LegalRun(ops)
    ensures OutputBytes(Final(ops).written) == InputBytes(ops) + 7 * AacFrames(ops) + KeyFrameBytes(ops)
  {
    hide Run, Final, Expected, PrefixSize, Streams, LastParams;
    if ops == [] {
      EmptyRun();
    } else {
      var hist, op := ops[..|ops| - 1], ops[|ops| - 1];
      LastWritten(ops);
      ByteTotals(hist);
      if op.Write? {
        ExpectedSize(hist, op);
        PrefixKinds(hist, op);
        OutputBytesStep(Final(hist).written, Packet(op.track, Expected(hist, op) + op.payload, op.pts));
      }
    }
  }

  // Isolation

  /** What track t alone was asked for, put to a muxer that has no other: its format, then its parameter
      sets and frames. Of other tracks not even the number is left. */
  function Alone(ops: seq<Op>, t: nat): seq<Op> {
    if ops == [] then []
    else
      var hist, op := ops[..|ops| - 1], ops[|ops| - 1];
      Alone(hist, t) +
      match op
      case AddTrack(f) => if f.streamType in {0, 1} && |Streams(hist)| == t then [op] else []
      case Register(track, ps) => if track == t < |Streams(hist)| then [Register(0, ps)] else []
      case Write(track, payload, flags, pts) => if track == t then [Write(0, payload, flags, pts)] else []
  }

  /** b's packets are a's, on the first stream. */
  predicate SamePackets(a: seq<Packet>, b: seq<Packet>) {
    |a| == |b| && forall i :: 0 <= i < |a| ==> b[i] == a[i].(streamIndex := 0)
  }

  /** b is what a would be if a had only track t. */
  predicate Restricts(a: Mux, b: Mux, t: nat) {
    && b.tracks == (if t < |a.tracks| then [a.tracks[t]] else [])
    && SamePackets(PacketsOn(a.written, t), b.written)
  }

  lemma OwnAddTrack(a: Mux, b: Mux, f: Format, t: nat)
    requires Restricts(a, b, t) && Legal(a, AddTrack(f)) && MakesStream(f) && |a.tracks| == t
    ensures Legal(b, AddTrack(f)) && Restricts(Step(a, AddTrack(f)), Step(b, AddTrack(f)), t)
  {
    hide NewTrack, PacketsOn;
  }

  lemma OwnRegister(a: Mux, b: Mux, ps: seq<byte>, t: nat)
    requires Restricts(a, b, t) && t < |a.tracks|
    ensures Restricts(Step(a, Register(t, ps)), Step(b, Register(0, ps)), t)
  {
    hide PacketsOn;
  }

  lemma OwnWrite(a: Mux, b: Mux, op: Op, t: nat)
    requires Restricts(a, b, t) && op.Write? && Legal(a, op) && op.track == t
    ensures var op0 := Write(0, op.payload, op.flags, op.pts); Legal(b, op0) && Restricts(Step(a, op), Step(b, op0), t)
  {
    hide Prefix, PacketsOn;
    PacketsOnStep(a.written, MuxPacket(a.tracks, t, op.payload, op.flags, op.pts), t);
  }

  /** A call that is not track t's own. */
  predicate Foreign(m: Mux, op: Op, t: nat) {
    match op
    case AddTrack(f) => !MakesStream(f) || |m.tracks| != t
    case Register(track, _) => track != t || t >= |m.tracks|
    case Write(track, _, _, _) => track != t
  }

  lemma ForeignStep(a: Mux, b: Mux, op: Op, t: nat)
    requires Restricts(a, b, t) && Legal(a, op) && Foreign(a, op, t)
    ensures Restricts(Step(a, op), b, t)
  {
    hide Prefix, PacketsOn, NewTrack;
    if op.Write? {
      PacketsOnStep(a.written, MuxPacket(a.tracks, op.track, op.payload, op.flags, op.pts), t);
    }
  }

  /** A track acts as if it were alone: a muxer that has this one track only, with the same format and
      given only its parameter sets and frames, holds the same state for it and puts out its packets. */
  lemma {:induction false} AloneRun(ops: seq<Op>, t: nat)
    requires LegalRun(ops)
    ensures LegalRun(Alone(ops, t)) && Restricts(Final(ops), Final(Alone(ops, t)), t)
  {
    hide Run, Step, Legal, Restricts;
    if ops == [] {
      EmptyRun();
      RestrictsAtStart(t);
    } else {
      var hist, op := ops[..|ops| - 1], ops[|ops| - 1];
      RunLast(ops);
      AloneRun(hist, t);
      TracksFromHistory(hist);
      var a, b := Final(hist), Final(Alone(hist, t));
      if Foreign(a, op, t) {
        ForeignStep(a, b, op, t);
        assert Alone(ops, t) == Alone(hist, t);
      } else {
        match op {
          case AddTrack(f) =>
            OwnAddTrack(a, b, f, t);
            RunAppend(Alone(hist, t), op);
          case Register(_, ps) =>
            OwnRegister(a, b, ps, t);
            RegisterIsLegal(b, ps);
            RunAppend(Alone(hist, t), Register(0, ps));
          case Write(_, payload, flags, pts) =>
            OwnWrite(a, b, op, t);
            RunAppend(Alone(hist, t), Write(0, payload, flags, pts));
        }
      }
    }
  }

  lemma RestrictsAtStart(t: nat)
    ensures Restricts(INIT, INIT, t)
  {
  }

  lemma RegisterIsLegal(m: Mux, ps: seq<byte>)
    ensures Legal(m, Register(0, ps))
  {
  }

  /** So tracks of two runs that were added with the same format and given the same parameter sets and
      frames get the same packets, whatever other tracks there are, whatever their codecs and calls,
      however the calls were interleaved, and whichever indices the two tracks have. */
  lemma Isolation(ops: seq<Op>, t: nat, ops': seq<Op>, t': nat)
    requires LegalRun(ops) && LegalRun(ops') && Alone(ops, t) == Alone(ops', t')
    ensures var out, out' := PacketsOn(Final(ops).written, t), PacketsOn(Final(ops').written, t');
      |out| == |out'| && forall i :: 0 <= i < |out| ==> out[i].data == out'[i].data && out[i].pts == out'[i].pts
  {
    hide Run, Final, LegalRun, PacketsOn, Alone;
    AloneRun(ops, t);
    AloneRun(ops', t');
    var alone := Final(Alone(ops, t)).written;
    var out, out' := PacketsOn(Final(ops).written, t), PacketsOn(Final(ops').written, t');
    assert forall i :: 0 <= i < |out| ==> alone[i].data == out[i].data && alone[i].pts == out[i].pts;
  }

  // What a decoder gets from an AAC track

  function Joined(out: seq<Packet>): seq<byte> {
    if out == [] then [] else out[0].data + Joined(out[1..])
  }

  function Framed(audio: AudioParams, payloads: seq<seq<byte>>): (fs: seq<Frame>)
    ensures |fs| == |payloads|
    ensures forall i :: 0 <= i < |fs| ==> fs[i] == Frame(audio, payloads[i])
  {
    if payloads == [] then [] else [Frame(audio, payloads[0])] + Framed(audio, payloads[1..])
  }

  predicate IsAac(ops: seq<Op>, t: nat) { t < |Streams(ops)| && Streams(ops)[t].codecId == 2 }

  function AacAudio(ops: seq<Op>, t: nat): AudioParams
    requires IsAac(ops, t)
  {
    AudioParams(Streams(ops)[t].profile, Streams(ops)[t].sampleRate, Streams(ops)[t].channels)
  }

  lemma {:induction false} NoneBefore(ops: seq<Op>, t: nat)
    requires LegalRun(ops) && t >= |Streams(ops)|
    ensures PacketsOn(Final(ops).written, t) == [] && Payloads(ops, t) == []
  {
    hide Run, Final, Expected;
    if ops == [] {
      EmptyRun();
    } else {
      var hist, op := ops[..|ops| - 1], ops[|ops| - 1];
      LastWritten(ops);
      NoneBefore(hist, t);
      if op.Write? {
        PacketsOnStep(Final(hist).written, Packet(op.track, Expected(hist, op) + op.payload, op.pts), t);
      }
    }
  }

  /** Each packet of an AAC track is the ADTS frame of the payload written. */
  lemma {:induction false} AacPackets(ops: seq<Op>, t: nat)
    requires LegalRun(ops) && IsAac(ops, t)
    ensures var out := PacketsOn(Final(ops).written, t);
      && |out| == |Payloads(ops, t)|
      && forall i :: 0 <= i < |out| ==> out[i].data == Encode(Frame(AacAudio(ops, t), Payloads(ops, t)[i]))
  {
    hide Run, Final, Header;
    if ops == [] {
    } else {
      var hist, op := ops[..|ops| - 1], ops[|ops| - 1];
      LastWritten(ops);
      if t < |Streams(hist)| {
        AacPackets(hist, t);
        if op.Write? {
          PacketsOnStep(Final(hist).written, Packet(op.track, Expected(hist, op) + op.payload, op.pts), t);
        }
      } else {
        NoneBefore(hist, t);
      }
    }
  }

  lemma {:induction false} JoinedIsStream(out: seq<Packet>, audio: AudioParams, payloads: seq<seq<byte>>)
    requires |out| == |payloads|
    requires forall i :: 0 <= i < |out| ==> out[i].data == Encode(Frame(audio, payloads[i]))
    ensures Joined(out) == EncodeStream(Framed(audio, payloads))
  {
    hide Encode;
    if out != [] {
      JoinedIsStream(out[1..], audio, payloads[1..]);
      assert Framed(audio, payloads)[1..] == Framed(audio, payloads[1..]);
    }
  }

  /** A decoder that reads the packets of an AAC track as one ADTS stream gets back exactly the frames
      written to that track and the parameters the track was added with, whatever else happened in
      the run, if and only if the track's parameters and every frame size fit an ADTS header. */
  lemma AacRecovery(ops: seq<Op>, t: nat)
    requires LegalRun(ops) && IsAac(ops, t)
    ensures var frames := Framed(AacAudio(ops, t), Payloads(ops, t));
      ParseStream(Joined(PacketsOn(Final(ops).written, t))) == Some(frames)
      <==> forall i :: 0 <= i < |frames| ==> Representable(frames[i])
  {
    hide Run, Final, LegalRun, PacketsOn, Joined, Framed, ParseStream, EncodeStream, Representable, Encode, Payloads;
    AacPackets(ops, t);
    JoinedIsStream(PacketsOn(Final(ops).written, t), AacAudio(ops, t), Payloads(ops, t));
    Deframe(Framed(AacAudio(ops, t), Payloads(ops, t)));
  }
}
