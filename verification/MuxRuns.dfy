/** Whole runs of the muxer, described from the history of calls alone: which packets come out,
    what is in front of each payload, and that tracks do not affect each other. */
module MuxRuns {
  import opened Bits
  import opened Outcomes
  import opened Adts
  import opened MuxModel

  // What the history says

  /** The formats of the streams made, by stream index. */
  function Streams(ops: seq<Op>): seq<Format> {
    if ops == [] then []
    else
      var op := ops[|ops| - 1];
      Streams(ops[..|ops| - 1]) + if op.AddTrack? && op.format.streamType in {0, 1} then [op.format] else []
  }

  /** The parameter sets last registered for track t since it was added as a video track. */
  function LastParams(ops: seq<Op>, t: nat): Option<seq<byte>> {
    if ops == [] then None
    else
      var hist, op := ops[..|ops| - 1], ops[|ops| - 1];
      if op.Register? && op.track == t && t < |Streams(hist)| && Streams(hist)[t].streamType == 0
      then Some(op.paramSets)
      else LastParams(hist, t)
  }

  /** What an audio record keeps of the format: the parameters of an AAC track only. */
  function RecordedParams(f: Format): AudioParams {
    if f.codecId == 2 then AudioParams(f.profile, f.sampleRate, f.channels) else AudioParams(-1, -1, -1)
  }

  /** The i-th track as the history describes it. */
  predicate IsTrack(track: Track, ops: seq<Op>, t: nat)
    requires t < |Streams(ops)|
  {
    var f := Streams(ops)[t];
    && f.streamType in {0, 1} && CodecId(track.codec) == f.codecId
    && (if f.streamType == 0 then track.VideoTrack? && track.paramSets == LastParams(ops, t)
        else track.AudioTrack? && track.audio == RecordedParams(f))
  }

  /** The bytes the history puts in front of a frame written next. */
  function Expected(hist: seq<Op>, op: Op): seq<byte>
    requires op.Write? && 0 <= op.track < |Streams(hist)|
  {
    var f := Streams(hist)[op.track];
    if f.codecId == 2 then Header(AudioParams(f.profile, f.sampleRate, f.channels), |op.payload| + 7)
    else if f.codecId in {0, 1} && op.flags % 2 == 1 then
      (match LastParams(hist, op.track) case Some(ps) => ps case None => [])
    else []
  }

  /** The positions of the frame writes in a history. */
  function Writes(ops: seq<Op>): (w: seq<nat>)
    ensures forall i :: 0 <= i < |w| ==> w[i] < |ops| && ops[w[i]].Write?
  {
    if ops == [] then []
    else
      var n := |ops| - 1;
      Writes(ops[..n]) + if ops[n].Write? then [n] else []
  }

  predicate Known(hist: seq<Op>, t: int) {
    0 <= t < |Streams(hist)| && Streams(hist)[t].codecId in {0, 1, 2, 3, 7, 8}
  }

  // The tracks of a run

  lemma {:induction false} NoParamsYet(ops: seq<Op>, t: nat)
    requires t >= |Streams(ops)|
    ensures LastParams(ops, t) == None
  {
    if ops != [] { NoParamsYet(ops[..|ops| - 1], t); }
  }

  /** Every track of the final state is what the history says it is: in particular a video track
      holds the parameter sets last registered for it. */
  lemma {:induction false} TracksFromHistory(ops: seq<Op>)
    requires LegalRun(ops)
    ensures |Final(ops).tracks| == |Streams(ops)|
    ensures forall t :: 0 <= t < |Streams(ops)| ==> IsTrack(Final(ops).tracks[t], ops, t)
  {
    hide Legal, CanWrite, Prefix, MuxPacket, Run, Final;
    if ops == [] {
      EmptyRun();
    } else {
      var hist, op := ops[..|ops| - 1], ops[|ops| - 1];
      RunLast(ops);
      TracksFromHistory(hist);
      forall t | 0 <= t < |Streams(ops)| ensures IsTrack(Final(ops).tracks[t], ops, t) {
        TrackStep(ops, t);
      }
    }
  }

  lemma TrackStep(ops: seq<Op>, t: nat)
    requires ops != [] && LegalRun(ops) && LegalRun(ops[..|ops| - 1]) && t < |Streams(ops)|
    requires var hist := ops[..|ops| - 1];
      && |Final(hist).tracks| == |Streams(hist)|
      && forall i :: 0 <= i < |Streams(hist)| ==> IsTrack(Final(hist).tracks[i], hist, i)
    ensures |Final(ops).tracks| == |Streams(ops)|
    ensures IsTrack(Final(ops).tracks[t], ops, t)
  {
    var hist, op := ops[..|ops| - 1], ops[|ops| - 1];
    RunLast(ops);
    hide Run, Final, Prefix, MuxPacket, CanWrite;
    if t < |Streams(hist)| {
      assert IsTrack(Final(hist).tracks[t], hist, t);
    } else {
      NoParamsYet(hist, t);
    }
  }

  /** When a frame may be written, in terms of the history alone: its track was added; an AAC track
      was added as audio; and for a key frame of an H.264 or H.265 track, the track was added as
      video and its parameter sets were registered since. */
  lemma WriteLegality(ops: seq<Op>, op: Op)
    requires LegalRun(ops) && op.Write?
    ensures Legal(Final(ops), op) <==>
            && 0 <= op.track < |Streams(ops)|
            && var f := Streams(ops)[op.track];
            && (f.codecId == 2 ==> f.streamType == 1)
            && (f.codecId in {0, 1} && op.flags % 2 == 1 ==> f.streamType == 0 && LastParams(ops, op.track).Some?)
  {
    hide Run, Final, Streams, LastParams;
    TracksFromHistory(ops);
    if 0 <= op.track < |Streams(ops)| {
      assert IsTrack(Final(ops).tracks[op.track], ops, op.track);
    }
  }

  /** When a track may be added: unless the call makes no stream, its codec number must be one of the
      six known and there must be fewer than ten streams. */
  lemma AddLegality(ops: seq<Op>, f: Format)
    requires LegalRun(ops)
    ensures Legal(Final(ops), AddTrack(f)) <==>
            (f.streamType in {0, 1} ==> f.codecId in {0, 1, 2, 3, 7, 8} && |Streams(ops)| < 10)
  {
    hide Run, Final, Streams;
    TracksFromHistory(ops);
  }

  // The packets of a run

  /** One packet per write, in order; each is its own payload behind what the history up to that write
      puts in front: an ADTS header, the parameter sets last registered for the same track, or
      nothing. */
  lemma {:induction false} PacketsFromHistory(ops: seq<Op>)
    requires LegalRun(ops)
    ensures |Final(ops).written| == |Writes(ops)|
    ensures forall i :: 0 <= i < |Writes(ops)| ==> IsPacketOf(Final(ops).written[i], ops, Writes(ops)[i])
  {
    hide Legal, CanWrite, Prefix, MuxPacket, Run, Final, Step, Expected, Streams;
    if ops == [] {
      EmptyRun();
    } else {
      var n := |ops| - 1;
      var hist, op := ops[..n], ops[n];
      RunLast(ops);
      PacketsFromHistory(hist);
      forall i | 0 <= i < |Writes(hist)|
        ensures IsPacketOf(Final(hist).written[i], ops, Writes(hist)[i])
      {
        assert hist[..Writes(hist)[i]] == ops[..Writes(hist)[i]];
      }
      WrittenStep(ops);
    }
  }

  /** Packet p is what the history before position w makes of the write there. */
  predicate IsPacketOf(p: Packet, ops: seq<Op>, w: nat)
    requires w < |ops| && ops[w].Write?
  {
    && Known(ops[..w], ops[w].track)
    && p == Packet(ops[w].track, Expected(ops[..w], ops[w]) + ops[w].payload, ops[w].pts)
  }

  lemma WrittenStep(ops: seq<Op>)
    requires ops != [] && LegalRun(ops) && LegalRun(ops[..|ops| - 1])
    ensures var hist, op := ops[..|ops| - 1], ops[|ops| - 1];
      && (!op.Write? ==> Final(ops).written == Final(hist).written)
      && (op.Write? ==> |Final(ops).written| == |Final(hist).written| + 1
                        && Final(hist).written <= Final(ops).written
                        && IsPacketOf(Final(ops).written[|Final(hist).written|], ops, |ops| - 1))
  {
    hide Run, Final, Streams, LastParams, Header;
    var hist, op := ops[..|ops| - 1], ops[|ops| - 1];
    RunLast(ops);
    if op.Write? {
      TracksFromHistory(hist);
      assert IsTrack(Final(hist).tracks[op.track], hist, op.track);
    }
  }
}
