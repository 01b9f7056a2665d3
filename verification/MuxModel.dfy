/** The muxer of mux_stream.cpp as a state machine: what each call does to the tracks, to their
    parameter sets and to the packets handed to the container. Whole-run theorems are in the
    modules that import this one. */
module MuxModel {
  import opened Bits
  import opened Outcomes
  import opened Adts

  const DEFAULT_NO_STREAMS := 10

  datatype Codec = H264 | H265 | AAC | FLAC | DvbTeletext | DvbSubtitle

  /** getCodecByID returns nothing for any other number. */
  function GetCodecById(id: int): Option<Codec> {
    match id
    case 0 => Some(H264)
    case 1 => Some(H265)
    case 2 => Some(AAC)
    case 3 => Some(FLAC)
    case 7 => Some(DvbTeletext)
    case 8 => Some(DvbSubtitle)
    case _ => None
  }

  datatype Track =
    | VideoTrack(codec: Codec, paramSets: Option<seq<byte>>)
    | AudioTrack(codec: Codec, audio: AudioParams)

  /** The parsed entries of the format map that reach the packets. */
  datatype Format = Format(streamType: int, codecId: int, sampleRate: int, channels: int, profile: int)

  datatype Packet = Packet(streamIndex: nat, data: seq<byte>, pts: int)

  datatype Mux = Mux(tracks: seq<Track>, nbstreams: nat, written: seq<Packet>)

  const INIT := Mux([], 0, [])

  datatype Op =
    | AddTrack(format: Format)
    | Register(track: int, paramSets: seq<byte>)
    | Write(track: int, payload: seq<byte>, flags: int, pts: int)

  /** The code's own number for a codec. */
  function CodecId(codec: Codec): int {
    match codec
    case H264 => 0
    case H265 => 1
    case AAC => 2
    case FLAC => 3
    case DvbTeletext => 7
    case DvbSubtitle => 8
  }

  /** The lookup is the inverse of the numbering: it finds every codec, each under its own number only. */
  lemma CodecNumbers(id: int, codec: Codec)
    ensures GetCodecById(id) == Some(codec) <==> id == CodecId(codec)
    ensures GetCodecById(id).Some? <==> id in {0, 1, 2, 3, 7, 8}
  {
  }

  /** The test `flags & 1`: a frame is a key frame exactly when its flags are an odd number. */
  lemma KeyFlagIsOdd(flags: int)
    ensures And(Low(flags, 32), 1) != 0 <==> flags % 2 == 1
  {
    LowestBit(flags);
    hide *;
    AndBitLow(flags, 32, 0);
  }

  lemma LowestBit(flags: int)
    ensures Pow2(0) == 1 && Shr(flags, 0) == flags
  {
  }

  predicate MakesStream(format: Format) { format.streamType == 0 || format.streamType == 1 }

  predicate IsVideoCodec(codec: Codec) { codec.H264? || codec.H265? }

  function NewTrack(format: Format): Track
    requires MakesStream(format) && GetCodecById(format.codecId).Some?
  {
    var codec := GetCodecById(format.codecId).value;
    if format.streamType == 0 then VideoTrack(codec, None)
    else AudioTrack(codec, if codec.AAC? then AudioParams(format.profile, format.sampleRate, format.channels)
                           else AudioParams(-1, -1, -1))
  }

  /** When a frame may be written: an AAC track must have been added as audio, and a key frame of an
      H.264 or H.265 track needs a video track whose parameter sets are registered. */
  predicate CanWrite(tracks: seq<Track>, track: int, flags: int) {
    && 0 <= track < |tracks|
    && (tracks[track].codec.AAC? ==> tracks[track].AudioTrack?)
    && (IsVideoCodec(tracks[track].codec) && flags % 2 == 1 ==>
          tracks[track].VideoTrack? && tracks[track].paramSets.Some?)
  }

  /** What the code relies on its callers for. */
  predicate Legal(m: Mux, op: Op) {
    match op
    case AddTrack(f) => MakesStream(f) ==> GetCodecById(f.codecId).Some? && |m.tracks| < DEFAULT_NO_STREAMS
    case Register(_, _) => true
    case Write(t, _, flags, _) => CanWrite(m.tracks, t, flags)
  }

  /** The bytes put in front of a payload. */
  function Prefix(track: Track, size: nat, flags: int): seq<byte>
    requires track.codec.AAC? ==> track.AudioTrack?
    requires IsVideoCodec(track.codec) && flags % 2 == 1 ==> track.VideoTrack? && track.paramSets.Some?
  {
    if track.codec.AAC? then Header(track.audio, size + ADTS_LENGTH)
    else if IsVideoCodec(track.codec) && flags % 2 == 1 then track.paramSets.value
    else []
  }

  function SetParams(tracks: seq<Track>, t: int, paramSets: seq<byte>): (r: seq<Track>)
    ensures |r| == |tracks|
  {
    if 0 <= t < |tracks| && tracks[t].VideoTrack? then tracks[t := tracks[t].(paramSets := Some(paramSets))]
    else tracks
  }

  function MuxPacket(tracks: seq<Track>, t: int, payload: seq<byte>, flags: int, pts: int): Packet
    requires CanWrite(tracks, t, flags)
  {
    Packet(t, Prefix(tracks[t], |payload|, flags) + payload, pts)
  }

  /** Every addTrack call counts in `nbstreams`, also one that makes no stream. */
  function Step(m: Mux, op: Op): Mux
    requires Legal(m, op)
  {
    match op
    case AddTrack(f) =>
      m.(tracks := if MakesStream(f) then m.tracks + [NewTrack(f)] else m.tracks, nbstreams := m.nbstreams + 1)
    case Register(t, ps) => m.(tracks := SetParams(m.tracks, t, ps))
    case Write(t, payload, flags, pts) => m.(written := m.written + [MuxPacket(m.tracks, t, payload, flags, pts)])
  }

  /** A run from the empty muxer; none if some call breaks what the code relies on. The last
      operation is applied last. */
  function Run(ops: seq<Op>): Option<Mux> {
    if ops == [] then Some(INIT)
    else
      match Run(ops[..|ops| - 1])
      case None => None
      case Some(m) => if Legal(m, ops[|ops| - 1]) then Some(Step(m, ops[|ops| - 1])) else None
  }

  predicate LegalRun(ops: seq<Op>) { Run(ops).Some? }

  function Final(ops: seq<Op>): Mux
    requires LegalRun(ops)
  {
    Run(ops).value
  }

  lemma RunAppend(ops: seq<Op>, op: Op)
    requires LegalRun(ops)
    ensures Run(ops + [op]) == if Legal(Final(ops), op) then Some(Step(Final(ops), op)) else None
  {
    assert (ops + [op])[..|ops|] == ops;
  }

  lemma EmptyRun()
    ensures LegalRun([]) && Final([]) == INIT
  {
  }

  lemma RunLast(ops: seq<Op>)
    requires ops != [] && LegalRun(ops)
    ensures LegalRun(ops[..|ops| - 1]) && Legal(Final(ops[..|ops| - 1]), ops[|ops| - 1])
    ensures Final(ops) == Step(Final(ops[..|ops| - 1]), ops[|ops| - 1])
  {
  }
}
