/** The muxer object of mux_stream.cpp: two fixed-size arrays of stream records, filled by addTrack
    and searched by stream index, and packets built in freshly allocated byte buffers.

    Every method is proved to do what one step of `MuxModel` does. */
module MuxStream {
  import opened Bits
  import opened Outcomes
  import opened Adts
  import opened MuxModel
  import opened MuxRuns
  import opened MuxRegistry

  /** `spsPpsData` is null until parameter sets are registered; its size is the array's. */
  datatype VideoStreamInfo = VideoStreamInfo(trackIndex: int, spsPpsData: array?<byte>)
  datatype AudioStreamInfo = AudioStreamInfo(trackIndex: int, audio: AudioParams)

  lemma IndicesAppend(tracks: seq<Track>, track: Track, video: bool)
    ensures Indices(tracks + [track], video)
         == Indices(tracks, video) + if track.VideoTrack? == video then [|tracks|] else []
  {
    assert (tracks + [track])[..|tracks|] == tracks;
  }

  lemma NoVideoTrack(tracks: seq<Track>, t: int, ps: seq<byte>)
    requires forall i :: 0 <= i < |Indices(tracks, true)| ==> Indices(tracks, true)[i] != t
    ensures SetParams(tracks, t, ps) == tracks
  {
    if 0 <= t < |tracks| { var i := IndexOf(tracks, t); }
  }

  lemma NewTrackIs(format: Format)
    requires format.streamType in {0, 1} && GetCodecById(format.codecId).Some?
    ensures var codec := GetCodecById(format.codecId).value;
      && CodecId(codec) == format.codecId
      && RecordedParams(format) == (if codec.AAC? then AudioParams(format.profile, format.sampleRate, format.channels)
                                    else AudioParams(-1, -1, -1))
      && NewTrack(format) == if format.streamType == 0 then VideoTrack(codec, None)
                             else AudioTrack(codec, RecordedParams(format))
  {
  }

  /** memcpy(dst + at, src, n) */
  method CopyBytes(dst: array<byte>, at: nat, src: array<byte>, n: nat)
    requires dst != src && at + n <= dst.Length && n <= src.Length
    modifies dst
    ensures dst[..] == old(dst[..])[..at] + src[..n] + old(dst[..])[at + n..]
  {
    forall i | 0 <= i < n {
      dst[at + i] := src[i];
    }
  }

  class OutputStream {
    /** The codec of each stream of the container, by stream index. */
    var codecs: seq<Codec>
    var nbstreams: nat
    const videoStreamInfo: array<VideoStreamInfo>
    const audioStreamInfo: array<AudioStreamInfo>
    var numOfVideoStreams: nat
    var numOfAudioStreams: nat
    /** The packets handed to the container, in order. */
    var written: seq<Packet>

    ghost var tracks: seq<Track>
    ghost var buffers: set<array<byte>>
    /** Every call so far. */
    ghost var history: seq<Op>

    ghost function Model(): Mux
      reads this
    {
      Mux(tracks, nbstreams, written)
    }

    /** The object is in the state that a run of its calls leads to. */
    ghost predicate Valid()
      reads this, videoStreamInfo, audioStreamInfo, buffers
    {
      Consistent() && Run(history) == Some(Model())
    }

    /** The arrays describe the tracks. */
    ghost predicate Consistent()
      reads `codecs, `tracks, `buffers, `numOfVideoStreams, `numOfAudioStreams
      reads videoStreamInfo, audioStreamInfo, buffers
    {
      && videoStreamInfo.Length == audioStreamInfo.Length == DEFAULT_NO_STREAMS
      && |codecs| == |tracks| <= DEFAULT_NO_STREAMS
      && (forall t :: 0 <= t < |tracks| ==> codecs[t] == tracks[t].codec)
      && numOfVideoStreams == |Indices(tracks, true)| <= DEFAULT_NO_STREAMS
      && numOfAudioStreams == |Indices(tracks, false)| <= DEFAULT_NO_STREAMS
      && (forall i :: 0 <= i < numOfVideoStreams ==>
            VideoEntry(videoStreamInfo[i], tracks, Indices(tracks, true)[i], buffers))
      && (forall i :: 0 <= i < numOfAudioStreams ==>
            AudioEntry(audioStreamInfo[i], tracks, Indices(tracks, false)[i]))
    }

    /** A video record belongs to its track and owns a copy of its parameter sets. */
    static ghost predicate VideoEntry(info: VideoStreamInfo, tracks: seq<Track>, t: nat, buffers: set<array<byte>>)
      reads buffers
    {
      && info.trackIndex == t < |tracks| && tracks[t].VideoTrack?
      && (info.spsPpsData == null <==> tracks[t].paramSets.None?)
      && (info.spsPpsData != null ==> info.spsPpsData in buffers && info.spsPpsData[..] == tracks[t].paramSets.value)
    }

    static predicate AudioEntry(info: AudioStreamInfo, tracks: seq<Track>, t: nat) {
      t < |tracks| && tracks[t].AudioTrack? && info == AudioStreamInfo(t, tracks[t].audio)
    }

    // The records

    ghost predicate HasVideoRecord(t: int)
      reads `numOfVideoStreams, videoStreamInfo
      requires numOfVideoStreams <= videoStreamInfo.Length
    {
      exists i :: 0 <= i < numOfVideoStreams && videoStreamInfo[i].trackIndex == t
    }

    ghost predicate HasAudioRecord(t: int)
      reads `numOfAudioStreams, audioStreamInfo
      requires numOfAudioStreams <= audioStreamInfo.Length
    {
      exists i :: 0 <= i < numOfAudioStreams && audioStreamInfo[i].trackIndex == t
    }

    /** The linear search of the records for a stream's index hits exactly one, in the array for the kind
        the stream was added with. */
    lemma SearchHitsOneRecord(t: nat) returns (i: nat)
      requires Valid() && t < |codecs|
      ensures t < |Streams(history)|
      ensures Streams(history)[t].streamType == 0 ==>
                && i < numOfVideoStreams && !HasAudioRecord(t)
                && forall j :: 0 <= j < numOfVideoStreams ==> (videoStreamInfo[j].trackIndex == t <==> j == i)
      ensures Streams(history)[t].streamType != 0 ==>
                && i < numOfAudioStreams && !HasVideoRecord(t)
                && forall j :: 0 <= j < numOfAudioStreams ==> (audioStreamInfo[j].trackIndex == t <==> j == i)
    {
      hide Run, Indices, Streams;
      TracksFromHistory(history);
      assert IsTrack(tracks[t], history, t);
      i := SearchFindsOne(tracks, t);
      RecordsAreIndices();
    }

    lemma RecordsAreIndices()
      requires Consistent()
      ensures forall i :: 0 <= i < numOfVideoStreams ==> videoStreamInfo[i].trackIndex == Indices(tracks, true)[i]
      ensures forall i :: 0 <= i < numOfAudioStreams ==> audioStreamInfo[i].trackIndex == Indices(tracks, false)[i]
    {
      hide Indices;
      forall i | 0 <= i < numOfVideoStreams ensures videoStreamInfo[i].trackIndex == Indices(tracks, true)[i] {
        assert VideoEntry(videoStreamInfo[i], tracks, Indices(tracks, true)[i], buffers);
      }
    }

    /** Both arrays are in the order of the stream indices, and every stream of the container has its one
        record in one of them. */
    lemma RecordsPartitionStreams()
      requires Valid()
      ensures forall i, j :: 0 <= i < j < numOfVideoStreams ==>
                videoStreamInfo[i].trackIndex < videoStreamInfo[j].trackIndex
      ensures forall i, j :: 0 <= i < j < numOfAudioStreams ==>
                audioStreamInfo[i].trackIndex < audioStreamInfo[j].trackIndex
      ensures numOfVideoStreams + numOfAudioStreams == |codecs| <= 10
      ensures forall t :: HasVideoRecord(t) || HasAudioRecord(t) <==> 0 <= t < |codecs|
      ensures forall t :: !(HasVideoRecord(t) && HasAudioRecord(t))
    {
      hide Run, Indices;
      RecordsAreIndices();
      Registry(tracks);
      forall t
        ensures HasVideoRecord(t) <==> 0 <= t < |codecs| && tracks[t].VideoTrack?
        ensures HasAudioRecord(t) <==> 0 <= t < |codecs| && !tracks[t].VideoTrack?
      {
        if 0 <= t < |codecs| {
          var i := SearchFindsOne(tracks, t);
          assert Indices(tracks, tracks[t].VideoTrack?)[i] == t;
        }
      }
    }

    constructor ()
      ensures Valid() && Model() == INIT && history == []
      ensures videoStreamInfo.Length == audioStreamInfo.Length == 10
      ensures fresh(videoStreamInfo) && fresh(audioStreamInfo) && buffers == {}
    {
      codecs := [];
      nbstreams := 0;
      videoStreamInfo := new VideoStreamInfo[DEFAULT_NO_STREAMS](_ => VideoStreamInfo(-1, null));
      audioStreamInfo := new AudioStreamInfo[DEFAULT_NO_STREAMS](_ => AudioStreamInfo(-1, AudioParams(0, 0, 0)));
      numOfVideoStreams, numOfAudioStreams := 0, 0;
      written := [];
      tracks := [];
      buffers := {};
      history := [];
    }

    // Adding tracks

    method AddVideoStream(format: Format) returns (streamIndex: int)
      requires Consistent() && format.streamType == 0 && GetCodecById(format.codecId).Some?
      requires |tracks| < DEFAULT_NO_STREAMS
      modifies this, videoStreamInfo
      ensures Consistent() && buffers == old(buffers) && history == old(history)
      ensures Model() == old(Model()).(tracks := old(tracks) + [NewTrack(format)])
      ensures streamIndex == old(|tracks|)
      ensures |codecs| == old(|codecs|) + 1 && codecs[..streamIndex] == old(codecs)
      ensures CodecId(codecs[streamIndex]) == format.codecId
      ensures numOfVideoStreams == old(numOfVideoStreams) + 1
      ensures videoStreamInfo[old(numOfVideoStreams)] == VideoStreamInfo(streamIndex, null)
    {
      hide Indices, GetCodecById, CodecId, NewTrack;
      var codec := GetCodecById(format.codecId).value;
      NewTrackIs(format);
      IndicesAppend(tracks, VideoTrack(codec, None), true);
      IndicesAppend(tracks, VideoTrack(codec, None), false);
      IndicesCount(tracks);
      streamIndex := |codecs|;
      codecs := codecs + [codec];
      videoStreamInfo[numOfVideoStreams] := VideoStreamInfo(streamIndex, null);
      numOfVideoStreams := numOfVideoStreams + 1;
      tracks := tracks + [VideoTrack(codec, None)];
    }

    method AddAudioStream(format: Format) returns (streamIndex: int)
      requires Consistent() && format.streamType == 1 && GetCodecById(format.codecId).Some?
      requires |tracks| < DEFAULT_NO_STREAMS
      modifies this, audioStreamInfo
      ensures Consistent() && buffers == old(buffers) && history == old(history)
      ensures Model() == old(Model()).(tracks := old(tracks) + [NewTrack(format)])
      ensures streamIndex == old(|tracks|)
      ensures |codecs| == old(|codecs|) + 1 && codecs[..streamIndex] == old(codecs)
      ensures CodecId(codecs[streamIndex]) == format.codecId
      ensures numOfAudioStreams == old(numOfAudioStreams) + 1
      ensures audioStreamInfo[old(numOfAudioStreams)] == AudioStreamInfo(streamIndex, RecordedParams(format))
    {
      hide Indices, GetCodecById, CodecId, NewTrack, RecordedParams;
      var codec := GetCodecById(format.codecId).value;
      NewTrackIs(format);
      IndicesAppend(tracks, AudioTrack(codec, RecordedParams(format)), true);
      IndicesAppend(tracks, AudioTrack(codec, RecordedParams(format)), false);
      IndicesCount(tracks);
      streamIndex := |codecs|;
      codecs := codecs + [codec];
      var sampleRate := if codec.AAC? then format.sampleRate else -1;
      var channelCount := if codec.AAC? then format.channels else -1;
      var profile := if codec.AAC? then format.profile else -1;
      var audio := AudioParams(profile, sampleRate, channelCount);
      audioStreamInfo[numOfAudioStreams] := AudioStreamInfo(streamIndex, audio);
      numOfAudioStreams := numOfAudioStreams + 1;
      tracks := tracks + [AudioTrack(codec, audio)];
    }

    /** A video or audio track gets the next stream index; any other kind gets none, but counts. */
    method AddTrack(format: Format) returns (streamIndex: int)
      requires Valid() && Legal(Model(), Op.AddTrack(format))
      modifies this, videoStreamInfo, audioStreamInfo
      ensures Valid() && buffers == old(buffers)
      ensures Model() == Step(old(Model()), Op.AddTrack(format)) && history == old(history) + [Op.AddTrack(format)]
      ensures streamIndex == if format.streamType in {0, 1} then old(|tracks|) else -1
    {
      hide Run, Indices, NewTrack;
      RunAppend(history, Op.AddTrack(format));
      history := history + [Op.AddTrack(format)];
      streamIndex := -1;
      match format.streamType {
        case 0 => streamIndex := AddVideoStream(format);
        case 1 => streamIndex := AddAudioStream(format);
        case _ =>
      }
      nbstreams := nbstreams + 1;
    }

    // Parameter sets

    /** Replaces the parameter sets of the i-th video record by a fresh copy. */
    method StoreParamSets(i: nat, framedata: array<byte>, size: nat)
      requires Consistent() && size <= framedata.Length && i < numOfVideoStreams
      modifies this`tracks, this`buffers, videoStreamInfo
      ensures Consistent() && old(buffers) <= buffers && fresh(buffers - old(buffers))
      ensures tracks == SetParams(old(tracks), old(videoStreamInfo[i].trackIndex), framedata[..size])
    {
      hide Indices;
      IndicesIncrease(tracks, true);
      var t := videoStreamInfo[i].trackIndex;
      assert VideoEntry(videoStreamInfo[i], tracks, Indices(tracks, true)[i], buffers);
      var copy := new byte[size];
      CopyBytes(copy, 0, framedata, size);
      assert copy[..] == framedata[..size];
      IndicesSetParams(tracks, t, copy[..], true);
      IndicesSetParams(tracks, t, copy[..], false);
      videoStreamInfo[i] := videoStreamInfo[i].(spsPpsData := copy);
      tracks := SetParams(tracks, t, copy[..]);
      buffers := buffers + {copy};
    }

    /** addPPSAndSPSBuffer: a video track keeps a copy of its latest parameter sets; a call for any
        other index does nothing. */
    method AddPPSAndSPSBuffer(trackIndex: int, framedata: array<byte>, size: nat)
      requires Valid() && size <= framedata.Length
      modifies this, videoStreamInfo
      ensures Valid() && old(buffers) <= buffers && fresh(buffers - old(buffers))
      ensures Model() == Step(old(Model()), Register(trackIndex, framedata[..size]))
      ensures history == old(history) + [Register(trackIndex, framedata[..size])]
    {
      hide Indices, Run, SetParams;
      RunAppend(history, Register(trackIndex, framedata[..size]));
      history := history + [Register(trackIndex, framedata[..size])];
      for i := 0 to numOfVideoStreams
        invariant forall j :: 0 <= j < i ==> Indices(tracks, true)[j] != trackIndex
      {
        assert VideoEntry(videoStreamInfo[i], tracks, Indices(tracks, true)[i], buffers);
        if videoStreamInfo[i].trackIndex == trackIndex {
          StoreParamSets(i, framedata, size);
          return;
        }
      }
      NoVideoTrack(tracks, trackIndex, framedata[..size]);
    }

    // Packets

    /** addAdtsPacket: the search finds the track's audio record, and the new packet is the header and
        then the payload. */
    method AddAdtsPacket(data: array<byte>, size: nat, trackIndex: int) returns (adtsPacket: array<byte>)
      requires Consistent() && size <= data.Length
      requires 0 <= trackIndex < |tracks| && tracks[trackIndex].AudioTrack?
      ensures fresh(adtsPacket)
      ensures adtsPacket[..] == Header(tracks[trackIndex].audio, size + ADTS_LENGTH) + data[..size]
    {
      hide Indices, Low, Shl, Shr, And;
      var info := AudioStreamInfo(-1, AudioParams(0, 0, 0));
      ghost var found := SearchFindsOne(tracks, trackIndex);
      for i := 0 to numOfAudioStreams
        invariant i <= found
      {
        assert AudioEntry(audioStreamInfo[i], tracks, Indices(tracks, false)[i]);
        if audioStreamInfo[i].trackIndex == trackIndex {
          info := audioStreamInfo[i];
          break;
        }
      }
      assert info.audio == tracks[trackIndex].audio;
      adtsPacket := new byte[size + ADTS_LENGTH];
      var freqIdx := GetFreqIndex(info.audio.sampleRate);
      var dataLen := size + ADTS_LENGTH;
      adtsPacket[0] := 0xFF;
      adtsPacket[1] := 0xF9;
      adtsPacket[2] := ToByte(Shl(info.audio.profile - 1, 6) + Shl(freqIdx, 2) + Shr(info.audio.channels, 2));
      adtsPacket[3] := ToByte(Shl(And(Low(info.audio.channels, 32), 3), 6) + Shr(dataLen, 11));
      adtsPacket[4] := ToByte(Shr(And(dataLen, 0x7FF), 3));
      adtsPacket[5] := ToByte(Shl(And(dataLen, 7), 5) + 0x1F);
      adtsPacket[6] := 0xFC;
      assert adtsPacket[..ADTS_LENGTH] == Header(info.audio, dataLen);
      CopyBytes(adtsPacket, ADTS_LENGTH, data, size);
    }

    /** The key-frame arm of maybeProcessPacket: the loop runs over every video record, and exactly one
        of them is the track's. */
    method PrependParamSets(data: array<byte>, size: nat, trackIndex: int) returns (packet: array<byte>)
      requires Consistent() && size <= data.Length
      requires 0 <= trackIndex < |tracks| && tracks[trackIndex].VideoTrack? && tracks[trackIndex].paramSets.Some?
      ensures fresh(packet)
      ensures packet[..] == tracks[trackIndex].paramSets.value + data[..size]
    {
      hide Indices;
      packet := new byte[0];
      ghost var found := SearchFindsOne(tracks, trackIndex);
      for i := 0 to numOfVideoStreams
        invariant fresh(packet)
        invariant i > found ==> packet[..] == tracks[trackIndex].paramSets.value + data[..size]
      {
        assert VideoEntry(videoStreamInfo[i], tracks, Indices(tracks, true)[i], buffers);
        if videoStreamInfo[i].trackIndex == trackIndex {
          var sets := videoStreamInfo[i].spsPpsData;
          packet := new byte[size + sets.Length];
          CopyBytes(packet, 0, sets, sets.Length);
          CopyBytes(packet, sets.Length, data, size);
        }
      }
    }

    /** maybeProcessPacket: the packet's bytes, and whether they are in a buffer of their own. Only then
        does the caller free them. */
    method MaybeProcessPacket(data: array<byte>, size: nat, flags: int, trackIndex: int)
      returns (packet: array<byte>, packetSize: nat, ownBuffer: bool)
      requires Consistent() && size <= data.Length && CanWrite(tracks, trackIndex, flags)
      ensures packetSize <= packet.Length
      ensures packet[..packetSize] == Prefix(tracks[trackIndex], size, flags) + data[..size]
      ensures if ownBuffer then fresh(packet) else packet == data
      ensures ownBuffer <==> var id := CodecId(codecs[trackIndex]); id == 2 || (id in {0, 1} && flags % 2 == 1)
    {
      hide And, Low, Header;
      match codecs[trackIndex] {
        case AAC =>
          packet := AddAdtsPacket(data, size, trackIndex);
          packetSize, ownBuffer := size + 7, true;
          return;
        case H264 | H265 =>
          KeyFlagIsOdd(flags);
          if And(Low(flags, 32), 1) != 0 {
            packet := PrependParamSets(data, size, trackIndex);
            packetSize, ownBuffer := packet.Length, true;
            return;
          }
        case _ =>
      }
      packet, packetSize, ownBuffer := data, size, false;
    }

    /** writeFrame: `offset` is ignored; the first `size` bytes go out, behind their prefix. */
    method WriteFrame(trackIndex: int, framedata: array<byte>, offset: int, size: nat, flags: int,
                      presentationTimeUs: int)
      requires Valid() && size <= framedata.Length && CanWrite(tracks, trackIndex, flags)
      modifies this
      ensures Valid() && buffers == old(buffers)
      ensures Model() == Step(old(Model()), Write(trackIndex, framedata[..size], flags, presentationTimeUs))
      ensures history == old(history) + [Write(trackIndex, framedata[..size], flags, presentationTimeUs)]
    {
      hide Prefix, Run;
      RunAppend(history, Write(trackIndex, framedata[..size], flags, presentationTimeUs));
      history := history + [Write(trackIndex, framedata[..size], flags, presentationTimeUs)];
      var packet, packetSize, ownBuffer := MaybeProcessPacket(framedata, size, flags, trackIndex);
      written := written + [Packet(trackIndex, packet[..packetSize], presentationTimeUs)];
    }
  }
}
