/** The queue between the caller and the muxer thread: queueData2Mux and muxerThread_func of
    mux_stream.cpp. Each method is one atomic step; the pop and the write of a sample are two. */
module DeferredMux {
  import opened Bits
  import opened Outcomes
  import opened MuxModel
  import opened MuxStream
  import opened DeferredModel

  class SampleData {
    const trackIndex: int
    const framedata: array<byte>
    const offset: int
    const size: nat
    const flags: int
    const presentationTimeUs: int

    constructor (trackIndex: int, framedata: array<byte>, offset: int, size: nat, flags: int, presentationTimeUs: int)
      ensures this.trackIndex == trackIndex && this.framedata == framedata && this.offset == offset
      ensures this.size == size && this.flags == flags && this.presentationTimeUs == presentationTimeUs
    {
      this.trackIndex, this.framedata, this.offset := trackIndex, framedata, offset;
      this.size, this.flags, this.presentationTimeUs := size, flags, presentationTimeUs;
    }

    ghost predicate Holds(x: Sample)
      reads framedata
    {
      x == Sample(trackIndex, framedata[..], size, flags, presentationTimeUs)
    }
  }

  ghost predicate AllHold(queue: seq<SampleData>, samples: seq<Sample>)
    reads set d | d in queue :: d.framedata
  {
    |queue| == |samples| && forall i :: 0 <= i < |queue| ==> queue[i].Holds(samples[i])
  }

  predicate Distinct(s: seq<SampleData>) {
    forall i, j :: 0 <= i < j < |s| ==> s[i] != s[j]
  }

  class DeferredMuxer {
    const stream: OutputStream
    var queue: seq<SampleData>
    /** The sample the muxer thread has popped and not yet written. */
    var inFlight: SampleData?

    /** Every sample ever pushed, and those whose buffers have been freed, in order. */
    ghost var pushed: seq<SampleData>
    ghost var freed: seq<SampleData>
    /** What the queued samples and the one in flight held when they were pushed. */
    ghost var samples: seq<Sample>
    ghost var flight: Option<Sample>
    /** Every step so far. */
    ghost var events: seq<Event>

    ghost function Model(): State
      reads this, stream
    {
      State(stream.Model(), flight, samples)
    }

    function InFlight(): seq<SampleData>
      reads this
    {
      if inFlight == null then [] else [inFlight]
    }

    ghost function Buffers(): set<array<byte>>
      reads this
    {
      set d | d in InFlight() + queue :: d.framedata
    }

    ghost predicate Valid()
      reads this, stream, stream.videoStreamInfo, stream.audioStreamInfo, stream.buffers, Buffers()
    {
      && stream.Valid()
      && Owned()
      && Play(events) == Some(Model())
    }

    /** The buffers hold what was pushed, and every sample pushed is freed, in flight or queued, once. */
    ghost predicate Owned()
      reads this, Buffers()
    {
      && AllHold(queue, samples)
      && (inFlight == null <==> flight.None?)
      && (inFlight != null ==> inFlight in InFlight() + queue && inFlight.Holds(flight.value))
      && pushed == freed + InFlight() + queue
      && Distinct(pushed)
    }

    constructor ()
      ensures Valid() && Model() == START && pushed == [] && events == []
    {
      stream := new OutputStream();
      queue, inFlight, pushed, freed, samples, flight, events := [], null, [], [], [], None, [];
    }

    /** queueData2Mux. The bytes from `offset` to `size` are copied to a buffer the caller does not have:
        what it does to its own afterwards is no matter. But the recorded size is still `size`, so the
        sample is whole, and is what writing at once would take, exactly when `offset` is zero. */
    method QueueData2Mux(trackIndex: int, framedata: array<byte>, offset: nat, size: nat, flags: int,
                         presentationTimeUs: int)
      requires Valid() && offset <= size <= framedata.Length
      modifies this
      ensures Valid()
      ensures var x := Sample(trackIndex, framedata[offset..size], size, flags, presentationTimeUs);
        && Model() == Next(old(Model()), Enqueue(x)) && events == old(events) + [Enqueue(x)]
        && (x.Whole() <==> offset == 0)
        && (x.AsWrite() == Write(trackIndex, framedata[..size], flags, presentationTimeUs) <==> offset == 0)
      ensures |queue| == old(|queue|) + 1 && queue[..|queue| - 1] == old(queue) && inFlight == old(inFlight)
      ensures fresh(queue[|queue| - 1]) && fresh(queue[|queue| - 1].framedata) && queue[|queue| - 1].offset == 0
      ensures freed == old(freed) && pushed == old(pushed) + [queue[|queue| - 1]]
    {
      hide Play, LegalEvent, Next, Sample.Whole, Sample.AsWrite, OutputStream.Valid, OutputStream.Consistent;
      var encodedData := new byte[size - offset];
      CopyFrom(encodedData, framedata, offset);
      var sampleData := new SampleData(trackIndex, encodedData, 0, size, flags, presentationTimeUs);
      ghost var x := Sample(trackIndex, framedata[offset..size], size, flags, presentationTimeUs);
      CopiedSample(x, framedata[..], offset);
      Push(sampleData, x);
    }

    /** The push under the lock. */
    method Push(sampleData: SampleData, ghost x: Sample)
      requires Valid() && sampleData.Holds(x) && sampleData !in pushed
      modifies this`queue, this`pushed, this`samples, this`events
      ensures Valid() && Model() == Next(old(Model()), Enqueue(x)) && events == old(events) + [Enqueue(x)]
      ensures queue == old(queue) + [sampleData] && pushed == old(pushed) + [sampleData]
    {
      hide Play, LegalEvent, Next, OutputStream.Valid, OutputStream.Consistent;
      EnqueueStep(Model(), x);
      PlayAppend(events, Enqueue(x));
      queue := queue + [sampleData];
      pushed := pushed + [sampleData];
      samples := samples + [x];
      events := events + [Enqueue(x)];
    }

    /** The muxer thread under the lock: it waits until the queue is not empty and pops the oldest. */
    method PopNext()
      requires Valid() && queue != [] && inFlight == null
      modifies this
      ensures Valid() && Model() == Next(old(Model()), Pop) && events == old(events) + [Pop]
      ensures inFlight == old(queue)[0] && queue == old(queue)[1..]
      ensures freed == old(freed) && pushed == old(pushed)
    {
      hide Play;
      PlayAppend(events, Pop);
      events := events + [Pop];
      inFlight, flight := queue[0], Some(samples[0]);
      queue, samples := queue[1..], samples[1..];
    }

    /** The muxer thread after releasing the lock: it writes the sample it popped and frees it. */
    method WriteOutNext()
      requires Valid() && inFlight != null && Writable(stream.Model(), flight.value)
      modifies this, stream
      ensures Valid() && Model() == Next(old(Model()), WriteOut) && events == old(events) + [WriteOut]
      ensures inFlight == null && queue == old(queue)
      ensures freed == old(freed) + [old(inFlight)] && pushed == old(pushed)
    {
      hide Step, Play, Legal, Writable, LegalEvent, Next;
      PlayAppend(events, WriteOut);
      WriteOutStep(Model());
      WritableWrite(stream.Model(), flight.value);
      var sampleData := inFlight;
      events, freed := events + [WriteOut], freed + [sampleData];
      inFlight, flight := null, None;
      stream.WriteFrame(sampleData.trackIndex, sampleData.framedata, sampleData.offset, sampleData.size,
                        sampleData.flags, sampleData.presentationTimeUs);
    }

    /** The muxer thread left to itself until nothing waits. */
    method MuxAll()
      requires Valid() && inFlight == null && AllWritable(stream.Model(), samples)
      modifies this, stream
      ensures Valid() && queue == [] && Model() == State(old(Drain(stream.Model(), samples)), None, [])
      ensures freed == pushed == old(pushed)
    {
      hide Step, Legal, AllWritable, Play, Writable;
      while queue != []
        invariant Valid() && inFlight == null && pushed == old(pushed)
        invariant AllWritable(stream.Model(), samples)
        invariant Drain(stream.Model(), samples) == old(Drain(stream.Model(), samples))
        decreases |queue|
      {
        FirstIsWritable(stream.Model(), samples);
        ghost var waiting := samples;
        PopNext();
        assert Waiting(Model()) == waiting;
        DrainFirst(Model());
        WriteOutNext();
        assert Waiting(Model()) == samples;
      }
    }

    /** addTrack, addPPSAndSPSBuffer and writeFrame called directly while samples wait. */
    method AddTrack(format: Format) returns (streamIndex: int)
      requires Valid() && Legal(stream.Model(), Op.AddTrack(format))
      modifies this`events, stream, stream.videoStreamInfo, stream.audioStreamInfo
      ensures Valid() && Model() == Next(old(Model()), Direct(Op.AddTrack(format)))
      ensures events == old(events) + [Direct(Op.AddTrack(format))]
      ensures streamIndex == if format.streamType in {0, 1} then old(|stream.tracks|) else -1
    {
      hide Step, Play, LegalEvent, Next;
      DirectStep(Model(), Op.AddTrack(format));
      PlayAppend(events, Direct(Op.AddTrack(format)));
      events := events + [Direct(Op.AddTrack(format))];
      streamIndex := stream.AddTrack(format);
    }

    method AddPPSAndSPSBuffer(trackIndex: int, framedata: array<byte>, size: nat)
      requires Valid() && size <= framedata.Length
      modifies this`events, stream, stream.videoStreamInfo
      ensures Valid() && Model() == Next(old(Model()), Direct(Register(trackIndex, framedata[..size])))
      ensures events == old(events) + [Direct(Register(trackIndex, framedata[..size]))]
    {
      hide Step, Play, LegalEvent, Next;
      DirectStep(Model(), Register(trackIndex, framedata[..size]));
      PlayAppend(events, Direct(Register(trackIndex, framedata[..size])));
      events := events + [Direct(Register(trackIndex, framedata[..size]))];
      stream.AddPPSAndSPSBuffer(trackIndex, framedata, size);
    }

    method WriteFrame(trackIndex: int, framedata: array<byte>, offset: int, size: nat, flags: int,
                      presentationTimeUs: int)
      requires Valid() && size <= framedata.Length && CanWrite(stream.tracks, trackIndex, flags)
      modifies this`events, stream
      ensures Valid()
      ensures var w := Write(trackIndex, framedata[..size], flags, presentationTimeUs);
        Model() == Next(old(Model()), Direct(w)) && events == old(events) + [Direct(w)]
    {
      hide Step, Play, LegalEvent, Next;
      ghost var w := Write(trackIndex, framedata[..size], flags, presentationTimeUs);
      DirectStep(Model(), w);
      PlayAppend(events, Direct(w));
      events := events + [Direct(w)];
      stream.WriteFrame(trackIndex, framedata, offset, size, flags, presentationTimeUs);
    }
  }

  /** memcpy(dst, src + offset, size of dst) */
  method CopyFrom(dst: array<byte>, src: array<byte>, offset: nat)
    requires dst != src && offset + dst.Length <= src.Length
    modifies dst
    ensures dst[..] == src[offset..offset + dst.Length]
  {
    forall i | 0 <= i < dst.Length {
      dst[i] := src[offset + i];
    }
  }

  lemma WritableWrite(m: Mux, x: Sample)
    requires Writable(m, x)
    ensures x.size <= |x.bytes| && CanWrite(m.tracks, x.track, x.flags)
    ensures x.AsWrite() == Write(x.track, x.bytes[..x.size], x.flags, x.pts)
  {
    hide CanWrite;
  }

  /** What is cut off in front is missing at the end. */
  lemma CopiedSample(x: Sample, data: seq<byte>, offset: nat)
    requires offset <= x.size <= |data| && x.bytes == data[offset..x.size]
    ensures x.Whole() <==> offset == 0
    ensures x.AsWrite() == Write(x.track, data[..x.size], x.flags, x.pts) <==> offset == 0
  {
    assert x.Whole() ==> x.bytes[..x.size] == data[..x.size];
  }

  lemma EnqueueStep(s: State, x: Sample)
    ensures LegalEvent(s, Enqueue(x))
    ensures Next(s, Enqueue(x)) == State(s.mux, s.inFlight, s.queue + [x])
  {
    hide Step;
  }

  lemma DirectStep(s: State, op: Op)
    requires Legal(s.mux, op)
    ensures LegalEvent(s, Direct(op))
    ensures Next(s, Direct(op)) == State(Step(s.mux, op), s.inFlight, s.queue)
  {
    hide Step;
  }

  lemma WriteOutStep(s: State)
    requires s.inFlight.Some? && Writable(s.mux, s.inFlight.value)
    ensures LegalEvent(s, WriteOut) && Legal(s.mux, s.inFlight.value.AsWrite())
    ensures Next(s, WriteOut) == State(Step(s.mux, s.inFlight.value.AsWrite()), None, s.queue)
  {
    hide Legal, Step;
  }
}
