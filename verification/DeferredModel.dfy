/** Deferred muxing (queueData2Mux and muxerThread_func in mux_stream.cpp) as interleavings. Pushing
    a sample and popping one are atomic; the popped sample is written later, after the lock is
    released, and any other caller may add tracks, register parameter sets or write frames of its
    own on the muxer at any point, also between the pop and the write. */
module DeferredModel {
  import opened Bits
  import opened Outcomes
  import opened Adts
  import opened MuxModel
  import opened MuxRuns

  /** A queued sample: the bytes copied from the caller's buffer, and the size recorded for them. */
  datatype Sample = Sample(track: int, bytes: seq<byte>, size: nat, flags: int, pts: int) {
    /** writeFrame takes `size` bytes; there must be as many. */
    predicate Whole() { size <= |bytes| }

    function AsWrite(): Op {
      Write(track, if Whole() then bytes[..size] else bytes, flags, pts)
    }
  }

  datatype Event = Enqueue(sample: Sample) | Pop | WriteOut | Direct(op: Op)

  /** The muxer, the sample the muxer thread has popped but not yet written, and the queue. */
  datatype State = State(mux: Mux, inFlight: Option<Sample>, queue: seq<Sample>)

  const START := State(INIT, None, [])

  predicate Writable(m: Mux, x: Sample) { x.Whole() && Legal(m, x.AsWrite()) }

  /** Anything may be queued. The one muxer thread pops when a sample waits and it holds none, and
      what it then writes must be writable by that time. */
  predicate LegalEvent(s: State, e: Event) {
    match e
    case Enqueue(_) => true
    case Pop => s.inFlight.None? && s.queue != []
    case WriteOut => s.inFlight.Some? && Writable(s.mux, s.inFlight.value)
    case Direct(op) => Legal(s.mux, op)
  }

  function Next(s: State, e: Event): State
    requires LegalEvent(s, e)
  {
    match e
    case Enqueue(x) => s.(queue := s.queue + [x])
    case Pop => s.(inFlight := Some(s.queue[0]), queue := s.queue[1..])
    case WriteOut => s.(mux := Step(s.mux, s.inFlight.value.AsWrite()), inFlight := None)
    case Direct(op) => s.(mux := Step(s.mux, op))
  }

  /** The state after an interleaving; the last event happens last. */
  function Play(es: seq<Event>): Option<State> {
    if es == [] then Some(START)
    else
      match Play(es[..|es| - 1])
      case None => None
      case Some(s) => if LegalEvent(s, es[|es| - 1]) then Some(Next(s, es[|es| - 1])) else None
  }

  lemma PlayLast(es: seq<Event>)
    requires es != [] && Play(es).Some?
    ensures Play(es[..|es| - 1]).Some? && LegalEvent(Play(es[..|es| - 1]).value, es[|es| - 1])
    ensures Play(es).value == Next(Play(es[..|es| - 1]).value, es[|es| - 1])
  {
  }

  lemma PlayAppend(es: seq<Event>, e: Event)
    requires Play(es).Some?
    ensures Play(es + [e]) == if LegalEvent(Play(es).value, e) then Some(Next(Play(es).value, e)) else None
  {
    assert (es + [e])[..|es|] == es;
  }

  /** What is queued or popped and not yet written, in the order it will be written. */
  function Waiting(s: State): seq<Sample> {
    (match s.inFlight case Some(x) => [x] case None => []) + s.queue
  }

  lemma WaitingNext(s: State, e: Event)
    requires LegalEvent(s, e)
    ensures match e
      case Enqueue(x) => Waiting(Next(s, e)) == Waiting(s) + [x]
      case Pop => Waiting(Next(s, e)) == Waiting(s)
      case WriteOut => Waiting(s) == [s.inFlight.value] + Waiting(Next(s, e))
      case Direct(_) => Waiting(Next(s, e)) == Waiting(s)
  {
    hide Writable, Legal, Step;
  }

  /** The samples queued so far, in order, and those the muxer thread has written. */
  function Queued(es: seq<Event>): seq<Sample> {
    if es == [] then []
    else
      var e := es[|es| - 1];
      Queued(es[..|es| - 1]) + if e.Enqueue? then [e.sample] else []
  }

  function Written(es: seq<Event>): seq<Sample>
    requires Play(es).Some?
  {
    if es == [] then []
    else
      PlayLast(es);
      var hist, e := es[..|es| - 1], es[|es| - 1];
      Written(hist) + if e.WriteOut? then [Play(hist).value.inFlight.value] else []
  }

  /** In every interleaving the samples written are a prefix of the samples queued, in order, and what
      is missing is exactly what still waits: none is lost, written twice or overtaken. */
  lemma {:induction false} WrittenIsPrefix(es: seq<Event>)
    requires Play(es).Some?
    ensures Written(es) + Waiting(Play(es).value) == Queued(es)
  {
    hide LegalEvent, Next, Play, Waiting;
    if es == [] {
      AtStart();
    } else {
      var hist, e := es[..|es| - 1], es[|es| - 1];
      PlayLast(es);
      WrittenIsPrefix(hist);
      WaitingNext(Play(hist).value, e);
    }
  }

  lemma AtStart()
    ensures Play([]) == Some(START) && Waiting(START) == []
  {
  }

  // A writable sample stays writable

  predicate AllWritable(m: Mux, xs: seq<Sample>) {
    forall i :: 0 <= i < |xs| ==> Writable(m, xs[i])
  }

  /** No call takes a track or a registered parameter set away. */
  lemma StaysWritable(m: Mux, op: Op, x: Sample)
    requires Legal(m, op) && Writable(m, x)
    ensures Writable(Step(m, op), x)
  {
    hide Prefix;
  }

  lemma AllStayWritable(m: Mux, op: Op, xs: seq<Sample>)
    requires Legal(m, op) && AllWritable(m, xs)
    ensures AllWritable(Step(m, op), xs)
  {
    hide Legal, Step, Writable;
    forall i | 0 <= i < |xs| ensures Writable(Step(m, op), xs[i]) {
      StaysWritable(m, op, xs[i]);
    }
  }

  lemma WritableNext(s: State, e: Event)
    requires AllWritable(s.mux, Waiting(s)) && LegalEvent(s, e) && (e.Enqueue? ==> Writable(s.mux, e.sample))
    ensures AllWritable(Next(s, e).mux, Waiting(Next(s, e)))
  {
    hide Legal, Step, Writable, Waiting;
    WaitingNext(s, e);
    match e {
      case Enqueue(_) =>
      case Pop =>
      case WriteOut =>
        WritableIsLegal(s.mux, s.inFlight.value);
        AllStayWritable(s.mux, s.inFlight.value.AsWrite(), Waiting(s));
        assert Waiting(Next(s, e)) == Waiting(s)[1..];
      case Direct(op) => AllStayWritable(s.mux, op, Waiting(s));
    }
  }

  lemma WritableIsLegal(m: Mux, x: Sample)
    requires Writable(m, x)
    ensures Legal(m, x.AsWrite())
  {
  }

  /** Whether every sample could have been written at the moment it was queued. */
  predicate QueuedWritable(es: seq<Event>)
    requires Play(es).Some?
  {
    if es == [] then true
    else
      PlayLast(es);
      var hist, e := es[..|es| - 1], es[|es| - 1];
      QueuedWritable(hist) && (e.Enqueue? ==> Writable(Play(hist).value.mux, e.sample))
  }

  /** If samples are queued only when they could be written, then in every interleaving whatever waits
      can still be written when its turn comes. */
  lemma {:induction false} QueueStaysWritable(es: seq<Event>)
    requires Play(es).Some? && QueuedWritable(es)
    ensures AllWritable(Play(es).value.mux, Waiting(Play(es).value))
  {
    hide LegalEvent, Next, AllWritable, Writable, Play, Waiting;
    if es == [] {
      AtStart();
      NoneWaiting(INIT);
    } else {
      PlayLast(es);
      QueueStaysWritable(es[..|es| - 1]);
      WritableNext(Play(es[..|es| - 1]).value, es[|es| - 1]);
    }
  }

  lemma NoneWaiting(m: Mux)
    ensures AllWritable(m, [])
  {
  }

  // The muxer's own view

  /** The calls the muxer has seen so far, with each queued frame where it was written. */
  function Seen(es: seq<Event>): seq<Op>
    requires Play(es).Some?
  {
    if es == [] then []
    else
      PlayLast(es);
      var hist, e := es[..|es| - 1], es[|es| - 1];
      Seen(hist) +
      match e
      case WriteOut => [Play(hist).value.inFlight.value.AsWrite()]
      case Direct(op) => [op]
      case _ => []
  }

  /** Every interleaving leaves the muxer as some run of direct calls does, the one that writes each
      sample at the moment the muxer thread does: whatever holds of all runs holds of it. */
  lemma {:induction false} DeferredIsARun(es: seq<Event>)
    requires Play(es).Some?
    ensures Run(Seen(es)) == Some(Play(es).value.mux)
  {
    hide Legal, Step, Run, Play;
    if es == [] {
      AtStart();
      EmptyRun();
    } else {
      var hist, e := es[..|es| - 1], es[|es| - 1];
      PlayLast(es);
      DeferredIsARun(hist);
      match e {
        case WriteOut => RunAppend(Seen(hist), Play(hist).value.inFlight.value.AsWrite());
        case Direct(op) => RunAppend(Seen(hist), op);
        case _ => assert Seen(es) == Seen(hist);
      }
    }
  }

  /** Where in the output the muxer thread's packets are. */
  function Positions(es: seq<Event>): seq<nat>
    requires Play(es).Some?
  {
    if es == [] then []
    else
      PlayLast(es);
      var hist, e := es[..|es| - 1], es[|es| - 1];
      Positions(hist) + if e.WriteOut? then [|Play(hist).value.mux.written|] else []
  }

  function DirectWrites(es: seq<Event>): nat {
    if es == [] then 0
    else
      var e := es[|es| - 1];
      DirectWrites(es[..|es| - 1]) + if e.Direct? && e.op.Write? then 1 else 0
  }

  predicate IsPacketFor(p: Packet, x: Sample) {
    && x.Whole() && p.streamIndex == x.track && p.pts == x.pts && x.size <= |p.data|
    && p.data[|p.data| - x.size..] == x.bytes[..x.size]
  }

  lemma WrittenNext(s: State, e: Event)
    requires LegalEvent(s, e)
    ensures var out, out' := s.mux.written, Next(s, e).mux.written;
      if e.WriteOut? then |out'| == |out| + 1 && out <= out' && IsPacketFor(out'[|out|], s.inFlight.value)
      else if e.Direct? && e.op.Write? then |out'| == |out| + 1 && out <= out'
      else out' == out
  {
    hide Prefix, SetParams, NewTrack;
  }

  /** Each packet of the muxer thread carries its sample, in the order of writing; the others are the
      frames written directly. */
  lemma {:induction false} PacketsOfWritten(es: seq<Event>)
    requires Play(es).Some?
    ensures var out, at := Play(es).value.mux.written, Positions(es);
      && |at| == |Written(es)| && |out| == |at| + DirectWrites(es)
      && (forall i :: 0 <= i < |at| ==> at[i] < |out| && IsPacketFor(out[at[i]], Written(es)[i]))
      && (forall i, j :: 0 <= i < j < |at| ==> at[i] < at[j])
  {
    hide LegalEvent, Next, Play, IsPacketFor;
    if es == [] {
      AtStart();
    } else {
      var hist, e := es[..|es| - 1], es[|es| - 1];
      PlayLast(es);
      PacketsOfWritten(hist);
      WrittenNext(Play(hist).value, e);
    }
  }

  /** In every interleaving the i-th packet of the muxer thread carries the track, time and bytes of the
      i-th sample queued, and these packets stand in the output in that order, among those of frames
      written directly. */
  lemma PacketsAreQueuedSamples(es: seq<Event>)
    requires Play(es).Some?
    ensures var out, at, queued := Play(es).value.mux.written, Positions(es), Queued(es);
      && |at| + |Waiting(Play(es).value)| == |queued| && |out| == |at| + DirectWrites(es)
      && (forall i :: 0 <= i < |at| ==> at[i] < |out| && IsPacketFor(out[at[i]], queued[i]))
      && (forall i, j :: 0 <= i < j < |at| ==> at[i] < at[j])
  {
    hide Play, Written, Positions, Queued, IsPacketFor, Waiting, DirectWrites;
    WrittenIsPrefix(es);
    PacketsOfWritten(es);
    forall i | 0 <= i < |Written(es)| ensures Written(es)[i] == Queued(es)[i] {
      assert (Written(es) + Waiting(Play(es).value))[i] == Written(es)[i];
    }
  }

  // Against muxing at once

  /** The run in which every sample is written at the moment it is queued. */
  function AtOnce(es: seq<Event>): seq<Op> {
    if es == [] then []
    else
      var e := es[|es| - 1];
      AtOnce(es[..|es| - 1]) +
      match e
      case Enqueue(x) => [x.AsWrite()]
      case Direct(op) => [op]
      case _ => []
  }

  /** Writing out everything that waits. */
  function Drain(m: Mux, xs: seq<Sample>): Mux
    requires AllWritable(m, xs)
    decreases |xs|
  {
    if xs == [] then m
    else
      AllStayWritable(m, xs[0].AsWrite(), xs);
      Drain(Step(m, xs[0].AsWrite()), xs[1..])
  }

  function SamplePacket(tracks: seq<Track>, x: Sample): Packet
    requires CanWrite(tracks, x.track, x.flags)
  {
    MuxPacket(tracks, x.track, x.AsWrite().payload, x.flags, x.pts)
  }

  function WaitingPackets(tracks: seq<Track>, xs: seq<Sample>): (ps: seq<Packet>)
    requires forall i :: 0 <= i < |xs| ==> CanWrite(tracks, xs[i].track, xs[i].flags)
    ensures |ps| == |xs|
    ensures forall i :: 0 <= i < |ps| ==> ps[i] == SamplePacket(tracks, xs[i])
    decreases |xs|
  {
    hide CanWrite, SamplePacket;
    if xs == [] then [] else [SamplePacket(tracks, xs[0])] + WaitingPackets(tracks, xs[1..])
  }

  lemma WriteStep(m: Mux, x: Sample)
    requires Writable(m, x)
    ensures CanWrite(m.tracks, x.track, x.flags)
    ensures Step(m, x.AsWrite()) == m.(written := m.written + [SamplePacket(m.tracks, x)])
  {
  }

  lemma AllCanWrite(m: Mux, xs: seq<Sample>)
    requires AllWritable(m, xs)
    ensures forall i :: 0 <= i < |xs| ==> CanWrite(m.tracks, xs[i].track, xs[i].flags)
  {
    hide CanWrite;
  }

  lemma DrainCons(m: Mux, xs: seq<Sample>)
    requires AllWritable(m, xs) && xs != []
    ensures Legal(m, xs[0].AsWrite()) && AllWritable(Step(m, xs[0].AsWrite()), xs[1..])
    ensures Drain(m, xs) == Drain(Step(m, xs[0].AsWrite()), xs[1..])
  {
    hide Step, Legal, Sample.AsWrite, Sample.Whole;
    AllStayWritable(m, xs[0].AsWrite(), xs);
  }

  lemma WaitingPacketsCons(tracks: seq<Track>, xs: seq<Sample>)
    requires xs != [] && forall i :: 0 <= i < |xs| ==> CanWrite(tracks, xs[i].track, xs[i].flags)
    ensures WaitingPackets(tracks, xs) == [SamplePacket(tracks, xs[0])] + WaitingPackets(tracks, xs[1..])
  {
    hide CanWrite, SamplePacket;
  }

  /** Draining touches the output only, and appends one packet for each waiting sample. */
  lemma {:induction false} DrainOutput(m: Mux, xs: seq<Sample>)
    requires AllWritable(m, xs)
    ensures forall i :: 0 <= i < |xs| ==> CanWrite(m.tracks, xs[i].track, xs[i].flags)
    ensures Drain(m, xs) == m.(written := m.written + WaitingPackets(m.tracks, xs))
    decreases |xs|
  {
    hide Step, Legal, Writable, SamplePacket, CanWrite, WaitingPackets, Sample.AsWrite, Sample.Whole;
    AllCanWrite(m, xs);
    if xs == [] {
      NoPackets(m.tracks);
      assert m.written + [] == m.written;
    } else {
      hide Drain, AllWritable;
      FirstIsWritable(m, xs);
      WriteStep(m, xs[0]);
      DrainCons(m, xs);
      DrainOutput(Step(m, xs[0].AsWrite()), xs[1..]);
      WaitingPacketsCons(m.tracks, xs);
      var first, rest := SamplePacket(m.tracks, xs[0]), WaitingPackets(m.tracks, xs[1..]);
      assert (m.written + [first]) + rest == m.written + ([first] + rest);
    }
  }

  lemma NoPackets(tracks: seq<Track>)
    ensures WaitingPackets(tracks, []) == []
  {
  }

  lemma FirstIsWritable(m: Mux, xs: seq<Sample>)
    requires AllWritable(m, xs) && xs != []
    ensures Writable(m, xs[0])
  {
  }

  lemma DrainSnoc(m: Mux, xs: seq<Sample>, x: Sample)
    requires AllWritable(m, xs) && Writable(m, x)
    ensures AllWritable(m, xs + [x]) && Legal(Drain(m, xs), x.AsWrite())
    ensures Drain(m, xs + [x]) == Step(Drain(m, xs), x.AsWrite())
  {
    hide CanWrite, SamplePacket, Drain, Step;
    DrainOutput(m, xs);
    DrainOutput(m, xs + [x]);
    WriteStep(m, x);
    WriteStep(Drain(m, xs), x);
    assert WaitingPackets(m.tracks, xs + [x]) == WaitingPackets(m.tracks, xs) + [SamplePacket(m.tracks, x)];
  }

  /** Waiting samples disturbed by an event. A sample must be writable when it is queued. Registering
      different parameter sets must not find a key frame of that track waiting, in the queue or
      popped. A frame written directly overtakes what waits, unless that makes the very same packet. */
  predicate Undisturbed(s: State, e: Event) {
    match e
    case Enqueue(x) => Writable(s.mux, x)
    case Direct(Register(t, ps)) =>
      || !(0 <= t < |s.mux.tracks|) || !s.mux.tracks[t].VideoTrack?
      || s.mux.tracks[t].paramSets == Some(ps)
      || forall i :: 0 <= i < |Waiting(s)| ==> !UsesParams(s.mux.tracks, Waiting(s)[i], t)
    case Direct(Write(t, payload, flags, pts)) =>
      forall i :: 0 <= i < |Waiting(s)| ==> SamePacket(s.mux.tracks, Waiting(s)[i], e.op)
    case _ => true
  }

  predicate UsesParams(tracks: seq<Track>, x: Sample, t: int) {
    x.track == t && 0 <= t < |tracks| && IsVideoCodec(tracks[t].codec) && x.flags % 2 == 1
  }

  predicate SamePacket(tracks: seq<Track>, x: Sample, op: Op)
    requires op.Write?
  {
    && CanWrite(tracks, x.track, x.flags) && CanWrite(tracks, op.track, op.flags)
    && SamplePacket(tracks, x) == MuxPacket(tracks, op.track, op.payload, op.flags, op.pts)
  }

  lemma SuffixCancels(a: seq<byte>, b: seq<byte>, payload: seq<byte>)
    ensures a + payload == b + payload <==> a == b
  {
    if a + payload == b + payload {
      assert |a + payload| == |b + payload|;
      assert a == (a + payload)[..|a|] && b == (b + payload)[..|b|];
    }
  }

  /** A packet depends on the parameter sets of its own track, and only if it is a key frame of a codec
      that has them. */
  lemma PacketUnderParams(tracks: seq<Track>, t: int, ps: seq<byte>, x: Sample)
    requires 0 <= t < |tracks| && tracks[t].VideoTrack? && CanWrite(tracks, x.track, x.flags)
    ensures CanWrite(SetParams(tracks, t, ps), x.track, x.flags)
    ensures SamplePacket(SetParams(tracks, t, ps), x) == SamplePacket(tracks, x)
       <==> tracks[t].paramSets == Some(ps) || !UsesParams(tracks, x, t)
  {
    hide Header;
    if tracks[t].paramSets.Some? { SuffixCancels(tracks[t].paramSets.value, ps, x.AsWrite().payload); }
  }

  lemma PacketUnderTrack(tracks: seq<Track>, track: Track, x: Sample)
    requires CanWrite(tracks, x.track, x.flags)
    ensures CanWrite(tracks + [track], x.track, x.flags)
    ensures SamplePacket(tracks + [track], x) == SamplePacket(tracks, x)
  {
    hide Header, Prefix;
  }

  lemma PacketsUndisturbed(s: State, op: Op)
    requires AllWritable(s.mux, Waiting(s)) && Legal(s.mux, op) && !op.Write?
    requires forall i :: 0 <= i < |Waiting(s)| ==> CanWrite(s.mux.tracks, Waiting(s)[i].track, Waiting(s)[i].flags)
    requires var ts := Step(s.mux, op).tracks;
      forall i :: 0 <= i < |Waiting(s)| ==> CanWrite(ts, Waiting(s)[i].track, Waiting(s)[i].flags)
    ensures WaitingPackets(Step(s.mux, op).tracks, Waiting(s)) == WaitingPackets(s.mux.tracks, Waiting(s))
       <==> Undisturbed(s, Direct(op))
  {
    hide CanWrite, SamplePacket, UsesParams, WaitingPackets, Waiting, AllWritable;
    var xs := Waiting(s);
    var a, b := WaitingPackets(Step(s.mux, op).tracks, xs), WaitingPackets(s.mux.tracks, xs);
    assert a == b <==> forall i :: 0 <= i < |xs| ==> a[i] == b[i];
    match op {
      case AddTrack(f) =>
        if MakesStream(f) {
          forall i | 0 <= i < |xs| ensures a[i] == b[i] {
            PacketUnderTrack(s.mux.tracks, NewTrack(f), xs[i]);
          }
        }
      case Register(t, ps) =>
        if 0 <= t < |s.mux.tracks| && s.mux.tracks[t].VideoTrack? {
          forall i | 0 <= i < |xs|
            ensures a[i] == b[i] <==> s.mux.tracks[t].paramSets == Some(ps) || !UsesParams(s.mux.tracks, xs[i], t)
          {
            PacketUnderParams(s.mux.tracks, t, ps, xs[i]);
          }
        }
    }
  }

  /** Moving an element past a sequence changes nothing only if they are all the same. */
  lemma OvertakesOnlyItself<T>(p: T, b: seq<T>)
    ensures [p] + b == b + [p] <==> forall i :: 0 <= i < |b| ==> b[i] == p
  {
    if [p] + b == b + [p] { AllTheSame(p, b, |b|); }
    if forall i :: 0 <= i < |b| ==> b[i] == p { assert [p] + b == b + [p]; }
  }

  lemma {:induction false} AllTheSame<T>(p: T, b: seq<T>, n: nat)
    requires n <= |b| && [p] + b == b + [p]
    ensures forall i :: 0 <= i < n ==> b[i] == p
  {
    if n > 0 {
      AllTheSame(p, b, n - 1);
      assert (b + [p])[n - 1] == ([p] + b)[n - 1];
    }
  }

  /** A call from another thread leaves what the waiting samples will produce, and where, as if they had
      been written before it, exactly when `Undisturbed` says so. */
  lemma DirectDrain(s: State, op: Op)
    requires AllWritable(s.mux, Waiting(s)) && Legal(s.mux, op)
    ensures AllWritable(Step(s.mux, op), Waiting(s)) && Legal(Drain(s.mux, Waiting(s)), op)
    ensures Drain(Step(s.mux, op), Waiting(s)) == Step(Drain(s.mux, Waiting(s)), op) <==> Undisturbed(s, Direct(op))
  {
    hide CanWrite, MuxPacket, SamplePacket, Drain, UsesParams, WaitingPackets, Waiting, AllWritable, SetParams,
      NewTrack;
    var xs, m' := Waiting(s), Step(s.mux, op);
    AllStayWritable(s.mux, op, xs);
    DrainOutput(s.mux, xs);
    DrainOutput(m', xs);
    var out, a, b := s.mux.written, WaitingPackets(m'.tracks, xs), WaitingPackets(s.mux.tracks, xs);
    if op.Write? {
      var p := MuxPacket(s.mux.tracks, op.track, op.payload, op.flags, op.pts);
      assert Drain(m', xs) == m'.(written := (out + [p]) + b);
      assert Step(Drain(s.mux, xs), op) == m'.(written := (out + b) + [p]);
      assert (out + [p]) + b == out + ([p] + b) && (out + b) + [p] == out + (b + [p]);
      PrefixCancels(out, [p] + b, b + [p]);
      OvertakesOnlyItself(p, b);
    } else {
      PacketsUndisturbed(s, op);
      assert m'.written == out;
      assert Step(Drain(s.mux, xs), op) == m'.(written := out + b);
      PrefixCancels(out, a, b);
    }
  }

  lemma PrefixCancels<T>(out: seq<T>, a: seq<T>, b: seq<T>)
    ensures out + a == out + b <==> a == b
  {
    if out + a == out + b {
      assert a == (out + a)[|out|..] && b == (out + b)[|out|..];
    }
  }

  /** Whether no event of an interleaving disturbed what was waiting. */
  predicate NeverDisturbed(es: seq<Event>)
    requires Play(es).Some?
  {
    if es == [] then true
    else
      PlayLast(es);
      NeverDisturbed(es[..|es| - 1]) && Undisturbed(Play(es[..|es| - 1]).value, es[|es| - 1])
  }

  /** Everything that waits is writable, and writing it out now would leave the muxer in the very state
      it would be in had each sample been written when it was queued. */
  predicate Agrees(es: seq<Event>)
    requires Play(es).Some?
  {
    var s := Play(es).value;
    AllWritable(s.mux, Waiting(s)) && Run(AtOnce(es)) == Some(Drain(s.mux, Waiting(s)))
  }

  predicate AgreesThroughout(es: seq<Event>)
    requires Play(es).Some?
  {
    if es == [] then Agrees(es)
    else
      PlayLast(es);
      Agrees(es) && AgreesThroughout(es[..|es| - 1])
  }

  lemma DrainFirst(s: State)
    requires AllWritable(s.mux, Waiting(s)) && LegalEvent(s, WriteOut)
    ensures AllWritable(Next(s, WriteOut).mux, Waiting(Next(s, WriteOut)))
    ensures Drain(Next(s, WriteOut).mux, Waiting(Next(s, WriteOut))) == Drain(s.mux, Waiting(s))
  {
    hide Legal, Step, Waiting, Writable, AllWritable;
    WritableNext(s, WriteOut);
    WaitingNext(s, WriteOut);
    assert Waiting(s)[1..] == Waiting(Next(s, WriteOut));
  }

  lemma AgreesStep(es: seq<Event>)
    requires es != [] && Play(es).Some? && Play(es[..|es| - 1]).Some? && Agrees(es[..|es| - 1])
    ensures Agrees(es) <==> Undisturbed(Play(es[..|es| - 1]).value, es[|es| - 1])
  {
    hide Legal, LegalEvent, Step, Run, Play, Drain, AllWritable, Writable, Waiting, WaitingPackets, UsesParams,
      SamePacket;
    var hist, e := es[..|es| - 1], es[|es| - 1];
    PlayLast(es);
    var s := Play(hist).value;
    WaitingNext(s, e);
    match e {
      case Enqueue(x) =>
        LastWritable(s.mux, Waiting(s), x);
        if Writable(s.mux, x) {
          DrainSnoc(s.mux, Waiting(s), x);
          RunAppend(AtOnce(hist), x.AsWrite());
        }
      case Pop => assert AtOnce(es) == AtOnce(hist);
      case WriteOut =>
        DrainFirst(s);
        assert AtOnce(es) == AtOnce(hist);
      case Direct(op) =>
        DirectIsLegal(s, op);
        DirectDrain(s, op);
        RunAppend(AtOnce(hist), op);
    }
  }

  lemma DirectIsLegal(s: State, op: Op)
    ensures LegalEvent(s, Direct(op)) <==> Legal(s.mux, op)
  {
    hide Legal;
  }

  lemma LastWritable(m: Mux, xs: seq<Sample>, x: Sample)
    ensures AllWritable(m, xs + [x]) ==> Writable(m, x)
  {
    hide Writable;
    assert (xs + [x])[|xs|] == x;
  }

  /** Deferred muxing refines muxing at once, at every point of an interleaving, if and only if no event
      disturbs what is waiting: samples are queued when they are writable, no different parameter sets
      are registered while a key frame of that track is queued or in flight, and no frame is written
      directly past a waiting one. */
  lemma {:induction false} DeferredRefinesAtOnce(es: seq<Event>)
    requires Play(es).Some?
    ensures AgreesThroughout(es) <==> NeverDisturbed(es)
  {
    hide Agrees, Play, Undisturbed;
    if es == [] {
      AgreesAtStart();
    } else {
      PlayLast(es);
      DeferredRefinesAtOnce(es[..|es| - 1]);
      if NeverDisturbed(es[..|es| - 1]) {
        AgreesNow(es[..|es| - 1]);
        AgreesStep(es);
      }
    }
  }

  lemma AgreesAtStart()
    ensures Agrees([])
  {
  }

  lemma AgreesNow(es: seq<Event>)
    requires Play(es).Some? && AgreesThroughout(es)
    ensures Agrees(es)
  {
  }

  /** Meanwhile the output is a prefix of what writing at once would have put out by then. */
  lemma DeferredOutputIsPrefix(es: seq<Event>)
    requires Play(es).Some? && NeverDisturbed(es)
    ensures LegalRun(AtOnce(es)) && Play(es).value.mux.written <= Final(AtOnce(es)).written
  {
    hide Run, Play, Drain, AtOnce, NeverDisturbed, AllWritable, WaitingPackets, Waiting;
    DeferredRefinesAtOnce(es);
    AgreesNow(es);
    DrainOutput(Play(es).value.mux, Waiting(Play(es).value));
  }

  // Two interleavings that disturb

  /** An H.264 track, two parameter sets, and a key frame. */
  const ADD := AddTrack(Format(0, 0, 0, 0, 0))
  const FIRST := Register(0, [1])
  const SECOND := Register(0, [2])
  const KEY_FRAME := Sample(0, [9], 1, 1, 0)

  function H264With(paramSets: seq<byte>, written: seq<Packet>): Mux {
    Mux([VideoTrack(H264, Some(paramSets))], 1, written)
  }

  lemma ExampleSteps(p: seq<byte>, q: seq<byte>)
    ensures Legal(INIT, ADD) && Legal(Step(INIT, ADD), Register(0, p))
    ensures Step(Step(INIT, ADD), Register(0, p)) == H264With(p, [])
    ensures Writable(H264With(p, []), KEY_FRAME) && Legal(H264With(p, []), KEY_FRAME.AsWrite())
    ensures Step(H264With(p, []), KEY_FRAME.AsWrite()) == H264With(p, [Packet(0, p + [9], 0)])
    ensures forall out :: Legal(H264With(p, out), Register(0, q))
                          && Step(H264With(p, out), Register(0, q)) == H264With(q, out)
  {
    var none, some := VideoTrack(H264, None), VideoTrack(H264, Some(p));
    assert [] + [none] == [none] && [none][0 := some] == [some];
    assert [some][0 := some.(paramSets := Some(q))] == [VideoTrack(H264, Some(q))];
    assert KEY_FRAME.AsWrite() == Write(0, [9], 1, 0);
    assert [] + [Packet(0, p + [9], 0)] == [Packet(0, p + [9], 0)];
  }

  lemma ExampleAtOnce()
    ensures LegalRun([ADD, FIRST, KEY_FRAME.AsWrite(), SECOND])
    ensures Final([ADD, FIRST, KEY_FRAME.AsWrite(), SECOND]).written == [Packet(0, [1, 9], 0)]
  {
    hide Legal, Step, Run, Writable;
    var w := KEY_FRAME.AsWrite();
    EmptyRun();
    ExampleSteps([1], [2]);
    assert [] + [ADD] == [ADD] && [ADD] + [FIRST] == [ADD, FIRST];
    assert [ADD, FIRST] + [w] == [ADD, FIRST, w] && [ADD, FIRST, w] + [SECOND] == [ADD, FIRST, w, SECOND];
    RunAppend([], ADD);
    RunAppend([ADD], FIRST);
    RunAppend([ADD, FIRST], w);
    RunAppend([ADD, FIRST, w], SECOND);
    assert [1] + [9] == [1, 9];
  }

  /** Both interleavings start by queuing the key frame under the first parameter sets. */
  lemma ExampleStart()
    ensures Play([Direct(ADD), Direct(FIRST), Enqueue(KEY_FRAME)]) == Some(State(H264With([1], []), None, [KEY_FRAME]))
  {
    hide Legal, Step, Play, Writable, H264With;
    AtStart();
    ExampleSteps([1], [2]);
    var e1, e2, e3 := Direct(ADD), Direct(FIRST), Enqueue(KEY_FRAME);
    assert [] + [e1] == [e1] && [e1] + [e2] == [e1, e2] && [e1, e2] + [e3] == [e1, e2, e3];
    PlayAppend([], e1);
    PlayAppend([e1], e2);
    PlayAppend([e1, e2], e3);
    assert [] + [KEY_FRAME] == [KEY_FRAME];
  }

  lemma ExampleEnd(a: Event, b: Event, c: Event)
    requires (a, b, c) == (Direct(SECOND), Pop, WriteOut) || (a, b, c) == (Pop, Direct(SECOND), WriteOut)
    ensures Play([Direct(ADD), Direct(FIRST), Enqueue(KEY_FRAME), a, b, c])
         == Some(State(H264With([2], [Packet(0, [2, 9], 0)]), None, []))
  {
    hide Legal, Step, Play, Writable, H264With;
    ExampleStart();
    ExampleSteps([1], [2]);
    ExampleSteps([2], [2]);
    var es := [Direct(ADD), Direct(FIRST), Enqueue(KEY_FRAME)];
    assert es + [a] + [b] + [c] == [Direct(ADD), Direct(FIRST), Enqueue(KEY_FRAME), a, b, c];
    PlayAppend(es, a);
    PlayAppend(es + [a], b);
    PlayAppend(es + [a] + [b], c);
    assert [KEY_FRAME][1..] == [] && [2] + [9] == [2, 9];
  }

  lemma ExampleCalls(a: Event, b: Event, c: Event)
    requires (a, b, c) == (Direct(SECOND), Pop, WriteOut) || (a, b, c) == (Pop, Direct(SECOND), WriteOut)
    ensures AtOnce([Direct(ADD), Direct(FIRST), Enqueue(KEY_FRAME), a, b, c])
         == [ADD, FIRST, KEY_FRAME.AsWrite(), SECOND]
  {
    var es := [Direct(ADD), Direct(FIRST), Enqueue(KEY_FRAME), a, b, c];
    assert es[..5][..4] == es[..4] && es[..4][..3] == es[..3] && es[..3][..2] == es[..2] && es[..2][..1] == es[..1];
    assert AtOnce(es[..1]) == [ADD];
    assert AtOnce(es[..2]) == [ADD, FIRST];
    assert AtOnce(es[..3]) == [ADD, FIRST, KEY_FRAME.AsWrite()];
    assert AtOnce(es[..5]) == AtOnce(es[..4]) + if b.Direct? then [SECOND] else [];
  }

  /** The second parameter sets are registered while a key frame queued under the first still waits in
      the queue, and end up in front of it. */
  lemma DisturbedExample()
    ensures var es := [Direct(ADD), Direct(FIRST), Enqueue(KEY_FRAME), Direct(SECOND), Pop, WriteOut];
      && Play(es).Some? && Play(es).value.mux.written == [Packet(0, [2, 9], 0)]
      && LegalRun(AtOnce(es)) && Final(AtOnce(es)).written == [Packet(0, [1, 9], 0)]
  {
    hide Legal, Step, Play, Run, AtOnce;
    ExampleAtOnce();
    ExampleEnd(Direct(SECOND), Pop, WriteOut);
    ExampleCalls(Direct(SECOND), Pop, WriteOut);
  }

  /** The same happens when the queue is empty at the registration, because the key frame has been popped
      and not yet written: it is not enough that nothing waits in the queue. */
  lemma EmptyQueueExample()
    ensures var es := [Direct(ADD), Direct(FIRST), Enqueue(KEY_FRAME), Pop, Direct(SECOND), WriteOut];
      && Play(es[..4]).Some? && Play(es[..4]).value.queue == [] && !Undisturbed(Play(es[..4]).value, Direct(SECOND))
      && Play(es).Some? && Play(es).value.mux.written == [Packet(0, [2, 9], 0)]
      && LegalRun(AtOnce(es)) && Final(AtOnce(es)).written == [Packet(0, [1, 9], 0)]
  {
    hide Legal, Step, Play, Run, AtOnce;
    ExampleAtOnce();
    ExampleEnd(Pop, Direct(SECOND), WriteOut);
    ExampleCalls(Pop, Direct(SECOND), WriteOut);
    ExampleStart();
    var es := [Direct(ADD), Direct(FIRST), Enqueue(KEY_FRAME), Pop, Direct(SECOND), WriteOut];
    assert es[..4] == [Direct(ADD), Direct(FIRST), Enqueue(KEY_FRAME)] + [Pop];
    PlayAppend([Direct(ADD), Direct(FIRST), Enqueue(KEY_FRAME)], Pop);
    var s := Play(es[..4]).value;
    assert s == State(H264With([1], []), Some(KEY_FRAME), []);
    assert Waiting(s)[0] == KEY_FRAME && UsesParams(s.mux.tracks, Waiting(s)[0], 0);
    assert [1] != [2] by { assert [1][0] != [2][0]; }
  }
}
