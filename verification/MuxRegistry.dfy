/** The track registry: which stream indices the video and the audio lists hold. */
module MuxRegistry {
  import opened Bits
  import opened MuxModel

  /** The `trackIndex` entries of `videoStreamInfo` (or, if not `video`, `audioStreamInfo`), in order. */
  function Indices(tracks: seq<Track>, video: bool): (r: seq<nat>) {
    if tracks == [] then []
    else
      var n := |tracks| - 1;
      Indices(tracks[..n], video) + if tracks[n].VideoTrack? == video then [n] else []
  }

  predicate StrictlyIncreasing(s: seq<nat>) {
    forall i, j :: 0 <= i < j < |s| ==> s[i] < s[j]
  }

  lemma {:induction false} IndicesInRange(tracks: seq<Track>, video: bool)
    ensures forall i :: 0 <= i < |Indices(tracks, video)| ==>
              var t := Indices(tracks, video)[i]; t < |tracks| && tracks[t].VideoTrack? == video
  {
    if tracks != [] { IndicesInRange(tracks[..|tracks| - 1], video); }
  }

  lemma {:induction false} IndicesIncrease(tracks: seq<Track>, video: bool)
    ensures StrictlyIncreasing(Indices(tracks, video))
  {
    if tracks != [] {
      IndicesInRange(tracks[..|tracks| - 1], video);
      IndicesIncrease(tracks[..|tracks| - 1], video);
    }
  }

  lemma {:induction false} IndexOf(tracks: seq<Track>, t: nat) returns (i: nat)
    requires t < |tracks|
    ensures i < |Indices(tracks, tracks[t].VideoTrack?)| && Indices(tracks, tracks[t].VideoTrack?)[i] == t
  {
    var n := |tracks| - 1;
    if t == n {
      i := |Indices(tracks[..n], tracks[t].VideoTrack?)|;
    } else {
      i := IndexOf(tracks[..n], t);
    }
  }

  lemma {:induction false} IndicesCount(tracks: seq<Track>)
    ensures |Indices(tracks, true)| + |Indices(tracks, false)| == |tracks|
  {
    if tracks != [] { IndicesCount(tracks[..|tracks| - 1]); }
  }

  lemma Member(tracks: seq<Track>, t: nat, video: bool)
    ensures t in Indices(tracks, video) <==> t < |tracks| && tracks[t].VideoTrack? == video
  {
    hide Indices;
    IndicesInRange(tracks, video);
    if t < |tracks| && tracks[t].VideoTrack? == video {
      var i := IndexOf(tracks, t);
      assert Indices(tracks, video)[i] == t;
    }
  }

  /** Both lists are strictly increasing, and together they hold every stream index once: each index
      is in exactly one list, the one for its kind. */
  lemma Registry(tracks: seq<Track>)
    ensures StrictlyIncreasing(Indices(tracks, true)) && StrictlyIncreasing(Indices(tracks, false))
    ensures forall t: nat, video :: t in Indices(tracks, video) <==> t < |tracks| && tracks[t].VideoTrack? == video
    ensures |Indices(tracks, true)| + |Indices(tracks, false)| == |tracks|
  {
    hide Indices;
    IndicesCount(tracks);
    IndicesIncrease(tracks, true);
    IndicesIncrease(tracks, false);
    forall t: nat, video: bool ensures t in Indices(tracks, video) <==> t < |tracks| && tracks[t].VideoTrack? == video {
      Member(tracks, t, video);
    }
  }

  /** So the linear search for a track by its index hits exactly one entry of the list for its kind,
      and no entry of the other list. */
  lemma SearchFindsOne(tracks: seq<Track>, t: nat) returns (i: nat)
    requires t < |tracks|
    ensures i < |Indices(tracks, tracks[t].VideoTrack?)|
    ensures forall j :: 0 <= j < |Indices(tracks, tracks[t].VideoTrack?)| ==>
              (Indices(tracks, tracks[t].VideoTrack?)[j] == t <==> j == i)
    ensures t !in Indices(tracks, !tracks[t].VideoTrack?)
  {
    hide Indices;
    i := IndexOf(tracks, t);
    IndicesIncrease(tracks, tracks[t].VideoTrack?);
    IndicesInRange(tracks, !tracks[t].VideoTrack?);
  }

  /** Registering parameter sets changes no index. */
  lemma IndicesSetParams(tracks: seq<Track>, t: int, ps: seq<byte>, video: bool)
    ensures Indices(SetParams(tracks, t, ps), video) == Indices(tracks, video)
  {
    SameKinds(tracks, SetParams(tracks, t, ps), video);
  }

  lemma {:induction false} SameKinds(a: seq<Track>, b: seq<Track>, video: bool)
    requires |a| == |b| && forall i :: 0 <= i < |a| ==> a[i].VideoTrack? == b[i].VideoTrack?
    ensures Indices(a, video) == Indices(b, video)
  {
    if a != [] { SameKinds(a[..|a| - 1], b[..|a| - 1], video); }
  }

  /** addTrack calls that make no stream. */
  function Streamless(ops: seq<Op>): nat {
    if ops == [] then 0
    else
      var op := ops[|ops| - 1];
      Streamless(ops[..|ops| - 1]) + if op.AddTrack? && op.format.streamType !in {0, 1} then 1 else 0
  }

  /** `nbstreams` counts the video and audio tracks and every streamless call; it is the number of
      streams exactly as long as no subtitle or unknown track was asked for. */
  lemma {:induction false} StreamCount(ops: seq<Op>)
    requires LegalRun(ops)
    ensures var m := Final(ops);
      && m.nbstreams == |Indices(m.tracks, true)| + |Indices(m.tracks, false)| + Streamless(ops)
      && (m.nbstreams == |m.tracks| <==> Streamless(ops) == 0)
      && |m.tracks| <= 10
  {
    Registry(Final(ops).tracks);
    hide Indices;
    if ops != [] {
      RunLast(ops);
      Registry(Final(ops[..|ops| - 1]).tracks);
      StreamCount(ops[..|ops| - 1]);
    }
  }
}
