/** Whole playbacks: src/Server/Session.cpp:194-261 over src/Server/Track.cpp:58-104. */
module Playback {
  import opened RtpPackets
  import opened Delivery

  // ---- one window --------------------------------------------------------------------

  function Iterate(t: TrackState, k: nat): TrackState
    decreases k
  {
    if k == 0 then t else Iterate(SendNext(t), k - 1)
  }

  lemma {:induction false} NeverReached(t: TrackState, cutoff: Time, k: nat)
    requires !Ends(t, cutoff)
    ensures Iterate(t, k).playTime < cutoff
    decreases k
  {
    if k > 0 { NeverReached(SendNext(t), cutoff, k - 1); }
  }

  lemma {:induction false} Reached(t: TrackState, cutoff: Time) returns (k: nat)
    requires Ends(t, cutoff)
    ensures Iterate(t, k).playTime >= cutoff
    decreases Remaining(t, cutoff)
  {
    if t.playTime >= cutoff {
      k := 0;
    } else {
      EndsNext(t, cutoff);
      k := Reached(SendNext(t), cutoff);
      k := k + 1;
    }
  }

  /** The window loop comes to its cutoff exactly when play time is there already,
      a frame still in the stream is at or past it, or it is not after 0: at the
      end of the stream the play time falls back to 0 and stays there. */
  lemma WindowEndsExactly(t: TrackState, cutoff: Time)
    ensures (exists k: nat :: Iterate(t, k).playTime >= cutoff) <==> Ends(t, cutoff)
  {
    if Ends(t, cutoff) {
      var k := Reached(t, cutoff);
    } else {
      forall k: nat ensures Iterate(t, k).playTime < cutoff { NeverReached(t, cutoff, k); }
    }
  }

  /** The packets of frames one after the other, numbered from `n`. */
  function AllPackets(frames: seq<Frame>, n: nat): seq<Packet> {
    if frames == [] then []
    else
      var data := frames[0].data;
      Fragments(data, 0, n) + AllPackets(frames[1..], (n + PacketCount(|data|)) % SEQUENCE_LIMIT)
  }

  function TotalPackets(frames: seq<Frame>): nat {
    if frames == [] then 0 else PacketCount(|frames[0].data|) + TotalPackets(frames[1..])
  }

  lemma NumberShift(n: nat, c: nat, j: nat)
    ensures ((n + c) % SEQUENCE_LIMIT + j) % SEQUENCE_LIMIT == (n + (c + j)) % SEQUENCE_LIMIT
  {
  }

  ghost predicate Numbered(ps: seq<Packet>, n: nat) {
    forall i :: 0 <= i < |ps| ==> ps[i].sequenceNumber == (n + i) % 0x1_0000
  }

  lemma NumberedConcat(a: seq<Packet>, b: seq<Packet>, n: nat)
    requires Numbered(a, n) && Numbered(b, (n + |a|) % SEQUENCE_LIMIT)
    ensures Numbered(a + b, n)
  {
    forall i | 0 <= i < |a + b| ensures (a + b)[i].sequenceNumber == (n + i) % SEQUENCE_LIMIT {
      if i >= |a| {
        NumberShift(n, |a|, i - |a|);
        assert (a + b)[i] == b[i - |a|];
      }
    }
  }

  /** The numbering has no gap, across frames and across the wrap-around. */
  lemma {:induction false} NumberedInOrder(frames: seq<Frame>, n: nat)
    ensures |AllPackets(frames, n)| == TotalPackets(frames)
    ensures Numbered(AllPackets(frames, n), n)
    decreases |frames|
  {
    if frames != [] {
      var data := frames[0].data;
      var next := (n + PacketCount(|data|)) % SEQUENCE_LIMIT;
      FramePackets(data, n);
      NumberedInOrder(frames[1..], next);
      NumberedConcat(Fragments(data, 0, n), AllPackets(frames[1..], next), n);
    }
  }

  /** The track after the frames `t.pos` up to, but not including, `end`. */
  ghost function After(t: TrackState, end: nat): TrackState
    requires t.pos < end <= |t.frames|
  {
    var frames := t.frames[t.pos..end];
    t.(pos := end, playTime := t.frames[end - 1].time,
       sequenceNumber := (t.sequenceNumber + TotalPackets(frames)) % SEQUENCE_LIMIT,
       sent := t.sent + AllPackets(frames, t.sequenceNumber))
  }

  lemma AfterOne(t: TrackState)
    requires t.pos < |t.frames|
    ensures SendNext(t) == After(t, t.pos + 1)
  {
    var frames := t.frames[t.pos..t.pos + 1];
    assert frames[1..] == [];
    assert frames[0] == t.frames[t.pos];
    assert TotalPackets(frames) == PacketCount(|frames[0].data|) + TotalPackets([]);
    assert AllPackets(frames, t.sequenceNumber) == Fragments(frames[0].data, 0, t.sequenceNumber) + [];
  }

  lemma AfterMore(t: TrackState, end: nat)
    requires t.pos + 1 < end <= |t.frames|
    ensures After(SendNext(t), end) == After(t, end)
  {
    var frames := t.frames[t.pos..end];
    var f := t.frames[t.pos];
    assert frames[0] == f && frames[1..] == t.frames[t.pos + 1..end];
    var n, k, rest := t.sequenceNumber, PacketCount(|f.data|), TotalPackets(frames[1..]);
    assert ((n + k) % SEQUENCE_LIMIT + rest) % SEQUENCE_LIMIT == (n + (k + rest)) % SEQUENCE_LIMIT;
    var more := AllPackets(frames[1..], (n + k) % SEQUENCE_LIMIT);
    assert t.sent + (Fragments(f.data, 0, n) + more) == t.sent + Fragments(f.data, 0, n) + more;
  }

  /** The next frame at or past `end` is frame `n`. */
  predicate FirstPast(t: TrackState, end: Time, n: nat) {
    t.pos <= n < |t.frames| && t.frames[n].time >= end && forall j :: t.pos <= j < n ==> t.frames[j].time < end
  }

  lemma LastOfWindow(t: TrackState, cutoff: Time)
    requires t.playTime < cutoff && t.pos < |t.frames| && t.frames[t.pos].time >= cutoff
    ensures Ends(t, cutoff) && SendWindow(t, cutoff) == After(t, t.pos + 1)
  {
    AfterOne(t);
    GoesOn(t, cutoff);
  }

  lemma OneMoreOfWindow(t: TrackState, cutoff: Time, n: nat)
    requires t.playTime < cutoff && t.pos < n < |t.frames| && t.frames[n].time >= cutoff
    requires Ends(SendNext(t), cutoff) && SendWindow(SendNext(t), cutoff) == After(SendNext(t), n + 1)
    ensures Ends(t, cutoff) && SendWindow(t, cutoff) == After(t, n + 1)
  {
    GoesOn(t, cutoff);
    AfterMore(t, n + 1);
  }

  /** A window sends the frames up to and including the first one at or past the
      cutoff, each once and in order, whatever the times before it are; the
      sequence counter advances by their packets modulo 2^16. */
  lemma {:induction false} WindowDelivers(t: TrackState, cutoff: Time, n: nat)
    requires t.playTime < cutoff && FirstPast(t, cutoff, n)
    ensures Ends(t, cutoff) && SendWindow(t, cutoff) == After(t, n + 1)
    decreases |t.frames| - t.pos
  {
    if n == t.pos {
      LastOfWindow(t, cutoff);
    } else {
      assert t.frames[t.pos].time < cutoff;
      WindowDelivers(SendNext(t), cutoff, n);
      OneMoreOfWindow(t, cutoff, n);
    }
  }

  lemma GoesOn(t: TrackState, cutoff: Time)
    requires t.playTime < cutoff && Ends(t, cutoff)
    ensures Ends(SendNext(t), cutoff) && SendWindow(t, cutoff) == SendWindow(SendNext(t), cutoff)
  {
    EndsNext(t, cutoff);
  }

  /** PLAY sets the play time but does not seek: what is sent up to the range end
      does not depend on where in front of it playing was asked to begin. */
  lemma PlayDoesNotSeek(t: TrackState, begin: Time, other: Time, end: Time, n: nat)
    requires begin < end && other < end && FirstPast(t, end, n)
    ensures var a, b := t.(playTime := begin), t.(playTime := other);
            Ends(a, end) && Ends(b, end) && SendWindow(a, end) == SendWindow(b, end)
  {
    WindowDelivers(t.(playTime := begin), end, n);
    WindowDelivers(t.(playTime := other), end, n);
  }

  /** Stopping at an earlier cutoff first changes nothing in the end. */
  lemma {:induction false} WindowThenRest(t: TrackState, cutoff: Time, end: Time)
    requires cutoff <= end && Ends(t, end)
    ensures Ends(t, cutoff) && Ends(SendWindow(t, cutoff), end)
    ensures SendWindow(SendWindow(t, cutoff), end) == SendWindow(t, end)
    ensures Remaining(SendWindow(t, cutoff), end) <= Remaining(t, end)
    ensures t.playTime < cutoff ==> Remaining(SendWindow(t, cutoff), end) < Remaining(t, end)
    decreases Remaining(t, end)
  {
    if t.playTime < cutoff {
      EndsNext(t, end);
      assert Ends(t, cutoff) by {
        if i :| t.pos <= i < |t.frames| && t.frames[i].time >= end { assert t.frames[i].time >= cutoff; }
      }
      EndsNext(t, cutoff);
      WindowThenRest(SendNext(t), cutoff, end);
    }
  }

  // ---- one tick -------------------------------------------------------------------------

  datatype SessionState = SessionState(tracks: seq<TrackState>, isPlaying: bool)

  predicate Wants(t: TrackState) { t.playTime < Cutoff(t) }

  /** A track has nothing to send exactly when it has reached its range end. */
  lemma WantsUnlessAtEnd(t: TrackState)
    ensures Wants(t) <==> t.rangeEnd == 0 || t.playTime < t.rangeEnd
  {
  }

  function FirstWanting(tracks: seq<TrackState>, i: nat): (k: nat)
    requires i <= |tracks|
    ensures i <= k <= |tracks| && (k < |tracks| ==> Wants(tracks[k]))
    ensures forall j :: i <= j < k ==> !Wants(tracks[j])
    decreases |tracks| - i
  {
    if i == |tracks| || Wants(tracks[i]) then i else FirstWanting(tracks, i + 1)
  }

  /** The window the tick would run comes to an end. */
  ghost predicate CanTick(s: SessionState) {
    var k := FirstWanting(s.tracks, 0);
    s.isPlaying && k < |s.tracks| ==> Ends(s.tracks[k], Cutoff(s.tracks[k]))
  }

  /** `any_sent || t.send_frames()` stops at the first track that sends. */
  ghost function Ticked(s: SessionState): SessionState
    requires CanTick(s)
  {
    var k := FirstWanting(s.tracks, 0);
    if !s.isPlaying then s
    else if k == |s.tracks| then s.(isPlaying := false)
    else s.(tracks := s.tracks[k := SendWindow(s.tracks[k], Cutoff(s.tracks[k]))])
  }

  /** A tick stops playback exactly when every track is at its range end. */
  lemma TickStopsExactly(s: SessionState)
    requires CanTick(s) && s.isPlaying
    ensures !Ticked(s).isPlaying <==> forall t <- s.tracks :: t.rangeEnd != 0 && t.playTime >= t.rangeEnd
  {
    var k := FirstWanting(s.tracks, 0);
    if k < |s.tracks| {
      assert s.tracks[k] in s.tracks;
      WantsUnlessAtEnd(s.tracks[k]);
    } else {
      forall t | t in s.tracks ensures t.rangeEnd != 0 && t.playTime >= t.rangeEnd { WantsUnlessAtEnd(t); }
    }
  }

  /** What the track is after frames `t.pos` to `n`: they are read and sent, in
      order, and nothing else. */
  ghost predicate SentThrough(t: TrackState, n: nat, u: TrackState)
    requires t.pos <= n < |t.frames|
  {
    var frames := t.frames[t.pos..n + 1];
    && u.frames == t.frames && u.pos == n + 1 && u.playTime == t.frames[n].time && u.rangeEnd == t.rangeEnd
    && u.sent == t.sent + AllPackets(frames, t.sequenceNumber)
    && u.sequenceNumber == (t.sequenceNumber + |u.sent| - |t.sent|) % 0x1_0000
  }

  /** One call of `send_frames`: with `end` the earlier of ten seconds from the
      play time and the range end, exactly the frames up to and including the
      first at or past `end` are sent, and nothing when play time is there. */
  lemma WindowIsTenSeconds(t: TrackState, end: Time, n: nat)
    requires IsWindowEnd(t, end)
    ensures t.playTime >= end ==> Ends(t, Cutoff(t)) && SendWindow(t, Cutoff(t)) == t
    ensures t.playTime < end && FirstPast(t, end, n) ==>
              Ends(t, Cutoff(t)) && SentThrough(t, n, SendWindow(t, Cutoff(t)))
  {
    assert Cutoff(t) == end;
    if t.playTime < end && FirstPast(t, end, n) {
      WindowDelivers(t, end, n);
      AfterSends(t, n);
    }
  }

  lemma AfterSends(t: TrackState, n: nat)
    requires t.pos <= n < |t.frames|
    ensures SentThrough(t, n, After(t, n + 1))
  {
    NumberedInOrder(t.frames[t.pos..n + 1], t.sequenceNumber);
  }

  /** With no such frame left a window ends only in front of time 0: the rest of
      the stream is sent, and an empty packet for its end. */
  lemma {:induction false} WindowRunsOut(t: TrackState, end: Time)
    requires t.playTime < end <= 0 && t.pos <= |t.frames|
    requires forall j :: t.pos <= j < |t.frames| ==> t.frames[j].time < end
    ensures Ends(t, end) && SendWindow(t, end).pos == |t.frames| && SendWindow(t, end).playTime == 0
    ensures SendWindow(t, end).sent == t.sent + AllPackets(t.frames[t.pos..] + [Frame(0, [])], t.sequenceNumber)
    decreases |t.frames| - t.pos
  {
    EndsNext(t, end);
    OneMorePacket(t);
    if t.pos < |t.frames| { WindowRunsOut(SendNext(t), end); }
  }

  lemma OneMorePacket(t: TrackState)
    requires t.pos <= |t.frames|
    ensures var left, next := t.frames[t.pos..] + [Frame(0, [])], SendNext(t);
            t.sent + AllPackets(left, t.sequenceNumber) ==
            if t.pos == |t.frames| then next.sent
            else next.sent + AllPackets(next.frames[next.pos..] + [Frame(0, [])], next.sequenceNumber)
  {
    var left := t.frames[t.pos..] + [Frame(0, [])];
    var f := NextFrame(t);
    assert left[0] == f;
    var now := Fragments(f.data, 0, t.sequenceNumber);
    var number := (t.sequenceNumber + PacketCount(|f.data|)) % SEQUENCE_LIMIT;
    assert AllPackets(left, t.sequenceNumber) == now + AllPackets(left[1..], number);
    if t.pos < |t.frames| {
      assert left[1..] == t.frames[t.pos + 1..] + [Frame(0, [])];
      assert t.sent + (now + AllPackets(left[1..], number)) == t.sent + now + AllPackets(left[1..], number);
    } else {
      assert left[1..] == [] && AllPackets(left[1..], number) == [];
    }
  }

  /** One tick: the tracks in front of track `k` are at their range ends, track
      `k` is not, and it alone sends a window; its time is `end`. */
  lemma TickDelivers(s: SessionState, k: nat, end: Time, n: nat)
    requires s.isPlaying && k < |s.tracks|
    requires forall i :: 0 <= i < k ==> s.tracks[i].rangeEnd != 0 && s.tracks[i].playTime >= s.tracks[i].rangeEnd
    requires s.tracks[k].rangeEnd == 0 || s.tracks[k].playTime < s.tracks[k].rangeEnd
    requires IsWindowEnd(s.tracks[k], end) && FirstPast(s.tracks[k], end, n)
    ensures CanTick(s) && Ticked(s).isPlaying && |Ticked(s).tracks| == |s.tracks|
    ensures SentThrough(s.tracks[k], n, Ticked(s).tracks[k])
    ensures forall i :: 0 <= i < |s.tracks| && i != k ==> Ticked(s).tracks[i] == s.tracks[i]
  {
    forall i | 0 <= i < k ensures !Wants(s.tracks[i]) { WantsUnlessAtEnd(s.tracks[i]); }
    WantsUnlessAtEnd(s.tracks[k]);
    FirstWantingIs(s.tracks, 0, k);
    WindowIsTenSeconds(s.tracks[k], end, n);
  }

  lemma {:induction false} FirstWantingIs(tracks: seq<TrackState>, i: nat, k: nat)
    requires i <= k < |tracks| && Wants(tracks[k]) && forall j :: i <= j < k ==> !Wants(tracks[j])
    ensures FirstWanting(tracks, i) == k
    decreases k - i
  {
    if i < k { FirstWantingIs(tracks, i + 1, k); }
  }

  // ---- whole playbacks -----------------------------------------------------------------

  ghost predicate Run(ss: seq<SessionState>) {
    ss != [] && forall i :: 0 <= i < |ss| - 1 ==> CanTick(ss[i]) && ss[i + 1] == Ticked(ss[i])
  }

  /** Every track has a range end and a frame to stop at. */
  ghost predicate Bounded(s: SessionState) {
    forall i :: 0 <= i < |s.tracks| ==> s.tracks[i].rangeEnd != 0 && Ends(s.tracks[i], s.tracks[i].rangeEnd)
  }

  /** Each track played to its range end in one pass. */
  ghost function OnePass(s: SessionState): (r: seq<TrackState>)
    requires Bounded(s)
    ensures |r| == |s.tracks|
  {
    seq(|s.tracks|, i requires 0 <= i < |s.tracks| => SendWindow(s.tracks[i], s.tracks[i].rangeEnd))
  }

  function Left(tracks: seq<TrackState>): nat {
    if tracks == [] then 0 else Remaining(tracks[0], tracks[0].rangeEnd) + Left(tracks[1..])
  }

  lemma {:induction false} LeftUpdate(tracks: seq<TrackState>, k: nat, t: TrackState)
    requires k < |tracks| && Remaining(t, t.rangeEnd) < Remaining(tracks[k], tracks[k].rangeEnd)
    ensures Left(tracks[k := t]) < Left(tracks)
    decreases |tracks|
  {
    if k == 0 {
      assert tracks[0 := t][1..] == tracks[1..];
    } else {
      LeftUpdate(tracks[1..], k - 1, t);
      assert tracks[k := t][1..] == tracks[1..][k - 1 := t];
    }
  }

  lemma {:induction false} RangeEndKept(t: TrackState, cutoff: Time)
    requires Ends(t, cutoff)
    ensures SendWindow(t, cutoff).rangeEnd == t.rangeEnd
    decreases Remaining(t, cutoff)
  {
    if t.playTime < cutoff {
      EndsNext(t, cutoff);
      RangeEndKept(SendNext(t), cutoff);
    }
  }

  /** A tick that sends gets closer to the end; none changes where playback ends up. */
  lemma TickKeeps(s: SessionState)
    requires Bounded(s)
    ensures CanTick(s) && Bounded(Ticked(s)) && OnePass(Ticked(s)) == OnePass(s)
    ensures s.isPlaying && Ticked(s).isPlaying ==> Left(Ticked(s).tracks) < Left(s.tracks)
  {
    var k := FirstWanting(s.tracks, 0);
    if s.isPlaying && k < |s.tracks| {
      var t := s.tracks[k];
      WindowThenRest(t, Cutoff(t), t.rangeEnd);
      RangeEndKept(t, Cutoff(t));
      LeftUpdate(s.tracks, k, SendWindow(t, Cutoff(t)));
    }
  }

  lemma {:induction false} RunKeeps(ss: seq<SessionState>, i: nat)
    requires Run(ss) && Bounded(ss[0]) && i < |ss|
    ensures Bounded(ss[i]) && OnePass(ss[i]) == OnePass(ss[0])
    ensures ss[i].isPlaying ==> Left(ss[i].tracks) + i <= Left(ss[0].tracks)
    ensures ss[i].isPlaying ==> ss[0].isPlaying
  {
    if i > 0 {
      RunKeeps(ss, i - 1);
      TickKeeps(ss[i - 1]);
    }
  }

  /** Playback comes to a stop: no run keeps playing for more ticks than there
      were rounds left. */
  lemma PlaybackStops(ss: seq<SessionState>)
    requires Run(ss) && Bounded(ss[0]) && |ss| > Left(ss[0].tracks) + 1
    ensures !ss[|ss| - 1].isPlaying
  {
    RunKeeps(ss, |ss| - 1);
  }

  /** Windowed delivery is one pass: when playback has stopped, every track has
      sent exactly what a single pass to its range end sends. */
  lemma {:induction false} WindowedIsOnePass(ss: seq<SessionState>)
    requires Run(ss) && Bounded(ss[0]) && ss[0].isPlaying && !ss[|ss| - 1].isPlaying
    ensures ss[|ss| - 1].tracks == OnePass(ss[0])
    decreases |ss|
  {
    var n := |ss| - 1;
    if ss[n - 1].isPlaying {
      RunKeeps(ss, n - 1);
      TickStopsExactly(ss[n - 1]);
      var s := ss[n - 1];
      assert forall i :: 0 <= i < |s.tracks| ==> s.tracks[i] in s.tracks;
      assert OnePass(s) == s.tracks;
      TickKeepsTracks(s);
    } else {
      WindowedIsOnePass(ss[..n]);
      assert ss[..n][|ss[..n]| - 1] == ss[n - 1];
    }
  }

  lemma TickKeepsTracks(s: SessionState)
    requires CanTick(s) && !Ticked(s).isPlaying
    ensures Ticked(s).tracks == s.tracks
  {
  }

  /** A track behind one without a range end is never served. */
  lemma {:induction false} Starved(ss: seq<SessionState>, i: nat, j: nat, k: nat)
    requires Run(ss) && i < j < |ss[0].tracks| && ss[0].tracks[i].rangeEnd == 0 && k < |ss|
    ensures |ss[k].tracks| == |ss[0].tracks|
    ensures ss[k].tracks[i].rangeEnd == 0 && ss[k].tracks[j] == ss[0].tracks[j]
    decreases k
  {
    if k > 0 {
      Starved(ss, i, j, k - 1);
      var s := ss[k - 1];
      var f := FirstWanting(s.tracks, 0);
      WantsUnlessAtEnd(s.tracks[i]);
      if s.isPlaying && f < |s.tracks| { RangeEndKept(s.tracks[f], Cutoff(s.tracks[f])); }
    }
  }

  // ---- the session object -----------------------------------------------------------------

  class Session {
    var tracks: seq<Track>
    var isPlaying: bool
    var playRange: (Time, Time)

    ghost predicate Valid()
      reads this, tracks
    {
      && (forall t <- tracks :: t.Valid())
      && forall i, j :: 0 <= i < j < |tracks| ==> tracks[i] != tracks[j]
    }

    ghost function States(): (r: seq<TrackState>)
      reads this, tracks
      ensures |r| == |tracks|
    {
      seq(|tracks|, i requires 0 <= i < |tracks| reads this, tracks => tracks[i].State())
    }

    ghost function State(): SessionState
      reads this, tracks
    {
      SessionState(States(), isPlaying)
    }

    constructor ()
      ensures Valid() && State() == SessionState([], false)
    {
      tracks, isPlaying, playRange := [], false, (0, 0);
    }

    method Tick()
      requires Valid() && CanTick(State())
      modifies this`isPlaying, tracks
      ensures Valid() && State() == Ticked(old(State()))
    {
      if isPlaying {
        var anySent := false;
        ghost var s := States();
        ghost var k := FirstWanting(s, 0);
        for i := 0 to |tracks|
          invariant Valid() && isPlaying && tracks == old(tracks)
          invariant anySent <==> k < i
          invariant States() == if k < i then s[k := SendWindow(s[k], Cutoff(s[k]))] else s
        {
          if !anySent {
            assert s[i] == tracks[i].State();
            var sent := tracks[i].SendFrames();
            anySent := sent;
          }
        }
        if !anySent { isPlaying := false; }
      }
    }

    method Play() returns (range: (Time, Time))
      modifies this`isPlaying
      ensures isPlaying && range == playRange
    {
      isPlaying := true;
      range := playRange;
    }

    /** A range end of 0 leaves the tracks' old ones in place. */
    method PlayRange(begin: Time, end: Time) returns (range: (Time, Time))
      requires Valid()
      modifies this`isPlaying, this`playRange, tracks
      ensures Valid() && isPlaying && tracks == old(tracks)
      ensures forall i :: 0 <= i < |tracks| ==>
                States()[i] == old(States())[i].(playTime := begin,
                                                 rangeEnd := if end != 0 then end else old(States())[i].rangeEnd)
      ensures range == playRange
      ensures playRange == if tracks == [] then old(playRange)
                           else (begin, if end != 0 then end else old(playRange.1))
    {
      isPlaying := true;
      ghost var s := States();
      for k := 0 to |tracks|
        invariant Valid() && isPlaying && tracks == old(tracks)
        invariant forall i :: 0 <= i < |tracks| ==>
                    tracks[i].State() == if i < k then Positioned(s[i], begin, end) else s[i]
        invariant playRange == if k == 0 then old(playRange) else (begin, if end != 0 then end else old(playRange.1))
      {
        tracks[k].SetPlayTime(begin);
        playRange := (begin, playRange.1);
        if end != 0 {
          tracks[k].SetPlayRangeEnd(end);
          playRange := (playRange.0, end);
        }
      }
      range := playRange;
    }

    method Pause()
      modifies this`isPlaying
      ensures !isPlaying
    {
      isPlaying := false;
    }

    method PauseAt(npt: Time)
      requires Valid()
      modifies this`isPlaying, tracks
      ensures Valid() && !isPlaying && tracks == old(tracks)
      ensures forall i :: 0 <= i < |tracks| ==> States()[i] == old(States())[i].(playTime := npt)
    {
      isPlaying := false;
      ghost var s := States();
      for k := 0 to |tracks|
        invariant Valid() && !isPlaying && tracks == old(tracks)
        invariant forall i :: 0 <= i < |tracks| ==> tracks[i].State() == if i < k then s[i].(playTime := npt) else s[i]
      {
        tracks[k].SetPlayTime(npt);
      }
    }
  }

  function Positioned(t: TrackState, begin: Time, end: Time): TrackState {
    t.(playTime := begin, rangeEnd := if end != 0 then end else t.rangeEnd)
  }
}
