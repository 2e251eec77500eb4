/** src/Server/Track.cpp and the playback half of src/Server/Session.cpp: frames
    pulled in 10-second windows, one window of one track per tick.  Times are
    integer ticks; the stream is the frames still to be read. */
module Delivery {
  import opened RtpPackets

  type Time = int
  type Rate = r: int | 0 < r witness 1

  /** The clock of the track: any rate, so what is proved holds for all of them. */
  const TICKS_PER_SECOND: Rate
  const WINDOW: nat := 10 * TICKS_PER_SECOND

  datatype Frame = Frame(time: Time, data: seq<byte>)

  /** `read_frame` at the end of the stream: an empty packet at timestamp 0. */
  const NO_FRAME := Frame(0, [])

  /** A track: its stream position and counters, and the packets it has sent.
      A range end of 0 means none. */
  datatype TrackState = TrackState(frames: seq<Frame>, pos: nat, playTime: Time, rangeEnd: Time,
                                   sequenceNumber: nat, sent: seq<Packet>)

  function NextFrame(t: TrackState): Frame {
    if t.pos < |t.frames| then t.frames[t.pos] else NO_FRAME
  }

  /** One round of the window loop: read a frame, send its packets. */
  function SendNext(t: TrackState): TrackState {
    var f := NextFrame(t);
    t.(pos := if t.pos < |t.frames| then t.pos + 1 else t.pos,
       playTime := f.time,
       sequenceNumber := (t.sequenceNumber + PacketCount(|f.data|)) % SEQUENCE_LIMIT,
       sent := t.sent + Fragments(f.data, 0, t.sequenceNumber))
  }

  /** End of the current window. */
  function Cutoff(t: TrackState): Time {
    var cutoff := t.playTime + WINDOW;
    if t.rangeEnd != 0 && t.rangeEnd < cutoff then t.rangeEnd else cutoff
  }

  /** The earlier of ten seconds from the play time and a range end that is set. */
  predicate IsWindowEnd(t: TrackState, end: Time) {
    && end <= t.playTime + 10 * TICKS_PER_SECOND && (t.rangeEnd != 0 ==> end <= t.rangeEnd)
    && (end == t.playTime + 10 * TICKS_PER_SECOND || (t.rangeEnd != 0 && end == t.rangeEnd))
  }

  /** The condition under which a window up to `cutoff` comes to an end. */
  ghost predicate Ends(t: TrackState, cutoff: Time) {
    || t.playTime >= cutoff
    || cutoff <= 0
    || exists i :: t.pos <= i < |t.frames| && t.frames[i].time >= cutoff
  }

  lemma EndsNext(t: TrackState, cutoff: Time)
    requires Ends(t, cutoff) && t.playTime < cutoff
    ensures Ends(SendNext(t), cutoff)
    ensures Remaining(SendNext(t), cutoff) < Remaining(t, cutoff)
  {
  }

  /** Rounds the window loop can still make, at most. */
  function Remaining(t: TrackState, cutoff: Time): nat {
    2 * (if t.pos < |t.frames| then |t.frames| - t.pos else 0) + if t.playTime < cutoff then 1 else 0
  }

  /** The window loop. */
  ghost function SendWindow(t: TrackState, cutoff: Time): TrackState
    requires Ends(t, cutoff)
    decreases Remaining(t, cutoff)
  {
    if t.playTime >= cutoff then t
    else
      EndsNext(t, cutoff);
      SendWindow(SendNext(t), cutoff)
  }

  /** `sent` ends with the packets of the frame below `offset`, numbered from `n`. */
  ghost predicate SentSoFar(sent0: seq<Packet>, n: nat, data: seq<byte>, offset: nat, sent: seq<Packet>, number: nat) {
    && offset <= |data| && (offset == 0 || MAX_SIZE <= |data|)
    && sent0 <= sent
    && var done := |sent| - |sent0|;
       && number == (n + done) % SEQUENCE_LIMIT
       && sent + Fragments(data, offset, n + done) == sent0 + Fragments(data, 0, n)
  }

  ghost predicate SentAll(sent0: seq<Packet>, n: nat, data: seq<byte>, sent: seq<Packet>, number: nat) {
    && sent == sent0 + Fragments(data, 0, n)
    && number == (n + PacketCount(|data|)) % SEQUENCE_LIMIT
  }

  lemma SendOne(sent0: seq<Packet>, n: nat, data: seq<byte>, offset: nat, sent: seq<Packet>, number: nat)
    requires SentSoFar(sent0, n, data, offset, sent, number)
    ensures var size := |data| - offset;
            var length := PacketLength(size, offset);
            var sent', number' := sent + [Packet(number, offset, size, data[..length])], (number + 1) % SEQUENCE_LIMIT;
            if length >= size then SentAll(sent0, n, data, sent', number')
            else SentSoFar(sent0, n, data, offset + length, sent', number')
  {
    var size, done := |data| - offset, |sent| - |sent0|;
    var length := PacketLength(size, offset);
    var next := Packet(number, offset, size, data[..length]);
    assert (number + 1) % SEQUENCE_LIMIT == (n + done + 1) % SEQUENCE_LIMIT;
    if length < size {
      assert sent + ([next] + Fragments(data, offset + length, n + done + 1))
          == sent + [next] + Fragments(data, offset + length, n + done + 1);
    } else {
      FramePackets(data, n);
      assert |sent + [next]| == |sent0 + Fragments(data, 0, n)|;
    }
  }

  class Track {
    const frames: seq<Frame>
    var pos: nat
    var playTime: Time
    var rangeEnd: Time
    var sequenceNumber: nat
    var sent: seq<Packet>
    const ssrc: bv32
    const isVideo: bool

    ghost predicate Valid()
      reads this
    {
      sequenceNumber < SEQUENCE_LIMIT
    }

    function State(): TrackState
      reads this
    {
      TrackState(frames, pos, playTime, rangeEnd, sequenceNumber, sent)
    }

    constructor (frames: seq<Frame>, ssrc: bv32, isVideo: bool)
      ensures Valid() && State() == TrackState(frames, 0, 0, 0, 0, [])
    {
      this.frames, this.ssrc, this.isVideo := frames, ssrc, isVideo;
      pos, playTime, rangeEnd, sequenceNumber, sent := 0, 0, 0, 0, [];
    }

    /** Lines 87-91. */
    method SendPacket(timestamp: Time, size: nat, data: seq<byte>, offset: nat) returns (bytesSent: nat)
      requires Valid() && PacketLength(size, offset) <= |data|
      modifies this`sequenceNumber, this`sent
      ensures Valid() && bytesSent == PacketLength(size, offset)
      ensures sequenceNumber == (old(sequenceNumber) + 1) % SEQUENCE_LIMIT
      ensures sent == old(sent) + [Packet(old(sequenceNumber), offset, size, data[..bytesSent])]
    {
      var packet := new RTPPacket(ssrc, timestamp, size, data, offset, sequenceNumber, isVideo);
      sent := sent + [Packet(sequenceNumber, offset, size, packet.data[..packet.length])];
      sequenceNumber := (sequenceNumber + 1) % SEQUENCE_LIMIT;
      bytesSent := packet.length;
    }

    /** The fragmentation loop, lines 81-100. */
    method SendFrame(frame: Frame)
      requires Valid()
      modifies this`sequenceNumber, this`sent
      ensures Valid()
      ensures sent == old(sent) + Fragments(frame.data, 0, old(sequenceNumber))
      ensures sequenceNumber == (old(sequenceNumber) + PacketCount(|frame.data|)) % SEQUENCE_LIMIT
    {
      var data := frame.data;
      var bytesToSend: nat, offset: nat := |data|, 0;
      ghost var n, sent0 := sequenceNumber, sent;
      while true
        invariant offset + bytesToSend == |data|
        invariant SentSoFar(sent0, n, data, offset, sent, sequenceNumber)
        decreases bytesToSend
      {
        SendOne(sent0, n, data, offset, sent, sequenceNumber);
        var bytesSent := SendPacket(frame.time, bytesToSend, data, offset);
        if bytesSent >= bytesToSend { break; }
        bytesToSend := bytesToSend - bytesSent;
        offset := offset + bytesSent;
      }
    }

    method SendFrames() returns (didSend: bool)
      requires Valid() && Ends(State(), Cutoff(State()))
      modifies this
      ensures Valid()
      ensures State() == SendWindow(old(State()), Cutoff(old(State())))
      ensures forall end :: IsWindowEnd(old(State()), end) ==>
                Ends(old(State()), end) && State() == SendWindow(old(State()), end)
      ensures didSend <==> old(rangeEnd) == 0 || old(playTime) < old(rangeEnd)
    {
      var cutoff := playTime + WINDOW;
      if rangeEnd != 0 {
        cutoff := if rangeEnd < cutoff then rangeEnd else cutoff;
      }
      didSend := false;
      while playTime < cutoff
        invariant Valid() && Ends(State(), cutoff)
        invariant SendWindow(State(), cutoff) == SendWindow(old(State()), cutoff)
        invariant if didSend then old(playTime) < cutoff else State() == old(State())
        decreases Remaining(State(), cutoff)
      {
        didSend := true;
        EndsNext(State(), cutoff);
        ghost var next := SendNext(State());
        var frame := NO_FRAME;
        if pos < |frames| {
          frame, pos := frames[pos], pos + 1;
        }
        playTime := frame.time;
        SendFrame(frame);
        assert State() == next;
      }
    }

    method SetPlayTime(npt: Time)
      modifies this`playTime
      ensures playTime == npt
    {
      playTime := npt;
    }

    method SetPlayRangeEnd(npt: Time)
      modifies this`rangeEnd
      ensures rangeEnd == npt
    {
      rangeEnd := npt;
    }
  }
}
