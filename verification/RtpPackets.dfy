/** src/Server/RTPPacket.cpp and the fragmentation loop of src/Server/Track.cpp:81-100:
    RTP headers (section 5.1 of RFC 3550) and FU-A fragments (section 5.8 of RFC 6184). */
module RtpPackets {

  type byte = bv8

  const MAX_SIZE: nat := 1400
  const HEADER_SIZE: nat := 12

  /** Number of values of the 16-bit sequence counter. */
  const SEQUENCE_LIMIT: nat := 0x1_0000

  // ---- header words and FU bytes ------------------------------------------------

  /** Version 2, payload type 32 for video, sequence number. */
  function FirstWord(sequenceNumber: bv16, isVideo: bool): bv32 {
    0x8000_0000 | (if isVideo then 0x0020_0000 else 0) | (sequenceNumber as bv32)
  }

  /** A 32-bit word as it lies in the memory of a little-endian host. */
  function WordBytes(w: bv32): (b: seq<byte>)
    ensures |b| == 4
  {
    [(w & 0xff) as bv8, ((w >> 8) & 0xff) as bv8, ((w >> 16) & 0xff) as bv8, ((w >> 24) & 0xff) as bv8]
  }

  function HeaderBytes(ssrc: bv32, timestamp: bv32, sequenceNumber: bv16, isVideo: bool): (b: seq<byte>)
    ensures |b| == HEADER_SIZE
  {
    WordBytes(FirstWord(sequenceNumber, isVideo)) + WordBytes(timestamp) + WordBytes(ssrc)
  }

  /** The fields of the first word can be read back: V, P, X and CC, M, PT and
      the sequence number do not overlap. */
  lemma FirstWordFields(sequenceNumber: bv16, isVideo: bool)
    ensures var w := FirstWord(sequenceNumber, isVideo);
            && w >> 30 == 2 && (w >> 24) & 0x3f == 0 && (w >> 23) & 1 == 0
            && (w >> 16) & 0x7f == (if isVideo then 32 else 0)
            && (w & 0xffff) as bv16 == sequenceNumber
  {
  }

  /** The word that four bytes are in the memory of a little-endian host. */
  function LittleEndian(b: seq<byte>): bv32
    requires |b| == 4
  {
    (b[0] as bv32) | ((b[1] as bv32) << 8) | ((b[2] as bv32) << 16) | ((b[3] as bv32) << 24)
  }

  lemma WordBack(w: bv32)
    ensures LittleEndian(WordBytes(w)) == w
  {
  }

  /** The twelve bytes are three words in host order: the first word, the
      timestamp and the source. */
  lemma HeaderWords(ssrc: bv32, timestamp: bv32, sequenceNumber: bv16, isVideo: bool)
    ensures var h := HeaderBytes(ssrc, timestamp, sequenceNumber, isVideo);
            && |h| == 12 && LittleEndian(h[..4]) == FirstWord(sequenceNumber, isVideo)
            && LittleEndian(h[4..8]) == timestamp && LittleEndian(h[8..12]) == ssrc
  {
    var h := HeaderBytes(ssrc, timestamp, sequenceNumber, isVideo);
    assert h[..4] == WordBytes(FirstWord(sequenceNumber, isVideo));
    assert h[4..8] == WordBytes(timestamp) && h[8..12] == WordBytes(ssrc);
    WordBack(FirstWord(sequenceNumber, isVideo));
    WordBack(timestamp);
    WordBack(ssrc);
  }

  /** Line 54: `size - offset` as `int`, compared as `size_t`; every packet after
      the first is a fragment. */
  predicate IsFragment(size: nat, offset: nat) { offset != 0 || size - offset > MAX_SIZE }

  const START: byte := 0x80
  const END: byte := 0x40

  /** The S and E bits.  The size is what is left already; line 52 takes the
      offset off once more. */
  function FuFlags(size: nat, offset: nat): byte {
    if offset == 0 then START
    else if 0 <= size - offset <= MAX_SIZE then END
    else 0
  }

  function FuIndicator(nal: byte): byte { (nal & 0xf0) | 28 }

  function FuHeader(nal: byte, flags: byte): byte { flags | (nal & 0x0f) }

  /** What a receiver makes of the two bytes: F and NRI from the indicator, the
      type from the FU header. */
  function RecoverNal(indicator: byte, header: byte): byte { (indicator & 0xe0) | (header & 0x1f) }

  /** The indicator is an FU-A one with the NAL unit's F and NRI for every byte. */
  lemma IndicatorIsFuA(nal: byte)
    ensures FuIndicator(nal) & 0x1f == 28 && FuIndicator(nal) & 0xe0 == nal & 0xe0
  {
  }

  /** The mask is four bits wide: the NAL header comes back exactly for types below 16. */
  lemma NalComesBack(nal: byte, size: nat, offset: nat)
    ensures var flags := FuFlags(size, offset);
            RecoverNal(FuIndicator(nal), FuHeader(nal, flags)) == nal <==> nal & 0x1f < 16
    ensures var h := FuHeader(nal, FuFlags(size, offset));
            (h & 0x80 != 0 <==> offset == 0) && (h & 0x40 != 0 <==> offset != 0 && 0 <= size - offset <= 1400)
  {
    var flags := FuFlags(size, offset);
    assert flags == 0 || flags == 0x80 || flags == 0x40;
    NalBits(nal, flags);
  }

  lemma NalBits(nal: byte, flags: byte)
    requires flags == 0 || flags == 0x80 || flags == 0x40
    ensures RecoverNal(FuIndicator(nal), FuHeader(nal, flags)) == nal <==> nal & 0x1f < 16
    ensures FuHeader(nal, flags) & START == flags & START && FuHeader(nal, flags) & END == flags & END
  {
  }

  // ---- one packet ------------------------------------------------------------------

  function PacketLength(size: nat, offset: nat): nat { if IsFragment(size, offset) then MAX_SIZE else size }

  /** `memcpy` into a fresh buffer. */
  method CopyInto(buffer: array<byte>, at: nat, src: seq<byte>)
    requires at + |src| <= buffer.Length
    modifies buffer
    ensures buffer[..] == old(buffer[..])[..at] + src + old(buffer[..])[at + |src|..]
  {
    for i := 0 to |src|
      invariant buffer[..] == old(buffer[..])[..at] + src[..i] + old(buffer[..])[at + i..]
    {
      buffer[at + i] := src[i];
    }
  }

  /** Lines 48-50, 71-82 and 91-93: the headers, as they stand before the payload
      is copied. */
  method WriteHeaders(buffer: array<byte>, ssrc: bv32, timestamp: bv32, size: nat, offset: nat, nal: byte,
                      sequenceNumber: bv16, isVideo: bool)
    requires HEADER_SIZE + (if IsFragment(size, offset) then 2 else 0) <= buffer.Length
    modifies buffer
    ensures buffer[..HEADER_SIZE] == HeaderBytes(ssrc, timestamp, sequenceNumber, isVideo)
    ensures if IsFragment(size, offset)
            then buffer[HEADER_SIZE] == FuIndicator(nal)
                 && buffer[HEADER_SIZE + 1] == FuHeader(nal, FuFlags(size, offset))
                 && buffer[HEADER_SIZE + 2..] == old(buffer[HEADER_SIZE + 2..])
            else buffer[HEADER_SIZE..] == old(buffer[HEADER_SIZE..])
  {
    CopyInto(buffer, 0, HeaderBytes(ssrc, timestamp, sequenceNumber, isVideo));
    if IsFragment(size, offset) {
      buffer[HEADER_SIZE] := FuIndicator(nal);
      buffer[HEADER_SIZE + 1] := FuHeader(nal, FuFlags(size, offset));
    }
  }

  class RTPPacket {
    var data: array<byte>
    var length: nat

    /** Both copies of lines 73-95 go to the front of the buffer, the second over
        the first: the `length` bytes to send are the frame's first bytes; of the
        headers only what the payload is too short to cover is left, and that is
        not sent. */
    constructor (ssrc: bv32, timestamp: int, size: nat, data: seq<byte>, offset: nat,
                 sequenceNumber: nat, isVideo: bool)
      requires PacketLength(size, offset) <= |data| && sequenceNumber < SEQUENCE_LIMIT
      ensures fresh(this.data)
      ensures length == PacketLength(size, offset)
      ensures this.data.Length == HEADER_SIZE + length + if IsFragment(size, offset) then 2 else 0
      ensures this.data[..length] == data[..length]
      ensures var stamp, number := (timestamp % 0x1_0000_0000) as bv32, sequenceNumber as bv16;
              forall i :: length <= i < HEADER_SIZE ==> this.data[i] == HeaderBytes(ssrc, stamp, number, isVideo)[i]
    {
      var n := PacketLength(size, offset);
      var buffer := new byte[HEADER_SIZE + n + if IsFragment(size, offset) then 2 else 0];
      var stamp, number := (timestamp % 0x1_0000_0000) as bv32, sequenceNumber as bv16;
      WriteHeaders(buffer, ssrc, stamp, size, offset, if data == [] then 0 else data[0], number, isVideo);
      ghost var headers := buffer[..];
      CopyInto(buffer, 0, data[..n]);
      this.data, length := buffer, n;
      new;
      Covered(buffer[..], headers, data[..n]);
      assert forall i :: n <= i < HEADER_SIZE ==> headers[i] == headers[..HEADER_SIZE][i];
    }
  }

  lemma Covered(b: seq<byte>, headers: seq<byte>, payload: seq<byte>)
    requires |payload| <= |headers| && b == headers[..0] + payload + headers[|payload|..]
    ensures |b| == |headers| && b[..|payload|] == payload
    ensures forall i :: |payload| <= i < |headers| ==> b[i] == headers[i]
  {
  }

  // ---- one frame ------------------------------------------------------------------------

  /** A packet as it was sent: the `offset` and remaining `size` it was made from
      and the bytes that left. */
  datatype Packet = Packet(sequenceNumber: nat, offset: nat, size: nat, datagram: seq<byte>)

  /** The packets of a frame from `offset` on, numbered from `n`. */
  function Fragments(data: seq<byte>, offset: nat, n: nat): seq<Packet>
    requires offset <= |data| && (offset == 0 || MAX_SIZE <= |data|)
    decreases |data| - offset
  {
    var size := |data| - offset;
    var length := PacketLength(size, offset);
    var packet := Packet(n % SEQUENCE_LIMIT, offset, size, data[..length]);
    if length >= size then [packet] else [packet] + Fragments(data, offset + length, n + 1)
  }

  /** max(1, ceil(size / 1400)). */
  function PacketCount(size: nat): nat {
    if size == 0 then 1 else (size + MAX_SIZE - 1) / MAX_SIZE
  }

  /** Packet `i` of the whole frame. */
  function PacketAt(data: seq<byte>, n: nat, i: nat): Packet
    requires i < PacketCount(|data|)
  {
    var offset := MAX_SIZE * i;
    var size := |data| - offset;
    Packet((n + i) % SEQUENCE_LIMIT, offset, size, data[..PacketLength(size, offset)])
  }

  lemma {:induction false} FragmentsFrom(data: seq<byte>, n: nat, k: nat)
    requires k < PacketCount(|data|)
    ensures var ps := Fragments(data, MAX_SIZE * k, n + k);
            && |ps| == PacketCount(|data|) - k
            && forall i :: 0 <= i < |ps| ==> ps[i] == PacketAt(data, n, k + i)
    decreases |data| - k
  {
    var ps := Fragments(data, MAX_SIZE * k, n + k);
    if k + 1 < PacketCount(|data|) {
      FragmentsFrom(data, n, k + 1);
      assert MAX_SIZE * (k + 1) == MAX_SIZE * k + MAX_SIZE;
      assert n + (k + 1) == n + k + 1;
      assert ps[1..] == Fragments(data, MAX_SIZE * (k + 1), n + (k + 1));
    }
  }

  /** The loop makes max(1, ceil(size/1400)) packets, 1400 bytes apart, numbered
      one after the other modulo 2^16. */
  lemma FramePackets(data: seq<byte>, n: nat)
    ensures var ps := Fragments(data, 0, n);
            && |ps| == PacketCount(|data|) >= 1
            && forall i :: 0 <= i < |ps| ==> ps[i] == PacketAt(data, n, i)
  {
    FragmentsFrom(data, n, 0);
  }

  /** The same, packet by packet: each holds the frame's first 1400 bytes, or all
      of a frame that has no more. */
  lemma FrameByPacket(data: seq<byte>, n: nat, i: nat)
    requires i < |Fragments(data, 0, n)|
    ensures |Fragments(data, 0, n)| == if data == [] then 1 else (|data| + 1399) / 1400
    ensures var p := Fragments(data, 0, n)[i];
            && p.offset == 1400 * i && p.size == |data| - 1400 * i && p.sequenceNumber == (n + i) % 0x1_0000
            && p.datagram == data[..if |data| <= 1400 then |data| else 1400]
  {
    FramePackets(data, n);
  }

  /** The part of the frame a packet accounts for. */
  function Slice(data: seq<byte>, p: Packet): seq<byte>
    requires p.offset + p.size == |data|
  {
    data[p.offset..if p.size < MAX_SIZE then |data| else p.offset + MAX_SIZE]
  }

  function Slices(data: seq<byte>, ps: seq<Packet>): seq<byte>
    requires Consistent(data, ps)
  {
    if ps == [] then [] else Slice(data, ps[0]) + Slices(data, ps[1..])
  }

  predicate Consistent(data: seq<byte>, ps: seq<Packet>) { forall p <- ps :: p.offset + p.size == |data| }

  lemma {:induction false} RemainderKept(data: seq<byte>, offset: nat, n: nat)
    requires offset <= |data| && (offset == 0 || MAX_SIZE <= |data|)
    ensures Consistent(data, Fragments(data, offset, n))
    decreases |data| - offset
  {
    var ps := Fragments(data, offset, n);
    if PacketLength(|data| - offset, offset) < |data| - offset {
      RemainderKept(data, offset + MAX_SIZE, n + 1);
      assert ps == [ps[0]] + Fragments(data, offset + MAX_SIZE, n + 1);
    }
  }

  lemma SlicesCons(data: seq<byte>, p: Packet, rest: seq<Packet>)
    requires p.offset + p.size == |data| && Consistent(data, rest)
    ensures Consistent(data, [p] + rest) && Slices(data, [p] + rest) == Slice(data, p) + Slices(data, rest)
  {
    assert ([p] + rest)[1..] == rest;
  }

  /** The slices tile the frame: each byte belongs to one packet, in order. */
  lemma {:induction false} SlicesTile(data: seq<byte>, offset: nat, n: nat)
    requires offset <= |data| && (offset == 0 || MAX_SIZE <= |data|)
    ensures Consistent(data, Fragments(data, offset, n))
    ensures Slices(data, Fragments(data, offset, n)) == data[offset..]
    decreases |data| - offset
  {
    RemainderKept(data, offset, n);
    var p := Fragments(data, offset, n)[0];
    if PacketLength(|data| - offset, offset) < |data| - offset {
      SlicesTile(data, offset + MAX_SIZE, n + 1);
      SlicesCons(data, p, Fragments(data, offset + MAX_SIZE, n + 1));
      assert data[offset..] == data[offset..offset + MAX_SIZE] + data[offset + MAX_SIZE..];
    } else {
      SlicesCons(data, p, []);
      assert [p] + [] == Fragments(data, offset, n);
    }
  }

  /** A receiver of FU-A fragments: the NAL header from the two FU bytes, then
      the bytes after it. */
  function Reassembled(data: seq<byte>, ps: seq<Packet>): seq<byte>
    requires data != [] && ps != [] && Consistent(data, ps)
  {
    var flags := FuFlags(ps[0].size, ps[0].offset);
    [RecoverNal(FuIndicator(data[0]), FuHeader(data[0], flags))] +
    if Slices(data, ps) == [] then [] else Slices(data, ps)[1..]
  }

  /** Cutting and putting together gives the frame back, NAL header included,
      exactly for NAL types below 16. */
  lemma FragmentRoundTrip(data: seq<byte>, n: nat)
    requires data != []
    ensures Consistent(data, Fragments(data, 0, n))
    ensures Reassembled(data, Fragments(data, 0, n)) == data <==> data[0] & 0x1f < 16
  {
    FramePackets(data, n);
    SlicesTile(data, 0, n);
    var p := Fragments(data, 0, n)[0];
    NalComesBack(data[0], p.size, p.offset);
    assert data[0..] == data == [data[0]] + data[1..];
  }

  // ---- the marks of the first and the last fragment -------------------------------------

  predicate Marked(p: Packet, bit: byte) { FuFlags(p.size, p.offset) & bit != 0 }

  /** Of a fragmented frame, S is on the first packet and on no other. */
  lemma StartOnFirst(data: seq<byte>, n: nat, i: nat)
    requires |data| > 1400 && i < PacketCount(|data|)
    ensures var p := PacketAt(data, n, i);
            IsFragment(p.size, p.offset) && (Marked(p, START) <==> i == 0)
  {
    FlagBits(PacketAt(data, n, i).size, PacketAt(data, n, i).offset);
  }

  lemma FlagBits(size: nat, offset: nat)
    ensures FuFlags(size, offset) & START != 0 <==> offset == 0
    ensures FuFlags(size, offset) & END != 0 <==> offset != 0 && 0 <= size - offset <= MAX_SIZE
  {
  }

  /** As written, the offset counts twice: packet `i` carries E exactly when
      0 <= size - 2800 i <= 1400. */
  lemma EndMark(data: seq<byte>, n: nat, i: nat)
    requires i < PacketCount(|data|)
    ensures Marked(PacketAt(data, n, i), END) <==> i > 0 && 0 <= |data| - 2800 * i <= 1400
  {
    FlagBits(PacketAt(data, n, i).size, PacketAt(data, n, i).offset);
  }

  /** E is on the last fragment and on no other, for one frame size only. */
  lemma EndOnLastExactly(data: seq<byte>, n: nat)
    requires |data| > 1400
    ensures (forall i :: 0 <= i < PacketCount(|data|) ==>
               (Marked(PacketAt(data, n, i), END) <==> i == PacketCount(|data|) - 1))
       <==> |data| == 2800
  {
    var last := PacketCount(|data|) - 1;
    EndMark(data, n, last);
    assert MAX_SIZE * last < |data| <= MAX_SIZE * last + MAX_SIZE;
    if |data| == 2 * MAX_SIZE {
      EndMark(data, n, 0);
    } else {
      assert !Marked(PacketAt(data, n, last), END);
    }
  }

  // ---- what the datagrams hold -------------------------------------------------------

  function Datagrams(ps: seq<Packet>): seq<byte> {
    if ps == [] then [] else ps[0].datagram + Datagrams(ps[1..])
  }

  /** Every 1400-byte block of the frame is its first one. */
  predicate Periodic(data: seq<byte>) {
    |data| % 1400 == 0 && forall i :: 1400 <= i < |data| ==> data[i] == data[i - 1400]
  }

  lemma DatagramsCons(p: Packet, rest: seq<Packet>)
    ensures Datagrams([p] + rest) == p.datagram + Datagrams(rest)
  {
    assert ([p] + rest)[1..] == rest;
  }

  /** Whole copies of the frame's first block. */
  predicate Copies(data: seq<byte>, sent: seq<byte>)
    requires MAX_SIZE <= |data|
  {
    |sent| % MAX_SIZE == 0 && forall i :: 0 <= i < |sent| ==> sent[i] == data[i % MAX_SIZE]
  }

  lemma OneMoreCopy(data: seq<byte>, sent: seq<byte>)
    requires MAX_SIZE <= |data| && Copies(data, sent)
    ensures Copies(data, data[..MAX_SIZE] + sent)
  {
    var all := data[..MAX_SIZE] + sent;
    forall i | 0 <= i < |all| ensures all[i] == data[i % MAX_SIZE] {
      if i >= MAX_SIZE {
        assert i % MAX_SIZE == (i - MAX_SIZE) % MAX_SIZE && all[i] == sent[i - MAX_SIZE];
      }
    }
  }

  /** From any fragment on, the datagrams are copies of the frame's first block. */
  lemma {:induction false} DatagramsRepeat(data: seq<byte>, offset: nat, n: nat)
    requires MAX_SIZE < |data| && offset < |data|
    ensures var sent := Datagrams(Fragments(data, offset, n));
            Copies(data, sent) && |data| - offset <= |sent| < |data| - offset + MAX_SIZE
    decreases |data| - offset
  {
    var size := |data| - offset;
    var packet := Packet(n % SEQUENCE_LIMIT, offset, size, data[..MAX_SIZE]);
    if MAX_SIZE < size {
      DatagramsRepeat(data, offset + MAX_SIZE, n + 1);
      DatagramsCons(packet, Fragments(data, offset + MAX_SIZE, n + 1));
      OneMoreCopy(data, Datagrams(Fragments(data, offset + MAX_SIZE, n + 1)));
    } else {
      DatagramsCons(packet, []);
      OneMoreCopy(data, []);
      assert [packet] + [] == Fragments(data, offset, n);
    }
  }

  lemma {:induction false} PeriodicAt(data: seq<byte>, i: nat)
    requires Periodic(data) && i < |data|
    ensures i % MAX_SIZE < |data| && data[i] == data[i % MAX_SIZE]
  {
    if i >= MAX_SIZE {
      PeriodicAt(data, i - MAX_SIZE);
      assert (i - MAX_SIZE) % MAX_SIZE == i % MAX_SIZE;
    }
  }

  /** The payload copy always starts at the front of the frame, so the datagrams
      together are the frame exactly when it fits in one packet or repeats its
      first 1400 bytes throughout. */
  lemma DatagramsAreFrameExactly(data: seq<byte>, n: nat)
    ensures Datagrams(Fragments(data, 0, n)) == data <==> |data| <= 1400 || Periodic(data)
  {
    if |data| <= MAX_SIZE {
      OneDatagram(data, n);
    } else {
      var sent := Datagrams(Fragments(data, 0, n));
      DatagramsRepeat(data, 0, n);
      CopiesAreExactly(data, sent);
    }
  }

  lemma OneDatagram(data: seq<byte>, n: nat)
    requires |data| <= MAX_SIZE
    ensures Datagrams(Fragments(data, 0, n)) == data
  {
    var packet := Packet(n % SEQUENCE_LIMIT, 0, |data|, data[..|data|]);
    DatagramsCons(packet, []);
    assert [packet] + [] == Fragments(data, 0, n);
  }

  lemma CopiesAreExactly(data: seq<byte>, sent: seq<byte>)
    requires MAX_SIZE < |data| && Copies(data, sent) && |data| <= |sent| < |data| + MAX_SIZE
    ensures sent == data <==> Periodic(data)
  {
    if Periodic(data) {
      forall i | 0 <= i < |data| ensures sent[i] == data[i] { PeriodicAt(data, i); }
      assert sent == data;
    } else if |data| % MAX_SIZE == 0 {
      NotPeriodic(data, sent);
    }
  }

  lemma NotPeriodic(data: seq<byte>, sent: seq<byte>)
    requires MAX_SIZE <= |data| && Copies(data, sent) && |data| % MAX_SIZE == 0 && !Periodic(data)
    ensures sent != data
  {
    var i :| MAX_SIZE <= i < |data| && data[i] != data[i - MAX_SIZE];
    assert (i - MAX_SIZE) % MAX_SIZE == i % MAX_SIZE;
  }
}
