# Verified model of the RTSP server

The server answers RTSP 1.0 requests (RFC 2326), and sends media as RTP packets
(RFC 3550, RFC 6184). This project models its stateful parts in Dafny and proves
what they do on all inputs, in all runs and in all interleavings:

- **Requests and responses.** `Text`, `RequestScanner`, `RequestChunks`,
  `RequestParser`, `RequestHeaders`, `RequestProperties`, `RequestRuns`,
  `RequestText`, `RequestCuts` and `ResponsePrinter` model the resumable request
  parser, what it reads, its calls on a message cut anywhere, and the response
  printer.
- **Media delivery.** `RtpPackets`, `Delivery` and `Playback` model packets,
  the fragmentation and window loops of a track, and the ticks of a session.
- **Sessions.** `SessionGroups` is the protocol that hands sessions from client
  threads to worker groups, as interleaved steps; `SessionRounds` is what the
  workers come to tick.
- **Ports and transports.** `UdpPorts` is the pool of even ports and the bind
  loop; `TransportHeader` and `TransportAcceptance` are the Transport header, as
  it is read and printed.
- **Connections.** `EventLoop` is the protocol by which workers take one-shot
  events, receive, parse, answer and re-arm; `ServedRuns` is what a connection
  gets from it in any run.
- **The rest.** `SessionDescription` is the in-place removal of carriage returns
  from the SDP; `PlayRange` prints and reads the Range header.

`dafny verify dfyconfig.toml` checks all of it.

## Form

An object whose methods update its fields is a class here with the same fields,
and its methods are proved equal to functions on values (`RequestParser.Parse`,
`Delivery.SendWindow`, `UdpPorts.BindAny`, `TransportHeader.Read`, ...). What is
promised of the operation is then proved of the function. Concurrent parts are
state machines: one action for each critical section, system call or visit of a
worker, and the theorems hold in every run of any number of threads.

An exception is a result (`Rejected`, `None`, `Threw`) that keeps what was stored
before it. Replies of the operating system and the enumeration order of a hash
map are inputs or choices that are left open.

## The code is modelled as it is written

Where the code differs from what its comments, tests or the RFCs lead one to
expect, the model follows the code, and the lemmas say exactly when the expected
property holds:

| in the code | shown by |
|---|---|
| The first line of each call, not of the message, is taken for the request line (`src/Server/RTSPRequest.cpp:87-97`). | `HeaderCutExact`, `RunExact`, `CutAfterRequestLine` |
| A call that lacks part of the body makes the next call look for lines in the body (`src/Server/RTSPRequest.cpp:109-113`). | `BodyCutExact`, `MixedCutExact`, `CutBodyStarves`, `BodyInTwoReads` |
| A read that ends between CR and LF makes the LF a blank line (`src/Server/RTSPRequest.cpp:73-77`). | `ScanRunExact`, `CrLfCutExact`, `LineEndReadsExact`, `LineEndWaitsExact`, `CutBetweenCrAndLf` |
| The E bit subtracts the offset twice (`src/Server/RTPPacket.cpp:52`). | `EndMark`, `EndOnLastExactly` |
| The payload is copied over the headers, from the front of the frame for every fragment (`src/Server/RTPPacket.cpp:85,95`); header words are in host order. | `RTPPacket.constructor`, `DatagramsAreFrameExactly` |
| The mask for the NAL type is four bits wide (`src/Server/RTPPacket.cpp:82`). | `NalComesBack`, `FragmentRoundTrip` |
| A tick stops at the first track that sends (`src/Server/Session.cpp:253`). | `TickStopsExactly`, `Starved` |
| PLAY with a range does not seek (`src/Server/Session.cpp:201-216`). | `PlayDoesNotSeek` |
| At the end of the stream the play time falls back to 0, and the window loop may never end (`src/Server/Track.cpp:72-79`). | `WindowEndsExactly` |
| The guard for removing a session never holds (`src/Server/Session.cpp:87`). | `RemovalGuardNeverHolds` |
| An exception in a tick starts the round again from the first session, without draining the queue (`src/Server/Session.cpp:75-115`). | `ThrowsStarve` |
| A bind that throws loses the port it took (`src/Server/UDP.cpp:91-119`); the pool has 16 ports, not the 15 of the comment. | `LostExactly`, `UnionIsInitialExactly`, `PortLost`, `StartPlaces` |
| A `client_port` without a dash keeps an earlier RTCP port (`src/Server/RTPTransport.cpp:130`). | `NormalExactly`, `StalePort` |
| The printed transport always names UDP, though a test header leaves it out (`src/Server/RTPTransport.cpp:48-51,156-159`). | `TransportRoundTrip` |
| The response to TEARDOWN has no status (`src/Server/dispatch.cpp:250-257`). | `UnsetStatus` |
| An exception between delivery and re-arm leaves the connection without events (`src/Server/Server.cpp:169-197`). | `TokensAfter`, `LostForGood` |
| A worker woken for a connection that is not in the map yet drops its event (`src/Server/Server.cpp:112-146`). | `EventLost`, `LostForGood` |
| An answer clears the whole buffer, with the bytes of a next request in it (`src/Server/Server.cpp:173-180`, `src/Server/Connection.cpp:80-85`). | `HeadsAreServed`, `RestIsDropped`, `HeadsAreAnswered`, `OneForOne` |
| The range form "-" npt-time of the grammar comment is refused (`src/util/NPT.cpp:12,40`). | `OpenBeginRefused` |

## Model

| member | source | states |
|---|---|---|
| `Text.SplitLoop` | src/util/misc.cpp:19-38 | the index loop returns the pieces of `Split` |
| `Text.SplitHasNoSeparator` | src/util/misc.cpp:19-38 | no piece contains the separator |
| `Text.JoinSplit` | src/util/misc.cpp:19-38 | joining the pieces gives the input back, less one trailing separator |
| `Text.SplitJoin` | src/util/misc.cpp:19-38 | splitting undoes joining if and only if no part holds the separator and the last one is not empty |
| `Text.FromCharsDecimal` | src/Server/RTSPRequest.cpp:104-107 | a printed number reads back, whatever follows it, if and only if it is below the type's limit |
| `Text.DecimalIsShort` | src/Server/RTPTransport.cpp:163-175 | a number is printed without a zero in front |
| `Text.FromCharsIs` | src/Server/RTSPRequest.cpp:104-107 | any digits, leading zeros included, are read up to the first other character, if their value is below the limit |
| `RequestScanner.FindTerminator` | src/Server/RTSPRequest.cpp:55-66 | the minimum of three searches is the next CR or LF with the longest terminator there |
| `RequestScanner.NearestIsNextBreak` | src/Server/RTSPRequest.cpp:36-66 | the invariant of the three searches pins down one left-to-right scan |
| `RequestScanner.ScanRebuilds` | src/Server/RTSPRequest.cpp:48-85 | the lines, none empty and none with CR or LF, interleaved with their terminators rebuild the consumed bytes |
| `RequestScanner.ScanUnique` | src/Server/RTSPRequest.cpp:48-85 | any such decomposition of a text is the one the scanner finds |
| `RequestScanner.ScanStops` | src/Server/RTSPRequest.cpp:68-84 | the scan ends at a blank line if there is a terminator at its cursor, and nowhere else |
| `RequestChunks.ScanCut` | src/Server/RTSPRequest.cpp:48-85 | one cut: the second call resumes exactly, or, if the cut splits a CRLF of the header section, misreads |
| `RequestChunks.ScanRunExact` | src/Server/Connection.cpp:87-92 | any number of reads give the lines and the header end of one read if and only if no cut splits a CRLF of the header section |
| `RequestParser.RTSPRequest.constructor` | src/Server/RTSPRequest.h:12-40 | a fresh object |
| `RequestParser.RTSPRequest.AddHeaderLine` | src/Server/RTSPRequest.cpp:133-156 | one header line is stored, merged or dropped as `AddHeader` says; a line without ": " is an exception and changes nothing |
| `RequestParser.RTSPRequest.SetRequestLineParts` | src/Server/RTSPRequest.cpp:160-181 | the three parts are set; on an exception those in front of it stay set |
| `RequestParser.RTSPRequest.TakeLines` | src/Server/RTSPRequest.cpp:48-85 | the loop yields the lines, cursor and header end of `Scan` |
| `RequestParser.RTSPRequest.StoreLines` | src/Server/RTSPRequest.cpp:87-97 | the first line goes to the request line, the others to the headers, up to the first exception |
| `RequestParser.RTSPRequest.TakeBody` | src/Server/RTSPRequest.cpp:99-120 | body by Content-Length, with the wrapping sum, or the wait for more |
| `RequestParser.RTSPRequest.ParseRequest` | src/Server/RTSPRequest.cpp:41-121 | one call turns the object into what `Parse` says, exception included |
| `RequestText.RequestLineParts` | src/Server/RTSPRequest.cpp:160-181 | a line with two spaces gives method, URL and version; one with fewer is an exception, behind the method if there is one space |
| `RequestText.HeaderGiven` | src/Server/RTSPRequest.cpp:135-146 | a line gives what is behind its first ": " to the lowercased name in front of it |
| `RequestText.StoredHeaders` | src/Server/RTSPRequest.cpp:133-156 | cseq, content-length, session, timestamp and content-type keep their first value; any other header has all its values, joined by ", " |
| `RequestText.FirstGiven` | src/Server/RTSPRequest.cpp:148-155 | the first value of a key is that of the first line that names it |
| `RequestText.NoBody` | src/Server/RTSPRequest.cpp:99-120 | a head without content-length completes with its blank line, and with an empty body |
| `RequestText.BodyIsDeclared` | src/Server/RTSPRequest.cpp:99-120 | with a first content-length of n the call waits if fewer than n bytes follow the blank line, and else the body is exactly those n; no number, or a sum that wraps round into the message, is an exception |
| `RequestText.ThrowKeeps` | src/Server/RTSPRequest.cpp:87-97 | a line without ": " is an exception that leaves the lines in front of it stored |
| `RequestHeaders.FoldValue` | src/Server/RTSPRequest.cpp:38-39 | after any header lines, each lowercased key has its first value if it is a unique header, else all its values joined by ", " in order of arrival; no other key is stored |
| `RequestHeaders.AddHeadersIs` | src/Server/RTSPRequest.cpp:87-97 | storing succeeds if and only if every line is a header, and then is the fold |
| `RequestHeaders.FoldSameExactly` | src/Server/RTSPRequest.cpp:133-156 | two lists of header lines leave the same map if and only if they give every key the same value |
| `RequestHeaders.FoldUnchangedExactly` | src/Server/RTSPRequest.cpp:143-155 | lines leave the map as it is if and only if each repeats a stored unique header |
| `RequestProperties.PrefixDeterminism` | src/Server/RTSPRequest.cpp:43-120 | bytes after a complete message change nothing read from it, also when it ends in CR and LF follows |
| `RequestProperties.FinishedByBlank` | src/Server/RTSPRequest.cpp:99-120 | the same for a message whose header section ends in an exception |
| `RequestProperties.CompleteStays` | src/Server/RTSPRequest.cpp:43-46 | once ready, no sequence of further calls changes anything |
| `RequestProperties.FinishedExactly` | src/Server/RTSPRequest.cpp:99-120 | a call that sees the blank line ends the request, or throws, if and only if its lines do not announce more body than the buffer holds |
| `RequestProperties.ChunkInvariance` | src/Server/RTSPRequest.cpp:41-121 | any number of reads with safe cuts parse as one: same object, same exception |
| `RequestRuns.RunIsAlways` | src/Server/RTSPRequest.cpp:41-121 | what any number of calls leave: the request line last taken, the fold of the lines kept, and the body or the place to go on |
| `RequestRuns.CompletedStays` | src/Server/RTSPRequest.cpp:43-46 | a run that completes at some call ends with that call's object |
| `RequestRuns.AcceptedExactly` | src/Server/RTSPRequest.cpp:87-113 | any number of reads, cut anywhere, throw no exception if and only if the calls, all or up to one that completes, are made of good lines and wait |
| `RequestRuns.RunExact` | src/Server/RTSPRequest.cpp:41-121 | any number of reads, cut anywhere, give what one call gives on a complete message if and only if one of the calls completes with the same request line, the same value for every key and the same body |
| `RequestRuns.UnfinishedExact` | src/Server/RTSPRequest.cpp:41-121 | the same for a message that is not complete yet |
| `RequestCuts.HeaderCutExact` | src/Server/RTSPRequest.cpp:87-97 | any number of reads that end in the header section give what one call gives if and only if each call that sees lines starts with a request line, the last with the message's own, and each header so lost repeats a unique one whose first value was kept |
| `RequestCuts.HeaderCalls` | src/Server/RTSPRequest.cpp:53-85 | together such calls see the lines and the blank line that one call sees |
| `RequestCuts.DroppedExactly` | src/Server/RTSPRequest.cpp:143-155 | lines left out of a head change no value if and only if each repeats a unique header whose first value stays |
| `RequestCuts.BodyCutExact` | src/Server/RTSPRequest.cpp:109-117 | any number of reads, the first of which ends in the body, give what one call gives if and only if a later call finds the body again behind a blank line, with only a known head in front |
| `RequestCuts.HarmlessStart` | src/Server/Connection.cpp:87-92 | reads that give what one call gives can be left out in front of any further reads |
| `RequestCuts.MixedCutExact` | src/Server/RTSPRequest.cpp:87-117 | harmless reads of the header section, then one that ends in the body, then any others: they give what one call gives if and only if a later call finds the body again |
| `RequestCuts.BlankLineCut` | src/Server/RTSPRequest.cpp:73-77 | a read that ends between the CR and the LF of the blank line does no harm |
| `RequestCuts.LineEndCutExact` | src/Server/RTSPRequest.cpp:73-77 | a read that ends between the CR and the LF of a header line is harmless if and only if no line behind it says anything new and the message finishes behind the LF as at its own end |
| `RequestCuts.CrLfCutExact` | src/Server/RTSPRequest.cpp:73-77 | both cases of a cut between CR and LF in the header section |
| `RequestCuts.LineEndReadsExact` | src/Server/RTSPRequest.cpp:73-113 | any number of reads, the first of which ends between the CR and the LF of a header line: if the lines in front do not make the second call wait at the LF, the condition of `LineEndCutExact` stays the exact one |
| `RequestCuts.LineEndWaitsExact` | src/Server/RTSPRequest.cpp:73-113 | if the lines in front announce a body and those behind say nothing new, such reads give what one call gives if and only if a later call finds the body again |
| `RequestCuts.BlankLineReads` | src/Server/RTSPRequest.cpp:73-77 | a read that ends between the CR and the LF of the blank line can be left out of any run |
| `RequestCuts.CutAfterRequestLine` | src/Server/RTSPRequest.cpp:87-97 | a smallest message that goes wrong when a read ends after its request line |
| `RequestCuts.CutBetweenCrAndLf` | src/Server/RTSPRequest.cpp:73-77 | a smallest message that loses its header when a read ends between CR and LF |
| `RequestProperties.CutBodyStarves` | src/Server/RTSPRequest.cpp:109-113 | after a cut in a body without CR or LF, no number of further calls completes the request, while one call takes the body |
| `RequestProperties.ReadyNeedsBlankLine` | src/Server/RTSPRequest.cpp:99-120 | calls complete a request only if one of them sees a blank line |
| `RequestProperties.LinesExtend` | src/Server/RTSPRequest.cpp:53-85 | the lines of a prefix are a prefix of the lines |
| `ResponsePrinter.RTSPResponse.SetStatus` | src/Server/RTSPResponse.cpp:52-73 | known codes set their text, the others throw and change nothing |
| `ResponsePrinter.RTSPResponse.SetHeader` | src/Server/RTSPResponse.cpp:47-50 | replaces the value of one key |
| `ResponsePrinter.RTSPResponse.AppendHeader` | src/Server/RTSPResponse.cpp:75-88 | adds to the value of one key, with a comma |
| `ResponsePrinter.RTSPResponse.Marshal` | src/Server/RTSPResponse.cpp:17-35 | the buffer holds status line, each header once in some order, blank line and body |
| `ResponsePrinter.PrintParse` | src/Server/RTSPResponse.cpp:17-35 | printing and parsing recovers status, headers and body, in any enumeration order and with any bytes behind, if and only if the Content-Length is the body's length |
| `ResponsePrinter.FoldBack` | src/Server/RTSPRequest.cpp:133-156 | the printed header lines give the printed map back, with lowercase keys |
| `ResponsePrinter.PrintedScan` | src/Server/RTSPRequest.cpp:53-85 | the scanner takes a printed response apart into the lines it was made of |
| `ResponsePrinter.PaddedLength` | src/util/misc.h:33-38 | a number padded with NULs reads back |
| `ResponsePrinter.UnsetStatus` | src/Server/dispatch.cpp:250-257 | a response without a status is rejected by the parser |
| `ResponsePrinter.BodyInTwoReads` | src/Server/RTSPRequest.cpp:99-120 | any complete printed message with a one-line body is read by one call, and never becomes ready when part of the body comes in a second read |
| `SessionDescription.RemoveCarriageReturns` | src/Server/Stream.cpp:62-77 | for any terminated text, the overlapping moves leave the text without its carriage returns, terminated, and nothing behind it changed |
| `SessionDescription.MoveDown` | src/Server/Stream.cpp:71 | a byte-by-byte move to a lower address copies the old bytes |
| `SessionDescription.CloseSegment` | src/Server/Stream.cpp:67-76 | one carriage return, or the end, keeps the compaction invariant |
| `SessionDescription.Round` | src/Server/Stream.cpp:65-77 | every round of the loop keeps the compaction invariant |
| `SessionDescription.WithoutCrConcat` | src/Server/Stream.cpp:62-77 | what is left keeps its order: the text of two parts is the text of each |
| `SessionDescription.WithoutCrCounts` | src/Server/Stream.cpp:62-77 | only carriage returns are lost, and none is left |
| `RtpPackets.WriteHeaders` | src/Server/RTPPacket.cpp:48-82 | the twelve header bytes and the two FU bytes, before the payload is copied |
| `RtpPackets.RTPPacket.constructor` | src/Server/RTPPacket.cpp:45-99 | the bytes to send are the first bytes of the frame, whatever the offset; headers are left only behind them |
| `RtpPackets.FirstWordFields` | src/Server/RTPPacket.cpp:48 | version, flags, payload type and sequence number can all be read back from the first word |
| `RtpPackets.HeaderWords` | src/Server/RTPPacket.cpp:48-50 | the twelve header bytes are the first word, the timestamp and the source, each in host order |
| `RtpPackets.IndicatorIsFuA` | src/Server/RTPPacket.cpp:79 | the FU indicator has type 28 and the F and NRI bits of every NAL header |
| `RtpPackets.NalComesBack` | src/Server/RTPPacket.cpp:54-82 | the NAL header comes back from the FU bytes if and only if its type is below 16; S and E are where the code puts them |
| `RtpPackets.FramePackets` | src/Server/Track.cpp:81-100 | a frame makes max(1, ceil(size/1400)) packets, 1400 bytes apart, numbered one after the other modulo 2^16 |
| `RtpPackets.FrameByPacket` | src/Server/Track.cpp:81-100 | packet i of a frame has offset 1400 i, the rest as its size, the next number modulo 2^16, and the frame's first 1400 bytes or all of a shorter frame |
| `RtpPackets.SlicesTile` | src/Server/Track.cpp:81-100 | offset plus remaining size is the frame's size, and the slices tile the frame in order |
| `RtpPackets.FragmentRoundTrip` | src/Server/Track.cpp:81-100 | cutting and reassembling gives the frame and its NAL header back if and only if the type is below 16 |
| `RtpPackets.StartOnFirst` | src/Server/RTPPacket.cpp:59-63 | S is on the first fragment and on no other |
| `RtpPackets.EndMark` | src/Server/RTPPacket.cpp:52-67 | fragment i > 0 carries E if and only if 0 <= size - 2800 i <= 1400 |
| `RtpPackets.EndOnLastExactly` | src/Server/RTPPacket.cpp:52-67 | E is on the last fragment and on no other if and only if the frame has 2800 bytes |
| `RtpPackets.DatagramsAreFrameExactly` | src/Server/RTPPacket.cpp:85-97 | the datagrams together are the frame if and only if it fits in one packet or repeats its first 1400 bytes throughout |
| `Delivery.Track.SendPacket` | src/Server/Track.cpp:87-91 | one packet sent, the sequence number advanced modulo 2^16 |
| `Delivery.Track.SendFrame` | src/Server/Track.cpp:81-100 | the fragmentation loop sends the packets of `Fragments`; the counter advances by their number |
| `Delivery.Track.SendFrames` | src/Server/Track.cpp:58-104 | one call leaves the track as the window up to the earlier of ten seconds from the play time and a range end that is set; the result tells whether the track was in front of its range end |
| `Delivery.Track.SetPlayTime` | src/Server/Track.cpp:111-118 | sets the play time, nothing else |
| `Delivery.Track.SetPlayRangeEnd` | src/Server/Track.cpp:120-125 | sets the range end, nothing else |
| `Playback.WindowEndsExactly` | src/Server/Track.cpp:68-79 | the window loop ends if and only if play time is there, a frame at or past the cutoff is left, or the cutoff is not after 0 |
| `Playback.WindowDelivers` | src/Server/Track.cpp:58-104 | a window sends the frames up to and including the first at or past the cutoff, each once and in order, for any frame times |
| `Playback.WindowIsTenSeconds` | src/Server/Track.cpp:58-104 | one call sends exactly the frames up to and including the first at or past the earlier of ten seconds from the play time and a range end that is set, and nothing if play time is there |
| `Playback.WindowRunsOut` | src/Server/Track.cpp:68-79 | without such a frame a window that ends sends the rest of the stream and one empty packet, and leaves the play time at 0 |
| `Playback.TickDelivers` | src/Server/Session.cpp:246-261 | a tick sends that window of the first track that is not at its range end, and touches no other track |
| `Playback.NumberedInOrder` | src/Server/Track.cpp:87 | packets are numbered without a gap across frames and across the wrap-around |
| `Playback.WindowThenRest` | src/Server/Track.cpp:60-68 | stopping at an earlier cutoff first changes nothing in the end |
| `Playback.PlayDoesNotSeek` | src/Server/Session.cpp:201-216 | what is sent up to the range end does not depend on where playing was asked to begin |
| `Playback.WantsUnlessAtEnd` | src/Server/Track.cpp:60-68 | a track has nothing due if and only if it has reached its nonzero range end |
| `Playback.TickStopsExactly` | src/Server/Session.cpp:246-261 | a tick stops playback if and only if every track is at its range end |
| `Playback.TickKeeps` | src/Server/Session.cpp:246-261 | a tick that sends gets strictly closer to the end, and none changes where playback ends up |
| `Playback.PlaybackStops` | src/Server/Session.cpp:246-261 | no run goes on playing for more ticks than rounds were left |
| `Playback.WindowedIsOnePass` | src/Server/Session.cpp:246-261 | when playback has stopped, every track has sent exactly what one pass to its range end sends |
| `Playback.Starved` | src/Server/Session.cpp:251-254 | a track behind one without a range end is never served |
| `Playback.Session.Tick` | src/Server/Session.cpp:246-261 | the loop over the tracks is `Ticked` |
| `Playback.Session.Play` | src/Server/Session.cpp:194-199 | starts playing and returns the stored range, touching nothing else |
| `Playback.Session.Pause` | src/Server/Session.cpp:241-244 | stops playing, touching nothing else |
| `Playback.Session.PlayRange` | src/Server/Session.cpp:201-216 | positions every track and the stored range; an end of 0 keeps the old one |
| `Playback.Session.PauseAt` | src/Server/Session.cpp:231-239 | stops playing and positions every track |
| `UdpPorts.PortPool.constructor` | src/Server/UDP.cpp:13-44 | the pool starts with the listed ports |
| `UdpPorts.PortPool.GetEvenPort` | src/Server/UDP.cpp:48-61 | takes the front of the pool, or 0 when it is empty |
| `UdpPorts.PortPool.InsertEvenPort` | src/Server/UDP.cpp:63-66 | puts a port at the end of the pool |
| `UdpPorts.Socket.ResetPort` | src/Server/UDP.cpp:82-89 | an even port goes back to the pool, any other stays |
| `UdpPorts.Socket.BindPort` | src/Server/UDP.cpp:96-119 | the old port goes back first; the new one is stored only if the system grants it |
| `UdpPorts.Socket.Bind` | src/Server/UDP.cpp:91-94 | the new port is taken before the old one goes back |
| `UdpPorts.Socket.Destroy` | src/Server/UDP.cpp:73-80 | an open socket gives its even port back |
| `UdpPorts.StepConserves` | src/Server/UDP.cpp:48-119 | no step makes or loses a port, counting those lost by a bind that threw |
| `UdpPorts.PortsConserved` | src/Server/UDP.cpp:48-119 | in every run each initial port is in exactly one place and no other even port is anywhere; RTP ports are even, RTCP ports odd and never pooled |
| `UdpPorts.LostExactly` | src/Server/UDP.cpp:91-119 | in every run a port has been lost if and only if some step was an RTP bind, with a port taken from the pool, that did not get it |
| `UdpPorts.UnionIsInitialExactly` | src/Server/UDP.cpp:91-119 | pool and live sockets together are the initial ports if and only if no such bind happened |
| `UdpPorts.PortLost` | src/Server/UDP.cpp:96-119 | a run of two steps that loses the first port |
| `UdpPorts.StartPlaces` | src/Server/UDP.cpp:19-40 | the pool starts with 16 different even ports |
| `UdpPorts.TryOnce` | src/Server/RTPTransport.cpp:76 | one evaluation of the loop condition, whatever the two binds answer: true, false or an exception |
| `UdpPorts.BindTransport` | src/Server/RTPTransport.cpp:73-90 | the retry loop ends for all answers of both binds; every round has a new port and it gives up only at a repeat; on success RTCP is RTP plus one |
| `UdpPorts.RefusedTwice` | src/Server/RTPTransport.cpp:76-86 | a second refusal of the RTP bind is always a repeat |
| `UdpPorts.BindsRotate` | src/Server/UDP.cpp:91-98 | from a pool of two or more, binds walk through it in order |
| `UdpPorts.GivesUpAfterOneRound` | src/Server/RTPTransport.cpp:76-86 | with every RTCP bind refused, the loop tries each pool port once, then port 0 if there are fewer than two, and gives up exactly when a port comes round again |
| `TransportHeader.RTPTransport.SetClientPortsFrom` | src/Server/RTPTransport.cpp:116-148 | the in-place updates are `SetClientPorts` |
| `TransportHeader.RTPTransport.SetParameterFrom` | src/Server/RTPTransport.cpp:92-114 | one parameter sets what `SetParameter` says |
| `TransportHeader.RTPTransport.ReadHeader` | src/Server/RTPTransport.cpp:18-66 | the constructor accepts and stores what `Read` says |
| `TransportHeader.RTPTransport.GetString` | src/Server/RTPTransport.cpp:150-179 | prints the transport and its ports |
| `TransportAcceptance.AcceptedExactly` | src/Server/RTPTransport.cpp:18-66 | a header is accepted if and only if, up to case, it names rtp, avp and udp or nothing in front of its first ';', has the parameter unicast, each client_port is a number or a pair n-(n+1) below 2^16, and each mode is play |
| `TransportAcceptance.NoClientPort` | src/Server/RTPTransport.cpp:92-114 | without a client_port both ports are 0 |
| `TransportAcceptance.OneClientPort` | src/Server/RTPTransport.cpp:116-148 | one client_port gives its number if even and one less if odd, and the port above that if it is a pair |
| `TransportAcceptance.PrintedUdp` | src/Server/RTPTransport.cpp:150-179 | the text printed of an accepted transport, in capitals up to the first ';' |
| `TransportHeader.AcceptedIsNormal` | src/Server/RTPTransport.cpp:18-66 | an accepted header without a stale port gives RTP over AVP over UDP, unicast, and an even port with its successor or alone |
| `TransportHeader.NormalExactly` | src/Server/RTPTransport.cpp:116-148 | accepted parameters leave normal client ports if and only if the last client_port has a dash or the RTCP port left by those before it suits it |
| `TransportHeader.StalePort` | src/Server/RTPTransport.cpp:125-147 | two client_port parameters that leave ports 8 and 3 |
| `TransportHeader.TransportRoundTrip` | src/Server/RTPTransport.cpp:150-179 | a printed transport reads back as itself if and only if its client ports are normal, so normalising twice changes nothing |
| `SessionGroups.ChooseGroup` | src/Server/Session.cpp:47-55 | the scan finds the first group with the fewest sessions |
| `SessionGroups.SessionGroup.AddSession` | src/Server/Session.cpp:162-165 | a session joins the queue at its end |
| `SessionGroups.SessionGroup.DrainQueue` | src/Server/Session.cpp:100-106 | the queue is emptied into the vector in order |
| `SessionGroups.RemovalGuardNeverHolds` | src/Server/Session.cpp:87 | in a sound state every session in a vector has two references |
| `SessionGroups.NextSound` | src/Server/Session.cpp:38-117 | every step keeps each session in exactly one place |
| `SessionGroups.AlwaysPlaced` | src/Server/Session.cpp:38-117 | in every reachable state each session ever created is in flight, queued or in a vector, once |
| `SessionGroups.TicksAreExclusive` | src/Server/Session.cpp:81-86 | no two workers tick the same session at once |
| `SessionGroups.OnceIssued` | src/Server/Session.cpp:57-66 | a session is never dropped, stays torn down, and its id is never issued again |
| `SessionGroups.NoLookupAfterTeardown` | src/Server/Session.cpp:23-36 | no lookup succeeds after the teardown |
| `SessionGroups.AssignedAfter` | src/Server/Session.cpp:47-68 | only a choice changes how many sessions a group is assigned, and it adds to a smallest group |
| `SessionGroups.AlwaysBalanced` | src/Server/Session.cpp:47-68 | while no backlog exceeds a bound, the numbers of sessions of any two groups differ by no more than it |
| `SessionGroups.BoundIsReached` | src/Server/Session.cpp:47-68 | for every bound there is a run that reaches it |
| `SessionRounds.LookupExactly` | src/Server/Session.cpp:23-36 | in every run a lookup succeeds if and only if the id was issued and not torn down since |
| `SessionRounds.TickStartsExactly` | src/Server/Session.cpp:79-93 | a worker in front of a session ticks it if a lookup would find it, and else passes it; no other step starts a tick |
| `SessionRounds.TicksAreOfActive` | src/Server/Session.cpp:81-86 | in every run a tick starts only at a visit, of a session that a lookup would find |
| `SessionRounds.NoTickAfterTeardown` | src/Server/Session.cpp:81-86 | no tick of a session starts after its teardown |
| `SessionRounds.RoundTicks` | src/Server/Session.cpp:79-106 | a round without an exception comes to every session of the vector once, in order, and then drains the queue to its end |
| `SessionRounds.TickedOnce` | src/Server/Session.cpp:79-106 | in such a round a session is ticked exactly once, and by this worker alone, if it is active when the worker comes to it, and else not at all |
| `SessionRounds.QueuedComesNext` | src/Server/Session.cpp:100-106 | a session queued before a drain is come to in the round after it |
| `SessionRounds.RoundEnds` | src/Server/Session.cpp:75-107 | such a round takes at most two steps for each session, and its next step is always possible |
| `SessionRounds.ThrowsStarve` | src/Server/Session.cpp:75-115 | while the ticks of one session always throw, no session behind it is ticked and the queue is not drained |
| `SessionRounds.ArrivalOrder` | src/Server/Session.cpp:100-106 | vector and queue of a group are the sessions queued to it, in order, none lost or doubled |
| `SessionRounds.ChosenIsQueued` | src/Server/Session.cpp:38-73 | a client queues the session it issued, to the first of the smallest groups at its choice |
| `EventLoop.Connection.AppendToMessage` | src/Server/Connection.cpp:87-92 | the bytes join the buffer and the parser runs on all of it |
| `EventLoop.Connection.ClearMessage` | src/Server/Connection.cpp:80-85 | buffer and parser start afresh together |
| `EventLoop.TokensAfter` | src/Server/Server.cpp:112-186 | a step loses a connection's event if and only if it is an exception or the end of the connection between delivery and re-arm |
| `EventLoop.AppendSound` | src/Server/Connection.cpp:87-92 | receiving keeps the buffer, the parser and its cursor in step |
| `EventLoop.AlwaysSound` | src/Server/Server.cpp:112-186 | in every run each buffer holds exactly the bytes received since the last answered message, in order; the parser was run on it with its cursor inside; and each answered request is what the calls made of its buffer |
| `EventLoop.OneWorkerPerEvent` | src/Server/Server.cpp:148-186 | no two workers are between delivery and re-arm of one connection, nor hold its lock |
| `EventLoop.DispatchedAsOneMessage` | src/Server/Server.cpp:169-179 | a dispatched request is what one parse of the buffer gives, if the reads cut it safely |
| `EventLoop.DispatchedExactly` | src/Server/Server.cpp:169-179 | wherever the reads cut it, it is that if and only if the calls come to the head and the body of the one parse |
| `EventLoop.LostForGood` | src/Server/Server.cpp:169-197 | once the event is lost nothing is received or answered again |
| `EventLoop.EventLost` | src/Server/Server.cpp:112-146 | a run of three steps that loses an event |
| `EventLoop.RestIsDropped` | src/Server/Server.cpp:173-180 | a read that starts with a complete message dispatches the one parse of that message, and the rest goes with the buffer |
| `EventLoop.HeadsAreAnswered` | src/Server/Server.cpp:153-180 | reads that end where messages end dispatch the one parse of the first message of each read, in order, and nothing else: the messages behind it are lost |
| `EventLoop.OneForOne` | src/Server/Server.cpp:153-180 | such a connection dispatches every message of the stream if and only if no read holds more than one |
| `ServedRuns.ReadsAreSent` | src/Server/Server.cpp:153-171 | in every run the reads, one after the other, are what the peer sent less what is still to come, 1 to 4096 bytes each |
| `ServedRuns.ReplyClears` | src/Server/Server.cpp:173-180 | in every run a sent answer empties the buffer and starts the parser afresh, and adds the buffer and its request to those answered; no other connection changes |
| `ServedRuns.ServedInOrder` | src/Server/Server.cpp:112-186 | however workers interleave, a connection with no answer due is where one worker alone, taking its reads one after the other, would leave it |
| `ServedRuns.HeadsAreServed` | src/Server/Server.cpp:112-186 | in every run whose reads end where messages end, the requests dispatched are the first message of each read, and all messages if and only if no read holds more than one |
| `ServedRuns.InMapExactly` | src/Server/Server.cpp:112-166 | in every run a connection is in the map if and only if its accept has come to its end and the peer was not seen to close it since |
| `ServedRuns.AnyAmount` | src/Server/Server.cpp:150-166 | a worker that holds the lock can receive any amount there is, up to 4096 bytes |
| `ServedRuns.NeverStuck` | src/Server/Server.cpp:112-186 | in every run a worker with an event can take its next step, or another one holds its lock and can |
| `ServedRuns.ComesBack` | src/Server/Server.cpp:112-186 | from one event to the next a worker takes at most five steps, and then waits and holds no lock |
| `PlayRange.ReadMantissa` | src/util/NPT.cpp:38-47 | digits, a point and digits, and an exponent are read as one number; either digits may be missing, not both |
| `PlayRange.TimeOfDigits` | src/util/NPT.cpp:38-47 | its value is that of all its digits, times a power of ten by the point and the exponent |
| `PlayRange.ExponentForms` | src/util/NPT.cpp:38-47 | e or E, and a sign or none, in front of the exponent |
| `PlayRange.TimeRoundTrip` | src/util/NPT.cpp:76-89 | a printed time, plain or scientific, reads back cut to hundredths, and prints the same again |
| `PlayRange.RangeRoundTrip` | src/util/NPT.cpp:20-50 | a printed range reads back with each end cut to hundredths |
| `PlayRange.RangeUnchangedExactly` | src/util/NPT.cpp:120-123 | it reads back unchanged if and only if both ends are whole hundredths |
| `PlayRange.ShorterForm` | src/util/NPT.cpp:76-89 | the shorter of the two forms is printed, the plain one at a tie |
| `PlayRange.HundredThousand` | src/util/NPT.cpp:76-89 | a hundred thousand seconds are printed as 1e+05 |
| `PlayRange.TimePrints` | src/util/NPT.cpp:76-89 | every time below 2^31 hundredths is printed, in 11 characters at most |
| `PlayRange.RangeComesBack` | src/util/NPT.cpp:20-50 | so every range of such times reads back, cut to hundredths |
| `PlayRange.NoRange` | src/util/NPT.cpp:22-27 | a header without "npt=" is an empty range |
| `PlayRange.RangeBehind` | src/util/NPT.cpp:22-29 | what stands in front of the first "npt=" does not matter |
| `PlayRange.OpenEnd` | src/util/NPT.cpp:31-49 | a range without an end, with its dash or without, ends at 0 |
| `PlayRange.OpenBeginRefused` | src/util/NPT.cpp:31-41 | a range without a begin is an exception |

## Left out

- RequestProperties.ChunkInvariance: a sufficient condition, which covers messages that end in an exception too; the exact ones are `RunExact`, `UnfinishedExact` and `AcceptedExactly` for any cuts, and `HeaderCutExact`, `MixedCutExact`, `LineEndReadsExact` and `LineEndWaitsExact` for the cuts that fail.
- RequestRuns.RunExact: for a message that one call accepts; of one that ends in an exception it is stated when the calls throw (`AcceptedExactly`), not when they leave the same partial object behind.
- RequestCuts.LineEndCutExact: two reads; `LineEndReadsExact` and `LineEndWaitsExact` are the forms for any number. A second call that waits at the LF in front of lines that say something new is the case of `RunExact`.
- RequestCuts.MixedCutExact: for harmless reads of the header section; behind harmful ones the exact condition is that of `RunExact`.
- RequestProperties.PrefixDeterminism: for messages shorter than 2^64 bytes; the wrapping sum of header end and length is modelled, and what it rejects is an exception.
- TransportHeader.AcceptedIsNormal: a sufficient condition on the whole header; the exact one is `NormalExactly`, and `AcceptedExactly` says what is accepted.
- TransportAcceptance.OneClientPort: one client_port; with several, the last decides, and `NormalExactly` says what an earlier one leaves.
- TransportHeader.RTPTransport.ReadHeader: a specifier of more than three parts writes past an array of three in the source; it is refused here.
- Delivery.Track.SendFrames: required to end, since the source then loops for ever; `WindowEndsExactly` says when that is.
- Playback.Session.Tick: required to end for the same reason.
- EventLoop.DispatchedAsOneMessage: only for safe cuts; `DispatchedExactly` is the exact form.
- EventLoop.OneForOne: for reads that end where messages end, as `HeadsAreServed` is; cuts inside a message are the subject of `DispatchedExactly`.
- SessionRounds.TickedOnce: a tick is a start and an end; what it sends is `TickDelivers`, and sessions and tracks are not one state.
- SessionGroups.AlwaysBalanced: the scan for the smallest group is one step, though workers may change vectors under it.
- UdpPorts.TryOnce: `Socket::bind` never returns false as written, so `Refused` is an answer only the loop's code allows for; without it there is one round.
- Sockets, epoll, eventfd, signals, thread start-up, reuse of descriptors, the descriptor leaked by a rebind and the byte order of ports: only the steps and replies they amount to.
- libav: opening, seeking, rescaling and creating the SDP; a stream is a list of frames, and a frame's time serves as RTP timestamp and, in ticks of a clock of any rate, as play time. The source divides by the codec's sample rate to get the play time (`src/Server/Stream.cpp:115-118`). For video that rate is 0: after one frame the play time is infinite, or not a number, and nothing more is ever due, so the delivery results say nothing about a video track as it is divided now.
- Floating point: play times are whole ticks, printed times whole ten-thousandths of a second. Rounding, infinities, values out of the range of a float, and times of 2^31 hundredths and more, for which the cast in `src/util/NPT.cpp:10` is undefined, are not modelled.
- A `send` that throws in the middle of a frame, which leaves the track between two of its packets; a frame is sent whole here.
- Frame sizes of 2^31 and more, where the `int` and `uint32_t` of the loop part ways.
- A client thread that plays or pauses a session while a worker ticks it; play and pause run between ticks here.
- Dates, random numbers and the quality of generated ids: any id not in use may come.
- `Locker`, moves, copies, exception texts and the ring buffer behind them.
- `hhmmss`, `find_nth_of`, media loading and the straight-line handlers of `dispatch.cpp`.
- The queue of play ranges and the expiry of connections, which the source never uses.
