/** src/Server/UDP.cpp and the bind loop of src/Server/RTPTransport.cpp:73-90: a
    FIFO pool of even ports shared by all sockets.  RTP takes an even port, RTCP
    the odd one above it (section 11 of RFC 3550). */
module UdpPorts {
  import opened Text

  const EVEN_PORTS: seq<nat> := [5004, 5006, 5008, 5010, 5012, 5014, 5016, 5018,
                                 5020, 5022, 5024, 5026, 5028, 5030, 5032, 5034]

  /** What becomes of a bind.  The operating system fails in `socket` or in
      `bind`, which throws; `Refused` is the answer false that the bool result
      allows and the retry loop is written for, though no path gives it. */
  datatype Os = Works | NoSocket | BindFails | Refused

  datatype Reply = Yes | No | Throws

  function ReplyOf(os: Os): Reply {
    match os
    case Works => Yes
    case Refused => No
    case _ => Throws
  }

  /** `open` says that `socket_fd` is not 0: it is -1 after a failed `socket`. */
  datatype SocketState = SocketState(open: bool, port: nat)

  const CLOSED := SocketState(false, 0)

  predicate Pooled(port: nat) { port != 0 && port % 2 == 0 }

  datatype Bound = Bound(pool: seq<nat>, socket: SocketState, reply: Reply)

  /** `reset_port`: an even port goes back to the end of the pool. */
  function ResetPool(pool: seq<nat>, s: SocketState): seq<nat> {
    if Pooled(s.port) then pool + [s.port] else pool
  }

  function ResetSocket(s: SocketState): SocketState { if Pooled(s.port) then s.(port := 0) else s }

  /** `bind(port)`: the old port goes back before the system is asked. */
  function BindTo(pool: seq<nat>, s: SocketState, port: nat, os: Os): Bound {
    var reset := ResetSocket(s).(open := true);
    Bound(ResetPool(pool, s), if os == Works then reset.(port := port) else reset, ReplyOf(os))
  }

  function Front(pool: seq<nat>): nat { if pool == [] then 0 else pool[0] }

  /** `bind()`: the next port is taken before the old one goes back. */
  function BindAny(pool: seq<nat>, s: SocketState, os: Os): Bound {
    BindTo(if pool == [] then [] else pool[1..], s, Front(pool), os)
  }

  class PortPool {
    var ports: seq<nat>

    constructor ()
      ensures ports == EVEN_PORTS && |ports| == 16 && forall i :: 0 <= i < 16 ==> ports[i] == 5004 + 2 * i
    {
      ports := EVEN_PORTS;
    }

    method GetEvenPort() returns (port: nat)
      modifies this
      ensures port == Front(old(ports))
      ensures ports == if old(ports) == [] then [] else old(ports)[1..]
    {
      port := 0;
      if ports != [] {
        port := ports[0];
        ports := ports[1..];
      }
    }

    method InsertEvenPort(port: nat)
      modifies this
      ensures ports == old(ports) + [port]
    {
      ports := ports + [port];
    }
  }

  class Socket {
    var open: bool
    var port: nat

    function State(): SocketState
      reads this
    {
      SocketState(open, port)
    }

    constructor ()
      ensures State() == CLOSED
    {
      open, port := false, 0;
    }

    method ResetPort(pool: PortPool)
      modifies this, pool
      ensures pool.ports == ResetPool(old(pool.ports), old(State())) && State() == ResetSocket(old(State()))
    {
      if port != 0 && port % 2 == 0 {
        pool.InsertEvenPort(port);
        port := 0;
      }
    }

    method BindPort(pool: PortPool, p: nat, os: Os) returns (reply: Reply)
      modifies this, pool
      ensures Bound(pool.ports, State(), reply) == BindTo(old(pool.ports), old(State()), p, os)
    {
      ResetPort(pool);
      open := true;
      if os == NoSocket { return Throws; }
      if os == BindFails { return Throws; }
      if os == Refused { return No; }
      port := p;
      reply := Yes;
    }

    method Bind(pool: PortPool, os: Os) returns (reply: Reply)
      modifies this, pool
      ensures Bound(pool.ports, State(), reply) == BindAny(old(pool.ports), old(State()), os)
    {
      var p := pool.GetEvenPort();
      reply := BindPort(pool, p, os);
    }

    /** The destructor. */
    method Destroy(pool: PortPool)
      modifies this, pool
      ensures pool.ports == if old(open) then ResetPool(old(pool.ports), old(State())) else old(pool.ports)
      ensures old(open) ==> State() == ResetSocket(old(State()))
    {
      if open { ResetPort(pool); }
    }
  }

  // ---- runs over any number of transports ----------------------------------------------

  datatype Transport = Transport(rtp: SocketState, rtcp: SocketState)

  /** `lost` lists the ports that a bind took from the pool and did not get. */
  datatype World = World(pool: seq<nat>, transports: seq<Transport>, lost: seq<nat>)

  datatype Action = Create
                  | BindRtp(i: nat, os: Os)
                  | BindRtcp(i: nat, os: Os)
                  | Drop(i: nat)

  const START := World(EVEN_PORTS, [], [])

  predicate Enabled(w: World, a: Action) { a.Create? || a.i < |w.transports| }

  function Step(w: World, a: Action): World
    requires Enabled(w, a)
  {
    match a
    case Create => w.(transports := w.transports + [Transport(CLOSED, CLOSED)])
    case BindRtp(i, os) =>
      var t := w.transports[i];
      var b := BindAny(w.pool, t.rtp, os);
      World(b.pool, w.transports[i := t.(rtp := b.socket)],
            if os == Works || w.pool == [] then w.lost else w.lost + [w.pool[0]])
    case BindRtcp(i, os) =>
      var t := w.transports[i];
      var b := BindTo(w.pool, t.rtcp, t.rtp.port + 1, os);
      w.(pool := b.pool, transports := w.transports[i := t.(rtcp := b.socket)])
    case Drop(i) =>
      var t := w.transports[i];
      w.(pool := DestroyPool(DestroyPool(w.pool, t.rtcp), t.rtp),
         transports := w.transports[i := Transport(CLOSED, CLOSED)])
  }

  function DestroyPool(pool: seq<nat>, s: SocketState): seq<nat> {
    if s.open then ResetPool(pool, s) else pool
  }

  ghost predicate Run(ws: seq<World>, actions: seq<Action>) {
    && |ws| == |actions| + 1 && ws[0] == START
    && forall i :: 0 <= i < |actions| ==> Enabled(ws[i], actions[i]) && ws[i + 1] == Step(ws[i], actions[i])
  }

  // ---- conservation, port by port --------------------------------------------------------

  function Count(s: seq<nat>, p: nat): nat {
    if s == [] then 0 else Count(s[..|s| - 1], p) + if s[|s| - 1] == p then 1 else 0
  }

  lemma {:induction false} CountFront(s: seq<nat>, p: nat)
    requires s != []
    ensures Count(s, p) == Count(s[1..], p) + if s[0] == p then 1 else 0
    decreases |s|
  {
    if |s| > 1 {
      CountFront(s[..|s| - 1], p);
      assert s[..|s| - 1][1..] == s[1..][..|s| - 2];
    }
  }

  lemma CountBack(s: seq<nat>, q: nat, p: nat)
    ensures Count(s + [q], p) == Count(s, p) + if q == p then 1 else 0
  {
    assert (s + [q])[..|s|] == s;
  }

  lemma {:induction false} CountDistinct(s: seq<nat>, p: nat)
    requires forall i, j :: 0 <= i < j < |s| ==> s[i] != s[j]
    ensures Count(s, p) == if p in s then 1 else 0
  {
    if s != [] {
      CountDistinct(s[..|s| - 1], p);
      assert s == s[..|s| - 1] + [s[|s| - 1]];
    }
  }

  function Holds(s: SocketState, p: nat): nat { if Pooled(s.port) && s.port == p then 1 else 0 }

  /** How many RTP sockets hold port `p`. */
  function Holders(ts: seq<Transport>, p: nat): nat {
    if ts == [] then 0 else Holders(ts[..|ts| - 1], p) + Holds(ts[|ts| - 1].rtp, p)
  }

  lemma {:induction false} HoldersUpdate(ts: seq<Transport>, i: nat, t: Transport, p: nat)
    requires i < |ts|
    ensures Holders(ts[i := t], p) + Holds(ts[i].rtp, p) == Holders(ts, p) + Holds(t.rtp, p)
    decreases |ts|
  {
    var n := |ts| - 1;
    if i == n {
      assert ts[i := t][..n] == ts[..n];
    } else {
      HoldersUpdate(ts[..n], i, t, p);
      assert ts[i := t][..n] == ts[..n][i := t];
    }
  }

  /** Where port `p` is: in the pool, with RTP sockets, or lost. */
  function Places(w: World, p: nat): nat {
    Count(w.pool, p) + Holders(w.transports, p) + Count(w.lost, p)
  }

  /** RTP sockets hold even ports or none; RTCP sockets hold odd ones or none, so
      theirs never enter the pool. */
  predicate SoundTransport(t: Transport) {
    && t.rtp.port % 2 == 0 && (t.rtp.port != 0 ==> t.rtp.open)
    && (t.rtcp.port != 0 ==> t.rtcp.port % 2 == 1)
  }

  predicate Sound(w: World) {
    && (forall i :: 0 <= i < |w.transports| ==> SoundTransport(w.transports[i]))
    && (forall i :: 0 <= i < |w.pool| ==> Pooled(w.pool[i]))
  }

  lemma StepSound(w: World, a: Action)
    requires Sound(w) && Enabled(w, a)
    ensures Sound(Step(w, a))
  {
  }

  lemma BindAnyCounts(pool: seq<nat>, s: SocketState, os: Os, p: nat)
    requires forall i :: 0 <= i < |pool| ==> Pooled(pool[i])
    ensures var b := BindAny(pool, s, os);
            var gone := if os != Works && pool != [] && pool[0] == p then 1 else 0;
            Count(b.pool, p) + Holds(b.socket, p) + gone == Count(pool, p) + Holds(s, p)
  {
    var rest := if pool == [] then [] else pool[1..];
    if pool != [] { CountFront(pool, p); }
    CountBack(rest, s.port, p);
  }

  lemma BindRtpConserves(w: World, i: nat, os: Os, p: nat)
    requires Sound(w) && i < |w.transports|
    ensures Places(Step(w, BindRtp(i, os)), p) == Places(w, p)
  {
    var v := Step(w, BindRtp(i, os));
    HoldersUpdate(w.transports, i, v.transports[i], p);
    BindAnyCounts(w.pool, w.transports[i].rtp, os, p);
    if w.pool != [] { CountBack(w.lost, w.pool[0], p); }
  }

  lemma DropConserves(w: World, i: nat, p: nat)
    requires Sound(w) && i < |w.transports|
    ensures Places(Step(w, Drop(i)), p) == Places(w, p)
  {
    var v := Step(w, Drop(i));
    assert SoundTransport(w.transports[i]);
    HoldersUpdate(w.transports, i, v.transports[i], p);
    CountBack(w.pool, w.transports[i].rtp.port, p);
  }

  /** Every step moves ports about and makes or loses none, a failed bind apart. */
  lemma StepConserves(w: World, a: Action, p: nat)
    requires Sound(w) && Enabled(w, a)
    ensures Places(Step(w, a), p) == Places(w, p)
  {
    match a
    case Create =>
      assert Step(w, a).transports[..|w.transports|] == w.transports;
    case BindRtp(i, os) => BindRtpConserves(w, i, os, p);
    case BindRtcp(i, os) =>
      assert SoundTransport(w.transports[i]);
      HoldersUpdate(w.transports, i, Step(w, a).transports[i], p);
    case Drop(i) => DropConserves(w, i, p);
  }

  lemma StartPlaces(p: nat)
    ensures Sound(START) && Places(START, p) == Count(EVEN_PORTS, p) == if p in EVEN_PORTS then 1 else 0
    ensures |EVEN_PORTS| == 16 && forall i :: 0 <= i < 16 ==> EVEN_PORTS[i] == 5004 + 2 * i
  {
    assert forall i :: 0 <= i < 16 ==> EVEN_PORTS[i] == 5004 + 2 * i;
    CountDistinct(EVEN_PORTS, p);
  }

  /** In every run each port of the initial pool is in exactly one place, and no
      other even port is in any: none is ever handed to two sockets. */
  lemma {:induction false} PortsConserved(ws: seq<World>, actions: seq<Action>, i: nat, p: nat)
    requires Run(ws, actions) && i < |ws|
    ensures Sound(ws[i]) && Places(ws[i], p) == if p in EVEN_PORTS then 1 else 0
    decreases i
  {
    if i == 0 {
      StartPlaces(p);
    } else {
      PortsConserved(ws, actions, i - 1, p);
      StepSound(ws[i - 1], actions[i - 1]);
      StepConserves(ws[i - 1], actions[i - 1], p);
    }
  }

  /** A bind that takes a port from the pool and does not get it: the port is
      stored nowhere when the exception leaves. */
  predicate Loses(w: World, a: Action) { a.BindRtp? && a.os != Works && w.pool != [] }

  lemma {:induction false} LostExactly(ws: seq<World>, actions: seq<Action>, n: nat)
    requires Run(ws, actions) && n < |ws|
    ensures ws[n].lost == [] <==> forall i :: 0 <= i < n ==> !Loses(ws[i], actions[i])
    decreases n
  {
    if n > 0 {
      LostExactly(ws, actions, n - 1);
      assert ws[n] == Step(ws[n - 1], actions[n - 1]);
    }
  }

  /** The pool and the live RTP sockets together are the initial ports exactly
      as long as no bind has failed with a port in hand. */
  lemma UnionIsInitialExactly(ws: seq<World>, actions: seq<Action>, n: nat)
    requires Run(ws, actions) && n < |ws|
    ensures (forall p <- EVEN_PORTS :: Count(ws[n].pool, p) + Holders(ws[n].transports, p) == 1)
       <==> forall i :: 0 <= i < n ==> !Loses(ws[i], actions[i])
  {
    var w := ws[n];
    LostExactly(ws, actions, n);
    forall p | p in EVEN_PORTS ensures Places(w, p) == 1 { PortsConserved(ws, actions, n, p); }
    if w.lost != [] {
      var p := w.lost[|w.lost| - 1];
      PortsConserved(ws, actions, n, p);
      assert Count(w.lost, p) > 0;
    }
  }

  /** Two steps lose the first port for ever. */
  lemma PortLost() returns (ws: seq<World>, actions: seq<Action>)
    ensures Run(ws, actions) && |actions| == 2
    ensures Count(ws[2].pool, 5004) + Holders(ws[2].transports, 5004) == 0
  {
    actions := [Create, BindRtp(0, BindFails)];
    var w1 := Step(START, Create);
    ws := [START, w1, Step(w1, BindRtp(0, BindFails))];
    PortsConserved(ws, actions, 2, 5004);
    assert ws[2].lost == [5004] && [5004][..0] == [];
    assert 5004 == EVEN_PORTS[0];
  }

  // ---- the bind loop of one transport ------------------------------------------------------

  /** What the two binds of one round come to; after the scripted rounds, the
      RTCP bind is refused for ever. */
  datatype Round = Round(rtpOs: Os, rtcpOs: Os)

  function RoundAt(script: seq<Round>, k: nat): Round {
    if k < |script| then script[k] else Round(Works, Refused)
  }

  /** The loop asks for another round exactly when one of its binds answers false. */
  predicate Again(wantsRtcp: bool, round: Round) {
    round.rtpOs == Refused || (round.rtpOs == Works && wantsRtcp && round.rtcpOs == Refused)
  }

  datatype Ending = Done | Threw | GaveUp

  /** Pool and RTP socket after the first `k` rounds. */
  function Rounds(pool: seq<nat>, s: SocketState, script: seq<Round>, k: nat): Bound
    decreases k
  {
    if k == 0 then Bound(pool, s, Yes)
    else
      var b := Rounds(pool, s, script, k - 1);
      BindAny(b.pool, b.socket, RoundAt(script, k - 1).rtpOs)
  }

  /** The RTP port after round `k`. */
  function Attempt(pool: seq<nat>, s: SocketState, script: seq<Round>, k: nat): nat {
    Rounds(pool, s, script, k + 1).socket.port
  }

  /** Ports the loop can ever see. */
  function Seen(pool: seq<nat>, s: SocketState): set<nat> {
    (set p | p in pool) + {0, s.port}
  }

  /** After `k` rounds: all their ports differ and are in `attempted`. */
  ghost predicate Tried(pool0: seq<nat>, s0: SocketState, script: seq<Round>, pool: seq<nat>, s: SocketState,
                        attempted: set<nat>, k: nat) {
    && pool == Rounds(pool0, s0, script, k).pool && s == Rounds(pool0, s0, script, k).socket
    && attempted == (set j | 0 <= j < k :: Attempt(pool0, s0, script, j))
    && Distinct(pool0, s0, script, k)
    && attempted <= Seen(pool0, s0) && Seen(pool, s) <= Seen(pool0, s0)
  }

  ghost predicate Distinct(pool0: seq<nat>, s0: SocketState, script: seq<Round>, k: nat) {
    forall i, j :: 0 <= i < j < k ==> Attempt(pool0, s0, script, i) != Attempt(pool0, s0, script, j)
  }

  ghost predicate Repeated(pool0: seq<nat>, s0: SocketState, script: seq<Round>, k: nat) {
    exists i :: 0 <= i < k && Attempt(pool0, s0, script, i) == Attempt(pool0, s0, script, k)
  }

  lemma TryMore(pool0: seq<nat>, s0: SocketState, script: seq<Round>, pool: seq<nat>, s: SocketState,
                attempted: set<nat>, k: nat)
    requires Tried(pool0, s0, script, pool, s, attempted, k)
    ensures var c := BindAny(pool, s, RoundAt(script, k).rtpOs);
            && c.socket.port == Attempt(pool0, s0, script, k)
            && (c.socket.port in attempted ==> Repeated(pool0, s0, script, k))
            && (c.socket.port !in attempted ==>
                  && Tried(pool0, s0, script, c.pool, c.socket, attempted + {c.socket.port}, k + 1)
                  && Seen(pool0, s0) - (attempted + {c.socket.port}) < Seen(pool0, s0) - attempted)
  {
    var c := BindAny(pool, s, RoundAt(script, k).rtpOs);
    assert c == Rounds(pool0, s0, script, k + 1);
    assert Seen(c.pool, c.socket) <= Seen(pool, s);
    assert c.socket.port in Seen(c.pool, c.socket);
  }

  function EndingOf(wantsRtcp: bool, round: Round): Ending {
    if round.rtpOs == Works && (wantsRtcp ==> round.rtcpOs == Works) then Done else Threw
  }

  /** One evaluation of the loop condition; `None` when it asks for another round. */
  method TryOnce(pool: PortPool, rtp: Socket, rtcp: Socket, wantsRtcp: bool, round: Round)
    returns (ending: Option<Ending>)
    requires rtp != rtcp && !Pooled(rtcp.port)
    modifies pool, rtp, rtcp
    ensures var c := BindAny(old(pool.ports), old(rtp.State()), round.rtpOs);
            pool.ports == c.pool && rtp.State() == c.socket
    ensures ending == if Again(wantsRtcp, round) then None else Some(EndingOf(wantsRtcp, round))
    ensures ending == Some(Done) && wantsRtcp ==> rtcp.port == rtp.port + 1
    ensures ending != Some(Done) ==> rtcp.port == old(rtcp.port)
  {
    var bound := rtp.Bind(pool, round.rtpOs);
    if bound == Throws { return Some(Threw); }
    if bound == No { return None; }
    if !wantsRtcp { return Some(Done); }
    var rtcpBound := rtcp.BindPort(pool, rtp.port + 1, round.rtcpOs);
    if rtcpBound == Throws { return Some(Threw); }
    if rtcpBound == No { return None; }
    return Some(Done);
  }

  /** Lines 73-90: rounds until one binds, throws, or comes to a port it had
      before; `k` counts those in front of it, each of which answered false. */
  method BindTransport(pool: PortPool, rtp: Socket, rtcp: Socket, wantsRtcp: bool, script: seq<Round>)
    returns (ending: Ending, k: nat)
    requires rtp != rtcp && !Pooled(rtcp.port)
    modifies pool, rtp, rtcp
    ensures Distinct(old(pool.ports), old(rtp.State()), script, k)
    ensures forall j :: 0 <= j < k ==> Again(wantsRtcp, RoundAt(script, j))
    ensures var c := Rounds(old(pool.ports), old(rtp.State()), script, k + 1);
            pool.ports == c.pool && rtp.State() == c.socket
    ensures if Again(wantsRtcp, RoundAt(script, k))
            then ending == GaveUp && Repeated(old(pool.ports), old(rtp.State()), script, k)
            else ending == EndingOf(wantsRtcp, RoundAt(script, k))
    ensures ending == Done && wantsRtcp ==> rtcp.port == rtp.port + 1
  {
    ghost var p0, s0 := pool.ports, rtp.State();
    var attempted: set<nat> := {};
    k := 0;
    while true
      invariant Tried(p0, s0, script, pool.ports, rtp.State(), attempted, k)
      invariant !Pooled(rtcp.port)
      invariant forall j :: 0 <= j < k ==> Again(wantsRtcp, RoundAt(script, j))
      decreases Seen(p0, s0) - attempted
    {
      TryMore(p0, s0, script, pool.ports, rtp.State(), attempted, k);
      var now := TryOnce(pool, rtp, rtcp, wantsRtcp, RoundAt(script, k));
      if now.Some? { return now.value, k; }
      if rtp.port in attempted { return GaveUp, k; }
      attempted := attempted + {rtp.port};
      k := k + 1;
    }
  }

  /** A refused RTP bind leaves an even port behind and holds port 0, so the
      second one is a repeat, wherever the first was. */
  lemma RefusedTwice(p: seq<nat>, s: SocketState, script: seq<Round>, j: nat, k: nat)
    requires s.port % 2 == 0 && (forall i :: 0 <= i < |p| ==> Pooled(p[i])) && j < k
    requires RoundAt(script, j).rtpOs == Refused && RoundAt(script, k).rtpOs == Refused
    ensures Repeated(p, s, script, k)
  {
    EvenRounds(p, s, script, j);
    EvenRounds(p, s, script, k);
    assert Attempt(p, s, script, j) == 0 == Attempt(p, s, script, k);
  }

  lemma {:induction false} EvenRounds(p: seq<nat>, s: SocketState, script: seq<Round>, k: nat)
    requires s.port % 2 == 0 && forall i :: 0 <= i < |p| ==> Pooled(p[i])
    ensures var b := Rounds(p, s, script, k);
            b.socket.port % 2 == 0 && forall i :: 0 <= i < |b.pool| ==> Pooled(b.pool[i])
    decreases k
  {
    if k > 0 { EvenRounds(p, s, script, k - 1); }
  }

  /** The pool seen as a ring, the held port last: each bind turns it by one. */
  function Ring(p: seq<nat>, k: nat): seq<nat>
    requires p != []
    decreases k
  {
    if k == 0 then p else var r := Ring(p, k - 1); r[1..] + [r[0]]
  }

  lemma {:induction false} RingIs(p: seq<nat>, k: nat)
    requires p != [] && k <= |p|
    ensures Ring(p, k) == p[k..] + p[..k]
    decreases k
  {
    if k > 0 {
      RingIs(p, k - 1);
      assert p[k - 1..] == [p[k - 1]] + p[k..] && p[..k] == p[..k - 1] + [p[k - 1]];
    }
  }

  /** RTP binds that all work. */
  predicate RtpWorks(script: seq<Round>) { forall r <- script :: r.rtpOs == Works }

  lemma WorksAt(script: seq<Round>, k: nat)
    requires RtpWorks(script)
    ensures RoundAt(script, k).rtpOs == Works
  {
    if k < |script| { assert script[k] in script; }
  }

  /** From a pool of at least two ports, binds walk through it in order. */
  lemma {:induction false} BindsRotate(p: seq<nat>, script: seq<Round>, k: nat)
    requires |p| >= 2 && (forall i :: 0 <= i < |p| ==> Pooled(p[i])) && k <= |p| && RtpWorks(script)
    ensures var b := Rounds(p, CLOSED, script, k + 1);
            Ring(p, k) == [b.socket.port] + b.pool && b.socket == SocketState(true, if k < |p| then p[k] else p[0])
    decreases k
  {
    WorksAt(script, k);
    RingIs(p, k);
    var before := Rounds(p, CLOSED, script, k);
    if k == 0 {
      assert Rounds(p, CLOSED, script, 1) == BindAny(p, CLOSED, Works);
    } else {
      RingIs(p, k - 1);
      BindsRotate(p, script, k - 1);
      assert Rounds(p, CLOSED, script, k + 1) == BindAny(before.pool, before.socket, Works);
      TurnsRing(Ring(p, k - 1), before.pool, before.socket.port);
    }
  }

  lemma TurnsRing(r: seq<nat>, pool: seq<nat>, port: nat)
    requires r == [port] + pool && pool != [] && Pooled(port)
    ensures var b := BindAny(pool, SocketState(true, port), Works);
            r[1..] + [r[0]] == [b.socket.port] + b.pool && b.socket == SocketState(true, pool[0])
  {
    assert r[1..] == pool;
  }

  /** Attempts with different ports: one for each port of the pool, and with
      fewer than two of them one more, with port 0. */
  function Turns(p: seq<nat>): nat { if |p| == 1 then 2 else if p == [] then 1 else |p| }

  lemma FewPorts(p: seq<nat>, script: seq<Round>, k: nat)
    requires |p| <= 1 && (forall i :: 0 <= i < |p| ==> Pooled(p[i])) && k <= Turns(p) && RtpWorks(script)
    ensures Attempt(p, CLOSED, script, k) == if k < |p| then p[k] else if k < Turns(p) || p == [] then 0 else p[0]
  {
    WorksAt(script, 0);
    WorksAt(script, 1);
    WorksAt(script, 2);
    var b1 := Rounds(p, CLOSED, script, 1);
    assert b1 == BindAny(p, CLOSED, Works);
    var b2 := Rounds(p, CLOSED, script, 2);
    assert b2 == BindAny(b1.pool, b1.socket, Works);
    if |p| == 1 {
      assert b1.pool == [] && b2.pool == [p[0]];
      assert Rounds(p, CLOSED, script, 3) == BindAny(b2.pool, b2.socket, Works);
    }
  }

  lemma AttemptIs(p: seq<nat>, script: seq<Round>, k: nat)
    requires (forall i :: 0 <= i < |p| ==> Pooled(p[i])) && k <= Turns(p) && RtpWorks(script)
    ensures Attempt(p, CLOSED, script, k) == if k < |p| then p[k] else if k < Turns(p) || p == [] then 0 else p[0]
  {
    if |p| >= 2 { BindsRotate(p, script, k); } else { FewPorts(p, script, k); }
  }

  /** When every RTP bind works and every RTCP bind is refused, the loop tries
      each port of the pool once, in order, and gives up when a port comes round
      again: the first one, or port 0 when there is none. */
  lemma GivesUpAfterOneRound(p: seq<nat>, script: seq<Round>, k: nat)
    requires forall i :: 0 <= i < |p| ==> Pooled(p[i])
    requires forall i, j :: 0 <= i < j < |p| ==> p[i] != p[j]
    requires RtpWorks(script) && Distinct(p, CLOSED, script, k)
    ensures k <= Turns(p)
    ensures forall i :: 0 <= i < k ==> Attempt(p, CLOSED, script, i) == if i < |p| then p[i] else 0
    ensures Repeated(p, CLOSED, script, k) <==> k == Turns(p)
  {
    forall i: nat | i <= Turns(p)
      ensures Attempt(p, CLOSED, script, i) == if i < |p| then p[i] else if i < Turns(p) || p == [] then 0 else p[0]
    {
      AttemptIs(p, script, i);
    }
    assert Attempt(p, CLOSED, script, 0) == Attempt(p, CLOSED, script, Turns(p));
  }
}
