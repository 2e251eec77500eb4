/** src/Server/Server.cpp:64-198 with src/Server/Connection.cpp:80-92: workers
    taking one-shot events.  Every step is one system call, one critical section
    or one call of the parser; the run interleaves the workers in any order. */
module EventLoop {
  import opened Text
  import opened RequestScanner
  import opened RequestChunks
  import opened RequestParser
  import opened RequestProperties
  import opened RequestRuns

  type Fd = nat

  /** How far a worker is with an event of a connection. */
  datatype Phase = Waiting
                 | Accepting(fd: Fd)   // added to epoll, not yet to the map
                 | Delivered(fd: Fd)
                 | Locked(fd: Fd)
                 | Parsed(fd: Fd)
                 | Answered(fd: Fd)
                 | Rearmed(fd: Fd)     // still holds the lock

  /** `arrived` is every byte the peer sent; `pending` those not received yet;
      `taken` the buffers answered and cleared so far and `answers` the requests
      dispatched for them; `buffers` those parsed since.  `dead` marks a parse that
      threw. */
  datatype Conn = Conn(armed: bool, inMap: bool, arrived: string, pending: string, buffer: string,
                       request: Request, buffers: seq<string>, taken: seq<string>, answers: seq<Request>,
                       dead: bool)

  const NEW_CONN := Conn(true, false, "", "", "", FRESH, [], [], [], false)

  datatype State = State(workers: seq<Phase>, conns: map<Fd, Conn>)

  datatype Action = Accept(w: nat, fd: Fd)
                  | InsertConn(w: nat)
                  | Deliver(w: nat, fd: Fd)
                  | Find(w: nat)
                  | Receive(w: nat, n: nat)
                  | PeerClosed(w: nat)
                  | Reply(w: nat, dispatched: bool)
                  | Rearm(w: nat)
                  | Unlock(w: nat)
                  | Arrive(fd: Fd, bytes: string)

  const RECEIVE_SIZE: nat := 4096

  predicate Owns(p: Phase, fd: Fd) { (p.Delivered? || p.Locked? || p.Parsed? || p.Answered?) && p.fd == fd }

  predicate Holds(p: Phase, fd: Fd) { (p.Locked? || p.Parsed? || p.Answered? || p.Rearmed?) && p.fd == fd }

  predicate LockFree(s: State, fd: Fd) { forall w :: 0 <= w < |s.workers| ==> !Holds(s.workers[w], fd) }

  predicate Enabled(s: State, a: Action) {
    if a.Arrive? then a.fd in s.conns
    else
      && a.w < |s.workers|
      && var p := s.workers[a.w];
         match a
         case Accept(_, fd) => p.Waiting? && fd !in s.conns
         case InsertConn(_) => p.Accepting? && p.fd in s.conns
         case Deliver(_, fd) => p.Waiting? && fd in s.conns && s.conns[fd].armed
         case Find(_) => p.Delivered? && p.fd in s.conns && (s.conns[p.fd].inMap ==> LockFree(s, p.fd))
         case Receive(_, n) => p.Locked? && p.fd in s.conns && 1 <= n <= |s.conns[p.fd].pending| && n <= RECEIVE_SIZE
         case PeerClosed(_) => p.Locked? && p.fd in s.conns && s.conns[p.fd].pending == ""
         case Reply(_, dispatched) =>
           p.Parsed? && p.fd in s.conns && (dispatched || s.conns[p.fd].request.cursor == Complete)
         case Rearm(_) => p.Answered? && p.fd in s.conns
         case Unlock(_) => p.Rearmed?
  }

  /** `append_to_message`: the whole buffer is parsed again from the cursor. */
  function Appended(c: Conn, n: nat): Conn
    requires n <= |c.pending|
  {
    var buffer := c.buffer + c.pending[..n];
    var o := Parse(c.request, buffer);
    c.(buffer := buffer, pending := c.pending[n..], request := o.request, buffers := c.buffers + [buffer],
       dead := o.Rejected?)
  }

  /** `clear_message`. */
  function Cleared(c: Conn): Conn {
    c.(buffer := "", request := FRESH, buffers := [], taken := c.taken + [c.buffer],
       answers := c.answers + [c.request])
  }

  function With(s: State, w: nat, p: Phase, fd: Fd, c: Conn): State
    requires w < |s.workers|
  {
    State(s.workers[w := p], s.conns[fd := c])
  }

  /** src/Server/Connection.cpp: the buffer and its parser. */
  class Connection {
    var messageBuffer: string
    var request: RTSPRequest

    constructor ()
      ensures messageBuffer == "" && request.State() == FRESH && fresh(request)
    {
      messageBuffer := "";
      request := new RTSPRequest();
    }

    method AppendToMessage(bytes: string) returns (error: Option<ParseError>)
      modifies this`messageBuffer, request
      ensures messageBuffer == old(messageBuffer) + bytes
      ensures Result(request.State(), error) == Parse(old(request.State()), messageBuffer)
    {
      messageBuffer := messageBuffer + bytes;
      error := request.ParseRequest(messageBuffer);
    }

    method ClearMessage()
      modifies this
      ensures messageBuffer == "" && request.State() == FRESH && fresh(request)
    {
      messageBuffer := "";
      request := new RTSPRequest();
    }
  }

  /** Exceptions unlock and go back to waiting; they do not re-arm. */
  function Step(s: State, a: Action): State
    requires Enabled(s, a)
  {
    if a.Arrive? then
      var c := s.conns[a.fd];
      s.(conns := s.conns[a.fd := c.(arrived := c.arrived + a.bytes, pending := c.pending + a.bytes)])
    else
      var p := s.workers[a.w];
      match a
      case Accept(w, fd) => With(s, w, Accepting(fd), fd, NEW_CONN)
      case InsertConn(w) => With(s, w, Waiting, p.fd, s.conns[p.fd].(inMap := true))
      case Deliver(w, fd) => With(s, w, Delivered(fd), fd, s.conns[fd].(armed := false))
      case Find(w) => With(s, w, if s.conns[p.fd].inMap then Locked(p.fd) else Waiting, p.fd, s.conns[p.fd])
      case Receive(w, n) =>
        var c := Appended(s.conns[p.fd], n);
        With(s, w, if c.dead then Waiting else Parsed(p.fd), p.fd, c)
      case PeerClosed(w) => With(s, w, Waiting, p.fd, s.conns[p.fd].(inMap := false))
      case Reply(w, dispatched) =>
        var c := s.conns[p.fd];
        if !dispatched then With(s, w, Waiting, p.fd, c)
        else With(s, w, Answered(p.fd), p.fd, if c.request.cursor == Complete then Cleared(c) else c)
      case Rearm(w) => With(s, w, Rearmed(p.fd), p.fd, s.conns[p.fd].(armed := true))
      case Unlock(w) => s.(workers := s.workers[w := Waiting])
  }

  predicate Initial(s: State) {
    s.conns == map[] && forall w :: 0 <= w < |s.workers| ==> s.workers[w] == Waiting
  }

  ghost predicate Run(ss: seq<State>, actions: seq<Action>) {
    && |ss| == |actions| + 1 && Initial(ss[0])
    && forall i :: 0 <= i < |actions| ==> Enabled(ss[i], actions[i]) && ss[i + 1] == Step(ss[i], actions[i])
  }

  // ---- one event, one worker ------------------------------------------------------------

  function Owners(ws: seq<Phase>, fd: Fd): nat {
    if ws == [] then 0 else Owners(ws[..|ws| - 1], fd) + if Owns(ws[|ws| - 1], fd) then 1 else 0
  }

  function Holders(ws: seq<Phase>, fd: Fd): nat {
    if ws == [] then 0 else Holders(ws[..|ws| - 1], fd) + if Holds(ws[|ws| - 1], fd) then 1 else 0
  }

  /** The event is armed or with a worker; 0 means that it is lost. */
  function Tokens(s: State, fd: Fd): nat
    requires fd in s.conns
  {
    Owners(s.workers, fd) + if s.conns[fd].armed then 1 else 0
  }

  lemma {:induction false} WorkerUpdate(ws: seq<Phase>, w: nat, p: Phase, fd: Fd)
    requires w < |ws|
    ensures Owners(ws[w := p], fd) + (if Owns(ws[w], fd) then 1 else 0)
         == Owners(ws, fd) + if Owns(p, fd) then 1 else 0
    ensures Holders(ws[w := p], fd) + (if Holds(ws[w], fd) then 1 else 0)
         == Holders(ws, fd) + if Holds(p, fd) then 1 else 0
    decreases |ws|
  {
    var n := |ws| - 1;
    if w == n {
      assert ws[w := p][..n] == ws[..n];
    } else {
      WorkerUpdate(ws[..n], w, p, fd);
      assert ws[w := p][..n] == ws[..n][w := p];
    }
  }

  lemma {:induction false} FreeMeansNone(ws: seq<Phase>, fd: Fd)
    requires forall w :: 0 <= w < |ws| ==> !Holds(ws[w], fd)
    ensures Holders(ws, fd) == 0
  {
    if ws != [] { FreeMeansNone(ws[..|ws| - 1], fd); }
  }

  lemma {:induction false} StartsEmpty(ws: seq<Phase>, fd: Fd)
    requires forall w :: 0 <= w < |ws| ==> ws[w] == Waiting
    ensures Owners(ws, fd) == Holders(ws, fd) == 0
  {
    if ws != [] { StartsEmpty(ws[..|ws| - 1], fd); }
  }

  lemma {:induction false} AtLeastTwo(ws: seq<Phase>, v: nat, w: nat, fd: Fd)
    requires v < w < |ws|
    ensures Owns(ws[v], fd) && Owns(ws[w], fd) ==> Owners(ws, fd) >= 2
    ensures Holds(ws[v], fd) && Holds(ws[w], fd) ==> Holders(ws, fd) >= 2
    decreases |ws|
  {
    if w == |ws| - 1 { AtLeastOne(ws[..w], v, fd); } else { AtLeastTwo(ws[..|ws| - 1], v, w, fd); }
  }

  lemma {:induction false} AtLeastOne(ws: seq<Phase>, v: nat, fd: Fd)
    requires v < |ws|
    ensures Owns(ws[v], fd) ==> Owners(ws, fd) >= 1
    ensures Holds(ws[v], fd) ==> Holders(ws, fd) >= 1
    decreases |ws|
  {
    if v < |ws| - 1 { AtLeastOne(ws[..|ws| - 1], v, fd); }
  }

  /** An exception, or the end of the connection, between delivery and re-arm. */
  predicate Drops(s: State, a: Action, fd: Fd)
    requires Enabled(s, a)
  {
    && !a.Arrive? && Owns(s.workers[a.w], fd)
    && match a
       case Find(_) => !s.conns[fd].inMap
       case Receive(_, n) => Appended(s.conns[fd], n).dead
       case PeerClosed(_) => true
       case Reply(_, dispatched) => !dispatched
       case _ => false
  }

  /** A connection has one token at most, and none before it exists. */
  ghost predicate OneToken(s: State, fd: Fd) {
    if fd in s.conns then Tokens(s, fd) <= 1 else Owners(s.workers, fd) == 0
  }

  /** What a step does to the token: it starts with the connection and goes
      exactly where the event is dropped. */
  ghost predicate TokenMoves(s: State, a: Action, t: State, fd: Fd)
    requires Enabled(s, a)
  {
    && OneToken(t, fd)
    && (fd in s.conns ==> fd in t.conns && Tokens(t, fd) == Tokens(s, fd) - if Drops(s, a, fd) then 1 else 0)
    && (fd !in s.conns && fd in t.conns ==> Tokens(t, fd) == 1)
  }

  lemma TokensAtStart(s: State, a: Action, fd: Fd)
    requires Enabled(s, a) && OneToken(s, fd) && (a.Accept? || a.InsertConn? || a.Arrive? || a.Unlock?)
    ensures TokenMoves(s, a, Step(s, a), fd)
  {
    if !a.Arrive? { WorkerUpdate(s.workers, a.w, Step(s, a).workers[a.w], fd); }
  }

  lemma TokensOnDelivery(s: State, a: Action, fd: Fd)
    requires Enabled(s, a) && OneToken(s, fd) && (a.Deliver? || a.Find? || a.Rearm?)
    ensures TokenMoves(s, a, Step(s, a), fd)
  {
    WorkerUpdate(s.workers, a.w, Step(s, a).workers[a.w], fd);
    AtLeastOne(s.workers, a.w, fd);
  }

  lemma TokensOnWork(s: State, a: Action, fd: Fd)
    requires Enabled(s, a) && OneToken(s, fd) && (a.Receive? || a.PeerClosed? || a.Reply?)
    ensures TokenMoves(s, a, Step(s, a), fd)
  {
    WorkerUpdate(s.workers, a.w, Step(s, a).workers[a.w], fd);
    AtLeastOne(s.workers, a.w, fd);
  }

  lemma TokensAfter(s: State, a: Action, fd: Fd)
    requires Enabled(s, a) && OneToken(s, fd)
    ensures TokenMoves(s, a, Step(s, a), fd)
  {
    match a
    case Accept(_, _) => TokensAtStart(s, a, fd);
    case InsertConn(_) => TokensAtStart(s, a, fd);
    case Unlock(_) => TokensAtStart(s, a, fd);
    case Arrive(_, _) => TokensAtStart(s, a, fd);
    case Deliver(_, _) => TokensOnDelivery(s, a, fd);
    case Find(_) => TokensOnDelivery(s, a, fd);
    case Rearm(_) => TokensOnDelivery(s, a, fd);
    case Receive(_, _) => TokensOnWork(s, a, fd);
    case PeerClosed(_) => TokensOnWork(s, a, fd);
    case Reply(_, _) => TokensOnWork(s, a, fd);
  }

  // ---- what the buffer and the parser hold ------------------------------------------------

  function Concat(parts: seq<string>): string {
    if parts == [] then "" else Concat(parts[..|parts| - 1]) + parts[|parts| - 1]
  }

  /** The request is what the calls on `bufs` made of the buffer. */
  predicate ReadFrom(bufs: seq<string>, buffer: string, request: Request) {
    && bufs != [] && Growing(bufs) && Last(bufs) == buffer
    && ParseRun(FRESH, bufs) == Accepted(request) && request.cursor == Complete
  }

  /** Every request dispatched was read, complete, from the buffer then cleared. */
  ghost predicate AnswersSound(taken: seq<string>, answers: seq<Request>) {
    |answers| == |taken| && forall i :: 0 <= i < |taken| ==> WasRead(taken[i], answers[i])
  }

  ghost predicate WasRead(buffer: string, request: Request) { exists bufs :: ReadFrom(bufs, buffer, request) }

  /** The parser has been run on the growing buffer, and its cursor is inside. */
  predicate ParserSound(bufs: seq<string>, buffer: string, request: Request, dead: bool) {
    && (if bufs == [] then buffer == "" else Growing(bufs) && Last(bufs) == buffer && bufs[0] != "")
    && ParseRun(FRESH, bufs).Rejected? == dead && ParseRun(FRESH, bufs).request == request
    && (request.cursor.At? ==> request.cursor.pos <= |buffer|)
  }

  predicate BytesSound(arrived: string, taken: seq<string>, buffer: string, pending: string) {
    arrived == Concat(taken) + buffer + pending
  }

  /** Every byte that arrived is in an answered message, in the buffer or still
      to be received, in order; the answers and the parser are those of the buffers. */
  ghost predicate ConnSound(c: Conn) {
    && BytesSound(c.arrived, c.taken, c.buffer, c.pending)
    && AnswersSound(c.taken, c.answers)
    && ParserSound(c.buffers, c.buffer, c.request, c.dead)
  }

  lemma {:induction false} GrowingSnoc(bufs: seq<string>, b: string)
    requires Growing(bufs) && (bufs != [] ==> Last(bufs) < b)
    ensures Growing(bufs + [b]) && Last(bufs + [b]) == b
    decreases |bufs|
  {
    if |bufs| > 1 {
      GrowingSnoc(bufs[1..], b);
      assert (bufs + [b])[1..] == bufs[1..] + [b];
    } else if |bufs| == 1 {
      assert (bufs + [b])[1..] == [b];
    }
  }

  lemma CursorInside(q: Request, m: string)
    requires q.cursor.At? ==> q.cursor.pos <= |m|
    ensures var r := Parse(q, m).request; r.cursor.At? ==> r.cursor.pos <= |m|
  {
    if q.cursor.At? {
      var r := Scan(m, q.cursor.pos);
      ScanStops(m, q.cursor.pos);
      HeaderEndIsLater(m, q.cursor.pos);
      CursorKept(q.(cursor := At(r.cursor)), r.lines);
    }
  }

  lemma BytesMove(arrived: string, taken: seq<string>, buffer: string, pending: string, n: nat)
    requires BytesSound(arrived, taken, buffer, pending) && n <= |pending|
    ensures BytesSound(arrived, taken, buffer + pending[..n], pending[n..])
  {
    assert pending == pending[..n] + pending[n..];
    assert Concat(taken) + (buffer + pending[..n]) + pending[n..] == Concat(taken) + buffer + pending;
  }

  lemma BytesArrive(arrived: string, taken: seq<string>, buffer: string, pending: string, bytes: string)
    requires BytesSound(arrived, taken, buffer, pending)
    ensures BytesSound(arrived + bytes, taken, buffer, pending + bytes)
  {
    assert arrived + bytes == Concat(taken) + buffer + (pending + bytes);
  }

  lemma BytesTaken(arrived: string, taken: seq<string>, buffer: string, pending: string)
    requires BytesSound(arrived, taken, buffer, pending)
    ensures BytesSound(arrived, taken + [buffer], "", pending)
  {
    assert (taken + [buffer])[..|taken|] == taken;
    assert Concat(taken + [buffer]) + "" == Concat(taken) + buffer;
  }

  lemma ParserMoves(bufs: seq<string>, buffer: string, request: Request, more: string)
    requires ParserSound(bufs, buffer, request, false) && buffer < more
    ensures var o := Parse(request, more); ParserSound(bufs + [more], more, o.request, o.Rejected?)
  {
    RunSnoc(FRESH, bufs, more);
    CursorInside(request, more);
    GrowingSnoc(bufs, more);
  }

  lemma AppendSound(c: Conn, n: nat)
    requires ConnSound(c) && !c.dead && 1 <= n <= |c.pending|
    ensures ConnSound(Appended(c, n))
  {
    BytesMove(c.arrived, c.taken, c.buffer, c.pending, n);
    ParserMoves(c.buffers, c.buffer, c.request, c.buffer + c.pending[..n]);
  }

  lemma OneAnswerMore(taken: seq<string>, answers: seq<Request>, bufs: seq<string>, buffer: string, request: Request)
    requires AnswersSound(taken, answers) && ReadFrom(bufs, buffer, request)
    ensures AnswersSound(taken + [buffer], answers + [request])
  {
    var t, a := taken + [buffer], answers + [request];
    assert WasRead(buffer, request);
    forall i | 0 <= i < |t| ensures WasRead(t[i], a[i]) {
      if i < |taken| { assert WasRead(taken[i], answers[i]); }
    }
  }

  lemma ClearSound(c: Conn)
    requires ConnSound(c) && !c.dead && c.request.cursor == Complete
    ensures ConnSound(Cleared(c))
  {
    assert ReadFrom(c.buffers, c.buffer, c.request);
    OneAnswerMore(c.taken, c.answers, c.buffers, c.buffer, c.request);
    BytesTaken(c.arrived, c.taken, c.buffer, c.pending);
  }

  /** All that holds of connection `fd`. */
  ghost predicate Sound(s: State, fd: Fd) {
    && Holders(s.workers, fd) <= 1
    && if fd !in s.conns then Owners(s.workers, fd) == 0
       else Tokens(s, fd) <= 1 && ConnSound(s.conns[fd]) && (s.conns[fd].dead ==> Tokens(s, fd) == 0)
  }

  lemma HoldersAfter(s: State, a: Action, fd: Fd)
    requires Enabled(s, a) && Holders(s.workers, fd) <= 1
    ensures Holders(Step(s, a).workers, fd) <= 1
  {
    var t := Step(s, a);
    if !a.Arrive? {
      WorkerUpdate(s.workers, a.w, t.workers[a.w], fd);
      if a.Find? && t.workers[a.w] == Locked(fd) { FreeMeansNone(s.workers, fd); }
    }
  }

  /** What a step leaves of a connection, and when its parser has thrown. */
  ghost predicate ConnMoves(s: State, a: Action, t: State, fd: Fd)
    requires Enabled(s, a) && fd in t.conns
  {
    && ConnSound(t.conns[fd])
    && (fd in s.conns && t.conns[fd].dead && !s.conns[fd].dead ==> Drops(s, a, fd))
    && (fd !in s.conns ==> !t.conns[fd].dead)
    && (fd in s.conns && s.conns[fd].dead ==> t.conns[fd].dead)
  }

  lemma NewSound()
    ensures ConnSound(NEW_CONN)
  {
    assert Concat([]) + "" + "" == "";
  }

  lemma ArriveSound(c: Conn, bytes: string)
    requires ConnSound(c)
    ensures ConnSound(c.(arrived := c.arrived + bytes, pending := c.pending + bytes))
  {
    BytesArrive(c.arrived, c.taken, c.buffer, c.pending, bytes);
  }

  lemma ConnUntouched(s: State, a: Action, fd: Fd)
    requires Enabled(s, a) && Sound(s, fd) && fd in Step(s, a).conns && !a.Receive? && !a.Reply?
    ensures ConnMoves(s, a, Step(s, a), fd)
  {
    NewSound();
    if a.Arrive? && a.fd == fd { ArriveSound(s.conns[fd], a.bytes); }
  }

  lemma ConnReceives(s: State, a: Action, fd: Fd)
    requires Enabled(s, a) && Sound(s, fd) && fd in Step(s, a).conns && a.Receive?
    ensures ConnMoves(s, a, Step(s, a), fd)
  {
    if Owns(s.workers[a.w], fd) {
      AtLeastOne(s.workers, a.w, fd);
      AppendSound(s.conns[fd], a.n);
    }
  }

  lemma ConnAnswers(s: State, a: Action, fd: Fd)
    requires Enabled(s, a) && Sound(s, fd) && fd in Step(s, a).conns && a.Reply?
    ensures ConnMoves(s, a, Step(s, a), fd)
  {
    if Owns(s.workers[a.w], fd) {
      AtLeastOne(s.workers, a.w, fd);
      if s.conns[fd].request.cursor == Complete { ClearSound(s.conns[fd]); }
    }
  }

  lemma ConnAfter(s: State, a: Action, fd: Fd)
    requires Enabled(s, a) && Sound(s, fd) && fd in Step(s, a).conns
    ensures ConnMoves(s, a, Step(s, a), fd)
  {
    if a.Receive? {
      ConnReceives(s, a, fd);
    } else if a.Reply? {
      ConnAnswers(s, a, fd);
    } else {
      ConnUntouched(s, a, fd);
    }
  }

  lemma StepSound(s: State, a: Action, fd: Fd)
    requires Enabled(s, a) && Sound(s, fd)
    ensures Sound(Step(s, a), fd)
  {
    TokensAfter(s, a, fd);
    HoldersAfter(s, a, fd);
    if fd in Step(s, a).conns { ConnAfter(s, a, fd); }
  }

  /** In every run, for every connection: its event is armed or with one worker,
      one worker at most holds its lock, its buffer is what arrived since the
      last answered message, less what is still to be received, and the parser
      was run on exactly the buffers in between. */
  lemma {:induction false} AlwaysSound(ss: seq<State>, actions: seq<Action>, i: nat, fd: Fd)
    requires Run(ss, actions) && i < |ss|
    ensures Sound(ss[i], fd)
    decreases i
  {
    if i == 0 {
      StartsEmpty(ss[0].workers, fd);
    } else {
      AlwaysSound(ss, actions, i - 1, fd);
      StepSound(ss[i - 1], actions[i - 1], fd);
    }
  }

  /** No two workers are between the delivery and the re-arming of one event, and
      no two hold the lock of one connection. */
  lemma OneWorkerPerEvent(ss: seq<State>, actions: seq<Action>, i: nat, v: nat, w: nat, fd: Fd)
    requires Run(ss, actions) && i < |ss| && v < w < |ss[i].workers|
    ensures !(Owns(ss[i].workers[v], fd) && Owns(ss[i].workers[w], fd))
    ensures !(Holds(ss[i].workers[v], fd) && Holds(ss[i].workers[w], fd))
  {
    AlwaysSound(ss, actions, i, fd);
    AtLeastTwo(ss[i].workers, v, w, fd);
  }

  /** A request is dispatched as one parse of the buffered message would give it,
      when the reads cut that message safely. */
  lemma DispatchedAsOneMessage(ss: seq<State>, actions: seq<Action>, i: nat, w: nat, fd: Fd)
    requires Run(ss, actions) && i < |ss| && w < |ss[i].workers| && ss[i].workers[w] == Parsed(fd)
    requires fd in ss[i].conns && ss[i].conns[fd].request.cursor == Complete
    requires |ss[i].conns[fd].buffer| < SIZE_LIMIT && SafeCuts(ss[i].conns[fd].buffers, ss[i].conns[fd].buffer)
    ensures ParseOnce(ss[i].conns[fd].buffer) == Accepted(ss[i].conns[fd].request)
  {
    AlwaysSound(ss, actions, i, fd);
    AtLeastOne(ss[i].workers, w, fd);
    ChunkInvariance(ss[i].conns[fd].buffers);
  }

  /** Whatever the cuts: it is what one parse gives exactly when the calls, up to
      the one that completed it, come to the head and the body of the one. */
  lemma DispatchedExactly(ss: seq<State>, actions: seq<Action>, i: nat, fd: Fd)
    requires Run(ss, actions) && i < |ss|
    requires fd in ss[i].conns && ss[i].conns[fd].request.cursor == Complete && !ss[i].conns[fd].dead
    ensures var c := ss[i].conns[fd];
            ParseOnce(c.buffer) == Accepted(c.request) <==> exists k :: CompletesAlike(c.buffers, k, c.buffer)
  {
    var c := ss[i].conns[fd];
    AlwaysSound(ss, actions, i, fd);
    if ParseOnce(c.buffer).Accepted? && ParseOnce(c.buffer).request.cursor == Complete {
      RunExact(c.buffers, c.buffer);
    } else if k :| CompletesAlike(c.buffers, k, c.buffer) {
      RunIsAlways([c.buffer]);
      OneCallRun(c.buffer);
    }
  }

  /** The event is lost exactly when a worker leaves by an exception, or the peer
      is gone; then nothing more is ever received or answered for it. */
  lemma {:induction false} LostForGood(ss: seq<State>, actions: seq<Action>, i: nat, j: nat, fd: Fd)
    requires Run(ss, actions) && i <= j < |ss| && fd in ss[i].conns && Tokens(ss[i], fd) == 0
    ensures fd in ss[j].conns && Tokens(ss[j], fd) == 0
    ensures ss[j].conns[fd].buffer == ss[i].conns[fd].buffer && ss[j].conns[fd].taken == ss[i].conns[fd].taken
    ensures ss[j].conns[fd].answers == ss[i].conns[fd].answers
    decreases j
  {
    if i < j {
      LostForGood(ss, actions, i, j - 1, fd);
      AlwaysSound(ss, actions, j - 1, fd);
      var s, a := ss[j - 1], actions[j - 1];
      TokensAfter(s, a, fd);
      if !a.Arrive? { AtLeastOne(s.workers, a.w, fd); }
    }
  }

  const FD: Fd := 7

  /** A run that loses an event: one worker has accepted the connection and armed
      it, another is woken for it before the first has put it into the map. */
  lemma EventLost() returns (ss: seq<State>, actions: seq<Action>)
    ensures Run(ss, actions) && |actions| == 3 && FD in ss[3].conns && Tokens(ss[3], FD) == 0
  {
    actions := [Accept(0, FD), Deliver(1, FD), Find(1)];
    var s0 := State([Waiting, Waiting], map[]);
    var s1 := Step(s0, actions[0]);
    var s2 := Step(s1, actions[1]);
    ss := [s0, s1, s2, Step(s2, actions[2])];
    assert ss[3].workers == [Accepting(FD), Waiting];
    assert [Accepting(FD), Waiting][..1] == [Accepting(FD)] && [Accepting(FD)][..0] == [];
    assert Owners([Accepting(FD)], FD) == Owners([], FD);
  }

  // ---- more than one message in a read -----------------------------------------------------

  /** One read, and the answer if it completes a request. */
  function ReadAndAnswer(c: Conn, bytes: string): (d: Conn)
    requires c.pending == ""
    ensures d.pending == ""
  {
    var arrived := c.(arrived := c.arrived + bytes, pending := bytes);
    var read := Appended(arrived, |bytes|);
    if read.request.cursor == Complete && !read.dead then Cleared(read) else read
  }

  function AfterReads(c: Conn, received: seq<string>): Conn
    requires c.pending == ""
    decreases |received|
  {
    if received == [] then c else AfterReads(ReadAndAnswer(c, received[0]), received[1..])
  }

  /** What one parse gives for each message. */
  function Requests(messages: seq<string>): (r: seq<Request>)
    ensures |r| == |messages|
  {
    if messages == [] then [] else [ParseOnce(messages[0]).request] + Requests(messages[1..])
  }

  predicate AllComplete(messages: seq<string>) {
    forall i :: 0 <= i < |messages| ==>
      ParseOnce(messages[i]).Accepted? && ParseOnce(messages[i]).request.cursor == Complete
  }

  /** A connection between two messages. */
  predicate Idle(c: Conn) { c.buffers == [] && c.buffer == "" && c.pending == "" && c.request == FRESH && !c.dead }

  /** A read that starts with a complete message is answered for that message;
      whatever comes behind it in the read goes with the buffer. */
  lemma RestIsDropped(c: Conn, m: string, rest: string)
    requires Idle(c) && |m + rest| < SIZE_LIMIT
    requires ParseOnce(m).Accepted? && ParseOnce(m).request.cursor == Complete
    ensures var d := ReadAndAnswer(c, m + rest);
            && Idle(d) && d.taken == c.taken + [m + rest]
            && d.answers == c.answers + [ParseOnce(m).request]
  {
    PrefixDeterminism(m, rest);
    assert "" + (m + rest)[..|m + rest|] == m + rest && (m + rest)[|m + rest|..] == "";
  }

  /** Each read holds whole messages, one at least. */
  predicate WholeMessages(groups: seq<seq<string>>) {
    forall i :: 0 <= i < |groups| ==>
      groups[i] != [] && AllComplete(groups[i]) && |Joined(groups[i])| < SIZE_LIMIT
  }

  function Joined(messages: seq<string>): string {
    if messages == [] then "" else messages[0] + Joined(messages[1..])
  }

  function ReadsOf(groups: seq<seq<string>>): seq<string> {
    if groups == [] then [] else [Joined(groups[0])] + ReadsOf(groups[1..])
  }

  function Flat(groups: seq<seq<string>>): seq<string> {
    if groups == [] then [] else groups[0] + Flat(groups[1..])
  }

  /** The first message of each read. */
  function Heads(groups: seq<seq<string>>): (h: seq<string>)
    requires WholeMessages(groups)
    ensures |h| == |groups| && forall i :: 0 <= i < |h| ==> h[i] == groups[i][0]
  {
    seq(|groups|, i requires 0 <= i < |groups| => groups[i][0])
  }

  lemma FirstGroup(groups: seq<seq<string>>)
    requires WholeMessages(groups) && groups != []
    ensures groups[0] != [] && AllComplete(groups[0]) && WholeMessages(groups[1..])
    ensures ParseOnce(groups[0][0]).Accepted? && ParseOnce(groups[0][0]).request.cursor == Complete
    ensures Joined(groups[0]) == groups[0][0] + Joined(groups[0][1..]) && |Joined(groups[0])| < SIZE_LIMIT
    ensures ReadsOf(groups) == [Joined(groups[0])] + ReadsOf(groups[1..])
  {
  }

  lemma ReadsStep(c: Conn, first: string, rest: seq<string>)
    requires c.pending == ""
    ensures AfterReads(c, [first] + rest) == AfterReads(ReadAndAnswer(c, first), rest)
  {
    assert ([first] + rest)[1..] == rest;
  }

  lemma HeadsStep(groups: seq<seq<string>>)
    requires WholeMessages(groups) && groups != []
    ensures WholeMessages(groups[1..])
    ensures Requests(Heads(groups)) == [ParseOnce(groups[0][0]).request] + Requests(Heads(groups[1..]))
  {
    assert Heads(groups)[1..] == Heads(groups[1..]);
  }

  lemma Append<T>(a: seq<T>, x: T, rest: seq<T>)
    ensures a + [x] + rest == a + ([x] + rest)
  {
  }

  /** Reads that end where messages end: each is answered once, for its first
      message, and goes whole with its buffer.  The messages behind the first one
      of a read are never dispatched. */
  lemma {:induction false} HeadsAreAnswered(c: Conn, groups: seq<seq<string>>)
    requires Idle(c) && WholeMessages(groups)
    ensures var d := AfterReads(c, ReadsOf(groups));
            && Idle(d) && d.taken == c.taken + ReadsOf(groups)
            && d.answers == c.answers + Requests(Heads(groups))
    decreases |groups|
  {
    if groups == [] {
      assert c.taken + [] == c.taken && c.answers + [] == c.answers;
    } else {
      FirstGroup(groups);
      HeadsStep(groups);
      var first, q := Joined(groups[0]), ParseOnce(groups[0][0]).request;
      RestIsDropped(c, groups[0][0], Joined(groups[0][1..]));
      ReadsStep(c, first, ReadsOf(groups[1..]));
      HeadsAreAnswered(ReadAndAnswer(c, first), groups[1..]);
      Append(c.taken, first, ReadsOf(groups[1..]));
      Append(c.answers, q, Requests(Heads(groups[1..])));
    }
  }

  lemma {:induction false} FlatCounts(groups: seq<seq<string>>)
    requires WholeMessages(groups)
    ensures |groups| <= |Flat(groups)|
    ensures |groups| == |Flat(groups)| <==> forall i :: 0 <= i < |groups| ==> |groups[i]| == 1
    decreases |groups|
  {
    if groups != [] {
      FirstGroup(groups);
      FlatCounts(groups[1..]);
      assert groups == [groups[0]] + groups[1..];
    }
  }

  lemma {:induction false} HeadsAreAll(groups: seq<seq<string>>)
    requires WholeMessages(groups) && forall i :: 0 <= i < |groups| ==> |groups[i]| == 1
    ensures Heads(groups) == Flat(groups)
    decreases |groups|
  {
    if groups != [] {
      FirstGroup(groups);
      HeadsAreAll(groups[1..]);
      assert groups[0] == [groups[0][0]] && Heads(groups) == [groups[0][0]] + Heads(groups[1..]);
    }
  }

  /** So the connection dispatches every message of the stream, each as one parse
      gives it and in order, exactly when no read holds more than one message. */
  lemma OneForOne(c: Conn, groups: seq<seq<string>>)
    requires Idle(c) && WholeMessages(groups)
    ensures AfterReads(c, ReadsOf(groups)).answers == c.answers + Requests(Flat(groups))
       <==> forall i :: 0 <= i < |groups| ==> |groups[i]| == 1
  {
    HeadsAreAnswered(c, groups);
    FlatCounts(groups);
    if forall i :: 0 <= i < |groups| ==> |groups[i]| == 1 { HeadsAreAll(groups); }
  }
}
