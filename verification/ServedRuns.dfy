/** What a connection has answered in any run of the workers, whatever they do
    for other connections in between: src/Server/Server.cpp:112-186. */
module ServedRuns {
  import opened RequestParser
  import opened EventLoop

  // ---- what a run sends to a connection and receives from it ------------------------------

  function ReceivedNow(s: State, a: Action, fd: Fd): seq<string>
    requires Enabled(s, a)
  {
    if a.Receive? && s.workers[a.w] == Locked(fd) then [s.conns[fd].pending[..a.n]] else []
  }

  /** What each `recv` on the connection gave in the first `i` steps. */
  ghost function Received(ss: seq<State>, actions: seq<Action>, i: nat, fd: Fd): seq<string>
    requires Run(ss, actions) && i < |ss|
  {
    if i == 0 then []
    else Received(ss, actions, i - 1, fd) + ReceivedNow(ss[i - 1], actions[i - 1], fd)
  }

  /** What the peer sent in the first `i` steps. */
  function Sent(actions: seq<Action>, i: nat, fd: Fd): string
    requires i <= |actions|
  {
    if i == 0 then ""
    else
      var a := actions[i - 1];
      Sent(actions, i - 1, fd) + if a.Arrive? && a.fd == fd then a.bytes else ""
  }

  predicate ReadSizes(got: seq<string>) { forall i :: 0 <= i < |got| ==> 1 <= |got[i]| <= 4096 }

  ghost predicate BytesInOrder(sent: string, got: seq<string>, c: Conn) {
    sent == c.arrived == Concat(got) + c.pending && ReadSizes(got)
  }

  lemma ConcatSnoc(parts: seq<string>, p: string)
    ensures Concat(parts + [p]) == Concat(parts) + p
  {
    assert (parts + [p])[..|parts|] == parts;
  }

  lemma BytesReceived(sent: string, got: seq<string>, c: Conn, d: Conn, n: nat)
    requires BytesInOrder(sent, got, c) && 1 <= n <= |c.pending| && n <= 4096
    requires d.arrived == c.arrived && d.pending == c.pending[n..]
    ensures BytesInOrder(sent, got + [c.pending[..n]], d)
  {
    ConcatSnoc(got, c.pending[..n]);
    assert c.pending == c.pending[..n] + c.pending[n..];
  }

  lemma BytesStep(s: State, a: Action, fd: Fd, sent: string, got: seq<string>)
    requires Enabled(s, a) && fd in Step(s, a).conns
    requires if fd in s.conns then BytesInOrder(sent, got, s.conns[fd]) else sent == "" && got == []
    ensures BytesInOrder(sent + if a.Arrive? && a.fd == fd then a.bytes else "",
                         got + ReceivedNow(s, a, fd), Step(s, a).conns[fd])
  {
    if a.Receive? && s.workers[a.w] == Locked(fd) {
      BytesReceived(sent, got, s.conns[fd], Step(s, a).conns[fd], a.n);
    } else {
      assert got + [] == got;
    }
  }

  /** The reads, one after the other, are what the peer sent, less what is still
      to be received; each is of 1 to 4096 bytes. */
  lemma {:induction false} ReadsAreSent(ss: seq<State>, actions: seq<Action>, i: nat, fd: Fd)
    requires Run(ss, actions) && i < |ss|
    ensures if fd in ss[i].conns
            then BytesInOrder(Sent(actions, i, fd), Received(ss, actions, i, fd), ss[i].conns[fd])
            else Sent(actions, i, fd) == "" && Received(ss, actions, i, fd) == []
    decreases i
  {
    if i > 0 {
      ReadsAreSent(ss, actions, i - 1, fd);
      var s, a := ss[i - 1], actions[i - 1];
      assert ss[i] == Step(s, a);
      if fd in ss[i].conns {
        BytesStep(s, a, fd, Sent(actions, i - 1, fd), Received(ss, actions, i - 1, fd));
      }
    }
  }

  // ---- one answer ---------------------------------------------------------------------------

  /** An answer that was sent for a complete request empties the buffer and starts
      the parser afresh; otherwise the connection stays as it is.  No other
      connection changes. */
  lemma ReplyClears(ss: seq<State>, actions: seq<Action>, i: nat, fd: Fd)
    requires Run(ss, actions) && i < |actions| && actions[i].Reply?
    requires ss[i].workers[actions[i].w] == Parsed(fd)
    ensures fd in ss[i].conns && ss[i + 1].conns.Keys == ss[i].conns.Keys
    ensures var c, d := ss[i].conns[fd], ss[i + 1].conns[fd];
            if actions[i].dispatched && c.request.cursor == Complete
            then && d.buffer == "" && d.buffers == [] && d.request == Request("", "", "", "", map[], At(0))
                 && d.taken == c.taken + [c.buffer] && d.answers == c.answers + [c.request]
                 && d.armed == c.armed && d.inMap == c.inMap && d.dead == c.dead
                 && d.arrived == c.arrived && d.pending == c.pending
            else d == c
    ensures forall other <- ss[i].conns :: other != fd ==> ss[i + 1].conns[other] == ss[i].conns[other]
  {
    assert Enabled(ss[i], actions[i]) && ss[i + 1] == Step(ss[i], actions[i]);
  }

  // ---- a run seen from one connection --------------------------------------------------------

  /** A worker has received for the connection and is about to answer. */
  ghost predicate Busy(ws: seq<Phase>, fd: Fd) { exists w :: 0 <= w < |ws| && ws[w] == Parsed(fd) }

  /** Only what the calls of the parser and the answers are about. */
  function Bare(c: Conn): Conn { c.(armed := false, inMap := false, arrived := "", pending := "") }

  function AnswerGiven(c: Conn): Conn { if c.request.cursor == Complete && !c.dead then Cleared(c) else c }

  /** The connection is where one worker alone would be after these reads, but
      for an answer that is due; one is due only to a worker or for ever. */
  ghost predicate InStep(s: State, fd: Fd, got: seq<string>) {
    if fd !in s.conns then got == []
    else
      && Bare(AnswerGiven(s.conns[fd])) == Bare(AfterReads(NEW_CONN, got))
      && (s.conns[fd].request.cursor == Complete && Tokens(s, fd) > 0 ==> Busy(s.workers, fd))
  }

  lemma {:induction false} AfterReadsSnoc(c: Conn, got: seq<string>, b: string)
    requires c.pending == ""
    ensures AfterReads(c, got).pending == ""
    ensures AfterReads(c, got + [b]) == ReadAndAnswer(AfterReads(c, got), b)
    decreases |got|
  {
    if got == [] {
      assert [b][1..] == [];
    } else {
      assert (got + [b])[1..] == got[1..] + [b];
      AfterReadsSnoc(ReadAndAnswer(c, got[0]), got[1..], b);
    }
  }

  lemma SameRead(c: Conn, d: Conn, n: nat)
    requires Bare(c) == Bare(d) && d.pending == "" && n <= |c.pending|
    ensures Bare(AnswerGiven(Appended(c, n))) == Bare(ReadAndAnswer(d, c.pending[..n]))
  {
    var bytes := c.pending[..n];
    assert bytes[..|bytes|] == bytes;
    assert c.buffer == Bare(c).buffer == Bare(d).buffer == d.buffer;
    assert c.request == Bare(c).request == Bare(d).request == d.request;
  }

  /** The step is a read of the connection. */
  lemma ReadInStep(s: State, a: Action, fd: Fd, got: seq<string>)
    requires Enabled(s, a) && Sound(s, fd) && InStep(s, fd, got) && a.Receive? && s.workers[a.w] == Locked(fd)
    ensures InStep(Step(s, a), fd, got + ReceivedNow(s, a, fd))
  {
    var c, t := s.conns[fd], Step(s, a);
    AtLeastOne(s.workers, a.w, fd);
    NotDue(s, a.w, fd);
    AfterReadsSnoc(NEW_CONN, got, c.pending[..a.n]);
    SameRead(c, AfterReads(NEW_CONN, got), a.n);
    if t.workers[a.w] != Parsed(fd) { TokensAfter(s, a, fd); }
  }

  /** A worker between delivery and re-arm that has not received, or has answered,
      finds no complete request. */
  lemma NotDue(s: State, w: nat, fd: Fd)
    requires w < |s.workers| && fd in s.conns && Sound(s, fd)
    requires Owns(s.workers[w], fd) && !s.workers[w].Parsed?
    requires s.conns[fd].request.cursor == Complete && Tokens(s, fd) > 0 ==> Busy(s.workers, fd)
    ensures s.conns[fd].request.cursor != Complete
  {
    AtLeastOne(s.workers, w, fd);
    if v :| 0 <= v < |s.workers| && s.workers[v] == Parsed(fd) {
      if v < w { AtLeastTwo(s.workers, v, w, fd); } else { AtLeastTwo(s.workers, w, v, fd); }
    }
  }

  /** A worker that does not change phase between received and answered. */
  lemma StaysBusy(s: State, a: Action, fd: Fd)
    requires Enabled(s, a) && Busy(s.workers, fd) && (!a.Arrive? ==> s.workers[a.w] != Parsed(fd))
    ensures Busy(Step(s, a).workers, fd)
  {
    var v :| 0 <= v < |s.workers| && s.workers[v] == Parsed(fd);
    assert Step(s, a).workers[v] == Parsed(fd);
  }

  lemma AnswerInStep(s: State, a: Action, fd: Fd, got: seq<string>)
    requires Enabled(s, a) && Sound(s, fd) && InStep(s, fd, got) && a.Reply? && s.workers[a.w] == Parsed(fd)
    ensures InStep(Step(s, a), fd, got)
  {
    AtLeastOne(s.workers, a.w, fd);
    if !a.dispatched { TokensAfter(s, a, fd); }
  }

  /** Any other step: the parser and the answers of the connection are left alone. */
  lemma OtherInStep(s: State, a: Action, fd: Fd, got: seq<string>)
    requires Enabled(s, a) && Sound(s, fd) && InStep(s, fd, got)
    requires !a.Arrive? ==> s.workers[a.w] != Parsed(fd) && !(a.Receive? && s.workers[a.w] == Locked(fd))
    ensures InStep(Step(s, a), fd, got)
  {
    var t := Step(s, a);
    TokensAfter(s, a, fd);
    if fd in s.conns {
      if Busy(s.workers, fd) { StaysBusy(s, a, fd); }
      assert Bare(t.conns[fd]) == Bare(s.conns[fd]);
      assert Bare(AnswerGiven(t.conns[fd])) == Bare(AnswerGiven(s.conns[fd]));
    }
  }

  lemma {:induction false} AlwaysInStep(ss: seq<State>, actions: seq<Action>, i: nat, fd: Fd)
    requires Run(ss, actions) && i < |ss|
    ensures InStep(ss[i], fd, Received(ss, actions, i, fd))
    decreases i
  {
    if i > 0 {
      AlwaysInStep(ss, actions, i - 1, fd);
      AlwaysSound(ss, actions, i - 1, fd);
      var s, a, got := ss[i - 1], actions[i - 1], Received(ss, actions, i - 1, fd);
      assert ss[i] == Step(s, a);
      assert got + [] == got;
      if !a.Arrive? && a.Receive? && s.workers[a.w] == Locked(fd) {
        ReadInStep(s, a, fd, got);
      } else if !a.Arrive? && s.workers[a.w] == Parsed(fd) {
        AnswerInStep(s, a, fd, got);
      } else {
        OtherInStep(s, a, fd, got);
      }
    }
  }

  /** No answer is due and the event is not lost. */
  ghost predicate Settled(s: State, fd: Fd) { fd in s.conns && Tokens(s, fd) > 0 && !Busy(s.workers, fd) }

  /** However the workers interleave, each connection is served as if one worker
      took its reads one after the other: buffer, parser, answered buffers and
      dispatched requests are those of `AfterReads`. */
  lemma ServedInOrder(ss: seq<State>, actions: seq<Action>, i: nat, fd: Fd)
    requires Run(ss, actions) && i < |ss| && Settled(ss[i], fd)
    ensures var c, d := ss[i].conns[fd], AfterReads(NEW_CONN, Received(ss, actions, i, fd));
            && c.buffer == d.buffer && c.request == d.request && c.buffers == d.buffers
            && c.taken == d.taken && c.answers == d.answers && c.dead == d.dead
  {
    AlwaysInStep(ss, actions, i, fd);
    var c, d := ss[i].conns[fd], AfterReads(NEW_CONN, Received(ss, actions, i, fd));
    assert Bare(c) == Bare(d);
    assert Bare(c).buffer == Bare(d).buffer && Bare(c).request == Bare(d).request && Bare(c).buffers == Bare(d).buffers;
    assert Bare(c).taken == Bare(d).taken && Bare(c).answers == Bare(d).answers && Bare(c).dead == Bare(d).dead;
  }

  /** So in every run whose reads end where messages end, the requests dispatched
      are the first message of each read, as one parse gives it, in order; and
      they are all messages exactly when no read holds more than one. */
  lemma HeadsAreServed(ss: seq<State>, actions: seq<Action>, i: nat, fd: Fd, groups: seq<seq<string>>)
    requires Run(ss, actions) && i < |ss| && Settled(ss[i], fd)
    requires WholeMessages(groups) && Received(ss, actions, i, fd) == ReadsOf(groups)
    ensures var c := ss[i].conns[fd];
            && c.buffer == "" && c.request == FRESH && c.taken == ReadsOf(groups)
            && c.answers == Requests(Heads(groups))
            && (c.answers == Requests(Flat(groups)) <==> forall k :: 0 <= k < |groups| ==> |groups[k]| == 1)
  {
    ServedInOrder(ss, actions, i, fd);
    HeadsAreAnswered(NEW_CONN, groups);
    OneForOne(NEW_CONN, groups);
    assert [] + ReadsOf(groups) == ReadsOf(groups);
    assert [] + Requests(Heads(groups)) == Requests(Heads(groups));
    assert [] + Requests(Flat(groups)) == Requests(Flat(groups));
  }

  // ---- the map, and workers that wait for nothing ---------------------------------------------

  predicate PutIn(s: State, a: Action, fd: Fd) {
    a.InsertConn? && a.w < |s.workers| && s.workers[a.w] == Accepting(fd)
  }

  predicate TakenOut(s: State, a: Action, fd: Fd) {
    a.PeerClosed? && a.w < |s.workers| && s.workers[a.w] == Locked(fd)
  }

  /** Put in at step `j` of the first `i` and not taken out behind it. */
  ghost predicate StaysIn(ss: seq<State>, actions: seq<Action>, j: int, i: nat, fd: Fd)
    requires i <= |actions| <= |ss|
  {
    0 <= j < i && PutIn(ss[j], actions[j], fd) && forall k :: j < k < i ==> !TakenOut(ss[k], actions[k], fd)
  }

  predicate InMap(s: State, fd: Fd) { fd in s.conns && s.conns[fd].inMap }

  lemma InMapAfter(s: State, a: Action, fd: Fd)
    requires Enabled(s, a)
    ensures InMap(Step(s, a), fd) <==> PutIn(s, a, fd) || (InMap(s, fd) && !TakenOut(s, a, fd))
  {
  }

  lemma StaysInAfter(ss: seq<State>, actions: seq<Action>, n: nat, m: nat, fd: Fd)
    requires n < |actions| <= |ss| && m == n + 1
    ensures (exists j :: StaysIn(ss, actions, j, m, fd))
       <==> PutIn(ss[n], actions[n], fd)
            || ((exists j :: StaysIn(ss, actions, j, n, fd)) && !TakenOut(ss[n], actions[n], fd))
  {
    if PutIn(ss[n], actions[n], fd) { assert StaysIn(ss, actions, n, m, fd); }
    if j :| StaysIn(ss, actions, j, n, fd) {
      if !TakenOut(ss[n], actions[n], fd) { assert StaysIn(ss, actions, j, m, fd); }
    }
    if j :| StaysIn(ss, actions, j, m, fd) {
      if j < n { assert StaysIn(ss, actions, j, n, fd); }
    }
  }

  /** A connection can be found exactly from the end of its accept until the peer
      is seen to have closed it. */
  lemma {:induction false} InMapExactly(ss: seq<State>, actions: seq<Action>, i: nat, fd: Fd)
    requires Run(ss, actions) && i < |ss|
    ensures InMap(ss[i], fd) <==> exists j :: StaysIn(ss, actions, j, i, fd)
    decreases i
  {
    if i > 0 {
      InMapExactly(ss, actions, i - 1, fd);
      InMapAfter(ss[i - 1], actions[i - 1], fd);
      StaysInAfter(ss, actions, i - 1, i, fd);
    }
  }

  predicate AllKnown(s: State) {
    forall w :: 0 <= w < |s.workers| && s.workers[w] != Waiting ==> s.workers[w].fd in s.conns
  }

  lemma {:induction false} AlwaysKnown(ss: seq<State>, actions: seq<Action>, i: nat)
    requires Run(ss, actions) && i < |ss|
    ensures AllKnown(ss[i])
    decreases i
  {
    if i > 0 {
      AlwaysKnown(ss, actions, i - 1);
      assert Enabled(ss[i - 1], actions[i - 1]) && ss[i] == Step(ss[i - 1], actions[i - 1]);
    }
  }

  /** Worker `w` can take a step now. */
  ghost predicate CanStep(s: State, w: nat) { exists a: Action :: !a.Arrive? && a.w == w && Enabled(s, a) }

  /** A worker that holds the lock can receive whatever amount is there, up to 4096. */
  lemma AnyAmount(ss: seq<State>, actions: seq<Action>, i: nat, w: nat, fd: Fd, n: nat)
    requires Run(ss, actions) && i < |ss| && w < |ss[i].workers| && ss[i].workers[w] == Locked(fd)
    ensures fd in ss[i].conns
    ensures Enabled(ss[i], Receive(w, n)) <==> 1 <= n <= |ss[i].conns[fd].pending| && n <= 4096
    ensures Enabled(ss[i], PeerClosed(w)) <==> ss[i].conns[fd].pending == ""
  {
    AlwaysKnown(ss, actions, i);
  }

  /** In every run a worker that has taken an event can go on, unless another one
      holds the lock of its connection, and that one can. */
  lemma NeverStuck(ss: seq<State>, actions: seq<Action>, i: nat, w: nat)
    requires Run(ss, actions) && i < |ss| && w < |ss[i].workers| && ss[i].workers[w] != Waiting
    ensures CanStep(ss[i], w) ||
            exists v :: 0 <= v < |ss[i].workers| && v != w && Holds(ss[i].workers[v], ss[i].workers[w].fd)
                        && CanStep(ss[i], v)
  {
    AlwaysKnown(ss, actions, i);
    var s := ss[i];
    if s.workers[w].Delivered? && !LockFree(s, s.workers[w].fd) {
      var v :| 0 <= v < |s.workers| && Holds(s.workers[v], s.workers[w].fd);
      CanGoOn(s, v);
    } else {
      CanGoOn(s, w);
    }
  }

  lemma CanGoOn(s: State, w: nat)
    requires AllKnown(s) && w < |s.workers| && s.workers[w] != Waiting
    requires s.workers[w].Delivered? ==> LockFree(s, s.workers[w].fd)
    ensures CanStep(s, w)
  {
    var a := match s.workers[w]
      case Accepting(_) => InsertConn(w)
      case Delivered(_) => Find(w)
      case Locked(fd) => if s.conns[fd].pending == "" then PeerClosed(w) else Receive(w, 1)
      case Parsed(_) => Reply(w, true)
      case Answered(_) => Rearm(w)
      case Rearmed(_) => Unlock(w)
      case Waiting => Unlock(w);
    assert Enabled(s, a);
  }

  // ---- an event takes five steps at most --------------------------------------------------------

  /** Steps the worker has in front of it until it waits again. */
  function Ahead(p: Phase): nat {
    match p
    case Waiting => 0
    case Accepting(_) => 1
    case Delivered(_) => 5
    case Locked(_) => 4
    case Parsed(_) => 3
    case Answered(_) => 2
    case Rearmed(_) => 1
  }

  /** The steps `i` to `j` that worker `w` takes. */
  function StepsOf(actions: seq<Action>, i: nat, j: nat, w: nat): nat
    requires i <= j <= |actions|
    decreases j
  {
    if i == j then 0
    else StepsOf(actions, i, j - 1, w) + if !actions[j - 1].Arrive? && actions[j - 1].w == w then 1 else 0
  }

  predicate TakesEvent(a: Action, w: nat) { (a.Deliver? || a.Accept?) && a.w == w }

  lemma OneStepLess(s: State, a: Action, w: nat)
    requires Enabled(s, a) && w < |s.workers| && !TakesEvent(a, w)
    ensures |Step(s, a).workers| == |s.workers|
    ensures if !a.Arrive? && a.w == w then Ahead(Step(s, a).workers[w]) < Ahead(s.workers[w])
            else Step(s, a).workers[w] == s.workers[w]
  {
  }

  /** From the delivery of an event to the next one a worker takes at most five
      steps, and when it has taken them it holds no lock and waits. */
  lemma {:induction false} ComesBack(ss: seq<State>, actions: seq<Action>, i: nat, j: nat, w: nat)
    requires Run(ss, actions) && i <= j < |ss| && w < |ss[i].workers|
    requires forall k :: i <= k < j ==> !TakesEvent(actions[k], w)
    ensures |ss[j].workers| == |ss[i].workers|
    ensures StepsOf(actions, i, j, w) + Ahead(ss[j].workers[w]) <= Ahead(ss[i].workers[w]) <= 5
    ensures StepsOf(actions, i, j, w) == Ahead(ss[i].workers[w]) ==> ss[j].workers[w] == Waiting
    decreases j
  {
    if i < j {
      ComesBack(ss, actions, i, j - 1, w);
      OneStepLess(ss[j - 1], actions[j - 1], w);
    }
  }
}
