/** What the workers of src/Server/Session.cpp:75-107 come to tick: whom, how
    often and in which order, in any run. */
module SessionRounds {
  import opened SessionGroups

  // ---- what a lookup finds ----------------------------------------------------------------

  predicate Issues(a: Action, id: Id) { a.Insert? && a.id == id }

  predicate TearsDown(a: Action, id: Id) { a.Teardown? && a.id == id }

  /** Issued at step `j` of the first `n` and not torn down behind it. */
  predicate StaysActive(actions: seq<Action>, j: int, n: nat, id: Id)
    requires n <= |actions|
  {
    0 <= j < n && Issues(actions[j], id) && forall k :: j < k < n ==> !TearsDown(actions[k], id)
  }

  lemma StaysActiveAfter(actions: seq<Action>, n: nat, m: nat, id: Id)
    requires n < |actions| && m == n + 1
    ensures (exists j :: StaysActive(actions, j, m, id))
       <==> Issues(actions[n], id) || ((exists j :: StaysActive(actions, j, n, id)) && !TearsDown(actions[n], id))
  {
    if Issues(actions[n], id) { assert StaysActive(actions, n, m, id); }
    if j :| StaysActive(actions, j, n, id) {
      if !TearsDown(actions[n], id) { assert StaysActive(actions, j, m, id); }
    }
    if j :| StaysActive(actions, j, m, id) {
      if j < n { assert StaysActive(actions, j, n, id); }
    }
  }

  lemma LookupAfter(s: State, a: Action, t: State, id: Id)
    requires Next(s, a, t)
    ensures LookupSucceeds(t, id) <==> Issues(a, id) || (LookupSucceeds(s, id) && !TearsDown(a, id))
  {
  }

  /** A lookup succeeds exactly from the issue of the id to its teardown. */
  lemma {:induction false} LookupExactly(ss: seq<State>, actions: seq<Action>, i: nat, id: Id)
    requires Run(ss, actions) && i < |ss|
    ensures LookupSucceeds(ss[i], id) <==> exists j :: StaysActive(actions, j, i, id)
    decreases i
  {
    if i > 0 {
      LookupExactly(ss, actions, i - 1, id);
      LookupAfter(ss[i - 1], actions[i - 1], ss[i], id);
      StaysActiveAfter(actions, i - 1, i, id);
    }
  }

  // ---- when a tick starts -------------------------------------------------------------------

  /** The worker of group `g` starts to tick session `id` in the step from `s` to `t`. */
  predicate StartsTick(s: State, t: State, g: nat, id: Id) {
    && g < |s.groups| && g < |t.groups| && s.groups[g].worker.At? && t.groups[g].worker.Ticking?
    && t.groups[g].worker.i < |t.groups[g].members| && t.groups[g].members[t.groups[g].worker.i] == id
  }

  /** A worker in front of member `k` starts its tick if a lookup of it would
      succeed, and else passes it; in any other step of a run none starts one. */
  lemma TickStartsExactly(s: State, a: Action, t: State, g: nat, k: nat)
    requires Sound(s) && Next(s, a, t) && g < |s.groups| && s.groups[g].worker == At(k)
    ensures |t.groups| == |s.groups|
    ensures a == Visit(g) ==>
              && k < |s.groups[g].members|
              && t.groups[g].worker == (if LookupSucceeds(s, s.groups[g].members[k]) then Ticking(k) else At(k + 1))
    ensures a != Visit(g) ==> t.groups[g].worker.At?
    ensures a == Visit(g) ==> t.groups[g].members == s.groups[g].members && t.groups[g].queue == s.groups[g].queue
  {
    if a == Visit(g) { RemovalGuardNeverHolds(s, g, k); }
  }

  /** No tick starts in a step that is not a visit, or of a session that a lookup
      would not find. */
  lemma TicksAreOfActive(ss: seq<State>, actions: seq<Action>, i: nat, g: nat, id: Id)
    requires Run(ss, actions) && i < |actions| && StartsTick(ss[i], ss[i + 1], g, id)
    ensures actions[i] == Visit(g) && LookupSucceeds(ss[i], id)
  {
    AlwaysPlaced(ss, actions, i);
    assert Next(ss[i], actions[i], ss[i + 1]);
    TickStartsExactly(ss[i], actions[i], ss[i + 1], g, ss[i].groups[g].worker.i);
  }

  lemma NoTickAfterTeardown(ss: seq<State>, actions: seq<Action>, i: nat, j: nat, g: nat, id: Id)
    requires Run(ss, actions) && i < j < |actions| && actions[i] == Teardown(id)
    ensures !StartsTick(ss[j], ss[j + 1], g, id)
  {
    if StartsTick(ss[j], ss[j + 1], g, id) {
      TicksAreOfActive(ss, actions, j, g, id);
      NoLookupAfterTeardown(ss, actions, i, j, id);
    }
  }

  // ---- one round of a worker -------------------------------------------------------------------

  /** From step `i` on the worker of group `g` stands in front of the first
      member, and until step `j` it neither drains its queue nor throws. */
  ghost predicate InRound(ss: seq<State>, actions: seq<Action>, i: nat, j: nat, g: nat) {
    && Run(ss, actions) && i <= j < |ss| && g < |ss[i].groups| && ss[i].groups[g].worker == At(0)
    && forall k :: i <= k < j ==> actions[k] != Drain(g) && actions[k] != TickThrows(g)
  }

  /** How many members the worker has come to. */
  function Reached(w: Worker): nat { match w case At(i) => i case Ticking(i) => i + 1 }

  /** `visits` are the steps, in order, in which the worker came to its members. */
  ghost predicate VisitedBy(ss: seq<State>, actions: seq<Action>, i: nat, j: nat, g: nat, members: seq<Id>,
                           visits: seq<nat>)
    requires j <= |actions| < |ss|
  {
    && (forall k :: 0 <= k < |visits| ==> i <= visits[k] < j && VisitAt(ss, actions, visits[k], g, members, k))
    && (forall k, l :: 0 <= k < l < |visits| ==> visits[k] < visits[l])
    && (forall v :: i <= v < j && actions[v] == Visit(g) ==> v in visits)
  }

  /** In step `v` the worker comes to member `k`: it starts its tick if a lookup
      would find it, and else passes it. */
  ghost predicate VisitAt(ss: seq<State>, actions: seq<Action>, v: nat, g: nat, members: seq<Id>, k: nat)
    requires v < |actions| < |ss|
  {
    && actions[v] == Visit(g) && k < |members|
    && g < |ss[v].groups| && ss[v].groups[g].members == members && ss[v].groups[g].worker == At(k)
    && g < |ss[v + 1].groups| && ss[v + 1].groups[g].members == members
    && ss[v + 1].groups[g].worker == if LookupSucceeds(ss[v], members[k]) then Ticking(k) else At(k + 1)
  }

  /** A step inside a round: the members stay, and only a visit reaches a new one. */
  lemma RoundStep(s: State, a: Action, t: State, g: nat)
    requires Sound(s) && Next(s, a, t) && g < |s.groups| && a != Drain(g) && a != TickThrows(g)
    ensures |t.groups| == |s.groups| && t.groups[g].members == s.groups[g].members
    ensures Reached(t.groups[g].worker) == Reached(s.groups[g].worker) + if a == Visit(g) then 1 else 0
    ensures a == Visit(g) ==>
              && s.groups[g].worker.At? && s.groups[g].worker.i < |s.groups[g].members|
              && var k := s.groups[g].worker.i;
                 t.groups[g].worker == if LookupSucceeds(s, s.groups[g].members[k]) then Ticking(k) else At(k + 1)
  {
    if a == Visit(g) { RemovalGuardNeverHolds(s, g, s.groups[g].worker.i); }
  }

  lemma VisitedMore(ss: seq<State>, actions: seq<Action>, i: nat, j: nat, g: nat, members: seq<Id>, visits: seq<nat>)
    returns (more: seq<nat>)
    requires i <= j < |actions| < |ss| && VisitedBy(ss, actions, i, j, g, members, visits)
    requires actions[j] == Visit(g) ==> VisitAt(ss, actions, j, g, members, |visits|)
    ensures VisitedBy(ss, actions, i, j + 1, g, members, more)
    ensures |more| == |visits| + if actions[j] == Visit(g) then 1 else 0
  {
    more := visits + if actions[j] == Visit(g) then [j] else [];
    forall v | i <= v < j + 1 && actions[v] == Visit(g) ensures v in more {
      if v < j { assert v in visits; }
    }
  }

  lemma NextVisit(ss: seq<State>, actions: seq<Action>, j: nat, g: nat, members: seq<Id>, k: nat)
    requires j < |actions| < |ss| && Sound(ss[j]) && Next(ss[j], actions[j], ss[j + 1])
    requires actions[j] != Drain(g) && actions[j] != TickThrows(g)
    requires g < |ss[j].groups| && ss[j].groups[g].members == members && Reached(ss[j].groups[g].worker) == k
    ensures |ss[j + 1].groups| == |ss[j].groups| && ss[j + 1].groups[g].members == members
    ensures Reached(ss[j + 1].groups[g].worker) == k + if actions[j] == Visit(g) then 1 else 0
    ensures actions[j] == Visit(g) ==> VisitAt(ss, actions, j, g, members, k)
  {
    RoundStep(ss[j], actions[j], ss[j + 1], g);
  }

  lemma {:induction false} RoundVisits(ss: seq<State>, actions: seq<Action>, i: nat, j: nat, g: nat)
    returns (visits: seq<nat>)
    requires InRound(ss, actions, i, j, g)
    ensures |ss[j].groups| == |ss[i].groups| && ss[j].groups[g].members == ss[i].groups[g].members
    ensures VisitedBy(ss, actions, i, j, g, ss[i].groups[g].members, visits)
    ensures |visits| == Reached(ss[j].groups[g].worker)
    decreases j - i
  {
    visits := [];
    if i < j {
      visits := RoundVisits(ss, actions, i, j - 1, g);
      AlwaysPlaced(ss, actions, j - 1);
      NextVisit(ss, actions, j - 1, g, ss[i].groups[g].members, |visits|);
      visits := VisitedMore(ss, actions, i, j - 1, g, ss[i].groups[g].members, visits);
    }
  }

  /** A whole round, from the first member to the drain, comes to every member
      once, in order, ticks those a lookup would find then, and no others; behind
      it the queue has joined the members at their end. */
  lemma RoundTicks(ss: seq<State>, actions: seq<Action>, i: nat, j: nat, g: nat) returns (visits: seq<nat>)
    requires InRound(ss, actions, i, j, g) && j < |actions| && actions[j] == Drain(g)
    ensures |visits| == |ss[i].groups[g].members|
    ensures VisitedBy(ss, actions, i, j, g, ss[i].groups[g].members, visits)
    ensures g < |ss[j].groups| && g < |ss[j + 1].groups| && ss[j + 1].groups[g].worker == At(0)
    ensures ss[j + 1].groups[g].members == ss[i].groups[g].members + ss[j].groups[g].queue
    ensures ss[j + 1].groups[g].queue == []
  {
    visits := RoundVisits(ss, actions, i, j, g);
    assert Next(ss[j], actions[j], ss[j + 1]);
  }

  /** A session whose client queued it before a drain is come to in the round
      behind that drain. */
  lemma QueuedComesNext(ss: seq<State>, actions: seq<Action>, j: nat, n: nat, g: nat, q: nat) returns (v: nat)
    requires Run(ss, actions) && j < n < |actions| && actions[j] == Drain(g) && actions[n] == Drain(g)
    requires InRound(ss, actions, j + 1, n, g) && g < |ss[j].groups| && q < |ss[j].groups[g].queue|
    ensures j < v < n && actions[v] == Visit(g)
    ensures StartsTick(ss[v], ss[v + 1], g, ss[j].groups[g].queue[q])
       <==> LookupSucceeds(ss[v], ss[j].groups[g].queue[q])
  {
    assert Next(ss[j], actions[j], ss[j + 1]);
    var visits := RoundTicks(ss, actions, j + 1, n, g);
    v := visits[|ss[j].groups[g].members| + q];
  }

  // ---- once each, and by one worker ---------------------------------------------------------------

  lemma {:induction false} CountTwo(ids: seq<Id>, k: nat, n: nat)
    requires k < n < |ids| && ids[k] == ids[n]
    ensures Count(ids, ids[k]) >= 2
    decreases |ids|
  {
    var m := |ids| - 1;
    if n == m { CountMember(ids[..m], k); } else { CountTwo(ids[..m], k, n); }
  }

  lemma InOneGroup(s: State, g: nat, h: nat, k: nat, n: nat)
    requires Sound(s) && g < |s.groups| && h < |s.groups|
    requires k < |s.groups[g].members| && n < |s.groups[h].members|
    requires s.groups[g].members[k] == s.groups[h].members[n]
    ensures g == h && k == n
  {
    var id := s.groups[g].members[k];
    CountMember(s.groups[g].members, k);
    CountMember(s.groups[h].members, n);
    assert Places(s, id) <= 1;
    if g < h { TwoGroups(s.groups, g, h, id); }
    if h < g { TwoGroups(s.groups, h, g, id); }
    GroupAmong(s.groups, g, id);
    if g == h && k < n { CountTwo(s.groups[g].members, k, n); }
    if g == h && n < k { CountTwo(s.groups[g].members, n, k); }
  }

  predicate StartsTickAt(ss: seq<State>, u: int, h: nat, id: Id) {
    0 <= u < |ss| - 1 && StartsTick(ss[u], ss[u + 1], h, id)
  }

  /** In a whole round of its group a member is ticked once if a lookup finds it
      when the worker comes to it, else not at all, and never by another worker. */
  lemma TickedOnce(ss: seq<State>, actions: seq<Action>, i: nat, j: nat, g: nat, k: nat) returns (v: nat)
    requires InRound(ss, actions, i, j, g) && j < |actions| && actions[j] == Drain(g)
    requires k < |ss[i].groups[g].members|
    ensures i <= v < j && VisitAt(ss, actions, v, g, ss[i].groups[g].members, k)
    ensures forall u, h: nat :: i <= u < j ==>
              (StartsTickAt(ss, u, h, ss[i].groups[g].members[k])
               <==> u == v && h == g && LookupSucceeds(ss[v], ss[i].groups[g].members[k]))
  {
    var visits := RoundTicks(ss, actions, i, j, g);
    v := visits[k];
    forall u, h: nat | i <= u < j && StartsTickAt(ss, u, h, ss[i].groups[g].members[k])
      ensures u == v && h == g && LookupSucceeds(ss[v], ss[i].groups[g].members[k])
    {
      OnlyAtVisit(ss, actions, i, j, g, k, visits, u, h);
    }
  }

  lemma OnlyAtVisit(ss: seq<State>, actions: seq<Action>, i: nat, j: nat, g: nat, k: nat, visits: seq<nat>,
                    u: nat, h: nat)
    requires InRound(ss, actions, i, j, g) && k < |ss[i].groups[g].members| == |visits| && j <= |actions|
    requires VisitedBy(ss, actions, i, j, g, ss[i].groups[g].members, visits)
    requires i <= u < j && StartsTick(ss[u], ss[u + 1], h, ss[i].groups[g].members[k])
    ensures u == visits[k] && h == g && LookupSucceeds(ss[u], ss[i].groups[g].members[k])
  {
    var members := ss[i].groups[g].members;
    TicksAreOfActive(ss, actions, u, h, members[k]);
    AlwaysPlaced(ss, actions, u + 1);
    var before := RoundVisits(ss, actions, i, u + 1, g);
    InOneGroup(ss[u + 1], g, h, k, ss[u + 1].groups[h].worker.i);
    var n :| 0 <= n < |visits| && visits[n] == u;
    assert VisitAt(ss, actions, u, g, members, n);
  }

  // ---- a round comes to its end -----------------------------------------------------------------------

  predicate WorkerOf(a: Action, g: nat) {
    match a
    case Visit(h) => h == g
    case EndTick(h) => h == g
    case TickThrows(h) => h == g
    case Erase(h) => h == g
    case Drain(h) => h == g
    case _ => false
  }

  /** How many of the steps `i` to `j` the worker of group `g` takes. */
  function StepsOf(actions: seq<Action>, i: nat, j: nat, g: nat): nat
    requires i <= j <= |actions|
    decreases j
  {
    if i == j then 0 else StepsOf(actions, i, j - 1, g) + if WorkerOf(actions[j - 1], g) then 1 else 0
  }

  function Place(w: Worker): nat { match w case At(i) => 2 * i case Ticking(i) => 2 * i + 1 }

  lemma PlaceMoves(s: State, a: Action, t: State, g: nat)
    requires Sound(s) && Next(s, a, t) && g < |s.groups| && a != Drain(g) && a != TickThrows(g)
    ensures g < |t.groups| && Place(t.groups[g].worker) >= Place(s.groups[g].worker) + if WorkerOf(a, g) then 1 else 0
  {
    if a == Visit(g) { RemovalGuardNeverHolds(s, g, s.groups[g].worker.i); }
  }

  lemma {:induction false} PlaceBound(ss: seq<State>, actions: seq<Action>, i: nat, j: nat, g: nat)
    requires InRound(ss, actions, i, j, g)
    ensures g < |ss[j].groups| && StepsOf(actions, i, j, g) <= Place(ss[j].groups[g].worker)
    decreases j - i
  {
    if i < j {
      PlaceBound(ss, actions, i, j - 1, g);
      AlwaysPlaced(ss, actions, j - 1);
      assert Next(ss[j - 1], actions[j - 1], ss[j]);
      PlaceMoves(ss[j - 1], actions[j - 1], ss[j], g);
    }
  }

  /** Unless a tick throws, the worker drains its queue behind at most two steps
      for each member, and at every time it can take its next step. */
  lemma RoundEnds(ss: seq<State>, actions: seq<Action>, i: nat, j: nat, g: nat)
    requires InRound(ss, actions, i, j, g)
    ensures StepsOf(actions, i, j, g) <= 2 * |ss[i].groups[g].members|
    ensures g < |ss[j].groups|
    ensures Enabled(ss[j], Visit(g)) || Enabled(ss[j], EndTick(g)) || Enabled(ss[j], Drain(g))
    ensures StepsOf(actions, i, j, g) == 2 * |ss[i].groups[g].members| ==> Enabled(ss[j], Drain(g))
  {
    PlaceBound(ss, actions, i, j, g);
    var visits := RoundVisits(ss, actions, i, j, g);
    AlwaysPlaced(ss, actions, j);
    assert WorkerSound(ss[j].groups[g]);
  }

  // ---- a session whose ticks throw ------------------------------------------------------------------

  /** Member `k` stays active, and no tick of it comes to its end in steps `i` to `n`. */
  ghost predicate AlwaysThrows(ss: seq<State>, actions: seq<Action>, i: nat, n: nat, g: nat, k: nat) {
    && Run(ss, actions) && i <= n < |ss| && g < |ss[i].groups| && k < |ss[i].groups[g].members|
    && (forall j :: i <= j < n ==> LookupSucceeds(ss[j], ss[i].groups[g].members[k]))
    && forall j :: i <= j < n && actions[j] == EndTick(g) ==>
         g < |ss[j].groups| && ss[j].groups[g].worker != Ticking(k)
  }

  lemma ThrowStep(s: State, a: Action, t: State, g: nat, k: nat)
    requires Sound(s) && Next(s, a, t) && g < |s.groups| && k < |s.groups[g].members|
    requires LookupSucceeds(s, s.groups[g].members[k])
    requires a == EndTick(g) ==> s.groups[g].worker != Ticking(k)
    requires Place(s.groups[g].worker) <= 2 * k + 1
    ensures a != Drain(g) && |t.groups| == |s.groups| && t.groups[g].members == s.groups[g].members
    ensures Place(t.groups[g].worker) <= 2 * k + 1
    ensures a == TickThrows(g) ==> t.groups[g].worker == At(0)
  {
    if a == Visit(g) { RemovalGuardNeverHolds(s, g, s.groups[g].worker.i); }
  }

  /** The worker of group `g` has not come past member `k`. */
  predicate NotPast(s: State, g: nat, k: nat, members: seq<Id>) {
    && g < |s.groups| && s.groups[g].members == members
    && match s.groups[g].worker case At(i) => i <= k case Ticking(i) => i <= k
  }

  lemma ThrowAgain(ss: seq<State>, actions: seq<Action>, i: nat, n: nat, g: nat, k: nat, j: nat)
    requires AlwaysThrows(ss, actions, i, n, g, k) && i <= j < n && NotPast(ss[j], g, k, ss[i].groups[g].members)
    ensures actions[j] != Drain(g) && NotPast(ss[j + 1], g, k, ss[i].groups[g].members)
    ensures actions[j] == TickThrows(g) ==> ss[j + 1].groups[g].worker == At(0)
  {
    AlwaysPlaced(ss, actions, j);
    assert Next(ss[j], actions[j], ss[j + 1]);
    ThrowStep(ss[j], actions[j], ss[j + 1], g, k);
  }

  /** An exception starts the round again from the first member: as long as a
      member always throws, no one behind it is ticked, and the queue is not drained. */
  lemma {:induction false} ThrowsStarve(ss: seq<State>, actions: seq<Action>, i: nat, n: nat, g: nat, k: nat,
                                            j: nat)
    requires AlwaysThrows(ss, actions, i, n, g, k) && ss[i].groups[g].worker == At(0)
    requires i <= j <= n
    ensures NotPast(ss[j], g, k, ss[i].groups[g].members)
    ensures j < n ==> actions[j] != Drain(g)
    ensures j < n && actions[j] == TickThrows(g) ==> NotPast(ss[j + 1], g, k, ss[i].groups[g].members)
                                                      && ss[j + 1].groups[g].worker == At(0)
    decreases j
  {
    if i < j {
      ThrowsStarve(ss, actions, i, n, g, k, j - 1);
      ThrowAgain(ss, actions, i, n, g, k, j - 1);
    }
    if j < n { ThrowAgain(ss, actions, i, n, g, k, j); }
  }

  // ---- the order of arrival ------------------------------------------------------------------------------

  function QueuedNow(s: State, a: Action, g: nat): seq<Id>
    requires Enabled(s, a)
  {
    if a.Enqueue? && s.clients[a.c].group == g then [s.clients[a.c].id] else []
  }

  /** The sessions that clients queued to group `g` in the first `i` steps. */
  ghost function Queued(ss: seq<State>, actions: seq<Action>, i: nat, g: nat): seq<Id>
    requires Run(ss, actions) && i < |ss|
  {
    if i == 0 then []
    else
      assert Next(ss[i - 1], actions[i - 1], ss[i]);
      Queued(ss, actions, i - 1, g) + QueuedNow(ss[i - 1], actions[i - 1], g)
  }

  lemma ArrivalStep(s: State, a: Action, t: State, g: nat)
    requires Sound(s) && Next(s, a, t) && g < |s.groups|
    ensures |t.groups| == |s.groups|
    ensures t.groups[g].members + t.groups[g].queue == s.groups[g].members + s.groups[g].queue + QueuedNow(s, a, g)
  {
    if a.Visit? { RemovalGuardNeverHolds(s, a.g, s.groups[a.g].worker.i); }
  }

  /** The vector of a group and behind it its queue are the sessions queued to it,
      in the order in which they were: none is lost, doubled or overtaken. */
  lemma {:induction false} ArrivalOrder(ss: seq<State>, actions: seq<Action>, i: nat, g: nat)
    requires Run(ss, actions) && i < |ss| && g < |ss[i].groups|
    ensures ss[i].groups[g].members + ss[i].groups[g].queue == Queued(ss, actions, i, g)
    decreases i
  {
    if i > 0 {
      AlwaysPlaced(ss, actions, i - 1);
      assert Next(ss[i - 1], actions[i - 1], ss[i]);
      ArrivalOrder(ss, actions, i - 1, g);
      ArrivalStep(ss[i - 1], actions[i - 1], ss[i], g);
    }
  }

  /** The session a client queues is the one it issued, to the group it chose. */
  lemma ChosenIsQueued(ss: seq<State>, actions: seq<Action>, c: nat, i: nat, j: nat, n: nat)
    requires Run(ss, actions) && i < j < n < |actions|
    requires actions[i] == Choose(c) && actions[j].Insert? && actions[j].c == c && actions[n] == Enqueue(c)
    requires forall k :: i < k < n && k != j ==> !ByClient(actions[k], c)
    ensures c < |ss[n].clients| && ss[n].clients[c].Inserted? && ss[n].clients[c].id == actions[j].id
    ensures var groups, g := ss[i].groups, ss[n].clients[c].group;
            && g < |groups| && (forall h :: 0 <= h < |groups| ==> |groups[g].members| <= |groups[h].members|)
            && forall h :: 0 <= h < g ==> |groups[g].members| < |groups[h].members|
  {
    assert Next(ss[i], actions[i], ss[i + 1]);
    ClientStays(ss, actions, c, i + 1, j);
    assert Next(ss[j], actions[j], ss[j + 1]);
    ClientStays(ss, actions, c, j + 1, n);
  }

  predicate ByClient(a: Action, c: nat) {
    match a
    case Choose(d) => d == c
    case Insert(d, _) => d == c
    case Enqueue(d) => d == c
    case _ => false
  }

  lemma {:induction false} ClientStays(ss: seq<State>, actions: seq<Action>, c: nat, i: nat, j: nat)
    requires Run(ss, actions) && i <= j < |ss| && c < |ss[i].clients|
    requires forall k :: i <= k < j ==> !ByClient(actions[k], c)
    ensures |ss[j].clients| == |ss[i].clients| && ss[j].clients[c] == ss[i].clients[c]
    decreases j
  {
    if i < j {
      ClientStays(ss, actions, c, i, j - 1);
      assert Next(ss[j - 1], actions[j - 1], ss[j]);
    }
  }
}
