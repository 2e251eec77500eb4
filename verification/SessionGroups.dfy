/** src/Server/Session.cpp:23-117 and 162-181: sessions handed from client threads
    to worker groups.  Every step below is one critical section or one visit of
    a worker; the run interleaves them in any order. */
module SessionGroups {

  type Id = string

  /** Where a client thread is inside `Session::get()`. */
  datatype Client = Idle | Chosen(group: nat) | Inserted(group: nat, id: Id)

  /** A worker stands in front of member `i`, or ticks it. */
  datatype Worker = At(i: nat) | Ticking(i: nat)

  datatype Group = Group(queue: seq<Id>, members: seq<Id>, worker: Worker, toRemove: seq<nat>)

  /** `sessions` is the global map, with the `is_active` flags. */
  datatype State = State(sessions: map<Id, bool>, clients: seq<Client>, groups: seq<Group>)

  datatype Action = Choose(c: nat)
                  | Insert(c: nat, id: Id)
                  | Enqueue(c: nat)
                  | Visit(g: nat)
                  | EndTick(g: nat)
                  | TickThrows(g: nat)
                  | Erase(g: nat)
                  | Drain(g: nat)
                  | Teardown(id: Id)

  // ---- counting ------------------------------------------------------------------------

  function Count(ids: seq<Id>, id: Id): nat {
    if ids == [] then 0 else Count(ids[..|ids| - 1], id) + if ids[|ids| - 1] == id then 1 else 0
  }

  function InClients(cs: seq<Client>, id: Id): nat {
    if cs == [] then 0
    else InClients(cs[..|cs| - 1], id) + if cs[|cs| - 1].Inserted? && cs[|cs| - 1].id == id then 1 else 0
  }

  function InGroup(g: Group, id: Id): nat { Count(g.queue, id) + Count(g.members, id) }

  function InGroups(gs: seq<Group>, id: Id): nat {
    if gs == [] then 0 else InGroups(gs[..|gs| - 1], id) + InGroup(gs[|gs| - 1], id)
  }

  /** In how many places a session is: in flight, in a queue, or in a vector. */
  function Places(s: State, id: Id): nat { InClients(s.clients, id) + InGroups(s.groups, id) }

  /** References counted by the shared pointers the model knows of: one in the
      map and one in each place. */
  function UseCount(s: State, id: Id): nat { Places(s, id) + if id in s.sessions then 1 else 0 }

  // ---- steps ---------------------------------------------------------------------------

  /** The group the scan of lines 47-55 ends with. */
  predicate FirstSmallest(gs: seq<Group>, g: nat) {
    && g < |gs|
    && (forall h :: 0 <= h < |gs| ==> |gs[g].members| <= |gs[h].members|)
    && (forall h :: 0 <= h < g ==> |gs[g].members| < |gs[h].members|)
  }

  method ChooseGroup(gs: seq<Group>) returns (dest: nat)
    requires gs != []
    ensures dest < |gs|
    ensures forall g :: 0 <= g < |gs| ==> |gs[dest].members| <= |gs[g].members|
    ensures forall g :: 0 <= g < dest ==> |gs[dest].members| < |gs[g].members|
    ensures FirstSmallest(gs, dest)
  {
    dest := 0;
    for g := 0 to |gs|
      invariant dest < |gs| && (g > 0 ==> dest < g) && (g == 0 ==> dest == 0)
      invariant forall h :: 0 <= h < g ==> |gs[dest].members| <= |gs[h].members|
      invariant forall h :: 0 <= h < dest ==> |gs[dest].members| < |gs[h].members|
    {
      if |gs[g].members| < |gs[dest].members| { dest := g; }
    }
  }

  /** `Session::Group`: the queue clients push to and the vector its worker ticks. */
  class SessionGroup {
    var newlyAdded: seq<Id>
    var sessions: seq<Id>

    constructor ()
      ensures newlyAdded == sessions == []
    {
      newlyAdded, sessions := [], [];
    }

    /** Lines 162-165. */
    method AddSession(id: Id)
      modifies this`newlyAdded
      ensures newlyAdded == old(newlyAdded) + [id]
    {
      newlyAdded := newlyAdded + [id];
    }

    /** Lines 100-106: the queue is emptied into the vector, first in first. */
    method DrainQueue()
      modifies this
      ensures newlyAdded == [] && sessions == old(sessions) + old(newlyAdded)
    {
      while newlyAdded != []
        invariant sessions + newlyAdded == old(sessions) + old(newlyAdded)
        decreases |newlyAdded|
      {
        sessions := sessions + [newlyAdded[0]];
        newlyAdded := newlyAdded[1..];
      }
    }
  }

  predicate Enabled(s: State, a: Action) {
    match a
    case Choose(c) => c < |s.clients| && s.clients[c] == Idle && s.groups != []
    case Insert(c, id) =>
      c < |s.clients| && s.clients[c].Chosen? && s.clients[c].group < |s.groups| && id !in s.sessions
    case Enqueue(c) => c < |s.clients| && s.clients[c].Inserted? && s.clients[c].group < |s.groups|
    case Visit(g) => g < |s.groups| && s.groups[g].worker.At? && s.groups[g].worker.i < |s.groups[g].members|
    case EndTick(g) => g < |s.groups| && s.groups[g].worker.Ticking?
    case TickThrows(g) => g < |s.groups| && s.groups[g].worker.Ticking?
    case Erase(g) =>
      && g < |s.groups| && s.groups[g].worker == At(|s.groups[g].members|)
      && s.groups[g].toRemove != [] && s.groups[g].toRemove[0] < |s.groups[g].members|
    case Drain(g) => g < |s.groups| && s.groups[g].worker == At(|s.groups[g].members|) && s.groups[g].toRemove == []
    case Teardown(id) => id in s.sessions
  }

  function WithGroup(s: State, i: nat, g: Group): State
    requires i < |s.groups|
  {
    s.(groups := s.groups[i := g])
  }

  function WithClient(s: State, i: nat, c: Client): State
    requires i < |s.clients|
  {
    s.(clients := s.clients[i := c])
  }

  /** Lines 81-92: tick an active session; mark one for removal when only the
      vector refers to it any more. */
  function Visited(s: State, gi: nat): Group
    requires Enabled(s, Visit(gi))
  {
    var g := s.groups[gi];
    var i := g.worker.i;
    var id := g.members[i];
    if id in s.sessions && s.sessions[id] then g.(worker := Ticking(i))
    else if UseCount(s, id) == 1 then g.(worker := At(i + 1), toRemove := g.toRemove + [i])
    else g.(worker := At(i + 1))
  }

  ghost predicate Next(s: State, a: Action, t: State) {
    && Enabled(s, a)
    && match a
       case Choose(c) => exists g :: FirstSmallest(s.groups, g) && t == WithClient(s, c, Chosen(g))
       case Insert(c, id) =>
         t == WithClient(s, c, Inserted(s.clients[c].group, id)).(sessions := s.sessions[id := true])
       case Enqueue(c) =>
         var g := s.groups[s.clients[c].group];
         t == WithGroup(WithClient(s, c, Idle), s.clients[c].group, g.(queue := g.queue + [s.clients[c].id]))
       case Visit(g) => t == WithGroup(s, g, Visited(s, g))
       case EndTick(g) => t == WithGroup(s, g, s.groups[g].(worker := At(s.groups[g].worker.i + 1)))
       case TickThrows(g) => t == WithGroup(s, g, s.groups[g].(worker := At(0)))
       case Erase(g) =>
         var gr := s.groups[g];
         var k := gr.toRemove[0];
         t == WithGroup(s, g, gr.(members := gr.members[..k] + gr.members[k + 1..], toRemove := gr.toRemove[1..],
                                  worker := At(|gr.members| - 1)))
       case Drain(g) =>
         var gr := s.groups[g];
         t == WithGroup(s, g, gr.(members := gr.members + gr.queue, queue := [], worker := At(0)))
       case Teardown(id) => t == s.(sessions := s.sessions[id := false])
  }

  predicate Start(s: State) {
    && s.sessions == map[]
    && (forall i :: 0 <= i < |s.clients| ==> s.clients[i] == Idle)
    && (forall i :: 0 <= i < |s.groups| ==> s.groups[i] == Group([], [], At(0), []))
  }

  /** Any interleaving of any number of clients and workers. */
  ghost predicate Run(ss: seq<State>, actions: seq<Action>) {
    && |ss| == |actions| + 1 && Start(ss[0])
    && forall i :: 0 <= i < |actions| ==> Next(ss[i], actions[i], ss[i + 1])
  }

  /** `Session::get(id)` returns a session. */
  predicate LookupSucceeds(s: State, id: Id) { id in s.sessions && s.sessions[id] }

  // ---- placement -------------------------------------------------------------------------

  lemma {:induction false} ClientsUpdate(cs: seq<Client>, i: nat, c: Client, id: Id)
    requires i < |cs|
    ensures InClients(cs[i := c], id) + InClients([cs[i]], id) == InClients(cs, id) + InClients([c], id)
    decreases |cs|
  {
    var n := |cs| - 1;
    OneClient(cs[i], id);
    OneClient(c, id);
    if i == n {
      assert cs[i := c][..n] == cs[..n];
    } else {
      ClientsUpdate(cs[..n], i, c, id);
      assert cs[i := c][..n] == cs[..n][i := c];
    }
  }

  lemma OneClient(c: Client, id: Id)
    ensures InClients([c], id) == if c.Inserted? && c.id == id then 1 else 0
  {
    assert [c][..0] == [];
  }

  lemma {:induction false} GroupsUpdate(gs: seq<Group>, i: nat, g: Group, id: Id)
    requires i < |gs|
    ensures InGroups(gs[i := g], id) + InGroup(gs[i], id) == InGroups(gs, id) + InGroup(g, id)
    decreases |gs|
  {
    var n := |gs| - 1;
    if i == n {
      assert gs[i := g][..n] == gs[..n];
    } else {
      GroupsUpdate(gs[..n], i, g, id);
      assert gs[i := g][..n] == gs[..n][i := g];
    }
  }

  lemma {:induction false} CountConcat(a: seq<Id>, b: seq<Id>, id: Id)
    ensures Count(a + b, id) == Count(a, id) + Count(b, id)
    decreases |b|
  {
    if b == [] {
      assert a + b == a;
    } else {
      CountConcat(a, b[..|b| - 1], id);
      assert (a + b)[..|a + b| - 1] == a + b[..|b| - 1];
    }
  }

  lemma {:induction false} CountMember(ids: seq<Id>, i: nat)
    requires i < |ids|
    ensures Count(ids, ids[i]) >= 1
    decreases |ids|
  {
    if i < |ids| - 1 { CountMember(ids[..|ids| - 1], i); }
  }

  lemma {:induction false} GroupAmong(gs: seq<Group>, g: nat, id: Id)
    requires g < |gs|
    ensures InGroups(gs, id) >= InGroup(gs[g], id)
    decreases |gs|
  {
    if g < |gs| - 1 { GroupAmong(gs[..|gs| - 1], g, id); }
  }

  lemma {:induction false} TwoGroups(gs: seq<Group>, g: nat, h: nat, id: Id)
    requires g < h < |gs|
    ensures InGroups(gs, id) >= InGroup(gs[g], id) + InGroup(gs[h], id)
    decreases |gs|
  {
    if h == |gs| - 1 { GroupAmong(gs[..h], g, id); } else { TwoGroups(gs[..|gs| - 1], g, h, id); }
  }

  predicate WorkerSound(g: Group) {
    && g.toRemove == []
    && match g.worker case At(i) => i <= |g.members| case Ticking(i) => i < |g.members|
  }

  /** Every session of the map is in exactly one place; nothing else is anywhere. */
  ghost predicate Placed(s: State) {
    forall id :: Places(s, id) == if id in s.sessions then 1 else 0
  }

  ghost predicate Sound(s: State) {
    Placed(s) && forall g :: 0 <= g < |s.groups| ==> WorkerSound(s.groups[g])
  }

  /** The map keeps a reference of its own, so the guard of line 87 never holds. */
  lemma RemovalGuardNeverHolds(s: State, g: nat, i: nat)
    requires Sound(s) && g < |s.groups| && i < |s.groups[g].members|
    ensures s.groups[g].members[i] in s.sessions && UseCount(s, s.groups[g].members[i]) == 2
  {
    var id := s.groups[g].members[i];
    CountMember(s.groups[g].members, i);
    GroupAmong(s.groups, g, id);
  }

  lemma PlacesAfter(s: State, a: Action, t: State, id: Id)
    requires Sound(s) && Next(s, a, t)
    ensures Places(t, id) == Places(s, id) + if a.Insert? && a.id == id then 1 else 0
  {
    match a
    case Choose(c) =>
      ClientsUpdate(s.clients, c, t.clients[c], id);
      OneClient(s.clients[c], id);
      OneClient(t.clients[c], id);
    case Insert(c, new_) =>
      ClientsUpdate(s.clients, c, t.clients[c], id);
      OneClient(s.clients[c], id);
      OneClient(t.clients[c], id);
    case Enqueue(c) => EnqueueKeeps(s, c, t, id);
    case Visit(g) =>
      RemovalGuardNeverHolds(s, g, s.groups[g].worker.i);
      GroupsUpdate(s.groups, g, t.groups[g], id);
    case EndTick(g) => GroupsUpdate(s.groups, g, t.groups[g], id);
    case TickThrows(g) => GroupsUpdate(s.groups, g, t.groups[g], id);
    case Erase(g) =>
    case Drain(g) =>
      GroupsUpdate(s.groups, g, t.groups[g], id);
      CountConcat(s.groups[g].members, s.groups[g].queue, id);
    case Teardown(old_) =>
  }

  lemma EnqueueKeeps(s: State, c: nat, t: State, id: Id)
    requires Next(s, Enqueue(c), t)
    ensures Places(t, id) == Places(s, id)
  {
    var k, new_ := s.clients[c].group, s.clients[c].id;
    ClientsUpdate(s.clients, c, Idle, id);
    OneClient(s.clients[c], id);
    OneClient(Idle, id);
    GroupsUpdate(s.groups, k, t.groups[k], id);
    CountConcat(s.groups[k].queue, [new_], id);
    assert [new_][..0] == [];
  }

  lemma NextSound(s: State, a: Action, t: State)
    requires Sound(s) && Next(s, a, t)
    ensures Sound(t)
  {
    forall id ensures Places(t, id) == if id in t.sessions then 1 else 0 {
      PlacesAfter(s, a, t, id);
    }
    if a.Visit? { RemovalGuardNeverHolds(s, a.g, s.groups[a.g].worker.i); }
  }

  lemma {:induction false} Nowhere(s: State, id: Id)
    requires Start(s)
    ensures Places(s, id) == 0
  {
    NoClients(s.clients, id);
    NoGroups(s.groups, id);
  }

  lemma {:induction false} NoClients(cs: seq<Client>, id: Id)
    requires forall i :: 0 <= i < |cs| ==> cs[i] == Idle
    ensures InClients(cs, id) == 0
  {
    if cs != [] { NoClients(cs[..|cs| - 1], id); }
  }

  lemma {:induction false} NoGroups(gs: seq<Group>, id: Id)
    requires forall i :: 0 <= i < |gs| ==> gs[i] == Group([], [], At(0), [])
    ensures InGroups(gs, id) == 0
  {
    if gs != [] { NoGroups(gs[..|gs| - 1], id); }
  }

  /** Session placement: in every reachable state each session is in exactly one
      place and occurs there once. */
  lemma {:induction false} AlwaysPlaced(ss: seq<State>, actions: seq<Action>, i: nat)
    requires Run(ss, actions) && i < |ss|
    ensures Sound(ss[i])
    decreases i
  {
    if i == 0 {
      forall id ensures Places(ss[0], id) == 0 { Nowhere(ss[0], id); }
    } else {
      AlwaysPlaced(ss, actions, i - 1);
      NextSound(ss[i - 1], actions[i - 1], ss[i]);
    }
  }

  /** No two workers tick the same session at once. */
  lemma TicksAreExclusive(ss: seq<State>, actions: seq<Action>, i: nat, g: nat, h: nat)
    requires Run(ss, actions) && i < |ss| && g < h < |ss[i].groups|
    requires ss[i].groups[g].worker.Ticking? && ss[i].groups[h].worker.Ticking?
    ensures Sound(ss[i])
    ensures ss[i].groups[g].members[ss[i].groups[g].worker.i] != ss[i].groups[h].members[ss[i].groups[h].worker.i]
  {
    AlwaysPlaced(ss, actions, i);
    var a, b := ss[i].groups[g], ss[i].groups[h];
    CountMember(a.members, a.worker.i);
    CountMember(b.members, b.worker.i);
    TwoGroups(ss[i].groups, g, h, a.members[a.worker.i]);
    assert Places(ss[i], a.members[a.worker.i]) <= 1;
  }

  /** A session stays in the map, stays torn down once it is, and its id is never
      issued again. */
  lemma {:induction false} OnceIssued(ss: seq<State>, actions: seq<Action>, i: nat, j: nat, id: Id)
    requires Run(ss, actions) && i <= j < |ss| && id in ss[i].sessions
    ensures id in ss[j].sessions
    ensures !LookupSucceeds(ss[i], id) ==> !LookupSucceeds(ss[j], id)
    ensures j < |actions| && actions[j].Insert? ==> actions[j].id != id
    decreases j
  {
    if i < j {
      OnceIssued(ss, actions, i, j - 1, id);
      assert Next(ss[j - 1], actions[j - 1], ss[j]);
    }
    if j < |actions| { assert Next(ss[j], actions[j], ss[j + 1]); }
  }

  /** No lookup succeeds after the teardown. */
  lemma NoLookupAfterTeardown(ss: seq<State>, actions: seq<Action>, i: nat, j: nat, id: Id)
    requires Run(ss, actions) && i < j < |ss| && actions[i] == Teardown(id)
    ensures !LookupSucceeds(ss[j], id)
  {
    assert Next(ss[i], actions[i], ss[i + 1]);
    OnceIssued(ss, actions, i + 1, j, id);
  }

  // ---- balance -------------------------------------------------------------------------------

  function ChoseGroup(c: Client, g: nat): bool { !c.Idle? && c.group == g }

  /** Clients inside `get` that chose group `g`. */
  function InFlight(cs: seq<Client>, g: nat): nat {
    if cs == [] then 0 else InFlight(cs[..|cs| - 1], g) + if ChoseGroup(cs[|cs| - 1], g) then 1 else 0
  }

  function Backlog(s: State, g: nat): nat
    requires g < |s.groups|
  {
    InFlight(s.clients, g) + |s.groups[g].queue|
  }

  /** Sessions of group `g`, those on their way to it included. */
  function Assigned(s: State, g: nat): nat
    requires g < |s.groups|
  {
    Backlog(s, g) + |s.groups[g].members|
  }

  lemma {:induction false} InFlightUpdate(cs: seq<Client>, i: nat, c: Client, g: nat)
    requires i < |cs|
    ensures InFlight(cs[i := c], g) + (if ChoseGroup(cs[i], g) then 1 else 0)
         == InFlight(cs, g) + if ChoseGroup(c, g) then 1 else 0
    decreases |cs|
  {
    var n := |cs| - 1;
    if i == n {
      assert cs[i := c][..n] == cs[..n];
    } else {
      InFlightUpdate(cs[..n], i, c, g);
      assert cs[i := c][..n] == cs[..n][i := c];
    }
  }

  /** Only a choice changes the number of sessions assigned to a group, and it
      adds to a smallest one. */
  lemma AssignedAfter(s: State, a: Action, t: State, g: nat)
    requires Sound(s) && Next(s, a, t) && g < |s.groups|
    ensures |t.groups| == |s.groups|
    ensures a.Choose? && ChoseGroup(t.clients[a.c], g) ==>
              Assigned(t, g) == Assigned(s, g) + 1 && FirstSmallest(s.groups, g)
              && |t.groups[g].members| == |s.groups[g].members|
    ensures !(a.Choose? && ChoseGroup(t.clients[a.c], g)) ==> Assigned(t, g) == Assigned(s, g)
  {
    if a.Choose? || a.Insert? || a.Enqueue? { InFlightUpdate(s.clients, a.c, t.clients[a.c], g); }
    if a.Visit? { RemovalGuardNeverHolds(s, a.g, s.groups[a.g].worker.i); }
  }

  ghost predicate Balanced(s: State, bound: nat) {
    forall g, h :: 0 <= g < |s.groups| && 0 <= h < |s.groups| ==> Assigned(s, g) <= Assigned(s, h) + bound
  }

  lemma NextBalanced(s: State, a: Action, t: State, bound: nat)
    requires Sound(s) && Next(s, a, t) && Balanced(s, bound)
    requires forall g :: 0 <= g < |t.groups| ==> Backlog(t, g) <= bound
    ensures Balanced(t, bound)
  {
    forall g, h | 0 <= g < |t.groups| && 0 <= h < |t.groups| ensures Assigned(t, g) <= Assigned(t, h) + bound {
      AssignedAfter(s, a, t, g);
      AssignedAfter(s, a, t, h);
      assert Assigned(s, g) <= Assigned(s, h) + bound;
    }
  }

  /** Bounded imbalance: as long as no group's backlog exceeds a bound, the
      numbers of sessions of any two groups never differ by more than it. */
  lemma {:induction false} AlwaysBalanced(ss: seq<State>, actions: seq<Action>, bound: nat, i: nat)
    requires Run(ss, actions) && i < |ss|
    requires forall j, g :: 0 <= j <= i && 0 <= g < |ss[j].groups| ==> Backlog(ss[j], g) <= bound
    ensures Balanced(ss[i], bound)
    decreases i
  {
    if i == 0 {
      forall g | 0 <= g < |ss[0].groups| ensures Assigned(ss[0], g) == 0 { NoneInFlight(ss[0].clients, g); }
    } else {
      AlwaysBalanced(ss, actions, bound, i - 1);
      AlwaysPlaced(ss, actions, i - 1);
      NextBalanced(ss[i - 1], actions[i - 1], ss[i], bound);
    }
  }

  lemma {:induction false} NoneInFlight(cs: seq<Client>, g: nat)
    requires forall i :: 0 <= i < |cs| ==> cs[i] == Idle
    ensures InFlight(cs, g) == 0
  {
    if cs != [] { NoneInFlight(cs[..|cs| - 1], g); }
  }

  /** `k` clients have chosen group 0 of two empty ones; the others are idle. */
  function Rush(n: nat, k: nat): State {
    var empty := Group([], [], At(0), []);
    State(map[], seq(n, i requires 0 <= i < n => if i < k then Chosen(0) else Idle), [empty, empty])
  }

  lemma {:induction false} RushInFlight(n: nat, k: nat, m: nat)
    requires k <= n && m <= n
    ensures InFlight(Rush(n, k).clients[..m], 0) == (if m <= k then m else k)
    ensures InFlight(Rush(n, k).clients[..m], 1) == 0
    decreases m
  {
    if m > 0 {
      RushInFlight(n, k, m - 1);
      assert Rush(n, k).clients[..m][..m - 1] == Rush(n, k).clients[..m - 1];
    }
  }

  /** The bound is sharp: with any backlog bound there is a run that keeps to it
      and ends with two groups exactly that far apart. */
  lemma BoundIsReached(bound: nat) returns (ss: seq<State>, actions: seq<Action>)
    ensures Run(ss, actions)
    ensures forall j, g :: 0 <= j < |ss| && 0 <= g < |ss[j].groups| ==> Backlog(ss[j], g) <= bound
    ensures var last := ss[|ss| - 1]; |last.groups| == 2 && Assigned(last, 0) == Assigned(last, 1) + bound
  {
    ss := seq(bound + 1, k requires 0 <= k < bound + 1 => Rush(bound, k));
    actions := seq(bound, k requires 0 <= k < bound => Choose(k));
    forall k | 0 <= k < bound ensures Next(ss[k], actions[k], ss[k + 1]) {
      assert FirstSmallest(ss[k].groups, 0);
      assert ss[k + 1].clients == ss[k].clients[k := Chosen(0)];
    }
    forall k, g | 0 <= k < |ss| && 0 <= g < |ss[k].groups|
      ensures Backlog(ss[k], g) == if g == 0 then k else 0
    {
      RushInFlight(bound, k, bound);
      assert ss[k].clients[..bound] == ss[k].clients;
    }
  }
}
