/** Connection slots: a bounded counter shared by every handshake and every open connection. */
module Admission {
  import opened Options
  import opened Cache
  import opened Tickets

  /** `usize` on a 64-bit server. */
  const USIZE_MAX: nat := 0xFFFF_FFFF_FFFF_FFFF

  /** `fetch_sub(1)`, which wraps. */
  function Decremented(n: nat): nat {
    if n == 0 then USIZE_MAX else n - 1
  }

  class RealtimeHub {
    var connections: nat
    const maxConnections: nat
    /** The slots taken and not released. */
    ghost var holders: set<ConnectionSlot>

    ghost predicate Valid()
      reads this, holders
    {
      && connections == |holders| <= maxConnections
      && forall slot :: slot in holders ==> slot.hub == this && !slot.released
    }

    constructor (maxConnections: nat)
      ensures Valid() && connections == 0 && holders == {} && this.maxConnections == maxConnections
    {
      connections := 0;
      holders := {};
      this.maxConnections := maxConnections;
    }

    method TryAdmit() returns (slot: ConnectionSlot?)
      requires Valid()
      modifies this
      ensures Valid()
      ensures slot == null <==> old(connections) >= maxConnections
      ensures slot == null ==> connections == old(connections) && holders == old(holders)
      ensures slot != null ==>
        && connections == old(connections) + 1 && fresh(slot) && slot.hub == this && !slot.released
        && holders == old(holders) + {slot}
    {
      slot := null;
      if connections < maxConnections {
        connections := connections + 1;
        slot := new ConnectionSlot(this);
        holders := holders + {slot};
      }
    }
  }

  class ConnectionSlot {
    const hub: RealtimeHub
    var released: bool

    constructor (hub: RealtimeHub)
      ensures this.hub == hub && !released
    {
      this.hub := hub;
      released := false;
    }

    /** Frees the capacity once; the drop at the end of the connection then frees nothing more. */
    method Release()
      requires hub.Valid() && (!released ==> this in hub.holders)
      modifies this, hub
      ensures hub.Valid() && released && hub.holders == old(hub.holders) - {this}
      ensures hub.connections == if old(released) then old(hub.connections) else old(hub.connections) - 1
    {
      if !released {
        released := true;
        hub.connections := Decremented(hub.connections);
        hub.holders := hub.holders - {this};
      }
    }
  }

  /** Other tasks take slots and release their own, in any number and order; nobody releases `mine`. */
  method OthersComeAndGo(hub: RealtimeHub, ghost mine: set<ConnectionSlot>, theirs: set<ConnectionSlot>)
    returns (theirs': set<ConnectionSlot>)
    requires hub.Valid() && mine !! theirs && hub.holders == theirs + mine
    modifies hub, theirs
    ensures hub.Valid() && mine !! theirs' && hub.holders == theirs' + mine
    ensures fresh(theirs' - theirs)
  {
    theirs' := theirs;
    var admits: seq<bool> := *;
    for turn := 0 to |admits|
      invariant hub.Valid() && mine !! theirs' && hub.holders == theirs' + mine
      invariant fresh(theirs' - theirs)
    {
      if admits[turn] {
        var slot := hub.TryAdmit();
        if slot != null {
          theirs' := theirs' + {slot};
        }
      } else if theirs' != {} {
        var slot :| slot in theirs';
        assert slot in hub.holders;
        slot.Release();
        theirs' := theirs' - {slot};
      }
    }
  }

  /** Frees the slot, while others come and go before and after. */
  method ReleaseAmongOthers(slot: ConnectionSlot, theirs: set<ConnectionSlot>)
    requires slot.hub.Valid() && slot !in theirs && slot.hub.holders == theirs + {slot}
    modifies slot, slot.hub, theirs
    ensures slot.hub.Valid() && slot.released && slot !in slot.hub.holders
  {
    var others := OthersComeAndGo(slot.hub, {slot}, theirs);
    slot.Release();
    ghost var held := slot.hub.holders;
    others := OthersComeAndGo(slot.hub, {}, others);
    assert forall other :: other in others && other !in held ==> fresh(other);
  }

  datatype Refusal = Forbidden | BadUpgrade | AtCapacity | Unauthorized

  datatype Handshake = Upgraded(participant: Participant) | Refused(refusal: Refusal)

  /** Origin, upgrade headers, slot, ticket, in that order. Whatever the refusal, the counter is as it was,
      and only a handshake that held a slot has touched the ticket store. */
  method Connect(hub: RealtimeHub, cache: MemoryCache<Participant>, sha: Ticket -> Digest, originAllowed: bool,
                 upgradable: bool, ticket: Option<Ticket>, now: nat)
    returns (handshake: Handshake, slot: ConnectionSlot?)
    requires hub.Valid()
    modifies hub, cache
    ensures hub.Valid()
    ensures handshake == Refused(Forbidden) <==> !originAllowed
    ensures handshake == Refused(BadUpgrade) <==> originAllowed && !upgradable
    ensures handshake == Refused(AtCapacity) <==>
      originAllowed && upgradable && old(hub.connections) >= hub.maxConnections
    ensures handshake.Refused? ==>
      slot == null && hub.connections == old(hub.connections) && hub.holders == old(hub.holders)
    ensures handshake.Refused? && !handshake.refusal.Unauthorized? ==> cache.values == old(cache.values)
    ensures handshake.Upgraded? || handshake == Refused(Refusal.Unauthorized) ==>
      var presented := if ticket.Some? then ticket.value else "";
      var (values, reply) := CacheStep(old(cache.values), TakeJson(TicketKey(sha, presented), now));
      && cache.values == (if WellFormed(presented) then values else old(cache.values))
      && (handshake.Upgraded? <==> WellFormed(presented) && Outcome(reply).Redeemed?)
      && (handshake.Upgraded? ==> handshake.participant == Outcome(reply).participant)
    ensures handshake.Upgraded? ==>
      && slot != null && fresh(slot) && slot.hub == hub && !slot.released
      && hub.connections == old(hub.connections) + 1 && hub.holders == old(hub.holders) + {slot}
  {
    if !originAllowed {
      return Refused(Forbidden), null;
    }
    if !upgradable {
      return Refused(BadUpgrade), null;
    }
    slot := hub.TryAdmit();
    if slot == null {
      return Refused(AtCapacity), null;
    }
    var redemption := ConsumeTicket(cache, sha, if ticket.Some? then ticket.value else "", now);
    if redemption.Unauthorized? {
      slot.Release();
      return Refused(Refusal.Unauthorized), null;
    }
    handshake := Upgraded(redemption.participant);
  }

  // ---- Every interleaving of handshakes and connections ----

  type ConnectionId = nat

  /** Where one connection is. It holds its slot object until `Closed`. */
  datatype Stage =
    | Admitted    // slot taken, ticket not yet redeemed
    | Upgrading   // ticket redeemed, socket not yet served
    | Welcomed    // subscribed and welcomed
    | Serving     // arrival published
    | Leaving     // slot released, departure not yet published
    | Departed    // departure published
    | Closed      // slot object dropped

  datatype Connection = Connection(stage: Stage, released: bool)

  datatype Note =
    | Took(id: ConnectionId)
    | Joined(id: ConnectionId)
    | Released(id: ConnectionId)
    | Left(id: ConnectionId, connections: nat)

  datatype Hub = Hub(counter: nat, max: nat, connections: map<ConnectionId, Connection>, log: seq<Note>)

  datatype Step =
    | Admit(id: ConnectionId)
    | Redeem(id: ConnectionId)
    | Welcome(id: ConnectionId)
    | Join(id: ConnectionId)
    | Finish(id: ConnectionId)
    | Leave(id: ConnectionId)
    | Drop(id: ConnectionId)

  predicate At(s: Hub, id: ConnectionId, stage: Stage) {
    id in s.connections && s.connections[id].stage == stage
  }

  /** A slot object may be dropped at any moment: a refused ticket, an upgrade that never completes, a
      welcome that cannot be sent, a cancelled task, or the ordinary end. */
  predicate Enabled(s: Hub, step: Step) {
    match step
    case Admit(id) => id !in s.connections
    case Redeem(id) => At(s, id, Admitted)
    case Welcome(id) => At(s, id, Upgrading)
    case Join(id) => At(s, id, Welcomed)
    case Finish(id) => At(s, id, Serving)
    case Leave(id) => At(s, id, Leaving)
    case Drop(id) => id in s.connections && !s.connections[id].stage.Closed?
  }

  function Moved(s: Hub, id: ConnectionId, stage: Stage): Hub
    requires id in s.connections
  {
    s.(connections := s.connections[id := s.connections[id].(stage := stage)])
  }

  function SlotReleased(s: Hub, id: ConnectionId): Hub
    requires id in s.connections
  {
    if s.connections[id].released then s
    else s.(counter := Decremented(s.counter), log := s.log + [Released(id)],
            connections := s.connections[id := s.connections[id].(released := true)])
  }

  function Apply(s: Hub, step: Step): Hub
    requires Enabled(s, step)
  {
    match step
    case Admit(id) =>
      if s.counter < s.max then
        s.(counter := s.counter + 1, log := s.log + [Took(id)],
           connections := s.connections[id := Connection(Admitted, false)])
      else s
    case Redeem(id) => Moved(s, id, Upgrading)
    case Welcome(id) => Moved(s, id, Welcomed)
    case Join(id) => Moved(s, id, Serving).(log := s.log + [Joined(id)])
    case Finish(id) => Moved(SlotReleased(s, id), id, Leaving)
    case Leave(id) => Moved(s, id, Departed).(log := s.log + [Left(id, s.counter)])
    case Drop(id) => Moved(SlotReleased(s, id), id, Closed)
  }

  predicate CanRun(s: Hub, steps: seq<Step>)
    decreases |steps|
  {
    steps == [] || (Enabled(s, steps[0]) && CanRun(Apply(s, steps[0]), steps[1..]))
  }

  function Run(s: Hub, steps: seq<Step>): Hub
    requires CanRun(s, steps)
    decreases |steps|
  {
    if steps == [] then s else Run(Apply(s, steps[0]), steps[1..])
  }

  function Initial(max: nat): Hub {
    Hub(0, max, map[], [])
  }

  /** The connections whose slot counts. */
  function Holders(s: Hub): set<ConnectionId> {
    set id | id in s.connections && !s.connections[id].released
  }

  /** What the log says of one connection, its departures' counts left aside. */
  datatype Mark = T | J | R | L

  function MarkOf(note: Note): Mark {
    match note
    case Took(_) => T
    case Joined(_) => J
    case Released(_) => R
    case Left(_, _) => L
  }

  function Marks(log: seq<Note>, id: ConnectionId): seq<Mark> {
    if log == [] then []
    else
      var note := log[|log| - 1];
      Marks(log[..|log| - 1], id) + if note.id == id then [MarkOf(note)] else []
  }

  /** The only life a connection can have, by stage. */
  predicate LifeSoFar(marks: seq<Mark>, c: Connection) {
    match c.stage
    case Admitted => marks == [T] && !c.released
    case Upgrading => marks == [T] && !c.released
    case Welcomed => marks == [T] && !c.released
    case Serving => marks == [T, J] && !c.released
    case Leaving => marks == [T, J, R] && c.released
    case Departed => marks == [T, J, R, L] && c.released
    case Closed => (marks == [T, R] || marks == [T, J, R] || marks == [T, J, R, L]) && c.released
  }

  ghost predicate Inv(s: Hub) {
    && s.counter == |Holders(s)| <= s.max
    && (forall id :: id in s.connections ==> LifeSoFar(Marks(s.log, id), s.connections[id]))
    && (forall id: ConnectionId :: id !in s.connections ==> Marks(s.log, id) == [])
  }

  lemma MarksExtend(log: seq<Note>, note: Note, id: ConnectionId)
    ensures Marks(log + [note], id) == Marks(log, id) + if note.id == id then [MarkOf(note)] else []
  {
    assert (log + [note])[..|log|] == log;
  }

  lemma SlotReleasedOnce(s: Hub, id: ConnectionId)
    requires s.counter == |Holders(s)| && id in s.connections
    ensures var s' := SlotReleased(s, id);
      && s'.counter == |Holders(s')| <= s.counter
      && s'.connections[id].released
  {
    var s' := SlotReleased(s, id);
    if !s.connections[id].released {
      assert id in Holders(s);
      assert Holders(s') == Holders(s) - {id};
    }
  }

  lemma MovedHolders(s: Hub, id: ConnectionId, stage: Stage)
    requires id in s.connections
    ensures Holders(Moved(s, id, stage)) == Holders(s)
  {
  }

  lemma StepCounts(s: Hub, step: Step)
    requires s.counter == |Holders(s)| <= s.max && Enabled(s, step)
    ensures Apply(s, step).counter == |Holders(Apply(s, step))| <= Apply(s, step).max
  {
    match step
    case Admit(id) =>
      if s.counter < s.max {
        assert Holders(Apply(s, step)) == Holders(s) + {id};
      }
    case Finish(id) =>
      SlotReleasedOnce(s, id);
      MovedHolders(SlotReleased(s, id), id, Leaving);
    case Drop(id) =>
      SlotReleasedOnce(s, id);
      MovedHolders(SlotReleased(s, id), id, Closed);
    case Leave(id) => MovedHolders(s, id, Departed);
    case Join(id) => MovedHolders(s, id, Serving);
    case Redeem(id) => MovedHolders(s, id, Upgrading);
    case Welcome(id) => MovedHolders(s, id, Welcomed);
  }

  /** A step writes of no connection but its own. */
  lemma OthersUnmarked(s: Hub, step: Step, id: ConnectionId)
    requires Enabled(s, step) && id != step.id
    ensures Marks(Apply(s, step).log, id) == Marks(s.log, id)
    ensures id in Apply(s, step).connections <==> id in s.connections
    ensures id in s.connections ==> Apply(s, step).connections[id] == s.connections[id]
  {
    var log' := Apply(s, step).log;
    assert log' == s.log || log'[..|log'| - 1] == s.log;
  }

  lemma OwnStepMarks(s: Hub, step: Step)
    requires Enabled(s, step)
    ensures var added :=
        match step
        case Admit(_) => if s.counter < s.max then [T] else []
        case Join(_) => [J]
        case Finish(id) => if s.connections[id].released then [] else [R]
        case Leave(_) => [L]
        case Drop(id) => if s.connections[id].released then [] else [R]
        case _ => [];
      Marks(Apply(s, step).log, step.id) == Marks(s.log, step.id) + added
  {
    var log' := Apply(s, step).log;
    if log' != s.log {
      MarksExtend(s.log, log'[|s.log|], step.id);
    }
  }

  lemma OwnLifeGoesOn(s: Hub, step: Step)
    requires step.id in s.connections ==> LifeSoFar(Marks(s.log, step.id), s.connections[step.id])
    requires step.id !in s.connections ==> Marks(s.log, step.id) == []
    requires Enabled(s, step) && step.id in Apply(s, step).connections
    ensures LifeSoFar(Marks(Apply(s, step).log, step.id), Apply(s, step).connections[step.id])
  {
    OwnStepMarks(s, step);
    hide Marks;
    var marks := Marks(s.log, step.id);
    if step.id in s.connections {
      LifeStep(marks, s.connections[step.id]);
    }
  }

  /** Every move a stage allows writes the next mark of the same life. */
  lemma LifeStep(marks: seq<Mark>, c: Connection)
    requires LifeSoFar(marks, c)
    ensures c.stage.Admitted? ==> LifeSoFar(marks + [], c.(stage := Upgrading))
    ensures c.stage.Upgrading? ==> LifeSoFar(marks + [], c.(stage := Welcomed))
    ensures c.stage.Welcomed? ==> LifeSoFar(marks + [J], c.(stage := Serving))
    ensures c.stage.Serving? ==> LifeSoFar(marks + [R], Connection(Leaving, true))
    ensures c.stage.Leaving? ==> LifeSoFar(marks + [L], c.(stage := Departed))
    ensures !c.stage.Closed? ==> LifeSoFar(marks + if c.released then [] else [R], Connection(Closed, true))
  {
    assert marks + [] == marks;
  }

  lemma StepKeeps(s: Hub, step: Step)
    requires Inv(s) && Enabled(s, step)
    ensures Inv(Apply(s, step))
  {
    hide Apply, LifeSoFar, Marks;
    StepCounts(s, step);
    var s' := Apply(s, step);
    forall id | id in s'.connections ensures LifeSoFar(Marks(s'.log, id), s'.connections[id]) {
      if id == step.id {
        OwnLifeGoesOn(s, step);
      } else {
        OthersUnmarked(s, step, id);
      }
    }
    forall id: ConnectionId | id !in s'.connections ensures Marks(s'.log, id) == [] {
      if id == step.id {
        StillAbsent(s, step);
      } else {
        OthersUnmarked(s, step, id);
      }
    }
  }

  lemma StillAbsent(s: Hub, step: Step)
    requires Enabled(s, step) && step.id !in Apply(s, step).connections
    ensures Apply(s, step) == s
  {
  }

  lemma {:induction false} RunKeeps(s: Hub, steps: seq<Step>)
    requires Inv(s) && CanRun(s, steps)
    ensures Inv(Run(s, steps))
    decreases |steps|
  {
    if steps != [] {
      StepKeeps(s, steps[0]);
      RunKeeps(Apply(s, steps[0]), steps[1..]);
    }
  }

  /** Across all interleavings the counter is the number of unreleased slots and never passes the limit,
      so it never underflows either: a slot about to be released is one of those counted. */
  lemma CounterIsHeldSlots(max: nat, steps: seq<Step>)
    requires CanRun(Initial(max), steps)
    ensures var s := Run(Initial(max), steps);
      && s.counter == |Holders(s)| <= max
      && (forall id :: id in s.connections && !s.connections[id].released ==> s.counter >= 1)
      && ((forall id :: id in s.connections ==> s.connections[id].stage.Closed?) ==> s.counter == 0)
  {
    RunKeeps(Initial(max), steps);
    MaxIsFixed(Initial(max), steps);
    var s := Run(Initial(max), steps);
    forall id | id in s.connections && !s.connections[id].released ensures s.counter >= 1 {
      assert id in Holders(s);
    }
    if forall id :: id in s.connections ==> s.connections[id].stage.Closed? {
      forall id ensures id !in Holders(s) {
        assert id in s.connections ==> LifeSoFar(Marks(s.log, id), s.connections[id]);
      }
      assert Holders(s) == {};
    }
  }

  lemma {:induction false} MaxIsFixed(s: Hub, steps: seq<Step>)
    requires CanRun(s, steps)
    ensures Run(s, steps).max == s.max
    decreases |steps|
  {
    if steps != [] {
      MaxIsFixed(Apply(s, steps[0]), steps[1..]);
    }
  }

  /** Every exit path releases exactly once, and a departure is only ever announced after the same
      connection's arrival and after its slot was released. */
  lemma ConnectionLives(max: nat, steps: seq<Step>, id: ConnectionId)
    requires CanRun(Initial(max), steps)
    ensures Life(Marks(Run(Initial(max), steps).log, id))
    ensures var s := Run(Initial(max), steps);
      At(s, id, Closed) ==> Count(Marks(s.log, id), R) == 1
  {
    RunKeeps(Initial(max), steps);
    var s := Run(Initial(max), steps);
    var marks := Marks(s.log, id);
    if id in s.connections {
      assert LifeSoFar(marks, s.connections[id]);
      LifeOf(marks, s.connections[id]);
    }
  }

  predicate Life(marks: seq<Mark>) {
    || marks == [] || marks == [T] || marks == [T, R] || marks == [T, J] || marks == [T, J, R]
    || marks == [T, J, R, L]
  }

  function Count(marks: seq<Mark>, mark: Mark): nat {
    if marks == [] then 0
    else Count(marks[1..], mark) + if marks[0] == mark then 1 else 0
  }

  lemma LifeOf(marks: seq<Mark>, c: Connection)
    requires LifeSoFar(marks, c)
    ensures Life(marks) && (c.stage.Closed? ==> Count(marks, R) == 1)
  {
    if marks == [T, R] {
      assert Count([T, R], R) == 1;
    } else if marks == [T, J, R] {
      assert Count([T, J, R], R) == 1;
    } else if marks == [T, J, R, L] {
      assert Count([T, J, R, L], R) == 1;
    }
  }

  /** A handshake gets a slot exactly while fewer than the most allowed are held, and one refused changes
      nothing. */
  lemma AdmittedExactlyWhen(s: Hub, id: ConnectionId)
    requires Inv(s) && Enabled(s, Admit(id))
    ensures id in Apply(s, Admit(id)).connections <==> |Holders(s)| < s.max
    ensures id in Apply(s, Admit(id)).connections ==> Holders(Apply(s, Admit(id))) == Holders(s) + {id}
    ensures id !in Apply(s, Admit(id)).connections ==> Apply(s, Admit(id)) == s
  {
  }

  /** A departure reports a count that no longer includes the connection leaving. */
  lemma DepartureReportsTheRest(s: Hub, id: ConnectionId)
    requires Inv(s) && Enabled(s, Leave(id))
    ensures Apply(s, Leave(id)).log == s.log + [Left(id, |Holders(s)|)] && id !in Holders(s)
  {
    assert LifeSoFar(Marks(s.log, id), s.connections[id]);
  }
}
