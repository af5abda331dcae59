/** The Kafka consumer: handle, then commit, with crashes, restarts and lost or reordered commits. */
module EventConsumer {
  import opened Options

  type Partition = nat

  /** A record either decodes to an event of this application or never will. */
  datatype Record = Event | Undecodable

  /** An offset on its way to the broker. */
  datatype Commit = Commit(partition: Partition, offset: nat)

  datatype Broker = Broker(
    log: map<Partition, seq<Record>>,
    committed: map<Partition, nat>,
    pending: seq<Commit>)

  datatype Phase =
    | Down
    | Idle
    | Received(partition: Partition, offset: nat)
    | Processed(partition: Partition, offset: nat)

  /** One record dealt with: passed to the handler, or skipped because it does not decode. */
  datatype Done = Done(incarnation: nat, partition: Partition, offset: nat, handled: bool)

  datatype State = State(
    broker: Broker,
    incarnation: nat,
    phase: Phase,
    position: map<Partition, nat>,
    stored: map<Partition, nat>,
    history: seq<Done>)

  const INITIAL := State(Broker(map[], map[], []), 0, Down, map[], map[], [])

  datatype Step =
    | Publish(partition: Partition, record: Record)
    | Restart
    | Receive(from: Partition)
    | Process
    | QueueCommit(accepted: bool)
    | BrokerApplies(index: nat)
    | BrokerLoses(index: nat)
    | Crash
    | Stop(acknowledged: bool)

  function Get(m: map<Partition, nat>, p: Partition): nat {
    if p in m then m[p] else 0
  }

  function Log(s: State, p: Partition): seq<Record> {
    if p in s.broker.log then s.broker.log[p] else []
  }

  predicate Enabled(s: State, step: Step) {
    match step
    case Publish(_, _) => true
    case Restart => s.phase.Down?
    case Receive(p) => s.phase.Idle? && Get(s.position, p) < |Log(s, p)|
    case Process => s.phase.Received? && s.phase.offset < |Log(s, s.phase.partition)|
    case QueueCommit(_) => s.phase.Processed?
    case BrokerApplies(i) => i < |s.broker.pending|
    case BrokerLoses(i) => i < |s.broker.pending|
    case Crash => !s.phase.Down?
    case Stop(_) => s.phase.Idle?
  }

  function Without(pending: seq<Commit>, i: nat): seq<Commit>
    requires i < |pending|
  {
    pending[..i] + pending[i + 1..]
  }

  function Apply(s: State, step: Step): State
    requires Enabled(s, step)
  {
    match step
    case Publish(p, record) =>
      s.(broker := s.broker.(log := s.broker.log[p := Log(s, p) + [record]]))
    // A restarted group member resumes at the committed offset, or at the beginning without one.
    case Restart =>
      s.(incarnation := s.incarnation + 1, phase := Idle, position := s.broker.committed, stored := map[])
    // The client library moves its own position, and the offset it would commit, on delivery.
    case Receive(p) =>
      var o := Get(s.position, p);
      s.(phase := Received(p, o), position := s.position[p := o + 1], stored := s.stored[p := o + 1])
    case Process =>
      var p, o := s.phase.partition, s.phase.offset;
      s.(phase := Processed(p, o),
         history := s.history + [Done(s.incarnation, p, o, Log(s, p)[o].Event?)])
    // Committed whether or not the record decoded; a refused commit is only logged.
    case QueueCommit(accepted) =>
      var commit := Commit(s.phase.partition, s.phase.offset + 1);
      s.(phase := Idle,
         broker := if accepted then s.broker.(pending := s.broker.pending + [commit]) else s.broker)
    case BrokerApplies(i) =>
      var commit := s.broker.pending[i];
      s.(broker := s.broker.(committed := s.broker.committed[commit.partition := commit.offset],
                             pending := Without(s.broker.pending, i)))
    case BrokerLoses(i) =>
      s.(broker := s.broker.(pending := Without(s.broker.pending, i)))
    case Crash =>
      s.(phase := Down, position := map[], stored := map[])
    // An acknowledged synchronous commit comes after every commit queued before it. With nothing stored
    // there is nothing to commit, and the broker is not asked.
    case Stop(acknowledged) =>
      s.(phase := Down, position := map[], stored := map[],
         broker := if acknowledged && s.stored != map[]
                   then s.broker.(committed := s.broker.committed + s.stored, pending := [])
                   else s.broker)
  }

  // ---- The consumer's own loop ----

  datatype Delivery = Message(partition: Partition, commitAccepted: bool) | ReadError

  /** What one iteration of the loop does; an error read from the stream changes nothing. */
  function DeliverySteps(delivery: Delivery): seq<Step> {
    match delivery
    case Message(p, accepted) => [Receive(p), Process, QueueCommit(accepted)]
    case ReadError => []
  }

  function LoopSteps(deliveries: seq<Delivery>): seq<Step> {
    if deliveries == [] then []
    else LoopSteps(deliveries[..|deliveries| - 1]) + DeliverySteps(deliveries[|deliveries| - 1])
  }

  predicate CanRun(s: State, steps: seq<Step>)
    decreases |steps|
  {
    steps == [] || (Enabled(s, steps[0]) && CanRun(Apply(s, steps[0]), steps[1..]))
  }

  function Run(s: State, steps: seq<Step>): State
    requires CanRun(s, steps)
    decreases |steps|
  {
    if steps == [] then s else Run(Apply(s, steps[0]), steps[1..])
  }

  lemma {:induction false} RunConcat(s: State, a: seq<Step>, b: seq<Step>)
    ensures CanRun(s, a + b) <==> CanRun(s, a) && CanRun(Run(s, a), b)
    ensures CanRun(s, a + b) ==> Run(s, a + b) == Run(Run(s, a), b)
    decreases |a|
  {
    if a == [] {
      assert a + b == b;
    } else {
      assert (a + b)[1..] == a[1..] + b;
      if Enabled(s, a[0]) {
        RunConcat(Apply(s, a[0]), a[1..], b);
      }
    }
  }

  lemma RunTwo(s: State, a: Step, b: Step)
    ensures CanRun(s, [a, b]) <==> Enabled(s, a) && Enabled(Apply(s, a), b)
    ensures CanRun(s, [a, b]) ==> Run(s, [a, b]) == Apply(Apply(s, a), b)
  {
    assert [a, b][1..] == [b];
    assert [b][1..] == [];
    if Enabled(s, a) {
      var s' := Apply(s, a);
      assert CanRun(s', [b]) <==> Enabled(s', b);
      assert CanRun(s', [b]) ==> Run(s', [b]) == Apply(s', b);
    }
  }

  class Consumer {
    var broker: Broker
    var incarnation: nat
    var phase: Phase
    var position: map<Partition, nat>
    var stored: map<Partition, nat>
    var history: seq<Done>

    function View(): State
      reads this
    {
      State(broker, incarnation, phase, position, stored, history)
    }

    /** Joining the group again after a stop or a crash. */
    constructor (previous: State)
      requires previous.phase.Down?
      ensures Enabled(previous, Restart) && View() == Apply(previous, Restart)
    {
      broker := previous.broker;
      incarnation := previous.incarnation + 1;
      phase := Idle;
      position := previous.broker.committed;
      stored := map[];
      history := previous.history;
    }

    method Recv(p: Partition)
      requires Enabled(View(), Receive(p))
      modifies this`phase, this`position, this`stored
      ensures View() == Apply(old(View()), Receive(p))
    {
      var o := if p in position then position[p] else 0;
      phase := Received(p, o);
      position := position[p := o + 1];
      stored := stored[p := o + 1];
    }

    method ConsumeMessage(commitAccepted: bool)
      requires CanRun(View(), [Process, QueueCommit(commitAccepted)])
      modifies this`phase, this`history, this`broker
      ensures View() == Run(old(View()), [Process, QueueCommit(commitAccepted)])
    {
      RunTwo(View(), Process, QueueCommit(commitAccepted));
      var p, o := phase.partition, phase.offset;
      var decoded := broker.log[p][o].Event?;
      history := history + [Done(incarnation, p, o, decoded)];
      phase := Processed(p, o);
      assert View() == Apply(old(View()), Process);
      if commitAccepted {
        broker := broker.(pending := broker.pending + [Commit(p, o + 1)]);
      }
      phase := Idle;
      RunTwo(old(View()), Process, QueueCommit(commitAccepted));
    }

    method HandleDelivery(delivery: Delivery)
      requires CanRun(View(), DeliverySteps(delivery))
      modifies this
      ensures View() == Run(old(View()), DeliverySteps(delivery))
    {
      match delivery {
        case Message(p, accepted) =>
          assert DeliverySteps(delivery)[1..] == [Process, QueueCommit(accepted)];
          Recv(p);
          ConsumeMessage(accepted);
        case ReadError =>
      }
    }

    /** A whole incarnation: some deliveries, each dealt with in full, and a stop. */
    method Consume(deliveries: seq<Delivery>, acknowledged: bool)
      requires CanRun(View(), LoopSteps(deliveries) + [Stop(acknowledged)])
      modifies this
      ensures View() == Run(old(View()), LoopSteps(deliveries) + [Stop(acknowledged)])
    {
      hide Apply, Run, CanRun, LoopSteps, DeliverySteps;
      ghost var start := View();
      RunConcat(start, LoopSteps(deliveries), [Stop(acknowledged)]);
      NoDeliveries(start);
      assert deliveries[..0] == [] && deliveries[..|deliveries|] == deliveries;
      for i := 0 to |deliveries|
        invariant CanRun(start, LoopSteps(deliveries[..i])) && View() == Run(start, LoopSteps(deliveries[..i]))
      {
        NextDelivery(start, deliveries, i);
        HandleDelivery(deliveries[i]);
      }
      RunOne(View(), Stop(acknowledged));
      CommitOnShutdown(acknowledged);
    }

    method CommitOnShutdown(acknowledged: bool)
      requires Enabled(View(), Stop(acknowledged))
      modifies this
      ensures View() == Apply(old(View()), Stop(acknowledged))
    {
      if acknowledged && stored != map[] {
        broker := broker.(committed := broker.committed + stored, pending := []);
      }
      phase, position, stored := Down, map[], map[];
    }
  }

  lemma NoDeliveries(s: State)
    ensures CanRun(s, LoopSteps([])) && Run(s, LoopSteps([])) == s
  {
  }

  lemma {:induction false} LoopPrefixRuns(s: State, deliveries: seq<Delivery>, i: nat)
    requires i <= |deliveries| && CanRun(s, LoopSteps(deliveries))
    ensures CanRun(s, LoopSteps(deliveries[..i]))
    decreases |deliveries|
  {
    hide Apply, Run, CanRun;
    if i < |deliveries| {
      var n := |deliveries| - 1;
      RunConcat(s, LoopSteps(deliveries[..n]), DeliverySteps(deliveries[n]));
      LoopPrefixRuns(s, deliveries[..n], i);
      assert deliveries[..n][..i] == deliveries[..i];
    } else {
      assert deliveries[..i] == deliveries;
    }
  }

  lemma NextDelivery(s: State, deliveries: seq<Delivery>, i: nat)
    requires i < |deliveries| && CanRun(s, LoopSteps(deliveries))
    ensures var done, next := LoopSteps(deliveries[..i]), LoopSteps(deliveries[..i + 1]);
      && CanRun(s, done) && CanRun(Run(s, done), DeliverySteps(deliveries[i]))
      && CanRun(s, next) && Run(s, next) == Run(Run(s, done), DeliverySteps(deliveries[i]))
  {
    hide Apply, Run, CanRun, DeliverySteps;
    LoopPrefixRuns(s, deliveries, i + 1);
    assert deliveries[..i + 1][..i] == deliveries[..i];
    RunConcat(s, LoopSteps(deliveries[..i]), DeliverySteps(deliveries[i]));
  }

  lemma RunOne(s: State, step: Step)
    ensures CanRun(s, [step]) <==> Enabled(s, step)
    ensures CanRun(s, [step]) ==> Run(s, [step]) == Apply(s, step)
  {
    assert [step][1..] == [];
  }

  // ---- At-least-once ----

  predicate IsDone(d: Done, p: Partition, o: nat, record: Record) {
    d.partition == p && d.offset == o && d.handled == record.Event?
  }

  ghost predicate DealtWith(history: seq<Done>, p: Partition, o: nat, record: Record) {
    exists k :: 0 <= k < |history| && IsDone(history[k], p, o, record)
  }

  /** Every record of `p` below `n` exists and was handled, or was skipped as undecodable. */
  ghost predicate AllBelow(s: State, p: Partition, n: nat) {
    && n <= |Log(s, p)|
    && forall o :: 0 <= o < n ==> DealtWith(s.history, p, o, Log(s, p)[o])
  }

  /** How far the running incarnation has dealt with `p`: all it received but the record in hand. */
  function Dealt(s: State, p: Partition): nat {
    if s.phase.Received? && s.phase.partition == p then s.phase.offset else Get(s.position, p)
  }

  ghost predicate Safe(s: State) {
    && (forall p :: p in s.broker.committed ==> AllBelow(s, p, s.broker.committed[p]))
    && (forall i :: 0 <= i < |s.broker.pending| ==>
          AllBelow(s, s.broker.pending[i].partition, s.broker.pending[i].offset))
    && (forall p: Partition :: AllBelow(s, p, Dealt(s, p)))
    && (forall p :: p in s.stored ==> p in s.position && s.stored[p] == s.position[p])
    && (s.phase.Received? ==>
          && s.phase.offset < |Log(s, s.phase.partition)|
          && Get(s.position, s.phase.partition) == s.phase.offset + 1)
    && (s.phase.Processed? ==> Get(s.position, s.phase.partition) == s.phase.offset + 1)
    && (s.phase.Down? ==> s.position == map[] && s.stored == map[])
  }

  lemma AllBelowGrows(s: State, s': State, p: Partition, n: nat)
    requires AllBelow(s, p, n) && Log(s, p) <= Log(s', p) && s.history <= s'.history
    ensures AllBelow(s', p, n)
  {
    forall o | 0 <= o < n ensures DealtWith(s'.history, p, o, Log(s', p)[o]) {
      assert DealtWith(s.history, p, o, Log(s, p)[o]);
      var k :| 0 <= k < |s.history| && IsDone(s.history[k], p, o, Log(s, p)[o]);
      assert s'.history[k] == s.history[k];
    }
  }

  lemma NothingForgotten(s: State, step: Step)
    requires Enabled(s, step)
    ensures s.history <= Apply(s, step).history
    ensures forall p: Partition :: Log(s, p) <= Log(Apply(s, step), p)
  {
  }

  lemma NothingBelow(s: State, p: Partition)
    ensures AllBelow(s, p, 0)
  {
  }

  lemma OneMoreBelow(s: State, p: Partition, n: nat)
    requires AllBelow(s, p, n) && n < |Log(s, p)|
    requires s.history != [] && IsDone(s.history[|s.history| - 1], p, n, Log(s, p)[n])
    ensures AllBelow(s, p, n + 1)
  {
  }

  /** Where the invariant asks for `AllBelow` after the step, it already held, or `Process` just made it. */
  lemma DealtSafe(s: State, step: Step)
    requires Safe(s) && Enabled(s, step)
    ensures forall p: Partition :: AllBelow(Apply(s, step), p, Dealt(Apply(s, step), p))
  {
    hide AllBelow;
    var s' := Apply(s, step);
    NothingForgotten(s, step);
    forall p: Partition ensures AllBelow(s', p, Dealt(s', p)) {
      AllBelowGrows(s, s', p, Dealt(s, p));
      if step.Process? && p == s.phase.partition {
        OneMoreBelow(s', p, s.phase.offset);
      } else if step.Restart? && p in s.broker.committed {
        AllBelowGrows(s, s', p, s.broker.committed[p]);
      } else if step.Restart? || step.Crash? || step.Stop? {
        NothingBelow(s', p);
      }
    }
  }

  lemma BrokerSafe(s: State, step: Step)
    requires Safe(s) && Enabled(s, step)
    ensures forall p :: p in Apply(s, step).broker.committed ==>
      AllBelow(Apply(s, step), p, Apply(s, step).broker.committed[p])
    ensures forall i :: 0 <= i < |Apply(s, step).broker.pending| ==>
      AllBelow(Apply(s, step), Apply(s, step).broker.pending[i].partition, Apply(s, step).broker.pending[i].offset)
  {
    var s' := Apply(s, step);
    NothingForgotten(s, step);
    forall p: Partition, n: nat | AllBelow(s, p, n) ensures AllBelow(s', p, n) {
      AllBelowGrows(s, s', p, n);
    }
    if step.QueueCommit? {
      assert AllBelow(s, s.phase.partition, Dealt(s, s.phase.partition));
    }
    if step.Stop? {
      forall p | p in s.stored ensures AllBelow(s', p, s.stored[p]) {
        assert AllBelow(s, p, Dealt(s, p));
      }
    }
  }

  lemma StepSafe(s: State, step: Step)
    requires Safe(s) && Enabled(s, step)
    ensures Safe(Apply(s, step))
  {
    DealtSafe(s, step);
    BrokerSafe(s, step);
  }

  lemma {:induction false} RunSafe(s: State, steps: seq<Step>)
    requires Safe(s) && CanRun(s, steps)
    ensures Safe(Run(s, steps))
    decreases |steps|
  {
    if steps != [] {
      StepSafe(s, steps[0]);
      RunSafe(Apply(s, steps[0]), steps[1..]);
    }
  }

  /** In every reachable state, a record below the committed offset was passed to the handler if it is an
      event, and skipped if it does not decode. */
  lemma AtLeastOnce(steps: seq<Step>, p: Partition, o: nat)
    requires CanRun(INITIAL, steps)
    requires var s := Run(INITIAL, steps); p in s.broker.committed && o < s.broker.committed[p]
    ensures var s := Run(INITIAL, steps);
      o < |Log(s, p)| && DealtWith(s.history, p, o, Log(s, p)[o])
  {
    RunSafe(INITIAL, steps);
    var s := Run(INITIAL, steps);
    assert AllBelow(s, p, s.broker.committed[p]);
  }

  // ---- Order within one incarnation ----

  /** The offsets of `p` one incarnation dealt with, in the order it did. */
  function Offsets(history: seq<Done>, incarnation: nat, p: Partition): seq<nat> {
    if history == [] then []
    else
      var d := history[|history| - 1];
      Offsets(history[..|history| - 1], incarnation, p)
      + if d.incarnation == incarnation && d.partition == p then [d.offset] else []
  }

  /** Offsets one after the other, ending just before `end`. */
  predicate ConsecutiveTo(offsets: seq<nat>, end: nat) {
    |offsets| <= end && forall i :: 0 <= i < |offsets| ==> offsets[i] == end - |offsets| + i
  }

  predicate Consecutive(offsets: seq<nat>) {
    forall i, k :: 0 <= i < k < |offsets| ==> offsets[k] == offsets[i] + (k - i)
  }

  ghost predicate Ordered(s: State) {
    && (forall i, p: Partition :: 0 <= i ==> Consecutive(Offsets(s.history, i, p)))
    && (!s.phase.Down? ==> forall p: Partition ::
          ConsecutiveTo(Offsets(s.history, s.incarnation, p), Dealt(s, p)))
    && (forall k :: 0 <= k < |s.history| ==> s.history[k].incarnation <= s.incarnation)
    && (s.phase.Received? ==> Get(s.position, s.phase.partition) == s.phase.offset + 1)
    && (s.phase.Processed? ==> Get(s.position, s.phase.partition) == s.phase.offset + 1)
  }

  lemma {:induction false} NoOffsetsYet(history: seq<Done>, incarnation: nat, p: Partition)
    requires forall k :: 0 <= k < |history| ==> history[k].incarnation < incarnation
    ensures Offsets(history, incarnation, p) == []
  {
    if history != [] {
      NoOffsetsYet(history[..|history| - 1], incarnation, p);
    }
  }

  lemma ProcessOrdered(s: State)
    requires Ordered(s) && Enabled(s, Process)
    ensures Ordered(Apply(s, Process))
  {
    var s' := Apply(s, Process);
    assert s'.history[..|s'.history| - 1] == s.history;
    assert ConsecutiveTo(Offsets(s.history, s.incarnation, s.phase.partition), s.phase.offset);
    forall i, q: Partition | 0 <= i ensures Consecutive(Offsets(s'.history, i, q)) {
      assert Consecutive(Offsets(s.history, i, q));
    }
    forall q: Partition ensures ConsecutiveTo(Offsets(s'.history, s'.incarnation, q), Dealt(s', q)) {
      assert ConsecutiveTo(Offsets(s.history, s.incarnation, q), Dealt(s, q));
    }
  }

  lemma StepOrdered(s: State, step: Step)
    requires Ordered(s) && Enabled(s, step)
    ensures Ordered(Apply(s, step))
  {
    hide Consecutive, ConsecutiveTo;
    var s' := Apply(s, step);
    if step.Process? {
      ProcessOrdered(s);
    } else if step.Restart? {
      forall p: Partition ensures ConsecutiveTo(Offsets(s'.history, s'.incarnation, p), Dealt(s', p)) {
        NoOffsetsYet(s.history, s'.incarnation, p);
        NothingIsConsecutive(Dealt(s', p));
      }
    } else if !s'.phase.Down? {
      forall p: Partition ensures ConsecutiveTo(Offsets(s'.history, s'.incarnation, p), Dealt(s', p)) {
        assert ConsecutiveTo(Offsets(s.history, s.incarnation, p), Dealt(s, p));
      }
    }
  }

  lemma NothingIsConsecutive(end: nat)
    ensures ConsecutiveTo([], end)
  {
  }

  lemma {:induction false} RunOrdered(s: State, steps: seq<Step>)
    requires Ordered(s) && CanRun(s, steps)
    ensures Ordered(Run(s, steps))
    decreases |steps|
  {
    if steps != [] {
      StepOrdered(s, steps[0]);
      RunOrdered(Apply(s, steps[0]), steps[1..]);
    }
  }

  /** Each incarnation deals with the records of a partition in offset order, skipping none. */
  lemma InOrderWithinIncarnation(steps: seq<Step>, incarnation: nat, p: Partition)
    requires CanRun(INITIAL, steps)
    ensures Consecutive(Offsets(Run(INITIAL, steps).history, incarnation, p))
  {
    RunOrdered(INITIAL, steps);
  }

  // ---- Progress ----

  function Drain(p: Partition, n: nat): seq<Step> {
    if n == 0 then [] else [Receive(p), Process, QueueCommit(true)] + Drain(p, n - 1)
  }

  lemma OneMoreRecord(s: State, p: Partition) returns (s': State)
    requires s.phase.Idle? && Get(s.position, p) < |Log(s, p)|
    ensures CanRun(s, [Receive(p), Process, QueueCommit(true)])
    ensures s' == Run(s, [Receive(p), Process, QueueCommit(true)])
    ensures s'.phase.Idle? && s'.broker.log == s.broker.log
    ensures Get(s'.position, p) == Get(s.position, p) + 1
    ensures s'.broker.pending == s.broker.pending + [Commit(p, Get(s'.position, p))]
    ensures var o := Get(s.position, p);
      s'.history == s.history + [Done(s.incarnation, p, o, Log(s, p)[o].Event?)]
  {
    assert [Receive(p), Process, QueueCommit(true)][1..] == [Process, QueueCommit(true)];
    RunTwo(Apply(s, Receive(p)), Process, QueueCommit(true));
    s' := Apply(Apply(Apply(s, Receive(p)), Process), QueueCommit(true));
  }

  /** Whatever mixture of events and undecodable records a partition holds, the loop can always reach its
      end: no record stops progress. */
  lemma {:induction false} NothingBlocks(s: State, p: Partition)
    requires s.phase.Idle? && Get(s.position, p) <= |Log(s, p)|
    ensures var steps := Drain(p, |Log(s, p)| - Get(s.position, p));
      && CanRun(s, steps)
      && Run(s, steps).phase.Idle?
      && Get(Run(s, steps).position, p) == |Log(s, p)|
    decreases |Log(s, p)| - Get(s.position, p)
  {
    var n := |Log(s, p)| - Get(s.position, p);
    if n > 0 {
      var s' := OneMoreRecord(s, p);
      NothingBlocks(s', p);
      RunConcat(s, [Receive(p), Process, QueueCommit(true)], Drain(p, n - 1));
    }
  }

  // ---- Where a restart resumes ----

  /** A record dealt with whose commit the broker applied last is not read again after a crash: the next process
      starts right behind it, and everywhere else at the offsets committed. */
  lemma AppliedCommitResumesBehind(s: State, p: Partition)
    requires s.phase.Idle? && Get(s.position, p) < |Log(s, p)|
    ensures var steps := [Receive(p), Process, QueueCommit(true), BrokerApplies(|s.broker.pending|), Crash, Restart];
      && CanRun(s, steps)
      && Get(Run(s, steps).position, p) == Get(s.position, p) + 1
      && Run(s, steps).phase.Idle?
      && forall q :: q != p ==> Get(Run(s, steps).position, q) == Get(s.broker.committed, q)
  {
    var handle := [Receive(p), Process, QueueCommit(true)];
    var s1 := OneMoreRecord(s, p);
    assert s1.broker.committed == s.broker.committed by { CommittedBySteps(s, p); }
    var m := |s.broker.pending|;
    RunTwo(s1, BrokerApplies(m), Crash);
    var s2 := Run(s1, [BrokerApplies(m), Crash]);
    RunOne(s2, Restart);
    RunConcat(s1, [BrokerApplies(m), Crash], [Restart]);
    RunConcat(s, handle, [BrokerApplies(m), Crash] + [Restart]);
    assert handle + ([BrokerApplies(m), Crash] + [Restart])
      == [Receive(p), Process, QueueCommit(true), BrokerApplies(m), Crash, Restart];
  }

  /** Only the broker applying a commit, or a clean stop, moves a committed offset. */
  lemma CommittedMovesOnly(s: State, step: Step)
    requires Enabled(s, step) && Apply(s, step).broker.committed != s.broker.committed
    ensures step.BrokerApplies? || (step.Stop? && step.acknowledged && s.stored != map[])
  {
  }

  lemma CommittedBySteps(s: State, p: Partition)
    requires s.phase.Idle? && Get(s.position, p) < |Log(s, p)|
    ensures var steps := [Receive(p), Process, QueueCommit(true)];
      CanRun(s, steps) && Run(s, steps).broker.committed == s.broker.committed
  {
    assert [Receive(p), Process, QueueCommit(true)][1..] == [Process, QueueCommit(true)];
    RunTwo(Apply(s, Receive(p)), Process, QueueCommit(true));
  }

  /** In every reachable idle state a clean stop commits, for each partition this process read from, exactly the
      position it reached, and leaves the others alone. */
  lemma StopCommitsPosition(steps: seq<Step>, p: Partition)
    requires CanRun(INITIAL, steps) && Run(INITIAL, steps).phase.Idle?
    ensures var s := Run(INITIAL, steps);
      var s' := Apply(s, Stop(true));
      && Get(s'.broker.committed, p)
           == (if p in s.stored then Get(s.position, p) else Get(s.broker.committed, p))
      && (forall k :: 0 <= k < |s.history| && s.history[k].incarnation == s.incarnation ==>
            s.history[k].partition in s.stored)
  {
    RunSafe(INITIAL, steps);
    RunStores(INITIAL, steps);
  }

  // ---- After a clean stop ----

  /** Nothing that could still happen reaches below `floor`. */
  ghost predicate Floored(s: State, floor: map<Partition, nat>) {
    && (forall p :: p in floor ==> floor[p] <= Get(s.broker.committed, p))
    && (forall i :: 0 <= i < |s.broker.pending| ==>
          Get(floor, s.broker.pending[i].partition) <= s.broker.pending[i].offset)
    && (!s.phase.Down? ==> forall p :: p in floor ==> floor[p] <= Dealt(s, p) <= Get(s.position, p))
    && (forall p :: p in s.stored ==> Get(floor, p) <= s.stored[p])
    && (s.phase.Received? || s.phase.Processed? ==> Get(floor, s.phase.partition) <= s.phase.offset)
  }

  lemma BrokerStepFloored(s: State, step: Step, floor: map<Partition, nat>)
    requires Floored(s, floor) && Enabled(s, step) && (step.BrokerApplies? || step.BrokerLoses?)
    ensures Floored(Apply(s, step), floor)
  {
  }

  lemma ConsumerStepFloored(s: State, step: Step, floor: map<Partition, nat>)
    requires Floored(s, floor) && Enabled(s, step)
    requires step.Receive? || step.Process? || step.QueueCommit?
    ensures Floored(Apply(s, step), floor)
  {
  }

  lemma StepFloored(s: State, step: Step, floor: map<Partition, nat>)
    requires Floored(s, floor) && Enabled(s, step)
    ensures Floored(Apply(s, step), floor)
    ensures forall k :: |s.history| <= k < |Apply(s, step).history| ==>
      Get(floor, Apply(s, step).history[k].partition) <= Apply(s, step).history[k].offset
  {
    if step.BrokerApplies? || step.BrokerLoses? {
      BrokerStepFloored(s, step, floor);
    } else if step.Receive? || step.Process? || step.QueueCommit? {
      ConsumerStepFloored(s, step, floor);
    }
  }

  lemma {:induction false} RunFloored(s: State, steps: seq<Step>, floor: map<Partition, nat>)
    requires Floored(s, floor) && CanRun(s, steps)
    ensures |s.history| <= |Run(s, steps).history|
    ensures forall k :: |s.history| <= k < |Run(s, steps).history| ==>
      Get(floor, Run(s, steps).history[k].partition) <= Run(s, steps).history[k].offset
    ensures s.history <= Run(s, steps).history
    decreases |steps|
  {
    if steps != [] {
      NothingForgotten(s, steps[0]);
      StepFloored(s, steps[0], floor);
      RunFloored(Apply(s, steps[0]), steps[1..], floor);
    }
  }

  lemma {:induction false} OffsetsHold(history: seq<Done>, incarnation: nat, p: Partition, k: nat)
    requires k < |history| && history[k].incarnation == incarnation && history[k].partition == p
    ensures history[k].offset in Offsets(history, incarnation, p)
  {
    if k < |history| - 1 {
      OffsetsHold(history[..|history| - 1], incarnation, p, k);
    }
  }

  lemma DealtThisTimeIsStored(s: State, k: nat)
    requires Safe(s) && Ordered(s) && s.phase.Idle? && StoresWhatItDeals(s)
    requires k < |s.history| && s.history[k].incarnation == s.incarnation
    ensures s.history[k].partition in s.stored && s.history[k].offset < s.stored[s.history[k].partition]
  {
    var p := s.history[k].partition;
    OffsetsHold(s.history, s.incarnation, p, k);
    assert ConsecutiveTo(Offsets(s.history, s.incarnation, p), Dealt(s, p));
  }

  ghost predicate StoresWhatItDeals(s: State) {
    && (!s.phase.Down? ==> forall k :: 0 <= k < |s.history| && s.history[k].incarnation == s.incarnation ==>
          s.history[k].partition in s.stored)
    && (forall k :: 0 <= k < |s.history| ==> s.history[k].incarnation <= s.incarnation)
    && (s.phase.Received? || s.phase.Processed? ==> s.phase.partition in s.stored)
  }

  lemma {:induction false} RunStores(s: State, steps: seq<Step>)
    requires StoresWhatItDeals(s) && CanRun(s, steps)
    ensures StoresWhatItDeals(Run(s, steps))
    decreases |steps|
  {
    if steps != [] {
      RunStores(Apply(s, steps[0]), steps[1..]);
    }
  }

  /** After a stop whose commit was acknowledged, nothing the stopping incarnation dealt with is dealt
      with again, in any continuation. */
  lemma CleanStopIsFinal(before: seq<Step>, after: seq<Step>, i: nat, k: nat)
    requires CanRun(INITIAL, before) && Run(INITIAL, before).phase.Idle?
    requires var stopped := Apply(Run(INITIAL, before), Stop(true)); CanRun(stopped, after)
    requires i < |Run(INITIAL, before).history|
    requires Run(INITIAL, before).history[i].incarnation == Run(INITIAL, before).incarnation
    requires var stopped := Apply(Run(INITIAL, before), Stop(true));
      |stopped.history| <= k < |Run(stopped, after).history|
    ensures var stopped := Apply(Run(INITIAL, before), Stop(true));
      var earlier, later := Run(INITIAL, before).history[i], Run(stopped, after).history[k];
      earlier.partition != later.partition || earlier.offset < later.offset
  {
    var s := Run(INITIAL, before);
    RunSafe(INITIAL, before);
    RunOrdered(INITIAL, before);
    RunStores(INITIAL, before);
    DealtThisTimeIsStored(s, i);
    var stopped := Apply(s, Stop(true));
    assert Floored(stopped, s.stored);
    RunFloored(stopped, after, s.stored);
  }

  /** Some record is dealt with before the stop and again after it. */
  ghost predicate DealtAgain(stopped: State, after: seq<Step>, i: int, k: int)
    requires CanRun(stopped, after)
  {
    var later := Run(stopped, after).history;
    && 0 <= i < |stopped.history| <= k < |later|
    && stopped.history[i].partition == later[k].partition && stopped.history[i].offset == later[k].offset
  }

  predicate HistoryInLog(s: State) {
    forall k :: 0 <= k < |s.history| ==> s.history[k].offset < |Log(s, s.history[k].partition)|
  }

  lemma {:induction false} RunStaysInLog(s: State, steps: seq<Step>)
    requires HistoryInLog(s) && CanRun(s, steps)
    ensures HistoryInLog(Run(s, steps))
    decreases |steps|
  {
    if steps != [] {
      NothingForgotten(s, steps[0]);
      RunStaysInLog(Apply(s, steps[0]), steps[1..]);
    }
  }

  /** Reading on from a position deals with each next record in turn. */
  lemma {:induction false} DrainDealsWith(s: State, p: Partition, n: nat)
    requires s.phase.Idle? && Get(s.position, p) + n <= |Log(s, p)|
    ensures CanRun(s, Drain(p, n))
    ensures var history := Run(s, Drain(p, n)).history;
      && |history| == |s.history| + n
      && forall m :: |s.history| <= m < |history| ==>
           history[m].partition == p && history[m].offset == Get(s.position, p) + (m - |s.history|)
    ensures s.history <= Run(s, Drain(p, n)).history
    decreases n
  {
    if n > 0 {
      var s' := OneMoreRecord(s, p);
      DrainDealsWith(s', p, n - 1);
      RunConcat(s, [Receive(p), Process, QueueCommit(true)], Drain(p, n - 1));
      assert Run(s, Drain(p, n)).history[|s.history|] == s'.history[|s.history|];
    }
  }

  /** A record dealt with at or past the committed offset is dealt with again by reading on from there. */
  lemma UncommittedIsReplayed(stopped: State, i: nat) returns (after: seq<Step>, k: nat)
    requires stopped.phase.Down? && HistoryInLog(stopped) && i < |stopped.history|
    requires Get(stopped.broker.committed, stopped.history[i].partition) <= stopped.history[i].offset
    ensures CanRun(stopped, after) && DealtAgain(stopped, after, i, k)
  {
    var p, o := stopped.history[i].partition, stopped.history[i].offset;
    var s := Apply(stopped, Restart);
    var from := Get(s.position, p);
    DrainDealsWith(s, p, o - from + 1);
    RunOne(stopped, Restart);
    after := [Restart] + Drain(p, o - from + 1);
    RunConcat(stopped, [Restart], Drain(p, o - from + 1));
    k := |s.history| + (o - from);
  }

  /** A commit still on its way can only take the committed offset back to where it points. */
  lemma LateCommitIsReplayed(stopped: State, i: nat, m: nat) returns (after: seq<Step>, k: nat)
    requires stopped.phase.Down? && HistoryInLog(stopped) && i < |stopped.history| && m < |stopped.broker.pending|
    requires stopped.broker.pending[m].partition == stopped.history[i].partition
    requires stopped.broker.pending[m].offset <= stopped.history[i].offset
    ensures CanRun(stopped, after) && DealtAgain(stopped, after, i, k)
  {
    var s := Apply(stopped, BrokerApplies(m));
    var rest;
    rest, k := UncommittedIsReplayed(s, i);
    RunOne(stopped, BrokerApplies(m));
    after := [BrokerApplies(m)] + rest;
    RunConcat(stopped, [BrokerApplies(m)], rest);
  }

  /** Neither the committed offset nor a commit still on its way starts a partition at or before `o`. */
  predicate Past(s: State, p: Partition, o: nat) {
    && o < Get(s.broker.committed, p)
    && forall m :: 0 <= m < |s.broker.pending| && s.broker.pending[m].partition == p ==>
         o < s.broker.pending[m].offset
  }

  /** After a clean stop, no continuation deals with anything again exactly when the committed offset of its
      partition, and every commit of an earlier process still on its way, is past everything dealt with so
      far. Commits are on their way only when the stop itself had nothing to commit. */
  lemma CleanStopIsFinalExactlyWhen(before: seq<Step>)
    requires CanRun(INITIAL, before) && Run(INITIAL, before).phase.Idle?
    ensures var stopped := Apply(Run(INITIAL, before), Stop(true));
      (forall after, i, k :: CanRun(stopped, after) ==> !DealtAgain(stopped, after, i, k))
      <==> (forall i :: 0 <= i < |stopped.history| ==>
              Past(stopped, stopped.history[i].partition, stopped.history[i].offset))
  {
    var stopped := Apply(Run(INITIAL, before), Stop(true));
    RunStaysInLog(INITIAL, before);
    if i :| 0 <= i < |stopped.history| && !Past(stopped, stopped.history[i].partition, stopped.history[i].offset) {
      var d := stopped.history[i];
      if d.offset >= Get(stopped.broker.committed, d.partition) {
        var after, k := UncommittedIsReplayed(stopped, i);
      } else {
        var m :| 0 <= m < |stopped.broker.pending| && stopped.broker.pending[m].partition == d.partition
                 && d.offset >= stopped.broker.pending[m].offset;
        var after, k := LateCommitIsReplayed(stopped, i, m);
      }
    } else {
      forall after, i, k | CanRun(stopped, after) ensures !DealtAgain(stopped, after, i, k) {
        if 0 <= i < |stopped.history| {
          PastIsFinal(stopped, after, i);
        }
      }
    }
  }

  lemma PastIsFinal(stopped: State, after: seq<Step>, i: nat)
    requires stopped.phase.Down? && stopped.stored == map[] && CanRun(stopped, after) && i < |stopped.history|
    requires Past(stopped, stopped.history[i].partition, stopped.history[i].offset)
    ensures forall k :: !DealtAgain(stopped, after, i, k)
  {
    var floor := map[stopped.history[i].partition := stopped.history[i].offset + 1];
    assert Floored(stopped, floor);
    RunFloored(stopped, after, floor);
  }

  // ---- Exactly once, while nothing crashes ----

  predicate Clean(step: Step) {
    !step.Crash? && (step.Stop? ==> step.acknowledged)
  }

  /** Where the next record of `p` would be read from: by the running incarnation, or by the next one. */
  function Frontier(s: State, p: Partition): nat {
    if s.phase.Down? then Get(s.broker.committed, p) else Dealt(s, p)
  }

  ghost predicate Undoubled(s: State) {
    && (forall i, k :: 0 <= i < k < |s.history| && s.history[i].partition == s.history[k].partition ==>
          s.history[i].offset < s.history[k].offset)
    && (forall k :: 0 <= k < |s.history| ==> s.history[k].offset < Frontier(s, s.history[k].partition))
    && (forall i :: 0 <= i < |s.broker.pending| ==> s.broker.pending[i].partition in s.stored)
    && (s.phase.Down? ==> s.broker.pending == [] && s.stored == map[])
    && (!s.phase.Down? ==> forall p: Partition ::
          (p in s.stored ==> s.stored[p] == Get(s.position, p))
          && (p !in s.stored ==> Get(s.broker.committed, p) == Get(s.position, p)))
    && (s.phase.Received? || s.phase.Processed? ==>
          s.phase.partition in s.stored && Get(s.position, s.phase.partition) == s.phase.offset + 1)
  }

  lemma BrokerStepUndoubled(s: State, step: Step)
    requires Undoubled(s) && Enabled(s, step) && (step.BrokerApplies? || step.BrokerLoses?)
    ensures Undoubled(Apply(s, step))
  {
  }

  lemma ConsumerStepUndoubled(s: State, step: Step)
    requires Undoubled(s) && Enabled(s, step) && (step.Receive? || step.Process? || step.QueueCommit?)
    ensures Undoubled(Apply(s, step))
  {
  }

  lemma PendingIsStored(s: State)
    requires Undoubled(s)
    ensures s.stored == map[] ==> s.broker.pending == []
  {
    if s.broker.pending != [] {
      assert s.broker.pending[0].partition in s.stored;
    }
  }

  lemma StepUndoubled(s: State, step: Step)
    requires Undoubled(s) && Enabled(s, step) && Clean(step)
    ensures Undoubled(Apply(s, step))
  {
    if step.BrokerApplies? || step.BrokerLoses? {
      BrokerStepUndoubled(s, step);
    } else if step.Receive? || step.Process? || step.QueueCommit? {
      ConsumerStepUndoubled(s, step);
    } else if step.Stop? && s.stored == map[] {
      PendingIsStored(s);
    }
  }

  lemma {:induction false} RunUndoubled(s: State, steps: seq<Step>)
    requires Undoubled(s) && CanRun(s, steps) && forall i :: 0 <= i < |steps| ==> Clean(steps[i])
    ensures Undoubled(Run(s, steps))
    decreases |steps|
  {
    if steps != [] {
      StepUndoubled(s, steps[0]);
      RunUndoubled(Apply(s, steps[0]), steps[1..]);
    }
  }

  /** Over a run without crashes in which every stop is acknowledged, no record is dealt with twice,
      whatever happened to the asynchronous commits. */
  lemma ExactlyOnceWithoutCrashes(steps: seq<Step>, i: nat, k: nat)
    requires CanRun(INITIAL, steps) && forall i :: 0 <= i < |steps| ==> Clean(steps[i])
    requires i < k < |Run(INITIAL, steps).history|
    ensures var history := Run(INITIAL, steps).history;
      history[i].partition != history[k].partition || history[i].offset != history[k].offset
  {
    RunUndoubled(INITIAL, steps);
  }

  const TWO_EVENTS: map<Partition, seq<Record>> := map[0 := [Event, Event]]

  /** Both records handled, both commits refused, then a crash. */
  const CRASHED := State(Broker(TWO_EVENTS, map[], []), 1, Down, map[], map[],
                         [Done(1, 0, 0, true), Done(1, 0, 1, true)])

  /** The first record handled again, then a clean stop. */
  const STOPPED := State(Broker(TWO_EVENTS, map[0 := 1], []), 2, Down, map[], map[],
                         [Done(1, 0, 0, true), Done(1, 0, 1, true), Done(2, 0, 0, true)])

  lemma HandleOne(s: State)
    requires s.phase.Idle? && Get(s.position, 0) < |Log(s, 0)|
    ensures var steps, o := [Receive(0), Process, QueueCommit(false)], Get(s.position, 0);
      && CanRun(s, steps)
      && Run(s, steps) == s.(position := s.position[0 := o + 1], stored := s.stored[0 := o + 1],
           history := s.history + [Done(s.incarnation, 0, o, Log(s, 0)[o].Event?)])
  {
    assert [Receive(0), Process, QueueCommit(false)][1..] == [Process, QueueCommit(false)];
    RunTwo(Apply(s, Receive(0)), Process, QueueCommit(false));
  }

  lemma CrashingRun() returns (steps: seq<Step>)
    ensures CanRun(INITIAL, steps) && Run(INITIAL, steps) == CRASHED
  {
    var handle := [Receive(0), Process, QueueCommit(false)];
    RunTwo(INITIAL, Publish(0, Event), Publish(0, Event));
    var s1 := Apply(INITIAL, Publish(0, Event));
    assert Log(s1, 0) == [Event];
    var s2 := INITIAL.(broker := Broker(TWO_EVENTS, map[], []));
    assert [Event] + [Event] == [Event, Event];
    assert Apply(s1, Publish(0, Event)).broker.log == s2.broker.log;
    RunOne(s2, Restart);
    var s3 := Apply(s2, Restart);
    HandleOne(s3);
    var s4 := Run(s3, handle);
    HandleOne(s4);
    var s5 := Run(s4, handle);
    RunOne(s5, Crash);
    RunConcat(s4, handle, [Crash]);
    RunConcat(s3, handle, handle + [Crash]);
    RunConcat(s2, [Restart], handle + (handle + [Crash]));
    RunConcat(INITIAL, [Publish(0, Event), Publish(0, Event)], [Restart] + (handle + (handle + [Crash])));
    steps := [Publish(0, Event), Publish(0, Event)] + ([Restart] + (handle + (handle + [Crash])));
  }

  lemma StoppingRun() returns (steps: seq<Step>)
    ensures CanRun(CRASHED, steps) && Run(CRASHED, steps) == STOPPED && Stop(true) in steps
  {
    var handle := [Receive(0), Process, QueueCommit(false)];
    var s1 := Apply(CRASHED, Restart);
    RunOne(CRASHED, Restart);
    HandleOne(s1);
    var s2 := Run(s1, handle);
    RunOne(s2, Stop(true));
    RunConcat(s1, handle, [Stop(true)]);
    RunConcat(CRASHED, [Restart], handle + [Stop(true)]);
    steps := [Restart] + (handle + [Stop(true)]);
    assert steps[4] == Stop(true);
  }

  /** The work of an incarnation that crashed is outside that promise: with its commits lost, a later
      incarnation's clean stop records only its own, earlier position. */
  lemma CrashedWorkIsReplayed() returns (before: seq<Step>, after: seq<Step>)
    ensures CanRun(INITIAL, before) && Stop(true) in before && Run(INITIAL, before) == STOPPED
    ensures CanRun(STOPPED, after)
    ensures var history := Run(STOPPED, after).history;
      |history| == 4 && history[1] == Done(1, 0, 1, true) && history[3] == Done(3, 0, 1, true)
  {
    var first := CrashingRun();
    var second := StoppingRun();
    RunConcat(INITIAL, first, second);
    before := first + second;
    after := [Restart] + [Receive(0), Process, QueueCommit(false)];
    RunOne(STOPPED, Restart);
    HandleOne(Apply(STOPPED, Restart));
    RunConcat(STOPPED, [Restart], [Receive(0), Process, QueueCommit(false)]);
  }
}
