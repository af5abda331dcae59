/** One realtime connection: the loop that forwards the fan-out, answers commands and pushes ticks, while
    any number of other connections publish to the same channel. */
module Realtime {
  import opened Options
  import opened Broadcast
  import opened SendQuota
  import opened Tickets
  import opened Admission

  const IDLE_TIMEOUT: nat := 60_000_000_000

  datatype Presence = Arrived | Gone

  datatype Payload =
    | Welcome(connection: nat, you: Participant)
    | PresenceChanged(change: Presence, connection: nat, participant: Participant, connections: nat)
    | Message(from: Participant, text: string)
    | Tick(sequence: nat)
    | Notice(code: string)

  /** A client frame after decoding and text validation. */
  datatype Command = Unparsable | Unacceptable | Say(text: string)

  datatype Outcome = ToEveryone(event: Payload) | ToSender(notice: Payload)

  /** What wakes the loop. */
  datatype Input =
    | FanOut
    | Text(command: Command, now: nat)
    | Binary(now: nat)
    | Pulse(now: nat)
    | Due(now: nat)
    | Close

  type Frames = seq<Frame<Payload>>

  /** Positions of this connection's own accepted broadcasts, all after it subscribed. */
  ghost predicate OwnMessages(own: seq<nat>, published: seq<Payload>, start: nat, from: Participant) {
    forall j :: 0 <= j < |own| ==>
      start <= own[j] < |published| && published[own[j]].Message? && published[own[j]].from == from
  }

  /** The broadcasts accepted before a direct frame was decided were published by then. */
  ghost predicate OwnBehind(frames: Frames, own: seq<nat>) {
    forall k :: 0 <= k < |frames| && frames[k].Direct? ==>
      && frames[k].own <= |own|
      && forall j :: 0 <= j < frames[k].own ==> own[j] < frames[k].floor
  }

  /** A notice or tick never overtakes the fan-out: every broadcast this connection had accepted before it
      is already written, or counted in a lag notice. */
  lemma DirectNeverOvertakes(frames: Frames, published: seq<Payload>, start: nat, own: seq<nat>,
                             from: Participant, k: nat, j: nat) returns (i: nat)
    requires Faithful(frames, published, start) && OwnMessages(own, published, start, from) && OwnBehind(frames, own)
    requires k < |frames| && frames[k].Direct? && j < frames[k].own
    ensures i < k
    ensures (frames[i].Event? && frames[i].event == published[own[j]])
      || (frames[i].Missed? && Cursor(frames[..i], start) <= own[j] < Cursor(frames[..i], start) + frames[i].count)
  {
    assert FrameFits(frames[k], Cursor(frames[..k], start), published);
    i := EveryPositionIsAccounted(frames[..k], start, own[j]);
    assert frames[..k][..i] == frames[..i];
    assert FrameFits(frames[i], Cursor(frames[..i], start), published);
  }

  // ---- What a connection owes its client, from the inputs alone ----

  /** When the client was last heard from. */
  function LastSeen(inputs: seq<Input>, seen: nat): nat {
    if inputs == [] then seen
    else
      match inputs[|inputs| - 1]
      case Text(_, now) => now
      case Binary(now) => now
      case Pulse(now) => now
      case _ => LastSeen(inputs[..|inputs| - 1], seen)
  }

  /** When it asked to publish. */
  function Said(inputs: seq<Input>): seq<nat> {
    if inputs == [] then []
    else
      var last := inputs[|inputs| - 1];
      Said(inputs[..|inputs| - 1]) + if Saying(last) then [last.now] else []
  }

  function Dues(inputs: seq<Input>): nat {
    if inputs == [] then 0
    else Dues(inputs[..|inputs| - 1]) + if inputs[|inputs| - 1].Due? then 1 else 0
  }

  function FanOuts(inputs: seq<Input>): nat {
    if inputs == [] then 0
    else FanOuts(inputs[..|inputs| - 1]) + if inputs[|inputs| - 1].FanOut? then 1 else 0
  }

  /** Whether a message said at `now`, after `before`, is within the budget. */
  predicate WithinBudget(openedAt: nat, before: seq<Input>, now: nat) {
    Place(openedAt, Said(before) + [now]) <= MESSAGE_QUOTA
  }

  /** What one input is answered with: a notice for a command refused or a frame not understood, or a tick. */
  function Reply(input: Input, withinBudget: bool, tick: nat): seq<Payload> {
    match input
    case Text(Unparsable, _) => [Notice("invalid_command")]
    case Text(Unacceptable, _) => [Notice("invalid_message")]
    case Text(Say(_), _) => if withinBudget then [] else [Notice("rate_limited")]
    case Binary(_) => [Notice("unsupported_frame")]
    case Due(_) => [Tick(tick)]
    case _ => []
  }

  predicate Saying(input: Input) {
    input.Text? && input.command.Say?
  }

  /** What this connection alone is sent, in order. */
  function Replies(openedAt: nat, inputs: seq<Input>): seq<Payload> {
    if inputs == [] then []
    else
      var before, last := inputs[..|inputs| - 1], inputs[|inputs| - 1];
      Replies(openedAt, before)
      + Reply(last, Saying(last) && WithinBudget(openedAt, before, last.now), Dues(before) + 1)
  }

  /** What everyone is sent, in order. */
  function Accepted(openedAt: nat, inputs: seq<Input>): seq<string> {
    if inputs == [] then []
    else
      var before, last := inputs[..|inputs| - 1], inputs[|inputs| - 1];
      Accepted(openedAt, before)
      + if Saying(last) && WithinBudget(openedAt, before, last.now) then [last.command.text] else []
  }

  /** The client closes, or was not heard from for the idle timeout when a tick is due. */
  predicate Ends(before: seq<Input>, seen: nat, input: Input) {
    input.Close? || (input.Due? && input.now >= LastSeen(before, seen) + IDLE_TIMEOUT)
  }

  /** The first `handled` inputs got their replies, and then the inputs were over, or the next one ended the
      connection, or a write failed: at that input, or at the ping after its tick. */
  predicate Followed(replies: seq<Payload>, openedAt: nat, inputs: seq<Input>, seen: nat, handled: nat, writable: nat) {
    && handled <= |inputs|
    && (forall i :: 0 <= i < handled ==> !Ends(inputs[..i], seen, inputs[i]))
    && (handled < |inputs| ==> Ends(inputs[..handled], seen, inputs[handled]) || writable == 0)
    && (replies == Replies(openedAt, inputs[..handled])
        || (handled < |inputs| && writable == 0 && inputs[handled].Due?
            && replies == Replies(openedAt, inputs[..handled + 1])))
  }

  /** The messages published from position `first` of `own` on are those accepted. */
  ghost predicate Published(published: seq<Payload>, own: seq<nat>, first: nat, from: Participant, texts: seq<string>) {
    && |own| == first + |texts|
    && forall k :: first <= k < |own| ==>
         own[k] < |published| && published[own[k]] == Message(from, texts[k - first])
  }

  class Connection {
    const channel: Channel<Payload>
    const quota: Quota
    const participant: Participant
    const id: nat
    var cursor: nat
    var sent: Frames
    /** How many more writes the peer takes before the socket fails. */
    var writable: nat
    ghost const start: nat
    /** Where its own accepted broadcasts were published. */
    var own: seq<nat>

    ghost predicate Sound()
      reads this, channel, channel.slots, quota
    {
      && channel.Valid() && quota.Valid()
      && Faithful(sent, channel.published, start)
      && OwnMessages(own, channel.published, start, participant)
      && OwnBehind(sent, own)
      && |own| == |AllowedTimes(quota.openedAt, quota.asked)|
    }

    /** Between awaits the socket has been given everything the cursor passed. */
    ghost predicate Valid()
      reads this, channel, channel.slots, quota
    {
      Sound() && cursor <= channel.tail && Cursor(sent, start) == cursor
    }

    /** Subscribed at `start` and welcomed; the budget opens only now. */
    constructor (channel: Channel<Payload>, participant: Participant, id: nat, start: nat, now: nat, writable: nat)
      requires channel.Valid() && start <= channel.tail
      ensures Valid() && this.channel == channel && this.participant == participant && this.id == id
      ensures sent == [Direct(Payload.Welcome(id, participant), start, 0)] && own == [] && this.start == start
      ensures fresh(quota) && quota.openedAt == now && quota.asked == []
    {
      this.channel := channel;
      this.participant := participant;
      this.id := id;
      this.writable := writable;
      this.start := start;
      quota := new Quota(now);
      cursor := start;
      sent, own := [Direct(Payload.Welcome(id, participant), start, 0)], [];
      new;
      assert sent[..0] == [] && sent[..|sent| - 1] == [];
    }

    method Write(frame: Frame<Payload>) returns (ok: bool)
      requires Sound() && FrameFits(frame, Cursor(sent, start), channel.published)
      requires frame.Direct? ==> frame.own <= |own| && forall j :: 0 <= j < frame.own ==> own[j] < frame.floor
      modifies this`sent, this`writable
      ensures Sound()
      ensures ok ==> sent == old(sent) + [frame] && Cursor(sent, start) == Cursor(old(sent), start) + Advance(frame)
      ensures !ok ==> sent == old(sent) && writable == 0
    {
      if writable == 0 {
        return false;
      }
      FrameAppended(sent, frame, channel.published, start);
      writable := writable - 1;
      sent := sent + [frame];
      ok := true;
    }

    /** Other tasks publish; nothing this connection was given changes. */
    method Await()
      requires Sound()
      modifies channel, channel.slots
      ensures Sound() && old(channel.published) <= channel.published && channel.tail >= old(channel.tail)
      ensures old(Valid()) ==> Valid()
    {
      ghost var before := channel.published;
      OthersPublish(channel);
      FaithfulGrows(sent, before, channel.published, start);
    }

    /** Takes one event from the subscription and writes it, or the notice of what was missed. */
    method ForwardNext() returns (empty: bool, ok: bool)
      requires Valid()
      modifies this`cursor, this`sent, this`writable
      ensures Sound() && old(sent) <= sent && |sent| <= |old(sent)| + 1 && Directs(sent) == Directs(old(sent))
      ensures empty <==> old(cursor) == channel.tail
      ensures !ok ==> writable == 0
      ensures empty ==> ok && sent == old(sent)
      ensures ok ==> Valid() && old(cursor) <= cursor <= channel.tail && (!empty ==> cursor > old(cursor))
    {
      hide Faithful, OwnMessages, OwnBehind, AllowedTimes, Cursor;
      var received, next := channel.TryRecv(cursor);
      match received {
        case Empty =>
          empty, ok := true, true;
        case Ok(event) =>
          empty := false;
          DirectsNext(sent, Frame.Event(event));
          ok := Write(Frame.Event(event));
          cursor := next;
        case Lagged(missed) =>
          empty := false;
          DirectsNext(sent, Missed(missed, channel.tail));
          ok := Write(Missed(missed, channel.tail));
          cursor := next;
      }
    }

    /** Writes everything the subscription holds, until it is empty. Others publish during the first `noise` of the
        writes; every execution of the loop that ends has such a number. */
    method Drain(noise: nat) returns (ok: bool)
      requires Valid()
      modifies this`cursor, this`sent, this`writable, channel, channel.slots
      ensures Sound() && old(sent) <= sent && old(channel.published) <= channel.published
      ensures Directs(sent) == Directs(old(sent)) && channel.tail >= old(channel.tail)
      ensures ok ==> Valid() && cursor == channel.tail >= old(cursor)
      ensures !ok ==> writable == 0
    {
      assert Sound() && cursor <= channel.tail;
      hide Connection.Sound, Connection.Valid, Directs;
      var left := noise;
      while true
        invariant Sound() && Valid() && old(sent) <= sent && old(channel.published) <= channel.published
        invariant Directs(sent) == Directs(old(sent)) && old(cursor) <= cursor <= channel.tail
        invariant channel.tail >= old(channel.tail)
        decreases left, channel.tail - cursor
      {
        var empty, fine := ForwardNext();
        if !fine {
          return false;
        }
        if empty {
          return true;
        }
        if left > 0 {
          Await();
          left := left - 1;
        }
      }
    }

    /** Drains the subscription and then writes, so the payload comes last. */
    method SendDirectly(payload: Payload, noise: nat) returns (ok: bool)
      requires Valid()
      modifies this`cursor, this`sent, this`writable, channel, channel.slots
      ensures Sound() && old(sent) <= sent && old(channel.published) <= channel.published
      ensures ok ==>
        && Valid() && old(sent) < sent && cursor >= old(cursor)
        && sent[|sent| - 1] == Direct(payload, old(channel.tail), |own|)
        && Directs(sent) == Directs(old(sent)) + [payload]
      ensures !ok ==> Directs(sent) == Directs(old(sent)) && writable == 0
    {
      var floor, mine := channel.tail, |own|;
      assert forall j :: 0 <= j < mine ==> own[j] < floor;
      hide Faithful, AllowedTimes, OwnMessages, OwnBehind, Directs;
      ok := Drain(noise);
      if ok {
        DirectsNext(sent, Direct(payload, floor, mine));
        ok := Write(Direct(payload, floor, mine));
      }
    }

    /** Where a command goes. An unusable one does not touch the budget. */
    method HandleCommand(command: Command, now: nat) returns (outcome: Outcome)
      requires quota.Valid()
      modifies quota
      ensures quota.Valid()
      ensures command == Unparsable ==> outcome == ToSender(Notice("invalid_command"))
      ensures command == Unacceptable ==> outcome == ToSender(Notice("invalid_message"))
      ensures !command.Say? ==> quota.asked == old(quota.asked)
      ensures command.Say? ==>
        && quota.asked == old(quota.asked) + [now]
        && outcome == (if Place(quota.openedAt, quota.asked) <= MESSAGE_QUOTA
                       then ToEveryone(Message(participant, command.text)) else ToSender(Notice("rate_limited")))
      ensures AllowedTimes(quota.openedAt, quota.asked)
        == AllowedTimes(quota.openedAt, old(quota.asked)) + if outcome.ToEveryone? then [now] else []
    {
      match command {
        case Unparsable => outcome := ToSender(Notice("invalid_command"));
        case Unacceptable => outcome := ToSender(Notice("invalid_message"));
        case Say(text) =>
          var allowed := quota.Allow(now);
          outcome := if allowed then ToEveryone(Message(participant, text)) else ToSender(Notice("rate_limited"));
      }
    }

    /** A refused command is answered here; an accepted one comes back to its sender like everyone else's. */
    method HandleText(command: Command, now: nat, noise: nat) returns (ok: bool)
      requires Valid()
      modifies this, channel, channel.slots, quota
      ensures Sound() && old(sent) <= sent && old(channel.published) <= channel.published
      ensures ok ==> Valid() && cursor >= old(cursor)
      ensures !ok ==> writable == 0
      ensures quota.asked == old(quota.asked) + if command.Say? then [now] else []
      ensures command.Say? && Place(quota.openedAt, quota.asked) <= MESSAGE_QUOTA ==>
        && ok && sent == old(sent) && own == old(own) + [old(channel.tail)]
        && channel.published == old(channel.published) + [Message(participant, command.text)]
      ensures !command.Say? || Place(quota.openedAt, quota.asked) > MESSAGE_QUOTA ==>
        && own == old(own)
        && Directs(sent) == Directs(old(sent)) +
             (if !ok then []
              else if command == Unparsable then [Notice("invalid_command")]
              else if command == Unacceptable then [Notice("invalid_message")]
              else [Notice("rate_limited")])
        && (ok ==> old(sent) < sent && sent[|sent| - 1].Direct? && sent[|sent| - 1].floor == old(channel.tail)
                   && sent[|sent| - 1].own == |own|)
    {
      hide Faithful, OwnMessages, OwnBehind, Place, Cursor;
      var outcome := HandleCommand(command, now);
      ok := true;
      match outcome {
        case ToEveryone(event) => PublishOwn(event);
        case ToSender(notice) => ok := SendDirectly(notice, noise);
      }
    }

    /** One turn of the loop. */
    method HandleInput(input: Input, lastSeen: nat, ticks: nat) returns (goOn: bool, lastSeen': nat, ticks': nat)
      requires Valid()
      modifies this, channel, channel.slots, quota
      ensures Sound() && old(sent) <= sent && old(channel.published) <= channel.published
      ensures goOn ==> Valid() && cursor >= old(cursor)
      ensures quota.asked == old(quota.asked) + if input.Text? && input.command.Say? then [input.now] else []
      ensures goOn ==> (Directs(sent) == Directs(old(sent)) +
        match input
        case Text(Unparsable, _) => [Notice("invalid_command")]
        case Text(Unacceptable, _) => [Notice("invalid_message")]
        case Text(Say(_), _) =>
          if Place(quota.openedAt, quota.asked) <= MESSAGE_QUOTA then [] else [Notice("rate_limited")]
        case Binary(_) => [Notice("unsupported_frame")]
        case Due(_) => [Tick(ticks + 1)]
        case _ => [])
      ensures goOn && Directs(sent) != Directs(old(sent)) ==>
        && old(sent) < sent && sent[|sent| - 1].Direct?
        && sent[|sent| - 1].floor == old(channel.tail) && sent[|sent| - 1].own == |own|
      ensures input.Text? && input.command.Say? && Place(quota.openedAt, quota.asked) <= MESSAGE_QUOTA ==>
        && goOn && own == old(own) + [old(channel.tail)]
        && channel.published == old(channel.published) + [Message(participant, input.command.text)]
      ensures !(input.Text? && input.command.Say?) || Place(quota.openedAt, quota.asked) > MESSAGE_QUOTA ==>
        own == old(own)
      ensures goOn && input.FanOut? && old(cursor) < old(channel.tail) ==> cursor > old(cursor)
      ensures input.Close? || (input.Due? && input.now >= lastSeen + IDLE_TIMEOUT) ==> !goOn && sent == old(sent)
      ensures !goOn ==>
        && (input.Close? || (input.Due? && input.now >= lastSeen + IDLE_TIMEOUT) || writable == 0)
        && (Directs(sent) == Directs(old(sent))
            || (input.Due? && writable == 0 && Directs(sent) == Directs(old(sent)) + [Tick(ticks + 1)]))
      ensures lastSeen' == match input
        case Text(_, now) => now
        case Binary(now) => now
        case Pulse(now) => now
        case _ => lastSeen
      ensures ticks' == if input.Due? && input.now < lastSeen + IDLE_TIMEOUT then ticks + 1 else ticks
    {
      hide Faithful, OwnMessages, OwnBehind, AllowedTimes, Place, Cursor;
      goOn, lastSeen', ticks' := true, lastSeen, ticks;
      var noise: nat := *;
      match input {
        case FanOut =>
          var _, ok := ForwardNext();
          goOn := ok;
        case Text(command, now) =>
          lastSeen' := now;
          goOn := HandleText(command, now, noise);
        case Binary(now) =>
          lastSeen' := now;
          goOn := SendDirectly(Notice("unsupported_frame"), noise);
        case Pulse(now) =>
          lastSeen' := now;
        case Due(now) =>
          if now >= lastSeen + IDLE_TIMEOUT {
            goOn := false;
          } else {
            ticks' := ticks + 1;
            goOn := SendDirectly(Tick(ticks'), noise);
            if goOn {
              goOn := Ping();
            }
          }
        case Close =>
          goOn := false;
      }
    }

    /** A ping carries no event; it only uses up a write. */
    method Ping() returns (ok: bool)
      requires Valid()
      modifies this`writable
      ensures Valid() && (!ok ==> writable == 0)
    {
      ok := writable > 0;
      if ok {
        writable := writable - 1;
      }
    }

    /** An accepted command goes through the hub, to everyone including its sender. */
    method PublishOwn(event: Payload)
      requires channel.Valid() && quota.Valid() && Faithful(sent, channel.published, start)
      requires OwnMessages(own, channel.published, start, participant) && OwnBehind(sent, own)
      requires event.Message? && event.from == participant && start <= channel.tail
      requires |own| + 1 == |AllowedTimes(quota.openedAt, quota.asked)|
      modifies this`own, channel, channel.slots
      ensures Sound() && own == old(own) + [old(channel.tail)]
      ensures channel.published == old(channel.published) + [event] && channel.tail == old(channel.tail) + 1
    {
      ghost var before := channel.published;
      own := own + [channel.tail];
      channel.Send(event);
      FaithfulGrows(sent, before, channel.published, start);
    }

    /** The loop, until the inputs are over, one of them ends the connection, or a write fails: each input handled
        got its reply, each message accepted was published, and each event waited for moved the cursor. */
    method Serve(inputs: seq<Input>, seen: nat) returns (handled: nat, ghost replies: seq<Payload>)
      requires Valid() && quota.asked == [] && TextsAfter(inputs, quota.openedAt)
      modifies this, channel, channel.slots, quota
      ensures Sound() && old(sent) <= sent && old(channel.published) <= channel.published
      ensures SendQuota.Timed(quota.openedAt, quota.asked)
      ensures Directs(sent) == Directs(old(sent)) + replies
      ensures Followed(replies, quota.openedAt, inputs, seen, handled, writable)
      ensures Published(channel.published, own, |old(own)|, participant, Accepted(quota.openedAt, inputs[..handled]))
      ensures handled == |inputs| ==>
        Valid() && cursor - old(cursor) >= Least(FanOuts(inputs), old(channel.tail) - old(cursor))
    {
      ghost var base, first, ahead := Directs(sent), |own|, channel.tail - cursor;
      NothingHandled(quota.openedAt, inputs, seen, channel.published, own, participant);
      var i, lastSeen, ticks := 0, seen, 0;
      replies := [];
      assert Directs(sent) == base + replies;
      assert InLoop(inputs, seen, 0, lastSeen, ticks, base, replies, first);
      hide Connection.InLoop, Connection.Sound, SendQuota.Timed, Directs, Published, Followed, FanOuts, Accepted;
      hide TextsAfter;
      while i < |inputs|
        invariant 0 <= i <= |inputs| && InLoop(inputs, seen, i, lastSeen, ticks, base, replies, first)
        invariant old(sent) <= sent && old(channel.published) <= channel.published
        invariant cursor >= old(cursor) + Least(FanOuts(inputs[..i]), ahead)
        invariant channel.tail >= old(cursor) + ahead
      {
        var goOn;
        goOn, lastSeen, ticks, replies := Turn(inputs, seen, i, lastSeen, ticks, base, replies, first);
        if !goOn {
          handled := i;
          return;
        }
        FanOutCounts(inputs, i);
        i := i + 1;
      }
      handled := i;
      LoopDone(inputs, seen, lastSeen, ticks, base, replies, first);
    }

    /** Between turns: `i` inputs are handled. */
    ghost predicate InLoop(inputs: seq<Input>, seen: nat, i: nat, lastSeen: nat, ticks: nat, base: seq<Payload>,
                           replies: seq<Payload>, first: nat)
      requires i <= |inputs|
      reads this, channel, channel.slots, quota
    {
      && Valid() && Directs(sent) == base + replies
      && Caught(quota.openedAt, inputs, seen, i, quota.asked, lastSeen, ticks, replies)
      && Published(channel.published, own, first, participant, Accepted(quota.openedAt, inputs[..i]))
    }

    lemma LoopDone(inputs: seq<Input>, seen: nat, lastSeen: nat, ticks: nat, base: seq<Payload>,
                   replies: seq<Payload>, first: nat)
      requires InLoop(inputs, seen, |inputs|, lastSeen, ticks, base, replies, first)
      requires TextsAfter(inputs, quota.openedAt)
      ensures Sound() && Valid() && Directs(sent) == base + replies && inputs[..|inputs|] == inputs
      ensures Followed(replies, quota.openedAt, inputs, seen, |inputs|, writable)
      ensures Published(channel.published, own, first, participant, Accepted(quota.openedAt, inputs))
      ensures SendQuota.Timed(quota.openedAt, quota.asked)
    {
      AllCaught(quota.openedAt, inputs, seen, quota.asked, lastSeen, ticks, replies, writable);
      SaidInTime(inputs, quota.openedAt);
    }

    /** Others publish, then one input is handled. */
    method Turn(inputs: seq<Input>, seen: nat, i: nat, lastSeen: nat, ticks: nat, ghost base: seq<Payload>,
                ghost replies: seq<Payload>, ghost first: nat)
      returns (goOn: bool, lastSeen': nat, ticks': nat, ghost replies': seq<Payload>)
      requires i < |inputs| && InLoop(inputs, seen, i, lastSeen, ticks, base, replies, first)
      requires TextsAfter(inputs, quota.openedAt)
      modifies this, channel, channel.slots, quota
      ensures old(sent) <= sent && old(channel.published) <= channel.published && channel.tail >= old(channel.tail)
      ensures goOn ==>
        && InLoop(inputs, seen, i + 1, lastSeen', ticks', base, replies', first)
        && cursor >= old(cursor)
        && (inputs[i].FanOut? && old(cursor) < old(channel.tail) ==> cursor > old(cursor))
      ensures !goOn ==>
        && Sound() && Directs(sent) == base + replies'
        && Followed(replies', quota.openedAt, inputs, seen, i, writable)
        && Published(channel.published, own, first, participant, Accepted(quota.openedAt, inputs[..i]))
        && SendQuota.Timed(quota.openedAt, quota.asked)
    {
      ghost var since, asked, published0, own0 := quota.openedAt, quota.asked, channel.published, own;
      hide Connection.Sound, SendQuota.Timed, Directs, Caught, Published, Followed, Turned, Accepted;
      Await();
      ghost var published1 := channel.published;
      TurnTimed(since, inputs, seen, i, asked, lastSeen, ticks, replies);
      goOn, lastSeen', ticks' := TakeInput(inputs[i], lastSeen, ticks);
      replies' := TurnDone(since, inputs, seen, i, asked, lastSeen, ticks, replies, base, published0, published1,
                           channel.published, own0, own, first, participant, quota.asked, lastSeen', ticks',
                           Directs(sent), writable, goOn);
    }

    /** `HandleInput` in terms of values alone. */
    method TakeInput(input: Input, lastSeen: nat, ticks: nat) returns (goOn: bool, lastSeen': nat, ticks': nat)
      requires Valid()
      modifies this, channel, channel.slots, quota
      ensures Sound() && old(sent) <= sent && old(channel.published) <= channel.published
      ensures channel.tail >= old(channel.tail)
      ensures goOn ==> Valid() && cursor >= old(cursor)
      ensures goOn && input.FanOut? && old(cursor) < old(channel.tail) ==> cursor > old(cursor)
      ensures quota.asked == old(quota.asked) + if Saying(input) then [input.now] else []
      ensures Turned(input, quota.openedAt, quota.asked, lastSeen, ticks, lastSeen', ticks', Directs(old(sent)),
                     Directs(sent), old(channel.published), channel.published, old(own), own, participant, writable,
                     goOn)
    {
      hide Faithful, OwnMessages, OwnBehind, AllowedTimes, Place, Cursor, Directs;
      goOn, lastSeen', ticks' := HandleInput(input, lastSeen, ticks);
    }

    method Announce(change: Presence, connections: nat)
      requires Sound()
      modifies channel, channel.slots
      ensures Sound() && channel.Valid()
      ensures channel.published == old(channel.published) + [PresenceChanged(change, id, participant, connections)]
    {
      ghost var before := channel.published;
      channel.Send(PresenceChanged(change, id, participant, connections));
      FaithfulGrows(sent, before, channel.published, start);
    }
  }

  /** Text frames arrive after `since` and in clock order. */
  predicate TextsAfter(inputs: seq<Input>, since: nat) {
    && (forall i :: 0 <= i < |inputs| && inputs[i].Text? ==> since <= inputs[i].now)
    && (forall i, k :: 0 <= i < k < |inputs| && inputs[i].Text? && inputs[k].Text? ==> inputs[i].now <= inputs[k].now)
  }

  // ---- One turn, in terms of the inputs ----

  /** The state the loop keeps, after `i` inputs none of which ended it. */
  predicate Caught(openedAt: nat, inputs: seq<Input>, seen: nat, i: nat, asked: seq<nat>, lastSeen: nat, ticks: nat,
                   replies: seq<Payload>)
    requires i <= |inputs|
  {
    && asked == Said(inputs[..i]) && lastSeen == LastSeen(inputs[..i], seen) && ticks == Dues(inputs[..i])
    && replies == Replies(openedAt, inputs[..i])
    && forall k :: 0 <= k < i ==> !Ends(inputs[..k], seen, inputs[k])
  }

  lemma NothingHandled(openedAt: nat, inputs: seq<Input>, seen: nat, published: seq<Payload>, own: seq<nat>,
                       from: Participant)
    ensures Caught(openedAt, inputs, seen, 0, [], seen, 0, [])
    ensures Published(published, own, |own|, from, Accepted(openedAt, inputs[..0]))
    ensures FanOuts(inputs[..0]) == 0
    ensures SendQuota.Timed(openedAt, [])
  {
  }

  lemma TurnCaught(openedAt: nat, inputs: seq<Input>, seen: nat, i: nat, asked: seq<nat>, lastSeen: nat, ticks: nat,
                   replies: seq<Payload>, asked': seq<nat>, lastSeen': nat, ticks': nat)
    requires i < |inputs| && Caught(openedAt, inputs, seen, i, asked, lastSeen, ticks, replies)
    requires asked' == asked + if Saying(inputs[i]) then [inputs[i].now] else []
    requires !(inputs[i].Close? || (inputs[i].Due? && inputs[i].now >= lastSeen + IDLE_TIMEOUT))
    requires lastSeen' == match inputs[i]
      case Text(_, now) => now
      case Binary(now) => now
      case Pulse(now) => now
      case _ => lastSeen
    requires ticks' == if inputs[i].Due? then ticks + 1 else ticks
    ensures Caught(openedAt, inputs, seen, i + 1, asked', lastSeen', ticks',
      replies + Reply(inputs[i], Saying(inputs[i]) && Place(openedAt, asked') <= MESSAGE_QUOTA, ticks + 1))
  {
    hide Place, Reply;
    assert inputs[..i + 1][..i] == inputs[..i];
  }

  /** What one input changes. */
  predicate Turned(input: Input, openedAt: nat, asked: seq<nat>, lastSeen: nat, ticks: nat, lastSeen': nat, ticks': nat,
                   directs: seq<Payload>, directs': seq<Payload>, published: seq<Payload>,
                   published': seq<Payload>, own: seq<nat>, own': seq<nat>, from: Participant, writable: nat,
                   goOn: bool)
  {
    var accepted := Saying(input) && Place(openedAt, asked) <= MESSAGE_QUOTA;
    var ends := input.Close? || (input.Due? && input.now >= lastSeen + IDLE_TIMEOUT);
    && (lastSeen' == match input
          case Text(_, now) => now
          case Binary(now) => now
          case Pulse(now) => now
          case _ => lastSeen)
    && (goOn ==> !ends && ticks' == (if input.Due? then ticks + 1 else ticks)
                 && directs' == directs + Reply(input, accepted, ticks + 1))
    && (!goOn ==> (ends || writable == 0)
                  && (directs' == directs || (input.Due? && writable == 0 && directs' == directs + [Tick(ticks + 1)])))
    && (if accepted
        then goOn && own' == own + [|published|] && published' == published + [Message(from, input.command.text)]
        else own' == own)
  }

  lemma TurnDone(openedAt: nat, inputs: seq<Input>, seen: nat, i: nat, asked: seq<nat>, lastSeen: nat, ticks: nat,
                 replies: seq<Payload>, base: seq<Payload>, published0: seq<Payload>, published1: seq<Payload>,
                 published2: seq<Payload>, own0: seq<nat>, own: seq<nat>, first: nat, from: Participant,
                 asked': seq<nat>, lastSeen': nat, ticks': nat, directs: seq<Payload>, writable: nat, goOn: bool)
    returns (replies': seq<Payload>)
    requires i < |inputs| && Caught(openedAt, inputs, seen, i, asked, lastSeen, ticks, replies)
    requires Published(published0, own0, first, from, Accepted(openedAt, inputs[..i]))
    requires published0 <= published1 <= published2
    requires asked' == asked + if Saying(inputs[i]) then [inputs[i].now] else []
    requires Turned(inputs[i], openedAt, asked', lastSeen, ticks, lastSeen', ticks', base + replies, directs,
                    published1, published2, own0, own, from, writable, goOn)
    ensures directs == base + replies'
    ensures goOn ==>
      && Caught(openedAt, inputs, seen, i + 1, asked', lastSeen', ticks', replies')
      && Published(published2, own, first, from, Accepted(openedAt, inputs[..i + 1]))
    ensures !goOn ==>
      && Followed(replies', openedAt, inputs, seen, i, writable)
      && Published(published2, own, first, from, Accepted(openedAt, inputs[..i]))
  {
    hide Place, Caught, Published, Followed, Reply, Accepted;
    TurnPublished(openedAt, inputs, seen, i, asked, lastSeen, ticks, replies, published0, published1, published2,
                  own0, own, first, from);
    if goOn {
      TurnCaught(openedAt, inputs, seen, i, asked, lastSeen, ticks, replies, asked', lastSeen', ticks');
      replies' := replies
        + Reply(inputs[i], Saying(inputs[i]) && Place(openedAt, asked') <= MESSAGE_QUOTA, ticks + 1);
    } else {
      TurnStopped(openedAt, inputs, seen, i, asked, lastSeen, ticks, replies, directs, base, writable);
      replies' := directs[|base|..];
    }
  }

  lemma TurnStopped(openedAt: nat, inputs: seq<Input>, seen: nat, i: nat, asked: seq<nat>, lastSeen: nat, ticks: nat,
                    replies: seq<Payload>, directs: seq<Payload>, base: seq<Payload>, writable: nat)
    requires i < |inputs| && Caught(openedAt, inputs, seen, i, asked, lastSeen, ticks, replies)
    requires directs == base + replies
      || (inputs[i].Due? && writable == 0 && directs == base + replies + [Tick(ticks + 1)])
    requires inputs[i].Close? || (inputs[i].Due? && inputs[i].now >= lastSeen + IDLE_TIMEOUT) || writable == 0
    ensures |base| <= |directs| && directs == base + directs[|base|..]
    ensures Followed(directs[|base|..], openedAt, inputs, seen, i, writable)
  {
    assert inputs[..i + 1][..i] == inputs[..i];
    assert base + replies + [Tick(ticks + 1)] == base + (replies + [Tick(ticks + 1)]);
  }

  lemma AllCaught(openedAt: nat, inputs: seq<Input>, seen: nat, asked: seq<nat>, lastSeen: nat, ticks: nat,
                  replies: seq<Payload>, writable: nat)
    requires Caught(openedAt, inputs, seen, |inputs|, asked, lastSeen, ticks, replies)
    ensures Followed(replies, openedAt, inputs, seen, |inputs|, writable)
    ensures inputs[..|inputs|] == inputs
  {
  }

  lemma FanOutCounts(inputs: seq<Input>, i: nat)
    requires i < |inputs|
    ensures FanOuts(inputs[..i + 1]) == FanOuts(inputs[..i]) + if inputs[i].FanOut? then 1 else 0
  {
    assert inputs[..i + 1][..i] == inputs[..i];
  }

  lemma {:induction false} SaidBefore(inputs: seq<Input>, now: nat)
    requires forall k :: 0 <= k < |inputs| && inputs[k].Text? ==> inputs[k].now <= now
    ensures forall a :: 0 <= a < |Said(inputs)| ==> Said(inputs)[a] <= now
  {
    if inputs != [] {
      SaidBefore(inputs[..|inputs| - 1], now);
    }
  }

  /** The asks of any number of inputs come in clock order. */
  lemma {:induction false} SaidInTime(inputs: seq<Input>, since: nat)
    requires TextsAfter(inputs, since)
    ensures SendQuota.Timed(since, Said(inputs))
  {
    if inputs != [] {
      var n := |inputs| - 1;
      SaidInTime(inputs[..n], since);
      if Saying(inputs[n]) {
        SaidBefore(inputs[..n], inputs[n].now);
      }
    }
  }

  lemma TurnTimed(openedAt: nat, inputs: seq<Input>, seen: nat, i: nat, asked: seq<nat>, lastSeen: nat, ticks: nat,
                  replies: seq<Payload>)
    requires i < |inputs| && Caught(openedAt, inputs, seen, i, asked, lastSeen, ticks, replies)
    requires TextsAfter(inputs, openedAt)
    ensures SendQuota.Timed(openedAt, asked + if Saying(inputs[i]) then [inputs[i].now] else [])
  {
    assert inputs[..i + 1][..i] == inputs[..i];
    assert TextsAfter(inputs[..i + 1], openedAt);
    SaidInTime(inputs[..i + 1], openedAt);
  }

  lemma TurnPublished(openedAt: nat, inputs: seq<Input>, seen: nat, i: nat, asked: seq<nat>, lastSeen: nat, ticks: nat,
                      replies: seq<Payload>, published0: seq<Payload>, published1: seq<Payload>,
                      published2: seq<Payload>, own0: seq<nat>, own: seq<nat>, first: nat, from: Participant)
    requires i < |inputs| && Caught(openedAt, inputs, seen, i, asked, lastSeen, ticks, replies)
    requires Published(published0, own0, first, from, Accepted(openedAt, inputs[..i]))
    requires published0 <= published1 <= published2
    requires Saying(inputs[i]) && Place(openedAt, asked + [inputs[i].now]) <= MESSAGE_QUOTA ==>
      own == own0 + [|published1|] && published2 == published1 + [Message(from, inputs[i].command.text)]
    requires !(Saying(inputs[i]) && Place(openedAt, asked + [inputs[i].now]) <= MESSAGE_QUOTA) ==> own == own0
    ensures Published(published2, own, first, from, Accepted(openedAt, inputs[..i + 1]))
    ensures own == own0 ==> Published(published2, own, first, from, Accepted(openedAt, inputs[..i]))
  {
    hide Place;
    assert inputs[..i + 1][..i] == inputs[..i];
  }

  /** This connection's arrival was published at or after `from`, and its departure last, reporting `left`
      connections. */
  ghost predicate Announced(published: seq<Payload>, from: nat, id: nat, participant: Participant, left: nat) {
    && |published| > 0
    && published[|published| - 1] == PresenceChanged(Gone, id, participant, left)
    && exists i, arrived :: from <= i < |published| - 1
         && published[i] == PresenceChanged(Arrived, id, participant, arrived) && 1 <= arrived
  }

  lemma ArrivedThenLeft(before: seq<Payload>, from: nat, i: nat, id: nat, participant: Participant,
                        arrived: nat, left: nat)
    requires from <= i < |before| && 1 <= arrived
    requires before[i] == PresenceChanged(Arrived, id, participant, arrived)
    ensures Announced(before + [PresenceChanged(Gone, id, participant, left)], from, id, participant, left)
  {
    assert (before + [PresenceChanged(Gone, id, participant, left)])[i] == before[i];
  }

  /** One socket from its upgrade to its end, whatever the client sends, whatever others publish, and
      however others take and release slots. Without a welcome nothing is announced. With one, the arrival
      is announced while the slot counts and the departure after it stopped counting; `Sound` says what the
      whole stream of frames satisfies. On every path the slot is free in the end, and `Valid` of the hub
      says that the counter is still the number of the slots that are not. */
  method RunConnection(channel: Channel<Payload>, slot: ConnectionSlot, theirs: set<ConnectionSlot>,
                       participant: Participant, id: nat, inputs: seq<Input>, now: nat, writable: nat)
    returns (connection: Connection?, handled: nat, ghost replies: seq<Payload>)
    requires channel.Valid() && TextsAfter(inputs, now)
    requires slot.hub.Valid() && slot !in theirs && slot.hub.holders == theirs + {slot}
    modifies channel, channel.slots, slot, slot.hub, theirs
    ensures channel.Valid() && slot.hub.Valid() && slot.released && slot !in slot.hub.holders
    ensures connection == null <==> writable == 0
    ensures connection == null ==> channel.published == old(channel.published) && slot.hub.holders == theirs
    ensures connection != null ==>
      && connection.channel == channel && connection.start == |old(channel.published)|
      && connection.Sound() && |connection.sent| > 0
      && connection.sent[0] == Direct(Payload.Welcome(id, participant), connection.start, 0)
      && connection.quota.openedAt == now && SendQuota.Timed(now, connection.quota.asked)
      && Announced(channel.published, connection.start, id, participant, |slot.hub.holders|)
    ensures connection != null ==>
      && Directs(connection.sent) == [Payload.Welcome(id, participant)] + replies
      && Followed(replies, now, inputs, now, handled, connection.writable)
      && Published(channel.published, connection.own, 0, participant, Accepted(now, inputs[..handled]))
  {
    handled, replies := 0, [];
    var start := channel.Subscribe();
    if writable == 0 {
      slot.Release();
      connection := null;
      return;
    }
    hide Connection.Sound, Connection.Valid, Cursor, TextsAfter, SendQuota.Timed, Announced, Followed, Published;
    hide Accepted;
    var others, arrival, counted := Arrive(channel, slot, theirs, participant, id);
    connection := new Connection(channel, participant, id, start, now, writable - 1);
    WelcomeIsDirect(connection.sent, Payload.Welcome(id, participant), start);
    handled, replies := connection.Serve(inputs, now);
    ghost var before := channel.published;
    Depart(connection, slot, others);
    PublishedGrows(before, channel.published, connection.own, participant, Accepted(now, inputs[..handled]));
    ArrivedThenLeft(before, start, arrival, id, participant, counted, |slot.hub.holders|);
  }

  lemma WelcomeIsDirect(sent: Frames, welcome: Payload, start: nat)
    requires sent == [Direct(welcome, start, 0)]
    ensures Directs(sent) == [welcome]
  {
    assert sent[..0] == [];
  }

  lemma PublishedGrows(published: seq<Payload>, published': seq<Payload>, own: seq<nat>, from: Participant,
                       texts: seq<string>)
    requires Published(published, own, 0, from, texts) && published <= published'
    ensures Published(published', own, 0, from, texts)
  {
  }

  /** The arrival, published while the slot is one of those counted. */
  method Arrive(channel: Channel<Payload>, slot: ConnectionSlot, theirs: set<ConnectionSlot>,
                participant: Participant, id: nat)
    returns (others: set<ConnectionSlot>, ghost arrival: nat, counted: nat)
    requires channel.Valid()
    requires slot.hub.Valid() && slot !in theirs && slot.hub.holders == theirs + {slot}
    modifies channel, channel.slots, slot.hub, theirs
    ensures channel.Valid() && old(channel.published) <= channel.published
    ensures slot.hub.Valid() && slot !in others && slot.hub.holders == others + {slot} && fresh(others - theirs)
    ensures |old(channel.published)| <= arrival < |channel.published|
    ensures channel.published[arrival] == PresenceChanged(Arrived, id, participant, counted)
    ensures slot in slot.hub.holders && counted == |slot.hub.holders|
  {
    OthersPublish(channel);
    others := OthersComeAndGo(slot.hub, {slot}, theirs);
    assert slot in slot.hub.holders;
    arrival, counted := |channel.published|, slot.hub.connections;
    channel.Send(PresenceChanged(Arrived, id, participant, counted));
    OthersPublish(channel);
  }

  /** The slot, then the departure, so the count announced is of slots held by others. They come and go before
      the slot is freed, and again before the counter is read. */
  method Depart(connection: Connection, slot: ConnectionSlot, theirs: set<ConnectionSlot>)
    requires connection.Sound()
    requires slot.hub.Valid() && slot !in theirs && slot.hub.holders == theirs + {slot}
    modifies connection.channel, connection.channel.slots, slot, slot.hub, theirs
    ensures connection.Sound() && connection.channel.Valid()
    ensures slot.hub.Valid() && slot.released && slot !in slot.hub.holders
    ensures connection.channel.published == old(connection.channel.published)
      + [PresenceChanged(Gone, connection.id, connection.participant, |slot.hub.holders|)]
  {
    hide Faithful, OwnMessages, OwnBehind, AllowedTimes;
    ReleaseAmongOthers(slot, theirs);
    connection.Announce(Gone, slot.hub.connections);
    slot.Release(); // the drop at the end, which frees nothing more
  }
}
