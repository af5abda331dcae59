/** The in-process stand-in for the event stream: the broadcast ring read by a consumer that keeps a
    bounded log of what it handled. */
module EventBus {
  import opened Broadcast

  const LOG_CAPACITY: nat := 100

  function LastOf<E>(all: seq<E>, n: nat): (last: seq<E>)
    ensures |last| == if |all| <= n then |all| else n
    ensures forall i :: 0 <= i < |last| ==> last[i] == all[|all| - |last| + i]
  {
    if |all| <= n then all else all[|all| - n..]
  }

  function Least(a: nat, b: nat): nat { if a <= b then a else b }

  class EventLog<E> {
    var events: seq<E>
    var consumed: nat
    /** Everything ever recorded, the entries already dropped included. */
    ghost var all: seq<E>

    ghost predicate Valid()
      reads this
    {
      consumed == |all| && events == LastOf(all, LOG_CAPACITY)
    }

    constructor ()
      ensures Valid() && all == []
    {
      events, consumed, all := [], 0, [];
    }

    method Record(event: E)
      requires Valid()
      modifies this
      ensures Valid() && all == old(all) + [event]
    {
      if |events| == LOG_CAPACITY {
        events := events[1..];
      }
      events := events + [event];
      consumed := consumed + 1;
      all := all + [event];
    }

    /** The most recent events, newest first. */
    method Recent(limit: nat) returns (recent: seq<E>)
      requires Valid()
      ensures |recent| == Least(limit, Least(|all|, LOG_CAPACITY))
      ensures forall i :: 0 <= i < |recent| ==> recent[i] == all[|all| - 1 - i]
    {
      var n := if limit <= |events| then limit else |events|;
      recent := seq(n, i requires 0 <= i < n <= |events| reads this => events[|events| - 1 - i]);
    }
  }

  lemma DeliveredOneMore<E>(frames: seq<Frame<E>>, frame: Frame<E>)
    ensures Delivered(frames + [frame]) == Delivered(frames) + if frame.Event? then [frame.event] else []
  {
    assert (frames + [frame])[..|frames|] == frames;
  }

  /** One turn of the loop. When something is pending the cursor moves: one event is handled, or those
      overwritten are passed over. */
  method Turn<E(0)>(channel: Channel<E>, log: EventLog<E>, cursor: nat, ghost frames: seq<Frame<E>>, ghost start: nat)
    returns (next: nat, ghost frames': seq<Frame<E>>, ghost handled: seq<E>)
    requires channel.Valid() && log.Valid() && cursor <= |channel.published|
    requires Faithful(frames, channel.published, start) && Cursor(frames, start) == cursor
    modifies log
    ensures log.Valid() && cursor <= next <= |channel.published|
    ensures cursor < |channel.published| ==> cursor < next
    ensures Faithful(frames', channel.published, start) && Cursor(frames', start) == next
    ensures log.all == old(log.all) + handled && Delivered(frames') == Delivered(frames) + handled
  {
    var received;
    received, next := channel.TryRecv(cursor);
    frames', handled := frames, [];
    match received {
      case Empty =>
      case Ok(event) =>
        log.Record(event);
        handled := [event];
        FrameAppended(frames, Event(event), channel.published, start);
        DeliveredOneMore(frames, Event(event));
        frames' := frames + [Event(event)];
      case Lagged(missed) =>
        FrameAppended(frames, Missed(missed, channel.tail), channel.published, start);
        DeliveredOneMore(frames, Missed(missed, channel.tail));
        frames' := frames + [Missed(missed, channel.tail)];
    }
  }

  /** The consumer's loop over the in-process bus from its subscription at `start`, for any number of turns and
      whatever is published meanwhile: each event received is handled once and in order, what was dropped is
      counted, and every turn with something pending gets on. */
  method Consume<E(0)>(channel: Channel<E>, log: EventLog<E>, start: nat, turns: nat)
    returns (ghost frames: seq<Frame<E>>, cursor: nat)
    requires channel.Valid() && log.Valid() && start <= |channel.published|
    modifies channel, channel.slots, log
    ensures channel.Valid() && log.Valid()
    ensures Faithful(frames, channel.published, start) && Cursor(frames, start) == cursor <= |channel.published|
    ensures log.all == old(log.all) + Delivered(frames)
    ensures log.consumed == old(log.consumed) + (cursor - start) - TotalMissed(frames)
    ensures cursor - start >= Least(turns, old(|channel.published|) - start)
  {
    cursor := start;
    frames := [];
    for turn := 0 to turns
      invariant channel.Valid() && log.Valid() && cursor <= |channel.published|
      invariant old(|channel.published|) <= |channel.published|
      invariant Faithful(frames, channel.published, start) && Cursor(frames, start) == cursor
      invariant log.all == old(log.all) + Delivered(frames)
      invariant cursor - start >= Least(turn, old(|channel.published|) - start)
    {
      ghost var before := channel.published;
      OthersPublish(channel);
      FaithfulGrows(frames, before, channel.published, start);
      ghost var handled;
      cursor, frames, handled := Turn(channel, log, cursor, frames, start);
    }
    Conservation(frames, start);
  }
}
