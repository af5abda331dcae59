/** The bounded broadcast ring under the realtime hub and the in-process event bus: one tail, one cursor a
    subscriber, and a count of what a slow subscriber missed. */
module Broadcast {
  const CAPACITY: nat := 256

  datatype Received<E> = Ok(event: E) | Lagged(missed: nat) | Empty

  /** What a subscriber at `cursor` gets next, in terms of everything ever published. */
  function Receive<E>(published: seq<E>, cursor: nat): (Received<E>, nat)
    requires cursor <= |published|
  {
    var tail := |published|;
    if cursor == tail then (Empty, cursor)
    else if tail - cursor > CAPACITY then (Lagged(tail - CAPACITY - cursor), tail - CAPACITY)
    else (Ok(published[cursor]), cursor + 1)
  }

  class Channel<E(0)> {
    const slots: array<E>
    var tail: nat
    ghost var published: seq<E>

    /** The ring holds exactly the last `CAPACITY` events published. */
    ghost predicate Valid()
      reads this, slots
    {
      && slots.Length == CAPACITY
      && tail == |published|
      && forall i :: 0 <= i < tail && tail <= i + CAPACITY ==> slots[i % CAPACITY] == published[i]
    }

    constructor ()
      ensures Valid() && published == [] && fresh(slots)
    {
      slots := new E[CAPACITY];
      tail := 0;
      published := [];
    }

    method Send(event: E)
      requires Valid()
      modifies this, slots
      ensures Valid() && published == old(published) + [event]
    {
      slots[tail % CAPACITY] := event;
      published := published + [event];
      tail := tail + 1;
    }

    /** A new subscriber sees only what is published from here on. */
    method Subscribe() returns (cursor: nat)
      requires Valid()
      ensures cursor == |published|
    {
      cursor := tail;
    }

    method TryRecv(cursor: nat) returns (received: Received<E>, next: nat)
      requires Valid() && cursor <= tail
      ensures (received, next) == Receive(published, cursor)
    {
      if cursor == tail {
        return Empty, cursor;
      }
      if tail - cursor > CAPACITY {
        return Lagged(tail - CAPACITY - cursor), tail - CAPACITY;
      }
      return Ok(slots[cursor % CAPACITY]), cursor + 1;
    }
  }

  /** Other tasks run at every await and publish whatever they like. */
  method OthersPublish<E(0)>(channel: Channel<E>)
    requires channel.Valid()
    modifies channel, channel.slots
    ensures channel.Valid() && old(channel.published) <= channel.published
  {
    var batch: seq<E> := *;
    for i := 0 to |batch|
      invariant channel.Valid() && old(channel.published) <= channel.published
    {
      channel.Send(batch[i]);
    }
  }

  // ---- What a subscriber has been given ----

  /** One thing handed to a subscriber, in order. `Missed` is reported when `tail` events had been
      published. `Direct` is written for this subscriber alone, when `floor` events had been published and
      `own` of its own broadcasts accepted. */
  datatype Frame<E> = Event(event: E) | Missed(count: nat, tail: nat) | Direct(payload: E, floor: nat, own: nat)

  function Advance<E>(frame: Frame<E>): nat {
    match frame
    case Event(_) => 1
    case Missed(n, _) => n
    case Direct(_, _, _) => 0
  }

  /** The position the frames account for, from a subscription at `start`. */
  function Cursor<E>(frames: seq<Frame<E>>, start: nat): (position: nat)
    ensures position >= start
  {
    if frames == [] then start
    else Cursor(frames[..|frames| - 1], start) + Advance(frames[|frames| - 1])
  }

  /** Each event frame is the event published at its own position; each lag report ends at the oldest event
      the ring still held when it was made; each direct frame comes after everything published when it was decided. */
  ghost predicate Faithful<E>(frames: seq<Frame<E>>, published: seq<E>, start: nat) {
    forall k :: 0 <= k < |frames| ==> FrameFits(frames[k], Cursor(frames[..k], start), published)
  }

  predicate FrameFits<E(==)>(frame: Frame<E>, at: nat, published: seq<E>) {
    match frame
    case Event(e) => at < |published| && published[at] == e
    case Missed(n, tail) => 1 <= n && at + n + CAPACITY == tail <= |published|
    case Direct(_, floor, _) => floor <= at
  }

  lemma FaithfulGrows<E>(frames: seq<Frame<E>>, published: seq<E>, published': seq<E>, start: nat)
    requires Faithful(frames, published, start) && published <= published'
    ensures Faithful(frames, published', start)
  {
  }

  lemma FrameAppended<E>(frames: seq<Frame<E>>, frame: Frame<E>, published: seq<E>, start: nat)
    requires Faithful(frames, published, start) && FrameFits(frame, Cursor(frames, start), published)
    ensures Faithful(frames + [frame], published, start)
    ensures Cursor(frames + [frame], start) == Cursor(frames, start) + Advance(frame)
  {
    var all := frames + [frame];
    assert all[..|frames|] == frames;
    forall k | 0 <= k < |all| ensures FrameFits(all[k], Cursor(all[..k], start), published) {
      if k < |frames| {
        assert all[..k] == frames[..k];
      }
    }
  }

  function Delivered<E>(frames: seq<Frame<E>>): seq<E> {
    if frames == [] then []
    else
      var last := frames[|frames| - 1];
      Delivered(frames[..|frames| - 1]) + if last.Event? then [last.event] else []
  }

  function TotalMissed<E>(frames: seq<Frame<E>>): nat {
    if frames == [] then 0
    else
      var last := frames[|frames| - 1];
      TotalMissed(frames[..|frames| - 1]) + if last.Missed? then last.count else 0
  }

  /** What was written for this subscriber alone. */
  function Directs<E>(frames: seq<Frame<E>>): seq<E> {
    if frames == [] then []
    else
      var last := frames[|frames| - 1];
      Directs(frames[..|frames| - 1]) + if last.Direct? then [last.payload] else []
  }

  lemma DirectsNext<E>(frames: seq<Frame<E>>, frame: Frame<E>)
    ensures Directs(frames + [frame]) == Directs(frames) + if frame.Direct? then [frame.payload] else []
  {
    assert (frames + [frame])[..|frames|] == frames;
  }

  /** Delivered plus reported missed is the distance the cursor has moved. */
  lemma {:induction false} Conservation<E>(frames: seq<Frame<E>>, start: nat)
    ensures |Delivered(frames)| + TotalMissed(frames) == Cursor(frames, start) - start
  {
    if frames != [] {
      Conservation(frames[..|frames| - 1], start);
    }
  }

  lemma {:induction false} CursorGrows<E>(frames: seq<Frame<E>>, start: nat, i: nat, k: nat)
    requires i <= k <= |frames|
    ensures Cursor(frames[..i], start) <= Cursor(frames[..k], start)
    ensures i < k ==> Cursor(frames[..i], start) + Advance(frames[i]) <= Cursor(frames[..k], start)
    decreases k
  {
    if i < k {
      assert frames[..k][..k - 1] == frames[..k - 1];
      CursorGrows(frames, start, i, k - 1);
    }
  }

  /** Delivered events are those published at strictly increasing positions: in order and never twice. */
  lemma EventsInOrder<E>(frames: seq<Frame<E>>, published: seq<E>, start: nat, i: nat, k: nat)
    requires Faithful(frames, published, start) && i < k < |frames| && frames[i].Event? && frames[k].Event?
    ensures start <= Cursor(frames[..i], start) < Cursor(frames[..k], start) < |published|
    ensures published[Cursor(frames[..i], start)] == frames[i].event
    ensures published[Cursor(frames[..k], start)] == frames[k].event
  {
    CursorGrows(frames, start, 0, i);
    assert frames[..0] == [];
    CursorGrows(frames, start, i, k);
    assert FrameFits(frames[i], Cursor(frames[..i], start), published);
    assert FrameFits(frames[k], Cursor(frames[..k], start), published);
  }

  /** Every position passed was either written as an event or counted in a lag report. */
  lemma {:induction false} EveryPositionIsAccounted<E>(frames: seq<Frame<E>>, start: nat, position: nat)
    returns (k: nat)
    requires start <= position < Cursor(frames, start)
    ensures k < |frames| && !frames[k].Direct?
    ensures Cursor(frames[..k], start) <= position < Cursor(frames[..k], start) + Advance(frames[k])
  {
    var n := |frames| - 1;
    if position >= Cursor(frames[..n], start) {
      k := n;
    } else {
      k := EveryPositionIsAccounted(frames[..n], start, position);
      assert frames[..n][..k] == frames[..k];
    }
  }

  // ---- Any interleaving of publishers and one subscriber ----

  datatype Step<E> = Publish(event: E) | Poll

  datatype Subscription<E> = Subscription(published: seq<E>, cursor: nat, frames: seq<Frame<E>>)

  function Apply<E>(s: Subscription<E>, step: Step<E>): Subscription<E>
    requires s.cursor <= |s.published|
  {
    match step
    case Publish(e) => s.(published := s.published + [e])
    case Poll =>
      var (received, next) := Receive(s.published, s.cursor);
      match received
      case Empty => s
      case Ok(e) => s.(cursor := next, frames := s.frames + [Event(e)])
      case Lagged(n) => s.(cursor := next, frames := s.frames + [Missed(n, |s.published|)])
  }

  ghost predicate Served<E>(s: Subscription<E>, start: nat) {
    && s.cursor <= |s.published|
    && Faithful(s.frames, s.published, start)
    && Cursor(s.frames, start) == s.cursor
  }

  lemma StepServed<E>(s: Subscription<E>, step: Step<E>, start: nat)
    requires Served(s, start)
    ensures Served(Apply(s, step), start)
  {
    match step
    case Publish(e) => FaithfulGrows(s.frames, s.published, s.published + [e], start);
    case Poll =>
      match Receive(s.published, s.cursor).0
      case Empty =>
      case Ok(e) => FrameAppended(s.frames, Event(e), s.published, start);
      case Lagged(n) => FrameAppended(s.frames, Missed(n, |s.published|), s.published, start);
  }

  function Run<E>(s: Subscription<E>, steps: seq<Step<E>>): (s': Subscription<E>)
    requires s.cursor <= |s.published|
    ensures s'.cursor <= |s'.published|
    decreases |steps|
  {
    if steps == [] then s else Run(Apply(s, steps[0]), steps[1..])
  }

  lemma {:induction false} RunServed<E>(s: Subscription<E>, steps: seq<Step<E>>, start: nat)
    requires Served(s, start)
    ensures Served(Run(s, steps), start)
    decreases |steps|
  {
    if steps != [] {
      StepServed(s, steps[0], start);
      RunServed(Apply(s, steps[0]), steps[1..], start);
    }
  }

  /** For every interleaving, what a subscriber got is the stream from its subscription on, in order and
      without duplicates, with nothing unaccounted for. */
  lemma FanOutConserves<E>(history: seq<E>, steps: seq<Step<E>>)
    ensures var s := Run(Subscription(history, |history|, []), steps);
      && Faithful(s.frames, s.published, |history|)
      && |Delivered(s.frames)| + TotalMissed(s.frames) == s.cursor - |history|
  {
    RunServed(Subscription(history, |history|, []), steps, |history|);
    var s := Run(Subscription(history, |history|, []), steps);
    Conservation(s.frames, |history|);
  }

  /** For every interleaving, a position counted as missed had been overwritten when it was reported: the
      event a whole ring later was already published, and none that the ring still held is ever counted. */
  lemma OnlyOverwrittenEventsAreMissed<E>(history: seq<E>, steps: seq<Step<E>>, k: nat, position: nat)
    requires var frames := Run(Subscription(history, |history|, []), steps).frames;
      && k < |frames| && frames[k].Missed?
      && Cursor(frames[..k], |history|) <= position < Cursor(frames[..k], |history|) + frames[k].count
    ensures var s := Run(Subscription(history, |history|, []), steps);
      |history| <= position && position + CAPACITY < s.frames[k].tail <= |s.published|
  {
    FanOutConserves(history, steps);
    var s := Run(Subscription(history, |history|, []), steps);
    assert FrameFits(s.frames[k], Cursor(s.frames[..k], |history|), s.published);
  }

  /** At some poll of the run the subscriber is more than a ring behind. */
  predicate FallsBehind<E>(s: Subscription<E>, steps: seq<Step<E>>)
    requires s.cursor <= |s.published|
    decreases |steps|
  {
    steps != [] &&
    ((steps[0].Poll? && |s.published| - s.cursor > CAPACITY) || FallsBehind(Apply(s, steps[0]), steps[1..]))
  }

  lemma MissedSoFar<E>(frames: seq<Frame<E>>, frame: Frame<E>)
    ensures TotalMissed(frames + [frame]) == TotalMissed(frames) + if frame.Missed? then frame.count else 0
  {
    assert (frames + [frame])[..|frames|] == frames;
  }

  lemma StepMisses<E>(s: Subscription<E>, step: Step<E>)
    requires s.cursor <= |s.published|
    ensures TotalMissed(Apply(s, step).frames) >= TotalMissed(s.frames)
    ensures TotalMissed(Apply(s, step).frames) > TotalMissed(s.frames)
       <==> step.Poll? && |s.published| - s.cursor > CAPACITY
  {
    if step.Poll? {
      match Receive(s.published, s.cursor).0
      case Empty =>
      case Ok(e) => MissedSoFar(s.frames, Event(e));
      case Lagged(n) => MissedSoFar(s.frames, Missed(n, |s.published|));
    }
  }

  /** Over every interleaving, a subscriber misses something exactly when it polls more than a ring behind;
      one that keeps within the capacity gets every event. */
  lemma {:induction false} MissesExactlyWhenBehind<E>(s: Subscription<E>, steps: seq<Step<E>>)
    requires s.cursor <= |s.published|
    ensures TotalMissed(Run(s, steps).frames) >= TotalMissed(s.frames)
    ensures TotalMissed(Run(s, steps).frames) > TotalMissed(s.frames) <==> FallsBehind(s, steps)
    decreases |steps|
  {
    if steps != [] {
      StepMisses(s, steps[0]);
      MissesExactlyWhenBehind(Apply(s, steps[0]), steps[1..]);
    }
  }

  function Polls<E>(n: nat): seq<Step<E>> {
    seq(n, _ => Poll)
  }

  /** A subscriber within the capacity that keeps polling gets every event published, in order, and is then
      level with the publishers. */
  lemma {:induction false} PollingCatchesUp<E>(s: Subscription<E>, n: nat)
    requires s.cursor <= |s.published| <= s.cursor + CAPACITY && n <= |s.published| - s.cursor
    ensures var s' := Run(s, Polls(n));
      && s'.published == s.published && s'.cursor == s.cursor + n
      && Delivered(s'.frames) == Delivered(s.frames) + s.published[s.cursor..s.cursor + n]
    decreases n
  {
    if n > 0 {
      var s1 := Apply(s, Poll);
      assert Polls<E>(n)[1..] == Polls<E>(n - 1);
      assert (s.frames + [Event(s.published[s.cursor])])[..|s.frames|] == s.frames;
      PollingCatchesUp(s1, n - 1);
      assert s.published[s.cursor..s.cursor + n]
        == [s.published[s.cursor]] + s.published[s.cursor + 1..s.cursor + n];
    }
  }

  /** One further behind is told so once, and from there on is within the capacity. */
  lemma LaggingIsToldOnce<E>(s: Subscription<E>)
    requires s.cursor + CAPACITY < |s.published|
    ensures var s' := Apply(s, Poll);
      && s'.cursor + CAPACITY == |s'.published| && s'.published == s.published
      && Delivered(s'.frames) == Delivered(s.frames)
      && TotalMissed(s'.frames) == TotalMissed(s.frames) + (s'.cursor - s.cursor)
  {
    var n := |s.published| - CAPACITY - s.cursor;
    assert (s.frames + [Missed(n, |s.published|)])[..|s.frames|] == s.frames;
  }
}
