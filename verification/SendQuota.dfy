/** The publish budget one open connection carries. Times are nanoseconds. */
module SendQuota {
  const MESSAGE_QUOTA: nat := 5
  const MESSAGE_WINDOW: nat := 5_000_000_000

  datatype Budget = Budget(windowStarted: nat, used: nat)

  function Ask(b: Budget, now: nat): (Budget, bool) {
    var current := if now >= b.windowStarted + MESSAGE_WINDOW then Budget(now, 0) else b;
    if current.used >= MESSAGE_QUOTA then (current, false)
    else (current.(used := current.used + 1), true)
  }

  class Quota {
    var windowStarted: nat
    var used: nat
    /** When the connection opened, and when it asked to publish since. */
    ghost const openedAt: nat
    ghost var asked: seq<nat>

    ghost predicate Valid()
      reads this
    {
      Budget(windowStarted, used) == After(openedAt, asked)
    }

    constructor (now: nat)
      ensures Valid() && openedAt == now && asked == []
    {
      windowStarted, used := now, 0;
      openedAt, asked := now, [];
    }

    method Allow(now: nat) returns (allowed: bool)
      requires Valid()
      modifies this
      ensures Valid() && asked == old(asked) + [now]
      ensures AllowedTimes(openedAt, asked)
        == AllowedTimes(openedAt, old(asked)) + if allowed then [now] else []
      ensures (Budget(windowStarted, used), allowed) == Ask(old(Budget(windowStarted, used)), now)
      ensures allowed <==> Place(openedAt, asked) <= MESSAGE_QUOTA
    {
      AllowedExactlyFirst(openedAt, asked, now);
      asked := asked + [now];
      assert asked[..|asked| - 1] == old(asked);
      if now >= windowStarted + MESSAGE_WINDOW {
        windowStarted := now;
        used := 0;
      }
      if used >= MESSAGE_QUOTA {
        return false;
      }
      used := used + 1;
      allowed := true;
    }
  }

  function After(openedAt: nat, asked: seq<nat>): Budget {
    if asked == [] then Budget(openedAt, 0)
    else Ask(After(openedAt, asked[..|asked| - 1]), asked[|asked| - 1]).0
  }

  /** The times at which publishing was allowed. */
  function AllowedTimes(openedAt: nat, asked: seq<nat>): seq<nat> {
    if asked == [] then []
    else
      var before, now := asked[..|asked| - 1], asked[|asked| - 1];
      AllowedTimes(openedAt, before) + if Ask(After(openedAt, before), now).1 then [now] else []
  }

  function CountIn(times: seq<nat>, from: nat, to: nat): nat {
    if times == [] then 0
    else CountIn(times[..|times| - 1], from, to) + if from <= times[|times| - 1] < to then 1 else 0
  }

  predicate Timed(openedAt: nat, asked: seq<nat>) {
    && (forall i :: 0 <= i < |asked| ==> openedAt <= asked[i])
    && (forall i, k :: 0 <= i < k < |asked| ==> asked[i] <= asked[k])
  }

  // ---- Exactly who is let in ----

  /** When the window of the last ask opened, from the asked times alone: with the connection, or at the first
      ask a whole window after the opening before. */
  function Opener(openedAt: nat, asked: seq<nat>): nat {
    if asked == [] then openedAt
    else
      var previous, last := Opener(openedAt, asked[..|asked| - 1]), asked[|asked| - 1];
      if last >= previous + MESSAGE_WINDOW then last else previous
  }

  /** The place of the last ask in its window, counting from one. */
  function Place(openedAt: nat, asked: seq<nat>): nat {
    if asked == [] then 0
    else
      var n := |asked| - 1;
      if asked[n] >= Opener(openedAt, asked[..n]) + MESSAGE_WINDOW then 1 else Place(openedAt, asked[..n]) + 1
  }

  function Least(a: nat, b: nat): nat { if a <= b then a else b }

  /** The budget kept is the window's opening and how many of its asks were let in. */
  lemma {:induction false} BudgetIs(openedAt: nat, asked: seq<nat>)
    ensures After(openedAt, asked) == Budget(Opener(openedAt, asked), Least(Place(openedAt, asked), MESSAGE_QUOTA))
  {
    if asked != [] {
      BudgetIs(openedAt, asked[..|asked| - 1]);
    }
  }

  predicate LetIn(openedAt: nat, asked: seq<nat>, at: nat) {
    AllowedTimes(openedAt, asked + [at]) == AllowedTimes(openedAt, asked) + [at]
  }

  /** Of each window the first `MESSAGE_QUOTA` asks are allowed, and no other: a refusal costs nothing. */
  lemma AllowedExactlyFirst(openedAt: nat, asked: seq<nat>, at: nat)
    ensures LetIn(openedAt, asked, at) <==> Place(openedAt, asked + [at]) <= MESSAGE_QUOTA
    ensures !LetIn(openedAt, asked, at) ==> AllowedTimes(openedAt, asked + [at]) == AllowedTimes(openedAt, asked)
    ensures Ask(After(openedAt, asked), at).1 <==> LetIn(openedAt, asked, at)
  {
    assert (asked + [at])[..|asked|] == asked;
    BudgetIs(openedAt, asked);
    AskedOnce(openedAt, asked, at);
    assert |AllowedTimes(openedAt, asked)| != |AllowedTimes(openedAt, asked) + [at]|;
    assert AllowedTimes(openedAt, asked) + [] == AllowedTimes(openedAt, asked);
  }

  lemma TimedPrefix(openedAt: nat, asked: seq<nat>)
    requires Timed(openedAt, asked) && asked != []
    ensures Timed(openedAt, asked[..|asked| - 1])
  {
  }

  lemma {:induction false} AskedWithinWindow(openedAt: nat, asked: seq<nat>)
    requires Timed(openedAt, asked)
    ensures openedAt <= Opener(openedAt, asked)
    ensures forall i :: 0 <= i < |asked| ==> asked[i] < Opener(openedAt, asked) + MESSAGE_WINDOW
    ensures asked != [] ==> Opener(openedAt, asked) <= asked[|asked| - 1]
  {
    if asked != [] {
      var n := |asked| - 1;
      TimedPrefix(openedAt, asked);
      AskedWithinWindow(openedAt, asked[..n]);
      assert forall i :: 0 <= i < n ==> asked[i] == asked[..n][i];
    }
  }

  lemma {:induction false} AllowedAreAsked(openedAt: nat, asked: seq<nat>, t: nat)
    requires t in AllowedTimes(openedAt, asked)
    ensures t in asked
  {
    if asked != [] {
      var n := |asked| - 1;
      if t in AllowedTimes(openedAt, asked[..n]) {
        AllowedAreAsked(openedAt, asked[..n], t);
      }
    }
  }

  lemma {:induction false} NoneIn(times: seq<nat>, from: nat, to: nat)
    requires forall i :: 0 <= i < |times| ==> times[i] < from
    ensures CountIn(times, from, to) == 0
  {
    if times != [] {
      NoneIn(times[..|times| - 1], from, to);
    }
  }

  /** The messages allowed since the window opened are its first asks. */
  lemma {:induction false} AllowedInWindow(openedAt: nat, asked: seq<nat>, to: nat)
    requires Timed(openedAt, asked) && Opener(openedAt, asked) + MESSAGE_WINDOW <= to
    ensures CountIn(AllowedTimes(openedAt, asked), Opener(openedAt, asked), to)
      == Least(Place(openedAt, asked), MESSAGE_QUOTA)
  {
    if asked == [] {
      assert AllowedTimes(openedAt, asked) == [];
    } else {
      hide Ask, CountIn;
      var n := |asked| - 1;
      var before, at := asked[..n], asked[n];
      assert before + [at] == asked;
      TimedPrefix(openedAt, asked);
      AskedWithinWindow(openedAt, asked);
      AskedWithinWindow(openedAt, before);
      AllowedExactlyFirst(openedAt, before, at);
      var times, opener := AllowedTimes(openedAt, before), Opener(openedAt, asked);
      CountedOnce(times, at, opener, to);
      forall i | 0 <= i < |times| ensures times[i] < Opener(openedAt, before) + MESSAGE_WINDOW {
        AllowedAreAsked(openedAt, before, times[i]);
      }
      if at >= Opener(openedAt, before) + MESSAGE_WINDOW {
        NoneIn(times, opener, to);
      } else {
        AllowedInWindow(openedAt, before, to);
      }
    }
  }

  /** A message is refused exactly when the quota was already allowed since its own window opened. */
  lemma RefusedExactlyWhenSpent(openedAt: nat, asked: seq<nat>, at: nat)
    requires Timed(openedAt, asked + [at])
    ensures !LetIn(openedAt, asked, at)
       <==> CountIn(AllowedTimes(openedAt, asked), Opener(openedAt, asked + [at]), at + MESSAGE_WINDOW)
              == MESSAGE_QUOTA
  {
    hide Ask, CountIn, AllowedTimes;
    var all := asked + [at];
    assert all[..|asked|] == asked;
    TimedPrefix(openedAt, all);
    AskedWithinWindow(openedAt, asked);
    AskedWithinWindow(openedAt, all);
    AllowedExactlyFirst(openedAt, asked, at);
    var times := AllowedTimes(openedAt, asked);
    forall i | 0 <= i < |times| ensures times[i] < Opener(openedAt, asked) + MESSAGE_WINDOW {
      AllowedAreAsked(openedAt, asked, times[i]);
    }
    if at >= Opener(openedAt, asked) + MESSAGE_WINDOW {
      NoneIn(times, at, at + MESSAGE_WINDOW);
    } else {
      AllowedInWindow(openedAt, asked, at + MESSAGE_WINDOW);
    }
  }

  /** So a client that was not let in for a whole window is let in, however often it tried meanwhile. */
  lemma PatientIsAllowed(openedAt: nat, asked: seq<nat>, at: nat)
    requires Timed(openedAt, asked + [at])
    requires forall t :: t in AllowedTimes(openedAt, asked) ==> t + MESSAGE_WINDOW <= at
    ensures LetIn(openedAt, asked, at)
  {
    hide Ask, AllowedTimes, CountIn;
    var all := asked + [at];
    assert all[..|asked|] == asked;
    TimedPrefix(openedAt, all);
    RefusedExactlyWhenSpent(openedAt, asked, at);
    AskedWithinWindow(openedAt, all);
    assert all[|asked|] == at;
    if !LetIn(openedAt, asked, at) {
      var t := SomeIn(AllowedTimes(openedAt, asked), Opener(openedAt, all), at + MESSAGE_WINDOW);
    }
  }

  lemma {:induction false} SomeIn(times: seq<nat>, from: nat, to: nat) returns (t: nat)
    requires CountIn(times, from, to) > 0
    ensures t in times && from <= t < to
  {
    var n := |times| - 1;
    if from <= times[n] < to {
      t := times[n];
    } else {
      t := SomeIn(times[..n], from, to);
    }
  }

  // ---- Any interval ----

  /** Allowed times in `[from, from + MESSAGE_WINDOW)` fall in at most two windows. */
  predicate Inv(b: Budget, count: nat, from: nat, now: nat) {
    && b.windowStarted <= now && b.used <= MESSAGE_QUOTA
    && (now < from ==> count == 0)
    && (b.windowStarted < from ==> count <= b.used)
    && (from <= b.windowStarted < from + MESSAGE_WINDOW ==> count <= MESSAGE_QUOTA + b.used)
    && count <= 2 * MESSAGE_QUOTA
  }

  lemma StepInv(b: Budget, count: nat, from: nat, now: nat, at: nat)
    requires Inv(b, count, from, now) && now <= at
    ensures var (b', allowed) := Ask(b, at);
      Inv(b', count + if allowed && from <= at < from + MESSAGE_WINDOW then 1 else 0, from, at)
  {
  }

  lemma AskedOnce(openedAt: nat, asked: seq<nat>, at: nat)
    ensures var (b, allowed) := Ask(After(openedAt, asked), at);
      && After(openedAt, asked + [at]) == b
      && AllowedTimes(openedAt, asked + [at]) == AllowedTimes(openedAt, asked) + if allowed then [at] else []
  {
    assert (asked + [at])[..|asked|] == asked;
  }

  lemma CountedOnce(times: seq<nat>, at: nat, from: nat, to: nat)
    ensures CountIn(times + [at], from, to) == CountIn(times, from, to) + if from <= at < to then 1 else 0
  {
    assert (times + [at])[..|times|] == times;
  }

  lemma {:induction false} RunInv(openedAt: nat, asked: seq<nat>, from: nat)
    requires Timed(openedAt, asked)
    ensures Inv(After(openedAt, asked), CountIn(AllowedTimes(openedAt, asked), from, from + MESSAGE_WINDOW), from,
                if asked == [] then openedAt else asked[|asked| - 1])
  {
    if asked == [] {
      assert AllowedTimes(openedAt, asked) == [];
    } else {
      var n := |asked| - 1;
      RunInv(openedAt, asked[..n], from);
      assert asked[..n] + [asked[n]] == asked;
      InvExtends(openedAt, asked[..n], asked[n], from, if n == 0 then openedAt else asked[n - 1]);
    }
  }

  lemma InvExtends(openedAt: nat, before: seq<nat>, at: nat, from: nat, now: nat)
    requires Inv(After(openedAt, before), CountIn(AllowedTimes(openedAt, before), from, from + MESSAGE_WINDOW),
                 from, now)
    requires now <= at
    ensures Inv(After(openedAt, before + [at]),
                CountIn(AllowedTimes(openedAt, before + [at]), from, from + MESSAGE_WINDOW), from, at)
  {
    hide Inv, After, AllowedTimes, CountIn;
    AskedOnce(openedAt, before, at);
    var times := AllowedTimes(openedAt, before);
    CountedOnce(times, at, from, from + MESSAGE_WINDOW);
    assert times + [] == times;
    StepInv(After(openedAt, before), CountIn(times, from, from + MESSAGE_WINDOW), from, now, at);
  }

  /** No half-open interval of one window's length holds more than twice the quota: the first window opens
      before any message, so it may spend its whole budget in its last instant. */
  lemma BudgetBound(openedAt: nat, asked: seq<nat>, from: nat)
    requires Timed(openedAt, asked)
    ensures CountIn(AllowedTimes(openedAt, asked), from, from + MESSAGE_WINDOW) <= 2 * MESSAGE_QUOTA
  {
    RunInv(openedAt, asked, from);
  }

  lemma AllowedOnce(openedAt: nat, asked: seq<nat>, t: nat)
    requires var b := After(openedAt, asked);
      b.used < MESSAGE_QUOTA && t < b.windowStarted + MESSAGE_WINDOW
    ensures After(openedAt, asked + [t]) == After(openedAt, asked).(used := After(openedAt, asked).used + 1)
    ensures AllowedTimes(openedAt, asked + [t]) == AllowedTimes(openedAt, asked) + [t]
  {
    AskedOnce(openedAt, asked, t);
  }

  /** Asking `n` more times at `t`, while the window and its budget last. */
  lemma {:induction false} AskingAgain(openedAt: nat, asked: seq<nat>, t: nat, n: nat) returns (more: seq<nat>)
    requires var b := After(openedAt, asked);
      b.used + n <= MESSAGE_QUOTA && b.windowStarted <= t < b.windowStarted + MESSAGE_WINDOW
    ensures |more| == n && forall i :: 0 <= i < n ==> more[i] == t
    ensures After(openedAt, asked + more) == After(openedAt, asked).(used := After(openedAt, asked).used + n)
    ensures AllowedTimes(openedAt, asked + more) == AllowedTimes(openedAt, asked) + more
  {
    hide After, AllowedTimes;
    if n == 0 {
      more := [];
      assert asked + more == asked;
    } else {
      var before := AskingAgain(openedAt, asked, t, n - 1);
      AllowedOnce(openedAt, asked + before, t);
      more := before + [t];
      assert asked + before + [t] == asked + more;
    }
  }

  /** A message past the end of the window opens the next one. */
  lemma NextWindow(openedAt: nat, asked: seq<nat>, t: nat)
    requires t >= After(openedAt, asked).windowStarted + MESSAGE_WINDOW
    ensures After(openedAt, asked + [t]) == Budget(t, 1)
    ensures AllowedTimes(openedAt, asked + [t]) == AllowedTimes(openedAt, asked) + [t]
  {
    AskedOnce(openedAt, asked, t);
  }

  lemma NothingAsked(openedAt: nat)
    ensures After(openedAt, []) == Budget(openedAt, 0) && AllowedTimes(openedAt, []) == []
  {
  }

  /** Twice the quota is reached: the whole budget in the last instant of the first window, and again at
      the start of the next. */
  lemma BudgetBoundIsAttained(openedAt: nat) returns (asked: seq<nat>)
    ensures var last := openedAt + MESSAGE_WINDOW - 1;
      && Timed(openedAt, asked)
      && CountIn(AllowedTimes(openedAt, asked), last, last + MESSAGE_WINDOW) == 2 * MESSAGE_QUOTA
  {
    hide After, AllowedTimes, CountIn;
    var last := openedAt + MESSAGE_WINDOW - 1;
    NothingAsked(openedAt);
    var first := AskingAgain(openedAt, [], last, 5);
    assert [] + first == first;
    NextWindow(openedAt, first, last + 1);
    var rest := AskingAgain(openedAt, first + [last + 1], last + 1, 4);
    asked := first + [last + 1] + rest;
    CountAll(asked, last, last + MESSAGE_WINDOW);
  }

  lemma {:induction false} CountAll(times: seq<nat>, from: nat, to: nat)
    requires forall i :: 0 <= i < |times| ==> from <= times[i] < to
    ensures CountIn(times, from, to) == |times|
  {
    if times != [] {
      CountAll(times[..|times| - 1], from, to);
    }
  }
}
