/** How much disorder of the clock readings the limiter's promises stand: a hit that read the clock and then
    waited for the lock can find a sweep already made, or a later window already open. */
module RateDisorder {
  import opened Options
  import opened RateLimit
  import opened RateBounds

  // ---- A full map ----

  function Name(n: nat): Key {
    if n == 0 then "" else Name(n - 1) + "a"
  }

  lemma {:induction false} NameLength(n: nat)
    ensures |Name(n)| == n
  {
    if n > 0 {
      NameLength(n - 1);
    }
  }

  function Crowd(quota: Quota, n: nat): History {
    if n == 0 then [] else Crowd(quota, n - 1) + [HitAt(Name(n - 1), quota, 0)]
  }

  lemma {:induction false} CrowdShape(quota: Quota, n: nat)
    ensures |Crowd(quota, n)| == n
    ensures forall i :: 0 <= i < n ==> Crowd(quota, n)[i] == HitAt(Name(i), quota, 0)
  {
    if n > 0 {
      CrowdShape(quota, n - 1);
    }
  }

  /** The first `n` names and no other have a window, each with one hit. */
  predicate FirstNames(windows: Windows, quota: Quota, n: nat) {
    && |windows| == n
    && (forall k :: k in windows ==> |k| < n && windows[k] == Window(1, Length(quota)))
    && (forall i :: 0 <= i < n ==> Name(i) in windows)
  }

  lemma OneMoreName(windows: Windows, quota: Quota, n: nat)
    requires FirstNames(windows, quota, n) && n < MAX_TRACKED_WINDOWS
    ensures FirstNames(HitStep(windows, HitAt(Name(n), quota, 0)).0, quota, n + 1)
    ensures !Refused(windows, HitAt(Name(n), quota, 0))
    ensures ValidQuota(quota) ==> HitStep(windows, HitAt(Name(n), quota, 0)).1.allowed
  {
    NameLength(n);
    assert HitStep(windows, HitAt(Name(n), quota, 0)).0 == windows[Name(n) := Window(1, Length(quota))];
  }

  lemma NoNames(quota: Quota)
    ensures FirstNames(map[], quota, 0)
  {
  }

  lemma {:induction false} CrowdWindows(quota: Quota, n: nat)
    requires n <= MAX_TRACKED_WINDOWS
    ensures FirstNames(WindowsAfter(Crowd(quota, n)), quota, n)
  {
    hide HitStep, FirstNames;
    if n == 0 {
      NoNames(quota);
    } else {
      CrowdWindows(quota, n - 1);
      OneMoreName(WindowsAfter(Crowd(quota, n - 1)), quota, n - 1);
      Snoc(Crowd(quota, n - 1), HitAt(Name(n - 1), quota, 0));
    }
  }

  /** A newcomer whose reading is the end of all those windows sweeps them away. */
  lemma SweptToNewcomer(windows: Windows, quota: Quota)
    requires |windows| == MAX_TRACKED_WINDOWS && Name(MAX_TRACKED_WINDOWS) !in windows
    requires forall k :: k in windows ==> windows[k].resetsAt == Length(quota)
    ensures var newcomer := HitAt(Name(MAX_TRACKED_WINDOWS), quota, Length(quota));
      && "" !in HitStep(windows, newcomer).0 && |HitStep(windows, newcomer).0| == 1
  {
    NameLength(MAX_TRACKED_WINDOWS);
    assert Retained(windows, Length(quota)) == map[];
  }

  lemma NewcomerIsNew(windows: Windows, quota: Quota)
    requires FirstNames(windows, quota, MAX_TRACKED_WINDOWS)
    ensures Name(MAX_TRACKED_WINDOWS) !in windows && "" in windows
  {
    NameLength(MAX_TRACKED_WINDOWS);
    assert Name(0) in windows;
  }

  // ---- The answers ----

  const SMALL: Quota := Quota(5, 1)

  /** The map full of first windows, a newcomer whose sweep drops them all at their end, and a hit of the
      first key that read the clock one nanosecond before that end. */
  function StaleAfterSweep(): History {
    Crowd(SMALL, MAX_TRACKED_WINDOWS) + [HitAt(Name(MAX_TRACKED_WINDOWS), SMALL, Length(SMALL))]
    + [HitAt("", SMALL, Length(SMALL) - 1)]
  }

  lemma CrowdIsTimed(n: nat)
    ensures Timed(Crowd(SMALL, n))
  {
    CrowdShape(SMALL, n);
  }

  lemma TimedSweepsInOrder(history: History)
    requires Timed(history)
    ensures SweepsInOrder(history) && SweptBy(history, if history == [] then 0 else history[|history| - 1].now)
  {
    hide Sweeps;
  }

  lemma FirstKeyCounted()
    ensures KeyWindow(Crowd(SMALL, MAX_TRACKED_WINDOWS), "") == Some(Window(1, Length(SMALL)))
  {
    hide WindowsAfter, KeyWindow, Crowd;
    var crowd := Crowd(SMALL, MAX_TRACKED_WINDOWS);
    CrowdIsTimed(MAX_TRACKED_WINDOWS);
    TimedSweepsInOrder(crowd);
    CrowdShape(SMALL, MAX_TRACKED_WINDOWS);
    RunMatches(crowd, 0);
    CrowdWindows(SMALL, MAX_TRACKED_WINDOWS);
    assert Name(0) == "";
    assert Agree(Find(WindowsAfter(crowd), ""), KeyWindow(crowd, ""), 0);
  }

  lemma AllEndAt(windows: Windows, quota: Quota, n: nat)
    requires FirstNames(windows, quota, n)
    ensures |windows| == n && forall k :: k in windows ==> windows[k] == Window(1, Length(quota))
  {
  }

  lemma StaleAfterSweepDiffers()
    ensures Skewed(StaleAfterSweep(), 1) && StaleAfterSweep() != []
    ensures Verdict(StaleAfterSweep()) != ReferenceVerdict(StaleAfterSweep())
  {
    hide WindowsAfter, HitStep, FirstNames, Crowd;
    var crowd, length := Crowd(SMALL, MAX_TRACKED_WINDOWS), Length(SMALL);
    var newcomer, stale := HitAt(Name(MAX_TRACKED_WINDOWS), SMALL, length), HitAt("", SMALL, length - 1);
    CrowdShape(SMALL, MAX_TRACKED_WINDOWS);
    NameLength(MAX_TRACKED_WINDOWS);
    CrowdWindows(SMALL, MAX_TRACKED_WINDOWS);
    Snoc(crowd, newcomer);
    NewcomerIsNew(WindowsAfter(crowd), SMALL);
    AllEndAt(WindowsAfter(crowd), SMALL, MAX_TRACKED_WINDOWS);
    SweptToNewcomer(WindowsAfter(crowd), SMALL);
    Snoc(crowd + [newcomer], stale);
    StaleOpensAgain(WindowsAfter(crowd + [newcomer]), stale);
    FirstKeyCounted();
    StaleCountsTwo(crowd, newcomer, stale);
  }

  lemma StaleOpensAgain(windows: Windows, hit: Hit)
    requires |windows| == 1 && hit.key !in windows && hit.quota == SMALL
    ensures HitStep(windows, hit).1.remaining == 4
  {
  }

  lemma StaleCountsTwo(history: History, newcomer: Hit, hit: Hit)
    requires newcomer.key != hit.key && hit.quota == SMALL
    requires KeyWindow(history, hit.key) == Some(Window(1, hit.now + 1))
    ensures ReferenceVerdict(history + [newcomer] + [hit]).remaining == 3
  {
    var before := history + [newcomer];
    assert before[..|history|] == history && (before + [hit])[..|before|] == before;
    assert KeyWindow(before, hit.key) == KeyWindow(history, hit.key);
    WindowedKeysWereHit(before, hit.key);
    assert hit.key in LiveKeys(before, hit.now);
  }

  /** The refinement holds over all histories of a given disorder exactly when that is none at all: one
      nanosecond suffices for a sweep to come between a reading and its hit. */
  lemma RefinesExactlyWhenInOrder(skew: nat)
    ensures (forall history :: history != [] && Skewed(history, skew) ==> Verdict(history) == ReferenceVerdict(history))
       <==> skew == 0
  {
    hide Verdict, ReferenceVerdict, StaleAfterSweep;
    if skew == 0 {
      forall history | history != [] && Skewed(history, skew) ensures Verdict(history) == ReferenceVerdict(history) {
        TimedSweepsInOrder(history);
        LimiterRefinesReference(history);
      }
    } else {
      StaleAfterSweepDiffers();
      assert Skewed(StaleAfterSweep(), skew);
    }
  }

  // ---- The interval of a full window ----

  /** What is measured: the hits of `key` allowed in `[from, to)`, in histories metered at `skew`. */
  datatype Gauge = Gauge(key: Key, quota: Quota, skew: nat, from: nat, to: nat)

  /** What a history leaves: its map, how many hits it allowed in the interval, and its latest reading. */
  datatype Reached = Reached(windows: Windows, allowed: nat, latest: nat)

  ghost predicate Reaches(history: History, g: Gauge, r: Reached) {
    && Metered(history, g.key, g.quota, g.skew)
    && WindowsAfter(history) == r.windows && AllowedIn(history, g.key, g.from, g.to) == r.allowed
    && forall i :: 0 <= i < |history| ==> history[i].now <= r.latest
  }

  function Next(g: Gauge, r: Reached, hit: Hit): Reached {
    var (windows, decision) := HitStep(r.windows, hit);
    Reached(windows,
            r.allowed + if hit.key == g.key && g.from <= hit.now < g.to && decision.allowed then 1 else 0,
            Max(r.latest, hit.now))
  }

  predicate InTime(g: Gauge, r: Reached, hit: Hit) {
    && r.latest <= hit.now + g.skew
    && (hit.key == g.key ==> hit.quota == g.quota && !Refused(r.windows, hit))
  }

  lemma NothingReached(g: Gauge)
    requires ValidQuota(g.quota)
    ensures Reaches([], g, Reached(map[], 0, 0))
  {
  }

  lemma MeteredSnoc(history: History, key: Key, quota: Quota, skew: nat, hit: Hit)
    requires Metered(history, key, quota, skew)
    requires forall i :: 0 <= i < |history| ==> history[i].now <= hit.now + skew
    requires hit.key == key ==> hit.quota == quota && !Refused(WindowsAfter(history), hit)
    ensures Metered(history + [hit], key, quota, skew)
  {
    hide WindowsAfter, Refused;
    var all := history + [hit];
    forall i | 0 <= i < |all| && all[i].key == key ensures !Refused(WindowsAfter(all[..i]), all[i]) {
      assert all[..i] == if i < |history| then history[..i] else history;
    }
  }

  lemma AllowedSnoc(history: History, key: Key, from: nat, to: nat, hit: Hit)
    ensures AllowedIn(history + [hit], key, from, to) == AllowedIn(history, key, from, to)
      + if hit.key == key && from <= hit.now < to && Verdict(history + [hit]).allowed then 1 else 0
  {
    assert (history + [hit])[..|history|] == history;
  }

  lemma ReachesNext(history: History, g: Gauge, r: Reached, hit: Hit)
    requires Reaches(history, g, r) && InTime(g, r, hit)
    ensures Reaches(history + [hit], g, Next(g, r, hit))
  {
    hide WindowsAfter, Refused, HitStep, Metered, AllowedIn, Verdict;
    MeteredSnoc(history, g.key, g.quota, g.skew, hit);
    Snoc(history, hit);
    AllowedSnoc(history, g.key, g.from, g.to, hit);
  }

  /** Another hit of a key whose window is live and has budget left. */
  lemma CountsOn(g: Gauge, r: Reached, t: nat)
    requires g.key in r.windows && r.windows[g.key].resetsAt > t && r.latest <= t + g.skew
    requires r.windows[g.key].count < g.quota.maxRequests
    ensures InTime(g, r, HitAt(g.key, g.quota, t))
    ensures var window := r.windows[g.key];
      Next(g, r, HitAt(g.key, g.quota, t)) == Reached(r.windows[g.key := window.(count := window.count + 1)],
        r.allowed + if g.from <= t < g.to then 1 else 0, Max(r.latest, t))
  {
  }

  /** A hit of a key the map does not hold, while it has room, or whose window is past its reset. */
  lemma Opens(g: Gauge, r: Reached, t: nat)
    requires if g.key in r.windows then r.windows[g.key].resetsAt <= t else |r.windows| < MAX_TRACKED_WINDOWS
    requires r.latest <= t + g.skew && ValidQuota(g.quota)
    ensures InTime(g, r, HitAt(g.key, g.quota, t))
    ensures Next(g, r, HitAt(g.key, g.quota, t)) == Reached(r.windows[g.key := Window(1, t + Length(g.quota))],
        r.allowed + if g.from <= t < g.to then 1 else 0, Max(r.latest, t))
  {
  }

  /** `n` more hits at `t`, within the window and its budget. */
  lemma {:induction false} CountsOnAgain(history: History, g: Gauge, r: Reached, t: nat, n: nat)
    returns (history': History)
    requires Reaches(history, g, r) && r.latest <= t + g.skew && g.from <= t < g.to
    requires g.key in r.windows && r.windows[g.key].resetsAt > t
    requires r.windows[g.key].count + n <= g.quota.maxRequests
    ensures var window := r.windows[g.key];
      Reaches(history', g, Reached(r.windows[g.key := window.(count := window.count + n)], r.allowed + n,
                                   if n == 0 then r.latest else Max(r.latest, t)))
    decreases n
  {
    hide Reaches, Next, InTime;
    if n == 0 {
      history' := history;
      assert r.windows[g.key := r.windows[g.key].(count := r.windows[g.key].count + 0)] == r.windows;
    } else {
      var hit := HitAt(g.key, g.quota, t);
      CountsOn(g, r, t);
      ReachesNext(history, g, r, hit);
      var r1 := Next(g, r, hit);
      history' := CountsOnAgain(history + [hit], g, r1, t, n - 1);
      CountedTwice(r.windows, g.key, r.windows[g.key], r1.windows[g.key], n);
    }
  }

  lemma CountedTwice(windows: Windows, key: Key, window: Window, window': Window, n: nat)
    requires n > 0 && window.count + n <= U32_MAX && window' == window.(count := window.count + 1)
    ensures windows[key := window'][key := window'.(count := window'.count + (n - 1))]
      == windows[key := window.(count := window.count + n)]
  {
  }

  lemma {:induction false} CrowdReaches(g: Gauge, n: nat)
    requires g.key == "" && g.from == 0 < g.to && ValidQuota(g.quota) && n <= MAX_TRACKED_WINDOWS
    ensures Reaches(Crowd(g.quota, n), g,
                    Reached(WindowsAfter(Crowd(g.quota, n)), if n == 0 then 0 else 1, 0))
  {
    hide Reaches, HitStep, Refused, WindowsAfter, FirstNames;
    if n == 0 {
      NothingReached(g);
      NoWindowsYet();
    } else {
      var before, hit := Crowd(g.quota, n - 1), HitAt(Name(n - 1), g.quota, 0);
      CrowdReaches(g, n - 1);
      CrowdWindows(g.quota, n - 1);
      OneMoreName(WindowsAfter(before), g.quota, n - 1);
      NameLength(n - 1);
      ReachesNext(before, g, Reached(WindowsAfter(before), if n == 1 then 0 else 1, 0), hit);
      Snoc(before, hit);
    }
  }

  lemma NoWindowsYet()
    ensures WindowsAfter([]) == map[]
  {
  }

  /** The first key's whole budget at the start of the clock, in a map that is full. */
  lemma BudgetInFullMap(g: Gauge) returns (history: History, windows: Windows)
    requires g.key == "" && g.from == 0 < g.to && ValidQuota(g.quota)
    ensures Reaches(history, g, Reached(windows, g.quota.maxRequests, 0))
    ensures |windows| == MAX_TRACKED_WINDOWS && Name(MAX_TRACKED_WINDOWS) !in windows
    ensures forall k :: k in windows ==> windows[k].resetsAt == Length(g.quota)
  {
    hide Reaches, WindowsAfter, FirstNames, Crowd, Name;
    var crowd := Crowd(g.quota, MAX_TRACKED_WINDOWS);
    var windows0 := WindowsAfter(crowd);
    CrowdReaches(g, MAX_TRACKED_WINDOWS);
    CrowdWindows(g.quota, MAX_TRACKED_WINDOWS);
    NewcomerIsNew(windows0, g.quota);
    AllEndAt(windows0, g.quota, MAX_TRACKED_WINDOWS);
    NameLength(MAX_TRACKED_WINDOWS);
    history := CountsOnAgain(crowd, g, Reached(windows0, 1, 0), 0, g.quota.maxRequests - 1);
    windows := windows0["" := Window(g.quota.maxRequests, Length(g.quota))];
    assert |windows| == |windows0|;
  }

  /** A newcomer sweeps that map at the end of all its windows; it is not the key measured. */
  lemma NewcomerSweeps(g: Gauge, r: Reached)
    requires g.key == "" && r.latest == 0
    requires |r.windows| == MAX_TRACKED_WINDOWS && Name(MAX_TRACKED_WINDOWS) !in r.windows
    requires forall k :: k in r.windows ==> r.windows[k].resetsAt == Length(g.quota)
    ensures var newcomer := HitAt(Name(MAX_TRACKED_WINDOWS), g.quota, Length(g.quota));
      var r' := Next(g, r, newcomer);
      && InTime(g, r, newcomer) && "" !in r'.windows && |r'.windows| == 1
      && r'.allowed == r.allowed && r'.latest == Length(g.quota)
  {
    NameLength(MAX_TRACKED_WINDOWS);
    SweptToNewcomer(r.windows, g.quota);
  }

  /** A whole budget at the start of the clock, the sweep of a full map at the window's end, and a whole budget
      again for hits that read the clock one nanosecond before that end. */
  lemma FullWindowOverrun(quota: Quota) returns (history: History)
    requires ValidQuota(quota)
    ensures Metered(history, "", quota, 1) && AllowedIn(history, "", 0, Length(quota)) == 2 * quota.maxRequests
  {
    hide Reaches, Next, InTime, WindowsAfter, Name, Metered, AllowedIn;
    var g, length := Gauge("", quota, 1, 0, Length(quota)), Length(quota);
    var budget, windows := BudgetInFullMap(g);
    var r := Reached(windows, quota.maxRequests, 0);
    var newcomer, stale := HitAt(Name(MAX_TRACKED_WINDOWS), quota, length), HitAt("", quota, length - 1);
    NewcomerSweeps(g, r);
    ReachesNext(budget, g, r, newcomer);
    var swept := Next(g, r, newcomer);
    Opens(g, swept, length - 1);
    ReachesNext(budget + [newcomer], g, swept, stale);
    history := CountsOnAgain(budget + [newcomer] + [stale], g, Next(g, swept, stale), length - 1,
                             quota.maxRequests - 1);
    ReachedIs(history, g, 2 * quota.maxRequests);
  }

  lemma ReachedIs(history: History, g: Gauge, allowed: nat)
    requires exists r :: Reaches(history, g, r) && r.allowed == allowed
    ensures Metered(history, g.key, g.quota, g.skew) && AllowedIn(history, g.key, g.from, g.to) == allowed
  {
  }

  predicate WithinFullBound(history: History, key: Key, quota: Quota, from: nat) {
    AllowedIn(history, key, from, from + Length(quota)) <= 2 * quota.maxRequests - 1
  }

  lemma MoreSkew(history: History, key: Key, quota: Quota, skew: nat, skew': nat)
    requires Metered(history, key, quota, skew) && skew <= skew'
    ensures Metered(history, key, quota, skew')
  {
  }

  /** Over all metered histories of a given disorder, every interval a full window long keeps the bound exactly
      when there is no disorder and the quota is not the largest there is. */
  lemma FullWindowBoundExactlyWhenInOrder(quota: Quota, skew: nat)
    requires ValidQuota(quota)
    ensures (forall history, key, from: nat :: Metered(history, key, quota, skew) ==>
               WithinFullBound(history, key, quota, from))
       <==> skew == 0 && quota.maxRequests < U32_MAX
  {
    hide AllowedIn, Metered;
    if quota.maxRequests == U32_MAX {
      AtOnceIsMetered("", quota, 2 * U32_MAX, skew);
      AllAtOnceAllowed("", quota, 2 * U32_MAX, 0 + Length(quota));
      assert !WithinFullBound(AtOnce("", quota, 2 * U32_MAX), "", quota, 0);
    } else if skew == 0 {
      forall history, key, from: nat | Metered(history, key, quota, skew)
        ensures WithinFullBound(history, key, quota, from)
      {
        SlidingBound(history, key, quota, from, 0);
      }
    } else {
      var history := FullWindowOverrun(quota);
      MoreSkew(history, "", quota, 1, skew);
      assert !WithinFullBound(history, "", quota, 0);
    }
  }

  /** Without any other client, two nanoseconds of disorder let three windows meet in one interval. */
  lemma ThreeWindowsMeet()
    ensures var quota := Quota(2, 1);
      var history := [HitAt("", quota, 0), HitAt("", quota, NANOS - 1), HitAt("", quota, NANOS),
                      HitAt("", quota, NANOS), HitAt("", quota, 2 * NANOS), HitAt("", quota, 2 * NANOS - 2)];
      && Metered(history, "", quota, 2)
      && AllowedIn(history, "", NANOS - 1, NANOS - 1 + Length(quota)) == 4
  {
    hide Reaches, Next, InTime, WindowsAfter, Metered, AllowedIn;
    var quota := Quota(2, 1);
    var g := Gauge("", quota, 2, NANOS - 1, NANOS - 1 + NANOS);
    var h1, h2, h3 := HitAt("", quota, 0), HitAt("", quota, NANOS - 1), HitAt("", quota, NANOS);
    var h5, h6 := HitAt("", quota, 2 * NANOS), HitAt("", quota, 2 * NANOS - 2);
    var r0 := Reached(map[], 0, 0);
    NothingReached(g);
    Opens(g, r0, 0);
    ReachesNext([], g, r0, h1);
    var r1, x1 := Next(g, r0, h1), [] + [h1];
    CountsOn(g, r1, NANOS - 1);
    ReachesNext(x1, g, r1, h2);
    var r2, x2 := Next(g, r1, h2), x1 + [h2];
    Opens(g, r2, NANOS);
    ReachesNext(x2, g, r2, h3);
    var r3, x3 := Next(g, r2, h3), x2 + [h3];
    CountsOn(g, r3, NANOS);
    ReachesNext(x3, g, r3, h3);
    var r4, x4 := Next(g, r3, h3), x3 + [h3];
    Opens(g, r4, 2 * NANOS);
    ReachesNext(x4, g, r4, h5);
    var r5, x5 := Next(g, r4, h5), x4 + [h5];
    CountsOn(g, r5, 2 * NANOS - 2);
    ReachesNext(x5, g, r5, h6);
    ReachedIs(x5 + [h6], g, 4);
    assert x5 + [h6] == [h1, h2, h3, h3, h5, h6];
  }
}
