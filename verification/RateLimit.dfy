/** The in-memory fixed-window limiter: a bounded map that drops expired windows lazily.
    Times are nanoseconds of one monotonic clock. */
module RateLimit {
  import opened Options

  type Key = string

  const U32_MAX: nat := 0xFFFF_FFFF
  const MAX_TRACKED_WINDOWS: nat := 100_000
  const NANOS: nat := 1_000_000_000

  type U32 = x: nat | x <= U32_MAX

  datatype Quota = Quota(maxRequests: U32, windowSeconds: nat)
  datatype Window = Window(count: U32, resetsAt: nat)
  datatype Decision = Decision(allowed: bool, limit: U32, remaining: U32, retryAfterSeconds: nat)

  type Windows = map<Key, Window>

  /** What startup validation guarantees of a quota. */
  predicate ValidQuota(quota: Quota) {
    1 <= quota.maxRequests && 1 <= quota.windowSeconds <= 86_400
  }

  function CeilSeconds(duration: nat): nat {
    duration / NANOS + if duration % NANOS > 0 then 1 else 0
  }

  /** The least whole number of seconds that covers the duration. */
  lemma CeilSecondsIsLeast(duration: nat, seconds: nat)
    ensures duration <= seconds * NANOS <==> CeilSeconds(duration) <= seconds
  {
    assert duration == duration / NANOS * NANOS + duration % NANOS;
  }

  function Decide(count: U32, quota: Quota, resetIn: nat): Decision {
    Decision(count <= quota.maxRequests, quota.maxRequests,
             if count <= quota.maxRequests then quota.maxRequests - count else 0,
             CeilSeconds(resetIn))
  }

  function SaturatingIncrement(count: U32): U32 {
    if count < U32_MAX then count + 1 else U32_MAX
  }

  function Length(quota: Quota): nat {
    quota.windowSeconds * NANOS
  }

  function Retained(windows: Windows, now: nat): Windows {
    map k | k in windows && windows[k].resetsAt > now :: windows[k]
  }

  // ---- The limiter ----

  class MemoryRateLimiter {
    var windows: Windows

    constructor ()
      ensures windows == map[]
    {
      windows := map[];
    }

    method Hit(key: Key, quota: Quota, now: nat) returns (decision: Decision)
      modifies this
      ensures (windows, decision) == HitStep(old(windows), HitAt(key, quota, now))
      ensures |old(windows)| <= MAX_TRACKED_WINDOWS ==> |windows| <= MAX_TRACKED_WINDOWS
    {
      if |windows| >= MAX_TRACKED_WINDOWS && key !in windows {
        windows := map k | k in windows && windows[k].resetsAt > now :: windows[k];
        assert windows == Retained(old(windows), now);
        if |windows| >= MAX_TRACKED_WINDOWS {
          RetainedIsSmaller(old(windows), now);
          return Decide(1, quota, quota.windowSeconds * NANOS);
        }
      }
      var resetsAt := now + quota.windowSeconds * NANOS;
      var window := Window(1, resetsAt);
      if key in windows && windows[key].resetsAt > now {
        window := windows[key].(count := SaturatingIncrement(windows[key].count));
      }
      windows := windows[key := window];
      decision := Decide(window.count, quota, window.resetsAt - now);
    }
  }

  lemma RetainedIsSmaller(windows: Windows, now: nat)
    ensures |Retained(windows, now)| <= |windows|
  {
    SubsetIsSmaller(Retained(windows, now).Keys, windows.Keys);
  }

  lemma SubsetIsSmaller<T>(a: set<T>, b: set<T>)
    requires a <= b
    ensures |a| <= |b|
    ensures |a| == |b| ==> a == b
  {
    assert b == a + (b - a);
  }

  /** `now` is read before the map's lock is awaited, so hits need not reach the map in clock order. */
  datatype Hit = HitAt(key: Key, quota: Quota, now: nat)

  predicate Live(window: Option<Window>, now: nat) {
    window.Some? && window.value.resetsAt > now
  }

  function Find(windows: Windows, key: Key): Option<Window> {
    if key in windows then Some(windows[key]) else None
  }

  /** The window after one more hit: counted if live, opened otherwise. */
  function Counted(window: Option<Window>, hit: Hit): Window {
    if Live(window, hit.now) then window.value.(count := SaturatingIncrement(window.value.count))
    else Window(1, hit.now + Length(hit.quota))
  }

  /** The map is full and does not hold the key, so what this hit's clock reading finds expired is dropped. */
  predicate Sweeps(windows: Windows, hit: Hit) {
    |windows| >= MAX_TRACKED_WINDOWS && hit.key !in windows
  }

  function Swept(windows: Windows, hit: Hit): Windows {
    if Sweeps(windows, hit) then Retained(windows, hit.now) else windows
  }

  predicate Refused(windows: Windows, hit: Hit) {
    hit.key !in windows && |Swept(windows, hit)| >= MAX_TRACKED_WINDOWS
  }

  function HitStep(windows: Windows, hit: Hit): (Windows, Decision) {
    var swept := Swept(windows, hit);
    if Refused(windows, hit) then
      (swept, Decide(1, hit.quota, Length(hit.quota)))
    else
      var window := Counted(Find(swept, hit.key), hit);
      (swept[hit.key := window], Decide(window.count, hit.quota, window.resetsAt - hit.now))
  }

  // ---- Histories ----

  /** Hits in the order in which they held the lock. */
  type History = seq<Hit>

  /** No hit read the clock more than `skew` before one that held the lock ahead of it. */
  predicate Skewed(history: History, skew: nat) {
    forall i, k :: 0 <= i < k < |history| ==> history[i].now <= history[k].now + skew
  }

  predicate Timed(history: History) {
    Skewed(history, 0)
  }

  function WindowsAfter(history: History): Windows {
    if history == [] then map[]
    else HitStep(WindowsAfter(history[..|history| - 1]), history[|history| - 1]).0
  }

  /** What the limiter answers to the last hit of the history. */
  function Verdict(history: History): Decision
    requires history != []
  {
    HitStep(WindowsAfter(history[..|history| - 1]), history[|history| - 1]).1
  }

  /** Memory stays bounded in every run. */
  lemma {:induction false} MapStaysBounded(history: History)
    ensures |WindowsAfter(history)| <= MAX_TRACKED_WINDOWS
  {
    if history != [] {
      var before, hit := WindowsAfter(history[..|history| - 1]), history[|history| - 1];
      MapStaysBounded(history[..|history| - 1]);
      RetainedIsSmaller(before, hit.now);
    }
  }

  /** Every answer names the quota it was measured against, and never promises more than that. */
  lemma VerdictNamesQuota(history: History)
    requires history != []
    ensures Verdict(history).limit == history[|history| - 1].quota.maxRequests
    ensures Verdict(history).remaining <= Verdict(history).limit
    ensures !Verdict(history).allowed ==> Verdict(history).remaining == 0
  {
  }

  /** A hit that goes untracked is answered like the first of a window that opens now. */
  lemma UntrackedVerdict(history: History)
    requires history != [] && ValidQuota(history[|history| - 1].quota)
    requires Refused(WindowsAfter(history[..|history| - 1]), history[|history| - 1])
    ensures var quota := history[|history| - 1].quota;
      Verdict(history) == Decision(true, quota.maxRequests, quota.maxRequests - 1, quota.windowSeconds)
  {
    var quota := history[|history| - 1].quota;
    CeilSecondsIsLeast(Length(quota), quota.windowSeconds);
    CeilSecondsIsLeast(Length(quota), quota.windowSeconds - 1);
  }

  // ---- The reference: one window per key, nothing ever dropped ----

  function Keys(history: History): set<Key> {
    set i | 0 <= i < |history| :: history[i].key
  }

  /** The keys with a live window. */
  ghost function LiveKeys(history: History, now: nat): set<Key>
    decreases |history|, 1
  {
    set k | k in Keys(history) && Live(KeyWindow(history, k), now)
  }

  /** A hit for a key without a live window, while the most windows allowed are live for other keys. */
  ghost predicate Crowded(history: History, hit: Hit)
    decreases |history|, 2
  {
    hit.key !in LiveKeys(history, hit.now) && |LiveKeys(history, hit.now)| >= MAX_TRACKED_WINDOWS
  }

  /** The window of one key, from the hits of that key alone unless one was crowded out. */
  ghost function KeyWindow(history: History, key: Key): Option<Window>
    decreases |history|, 0
  {
    if history == [] then None
    else
      var before, hit := history[..|history| - 1], history[|history| - 1];
      if hit.key != key || Crowded(before, hit) then KeyWindow(before, key)
      else Some(Counted(KeyWindow(before, key), hit))
  }

  ghost function ReferenceVerdict(history: History): Decision
    requires history != []
  {
    var before, hit := history[..|history| - 1], history[|history| - 1];
    if Crowded(before, hit) then Decide(1, hit.quota, Length(hit.quota))
    else
      var window := Counted(KeyWindow(before, hit.key), hit);
      Decide(window.count, hit.quota, window.resetsAt - hit.now)
  }

  /** Absent and expired windows are the same thing. */
  ghost predicate Agree(a: Option<Window>, b: Option<Window>, now: nat) {
    if Live(b, now) then a == b else !Live(a, now)
  }

  ghost predicate Matches(windows: Windows, history: History, now: nat) {
    forall k :: Agree(Find(windows, k), KeyWindow(history, k), now)
  }

  lemma {:induction false} WindowedKeysWereHit(history: History, key: Key)
    requires KeyWindow(history, key).Some?
    ensures key in Keys(history)
  {
    if history != [] {
      var n := |history| - 1;
      if history[n].key != key {
        WindowedKeysWereHit(history[..n], key);
        var i :| 0 <= i < n && history[..n][i].key == key;
        assert history[i].key == key;
      }
    }
  }

  lemma LiveKeysMatch(windows: Windows, history: History, now: nat)
    requires Matches(windows, history, now)
    ensures Retained(windows, now).Keys == LiveKeys(history, now)
  {
    forall k ensures k in Retained(windows, now) <==> k in LiveKeys(history, now) {
      assert Agree(Find(windows, k), KeyWindow(history, k), now);
      if Live(KeyWindow(history, k), now) {
        WindowedKeysWereHit(history, k);
      }
    }
  }

  /** The limiter refuses to track a hit exactly when the reference finds it crowded out. */
  lemma RefusedExactlyWhenCrowded(windows: Windows, history: History, hit: Hit)
    requires Matches(windows, history, hit.now) && |windows| <= MAX_TRACKED_WINDOWS
    ensures Refused(windows, hit) <==> Crowded(history, hit)
  {
    LiveKeysMatch(windows, history, hit.now);
    SubsetIsSmaller(Retained(windows, hit.now).Keys, windows.Keys);
    assert |Retained(windows, hit.now)| == |Retained(windows, hit.now).Keys|;
    assert |windows| == |windows.Keys|;
    assert hit.key in LiveKeys(history, hit.now) <==> hit.key in Retained(windows, hit.now);
  }

  lemma MatchesAfter(windows: Windows, history: History, hit: Hit, now: nat)
    requires Matches(windows, history, hit.now) && Matches(windows, history, now)
    requires |windows| <= MAX_TRACKED_WINDOWS && (Sweeps(windows, hit) ==> hit.now <= now)
    ensures HitStep(windows, hit).1 == ReferenceVerdict(history + [hit])
    ensures Matches(HitStep(windows, hit).0, history + [hit], now)
  {
    RefusedExactlyWhenCrowded(windows, history, hit);
    assert (history + [hit])[..|history|] == history;
    assert Agree(Find(windows, hit.key), KeyWindow(history, hit.key), hit.now);
    var windows' := HitStep(windows, hit).0;
    forall k ensures Agree(Find(windows', k), KeyWindow(history + [hit], k), now) {
      assert Agree(Find(windows, k), KeyWindow(history, k), now);
    }
  }

  predicate SweepAt(history: History, i: int) {
    0 <= i < |history| && Sweeps(WindowsAfter(history[..i]), history[i])
  }

  lemma SweepAtPrefix(history: History, n: nat, i: int)
    requires i < n <= |history|
    ensures SweepAt(history[..n], i) <==> SweepAt(history, i)
  {
    if 0 <= i {
      assert history[..n][..i] == history[..i];
    }
  }

  ghost predicate SweptBy(history: History, now: nat) {
    forall i :: SweepAt(history, i) ==> history[i].now <= now
  }

  /** No hit read the clock before a hit whose sweep it finds already made. */
  ghost predicate SweepsInOrder(history: History) {
    forall i, k :: SweepAt(history, i) && i < k < |history| ==> history[i].now <= history[k].now
  }

  lemma SweepsPrefix(history: History, now: nat)
    requires history != [] && SweepsInOrder(history)
    ensures var n := |history| - 1;
      && SweepsInOrder(history[..n]) && SweptBy(history[..n], history[n].now)
      && (SweptBy(history, now) ==> SweptBy(history[..n], now))
  {
    hide SweepAt;
    var n := |history| - 1;
    forall i | i < n ensures SweepAt(history[..n], i) <==> SweepAt(history, i) {
      SweepAtPrefix(history, n, i);
    }
    forall i | SweepAt(history[..n], i) ensures 0 <= i < n {
      SweepAtIsIndex(history[..n], i);
    }
  }

  lemma SweepAtIsIndex(history: History, i: int)
    requires SweepAt(history, i)
    ensures 0 <= i < |history|
  {
  }

  lemma Snoc(history: History, hit: Hit)
    ensures WindowsAfter(history + [hit]) == HitStep(WindowsAfter(history), hit).0
    ensures Verdict(history + [hit]) == HitStep(WindowsAfter(history), hit).1
    ensures SweepAt(history + [hit], |history|) <==> Sweeps(WindowsAfter(history), hit)
  {
    assert (history + [hit])[..|history|] == history;
  }

  lemma {:induction false} RunMatches(history: History, now: nat)
    requires SweepsInOrder(history) && SweptBy(history, now)
    ensures Matches(WindowsAfter(history), history, now)
    decreases |history|
  {
    if history == [] {
      assert WindowsAfter(history) == map[];
    } else {
      hide WindowsAfter, HitStep, Matches, SweepAt, Sweeps, SweepsInOrder;
      var n := |history| - 1;
      var before, hit := history[..n], history[n];
      assert before + [hit] == history;
      SweepsPrefix(history, now);
      RunMatches(before, hit.now);
      RunMatches(before, now);
      MapStaysBounded(before);
      Snoc(before, hit);
      MatchesAfter(WindowsAfter(before), before, hit, now);
    }
  }

  /** The sweeping, bounded limiter answers every sequence of hits as the reference does, in whatever order
      they read the clock, unless a hit that waited for the lock finds a later hit's sweep already made. */
  lemma LimiterRefinesReference(history: History)
    requires SweepsInOrder(history) && history != []
    ensures Verdict(history) == ReferenceVerdict(history)
    ensures Refused(WindowsAfter(history[..|history| - 1]), history[|history| - 1])
       <==> Crowded(history[..|history| - 1], history[|history| - 1])
  {
    hide WindowsAfter, HitStep, Matches, SweepAt, Sweeps, SweepsInOrder, Refused, Crowded;
    var n := |history| - 1;
    var before, hit := history[..n], history[n];
    assert before + [hit] == history;
    SweepsPrefix(history, hit.now);
    RunMatches(before, hit.now);
    MapStaysBounded(before);
    Snoc(before, hit);
    MatchesAfter(WindowsAfter(before), before, hit, hit.now);
    RefusedExactlyWhenCrowded(WindowsAfter(before), before, hit);
  }

  // ---- Keys do not disturb each other ----

  function OnlyKey(history: History, key: Key): History {
    if history == [] then []
    else
      var n := |history| - 1;
      OnlyKey(history[..n], key) + if history[n].key == key then [history[n]] else []
  }

  ghost predicate NeverCrowdedOut(history: History, key: Key) {
    forall i :: 0 <= i < |history| && history[i].key == key ==> !Crowded(history[..i], history[i])
  }

  lemma NeverCrowdedPrefix(history: History, key: Key, n: nat)
    requires NeverCrowdedOut(history, key) && n <= |history|
    ensures NeverCrowdedOut(history[..n], key)
  {
    forall i | 0 <= i < n && history[..n][i].key == key ensures !Crowded(history[..n][..i], history[..n][i]) {
      assert history[..n][..i] == history[..i];
    }
  }

  lemma {:induction false} OneKeyIsNeverCrowded(history: History, key: Key, hit: Hit)
    requires forall i :: 0 <= i < |history| ==> history[i].key == key
    requires hit.key == key
    ensures !Crowded(history, hit)
  {
    SubsetIsSmaller(LiveKeys(history, hit.now), {key});
  }

  /** The hits of a key that is never crowded out leave the window they would leave alone. */
  lemma {:induction false} OwnWindow(history: History, key: Key)
    requires NeverCrowdedOut(history, key)
    ensures KeyWindow(history, key) == KeyWindow(OnlyKey(history, key), key)
    ensures forall i :: 0 <= i < |OnlyKey(history, key)| ==> OnlyKey(history, key)[i].key == key
  {
    if history != [] {
      var n := |history| - 1;
      NeverCrowdedPrefix(history, key, n);
      OwnWindow(history[..n], key);
      if history[n].key == key {
        var own := OnlyKey(history[..n], key);
        OneKeyIsNeverCrowded(own, key, history[n]);
        assert (own + [history[n]])[..|own|] == own;
      } else {
        assert OnlyKey(history, key) == OnlyKey(history[..n], key);
      }
    }
  }

  lemma {:induction false} LoneKeyWindows(history: History, key: Key)
    requires forall i :: 0 <= i < |history| ==> history[i].key == key
    ensures WindowsAfter(history).Keys <= {key} && |WindowsAfter(history)| <= 1
  {
    if history != [] {
      LoneKeyWindows(history[..|history| - 1], key);
      SubsetIsSmaller(WindowsAfter(history).Keys, {key});
    }
  }

  lemma LoneKeyNeverSweeps(history: History, key: Key)
    requires forall i :: 0 <= i < |history| ==> history[i].key == key
    ensures forall i :: !SweepAt(history, i)
  {
    forall i | 0 <= i < |history| ensures !SweepAt(history, i) {
      LoneKeyWindows(history[..i], key);
    }
  }

  /** A key that is never crowded out gets the answers it would get as the limiter's only client, whatever
      the other keys and their sweeps did. */
  lemma OtherKeysDoNotMatter(history: History)
    requires history != [] && SweepsInOrder(history)
    requires NeverCrowdedOut(history, history[|history| - 1].key)
    ensures var own := OnlyKey(history, history[|history| - 1].key);
      && own != [] && own[|own| - 1] == history[|history| - 1]
      && Verdict(history) == Verdict(own)
  {
    hide Verdict, WindowsAfter, SweepAt;
    var n := |history| - 1;
    var hit, key := history[n], history[n].key;
    var before := OnlyKey(history[..n], key);
    var own := OnlyKey(history, key);
    assert own[..|own| - 1] == before;
    NeverCrowdedPrefix(history, key, n);
    OwnWindow(history[..n], key);
    OwnWindow(history, key);
    OneKeyIsNeverCrowded(before, key, hit);
    LoneKeyNeverSweeps(own, key);
    LimiterRefinesReference(history);
    LimiterRefinesReference(own);
  }
}
