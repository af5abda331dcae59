/** How many hits the limiter lets through, and how long it tells a refused client to wait. The hits are in
    the order in which they held the lock, which need not be the order in which they read the clock. */
module RateBounds {
  import opened Options
  import opened RateLimit

  /** Hits of `key` the limiter allowed at a time in `[from, to)`. */
  function AllowedIn(history: History, key: Key, from: nat, to: nat): nat {
    if history == [] then 0
    else
      var n := |history| - 1;
      AllowedIn(history[..n], key, from, to)
      + if history[n].key == key && from <= history[n].now < to && Verdict(history).allowed then 1 else 0
  }

  ghost predicate FixedQuota(history: History, key: Key, quota: Quota) {
    forall i :: 0 <= i < |history| && history[i].key == key ==> history[i].quota == quota
  }

  /** No hit of the key goes untracked. */
  ghost predicate Tracked(history: History, key: Key) {
    forall i :: 0 <= i < |history| && history[i].key == key ==> !Refused(WindowsAfter(history[..i]), history[i])
  }

  /** One key with one valid quota, always tracked, in a history of at most this disorder. */
  ghost predicate Metered(history: History, key: Key, quota: Quota, skew: nat) {
    && Skewed(history, skew) && FixedQuota(history, key, quota) && Tracked(history, key) && ValidQuota(quota)
  }

  lemma MeteredPrefix(history: History, key: Key, quota: Quota, skew: nat)
    requires Metered(history, key, quota, skew) && history != []
    ensures Metered(history[..|history| - 1], key, quota, skew)
  {
    var before := history[..|history| - 1];
    forall i | 0 <= i < |before| && before[i].key == key ensures !Refused(WindowsAfter(before[..i]), before[i]) {
      assert before[..i] == history[..i];
    }
  }

  function Min(a: nat, b: nat): nat { if a <= b then a else b }

  function Max(a: nat, b: nat): nat { if a <= b then b else a }

  /** The latest clock reading so far. */
  function Latest(history: History): nat {
    if history == [] then 0 else Max(Latest(history[..|history| - 1]), history[|history| - 1].now)
  }

  lemma {:induction false} LatestIsRead(history: History, now: nat)
    requires forall i :: 0 <= i < |history| ==> history[i].now <= now
    ensures Latest(history) <= now
  {
    if history != [] {
      LatestIsRead(history[..|history| - 1], now);
    }
  }

  /** The window of the key's last hit, whether or not it was swept since. */
  function LastWindow(history: History, key: Key): Option<Window> {
    if history == [] then None
    else if history[|history| - 1].key == key then Find(WindowsAfter(history), key)
    else LastWindow(history[..|history| - 1], key)
  }

  /** What the map holds of a key whose last window is `last`: that window, or nothing once it was swept. */
  predicate Holds(stored: Option<Window>, last: Option<Window>, latest: nat) {
    stored == last || (stored.None? && last.Some? && last.value.resetsAt <= latest)
  }

  /** A hit of another key leaves a window alone or sweeps it. */
  lemma OtherHit(windows: Windows, hit: Hit, key: Key)
    requires hit.key != key
    ensures var stored, stored' := Find(windows, key), Find(HitStep(windows, hit).0, key);
      stored' == stored || (stored'.None? && stored.Some? && stored.value.resetsAt <= hit.now)
  {
  }

  /** A tracked hit is counted in the window the map holds, or opens one. */
  lemma TrackedHit(windows: Windows, hit: Hit)
    requires !Refused(windows, hit)
    ensures var window := Counted(Find(windows, hit.key), hit);
      && Find(HitStep(windows, hit).0, hit.key) == Some(window)
      && HitStep(windows, hit).1 == Decide(window.count, hit.quota, window.resetsAt - hit.now)
  {
  }

  lemma {:induction false} MapHolds(history: History, key: Key)
    requires Tracked(history, key)
    ensures Holds(Find(WindowsAfter(history), key), LastWindow(history, key), Latest(history))
  {
    if history != [] {
      hide HitStep;
      var n := |history| - 1;
      var before, hit := history[..n], history[n];
      TrackedPrefix(history, key);
      MapHolds(before, key);
      if hit.key != key {
        OtherHit(WindowsAfter(before), hit, key);
      }
    }
  }

  lemma TrackedPrefix(history: History, key: Key)
    requires Tracked(history, key) && history != []
    ensures Tracked(history[..|history| - 1], key)
  {
    var before := history[..|history| - 1];
    forall i | 0 <= i < |before| && before[i].key == key ensures !Refused(WindowsAfter(before[..i]), before[i]) {
      assert before[..i] == history[..i];
    }
  }

  /** The last hit of a metered key: what it finds in the map, and what it leaves there. */
  lemma OwnHit(history: History, key: Key, quota: Quota, skew: nat)
    requires Metered(history, key, quota, skew) && history != [] && history[|history| - 1].key == key
    ensures var n := |history| - 1;
      var stored := Find(WindowsAfter(history[..n]), key);
      var next := Counted(stored, history[n]);
      && Holds(stored, LastWindow(history[..n], key), Latest(history[..n]))
      && LastWindow(history, key) == Some(next)
      && Verdict(history) == Decide(next.count, quota, next.resetsAt - history[n].now)
      && Latest(history[..n]) <= history[n].now + skew
  {
    var n := |history| - 1;
    TrackedPrefix(history, key);
    MapHolds(history[..n], key);
    TrackedHit(WindowsAfter(history[..n]), history[n]);
    LatestIsRead(history[..n], history[n].now + skew);
  }

  // ---- Any interval ----

  /** The counting argument, window by window, for the interval of one window less twice the skew from
      `from`: hits in it fall in at most two windows, and the older of two was opened outside it. */
  ghost predicate SlidingInv(window: Option<Window>, allowed: nat, quota: Quota, from: nat, skew: nat, latest: nat) {
    && (window.None? ==> allowed == 0)
    && (window.Some? ==>
          var start := window.value.resetsAt - Length(quota);
          var used := Min(window.value.count, quota.maxRequests);
          && 1 <= window.value.count && 0 <= start <= latest
          && allowed <= 2 * quota.maxRequests - 1
          && (window.value.resetsAt <= from ==> allowed == 0)
          && (start + skew < from ==> allowed <= used - 1)
          && (start + skew >= from && latest + skew < from + Length(quota) ==>
                allowed <= quota.maxRequests - 1 + used))
  }

  lemma SlidingStep(stored: Option<Window>, window: Option<Window>, allowed: nat, quota: Quota, from: nat,
                    skew: nat, latest: nat, hit: Hit)
    requires SlidingInv(window, allowed, quota, from, skew, latest) && Holds(stored, window, latest)
    requires latest <= hit.now + skew && hit.quota == quota && 2 * skew < Length(quota)
    requires ValidQuota(quota) && quota.maxRequests < U32_MAX
    ensures var next := Counted(stored, hit);
      var counts := from <= hit.now < from + Length(quota) - 2 * skew && next.count <= quota.maxRequests;
      SlidingInv(Some(next), allowed + if counts then 1 else 0, quota, from, skew, Max(latest, hit.now))
  {
  }

  lemma {:induction false} SlidingRun(history: History, key: Key, quota: Quota, from: nat, skew: nat)
    requires Metered(history, key, quota, skew) && 2 * skew < Length(quota) && quota.maxRequests < U32_MAX
    ensures SlidingInv(LastWindow(history, key), AllowedIn(history, key, from, from + Length(quota) - 2 * skew),
                       quota, from, skew, Latest(history))
  {
    if history != [] {
      hide SlidingInv, WindowsAfter, Verdict, Metered, Find, Length;
      var n := |history| - 1;
      var before, hit := history[..n], history[n];
      var to := from + Length(quota) - 2 * skew;
      MeteredPrefix(history, key, quota, skew);
      SlidingRun(before, key, quota, from, skew);
      if hit.key == key {
        OwnHit(history, key, quota, skew);
        SlidingStep(Find(WindowsAfter(before), key), LastWindow(before, key), AllowedIn(before, key, from, to),
                    quota, from, skew, Latest(before), hit);
      } else {
        SlidingLater(LastWindow(before, key), AllowedIn(before, key, from, to), quota, from, skew, Latest(before),
                     Latest(history));
      }
    } else {
      NothingSlides(quota, from, skew);
    }
  }

  lemma SlidingLater(window: Option<Window>, allowed: nat, quota: Quota, from: nat, skew: nat, latest: nat,
                     latest': nat)
    requires SlidingInv(window, allowed, quota, from, skew, latest) && latest <= latest'
    ensures SlidingInv(window, allowed, quota, from, skew, latest')
  {
  }

  lemma NothingSlides(quota: Quota, from: nat, skew: nat)
    ensures SlidingInv(None, 0, quota, from, skew, 0)
  {
  }

  /** Whatever the order of the hits, every half-open interval one window long, less twice the disorder,
      holds at most `2 * maxRequests - 1` allowed hits; with no disorder, every interval one window long. */
  lemma SlidingBound(history: History, key: Key, quota: Quota, from: nat, skew: nat)
    requires Metered(history, key, quota, skew) && 2 * skew < Length(quota) && quota.maxRequests < U32_MAX
    ensures AllowedIn(history, key, from, from + Length(quota) - 2 * skew) <= 2 * quota.maxRequests - 1
  {
    SlidingRun(history, key, quota, from, skew);
  }

  // ---- The bound is attained, and is lost for the largest quota only ----

  /** One hit at the start, the rest of the first window's budget in its last instant, then the whole
      budget of the next window. */
  function Burst(key: Key, quota: Quota, n: nat): History
    requires ValidQuota(quota)
  {
    if n == 0 then [] else Burst(key, quota, n - 1) + [HitAt(key, quota, BurstTime(quota, n))]
  }

  function BurstTime(quota: Quota, n: nat): nat
    requires ValidQuota(quota) && 1 <= n
  {
    if n == 1 then 0 else if n <= quota.maxRequests then Length(quota) - 1 else Length(quota)
  }

  lemma {:induction false} BurstShape(key: Key, quota: Quota, n: nat)
    requires ValidQuota(quota)
    ensures |Burst(key, quota, n)| == n
    ensures forall i :: 0 <= i < n ==> Burst(key, quota, n)[i] == HitAt(key, quota, BurstTime(quota, i + 1))
    ensures n > 0 ==> Burst(key, quota, n)[..n - 1] == Burst(key, quota, n - 1)
  {
    if n > 0 {
      BurstShape(key, quota, n - 1);
    }
  }

  lemma LoneKeyIsTracked(history: History, key: Key)
    requires forall i :: 0 <= i < |history| ==> history[i].key == key
    ensures Tracked(history, key)
  {
    forall i | 0 <= i < |history| ensures !Refused(WindowsAfter(history[..i]), history[i]) {
      LoneKeyWindows(history[..i], key);
    }
  }

  lemma BurstTimesGrow(quota: Quota, a: nat, b: nat)
    requires ValidQuota(quota) && 1 <= a <= b
    ensures BurstTime(quota, a) <= BurstTime(quota, b)
  {
  }

  lemma BurstIsMetered(key: Key, quota: Quota, n: nat)
    requires ValidQuota(quota)
    ensures Metered(Burst(key, quota, n), key, quota, 0)
  {
    hide Burst, BurstTime, Tracked;
    BurstShape(key, quota, n);
    var history := Burst(key, quota, n);
    LoneKeyIsTracked(history, key);
    forall i, k | 0 <= i < k < |history| ensures history[i].now <= history[k].now {
      BurstTimesGrow(quota, i + 1, k + 1);
    }
  }

  function BurstState(quota: Quota, n: nat): Option<Window>
    requires ValidQuota(quota) && n <= 2 * quota.maxRequests && quota.maxRequests < U32_MAX
  {
    if n == 0 then None
    else if n <= quota.maxRequests then Some(Window(n, Length(quota)))
    else Some(Window(n - quota.maxRequests, 2 * Length(quota)))
  }

  lemma BurstStateStep(key: Key, quota: Quota, n: nat)
    requires ValidQuota(quota) && 1 <= n <= 2 * quota.maxRequests && quota.maxRequests < U32_MAX
    ensures BurstState(quota, n)
      == Some(Counted(BurstState(quota, n - 1), HitAt(key, quota, BurstTime(quota, n))))
  {
  }

  lemma BurstHit(key: Key, quota: Quota, n: nat)
    requires ValidQuota(quota) && 1 <= n <= 2 * quota.maxRequests && quota.maxRequests < U32_MAX
    requires Find(WindowsAfter(Burst(key, quota, n - 1)), key) == BurstState(quota, n - 1)
    ensures Find(WindowsAfter(Burst(key, quota, n)), key) == BurstState(quota, n)
    ensures Verdict(Burst(key, quota, n)).allowed
  {
    hide WindowsAfter, HitStep, Metered, BurstTime, Burst;
    BurstShape(key, quota, n);
    BurstStateStep(key, quota, n);
    BurstIsMetered(key, quota, n);
    OwnHit(Burst(key, quota, n), key, quota, 0);
  }

  lemma {:induction false} BurstWindow(key: Key, quota: Quota, n: nat)
    requires ValidQuota(quota) && n <= 2 * quota.maxRequests && quota.maxRequests < U32_MAX
    ensures Find(WindowsAfter(Burst(key, quota, n)), key) == BurstState(quota, n)
  {
    if n == 0 {
      assert WindowsAfter(Burst(key, quota, 0)) == map[];
    } else {
      hide WindowsAfter, BurstState, Burst;
      BurstWindow(key, quota, n - 1);
      BurstHit(key, quota, n);
    }
  }

  lemma AllowedNext(history: History, key: Key, from: nat, to: nat)
    requires history != [] && history[|history| - 1].key == key && Verdict(history).allowed
    ensures AllowedIn(history, key, from, to)
      == AllowedIn(history[..|history| - 1], key, from, to) + if from <= history[|history| - 1].now < to then 1 else 0
  {
  }

  lemma BurstTimeCounts(quota: Quota, n: nat)
    requires ValidQuota(quota) && 1 <= n
    ensures Length(quota) - 1 <= BurstTime(quota, n) < 2 * Length(quota) - 1 <==> n > 1
  {
  }

  lemma BurstAllowed(key: Key, quota: Quota, n: nat, from: nat, to: nat)
    requires ValidQuota(quota) && 1 <= n <= 2 * quota.maxRequests && quota.maxRequests < U32_MAX
    ensures AllowedIn(Burst(key, quota, n), key, from, to)
      == AllowedIn(Burst(key, quota, n - 1), key, from, to) + if from <= BurstTime(quota, n) < to then 1 else 0
  {
    hide WindowsAfter, Verdict, BurstState, Burst, BurstTime, AllowedIn;
    BurstWindow(key, quota, n - 1);
    BurstHit(key, quota, n);
    BurstShape(key, quota, n);
    AllowedNext(Burst(key, quota, n), key, from, to);
  }

  lemma NothingBurst(key: Key, quota: Quota, from: nat, to: nat)
    requires ValidQuota(quota)
    ensures AllowedIn(Burst(key, quota, 0), key, from, to) == 0
  {
  }

  lemma {:induction false} BurstIsAllowed(key: Key, quota: Quota, n: nat, from: nat, to: nat)
    requires ValidQuota(quota) && n <= 2 * quota.maxRequests && quota.maxRequests < U32_MAX
    requires from == Length(quota) - 1 && to == 2 * Length(quota) - 1
    ensures AllowedIn(Burst(key, quota, n), key, from, to) == if n == 0 then 0 else n - 1
  {
    hide Burst, BurstTime, AllowedIn, Length, ValidQuota;
    if n == 0 {
      NothingBurst(key, quota, from, to);
    } else {
      BurstIsAllowed(key, quota, n - 1, from, to);
      BurstAllowed(key, quota, n, from, to);
      BurstTimeCounts(quota, n);
    }
  }

  /** For every quota that can deny, some history reaches `2 * maxRequests - 1` within one window's length. */
  lemma SlidingBoundIsAttained(key: Key, quota: Quota)
    requires ValidQuota(quota) && quota.maxRequests < U32_MAX
    ensures var history := Burst(key, quota, 2 * quota.maxRequests);
      && Metered(history, key, quota, 0)
      && AllowedIn(history, key, Length(quota) - 1, Length(quota) - 1 + Length(quota)) == 2 * quota.maxRequests - 1
  {
    hide Burst, AllowedIn, Metered;
    BurstIsMetered(key, quota, 2 * quota.maxRequests);
    BurstIsAllowed(key, quota, 2 * quota.maxRequests, Length(quota) - 1, Length(quota) - 1 + Length(quota));
  }

  /** The largest quota denies nothing: its saturated counter never passes it. */
  lemma MaximalQuotaNeverDenies(history: History)
    requires history != [] && history[|history| - 1].quota.maxRequests == U32_MAX
    ensures Verdict(history).allowed
  {
  }

  function AtOnce(key: Key, quota: Quota, n: nat): History {
    seq(n, _ => HitAt(key, quota, 0))
  }

  lemma {:induction false} AllAtOnceAllowed(key: Key, quota: Quota, n: nat, to: nat)
    requires quota.maxRequests == U32_MAX && 0 < to
    ensures AllowedIn(AtOnce(key, quota, n), key, 0, to) == n
  {
    if n > 0 {
      hide Verdict;
      AllAtOnceAllowed(key, quota, n - 1, to);
      assert AtOnce(key, quota, n)[..n - 1] == AtOnce(key, quota, n - 1);
      MaximalQuotaNeverDenies(AtOnce(key, quota, n));
    }
  }

  predicate WithinBound(history: History, key: Key, quota: Quota, from: nat, skew: nat)
    requires 2 * skew < Length(quota)
  {
    AllowedIn(history, key, from, from + Length(quota) - 2 * skew) <= 2 * quota.maxRequests - 1
  }

  /** The bound holds for every metered history of a quota exactly when the quota is not the largest there is. */
  lemma SlidingBoundHoldsExactlyWhen(quota: Quota, skew: nat)
    requires ValidQuota(quota) && 2 * skew < Length(quota)
    ensures (forall history, key, from: nat :: Metered(history, key, quota, skew) ==>
               WithinBound(history, key, quota, from, skew))
       <==> quota.maxRequests < U32_MAX
  {
    hide Metered, AllowedIn;
    if quota.maxRequests < U32_MAX {
      forall history, key, from: nat | Metered(history, key, quota, skew)
        ensures WithinBound(history, key, quota, from, skew)
      {
        SlidingBound(history, key, quota, from, skew);
      }
    } else {
      var n := 2 * quota.maxRequests;
      AtOnceIsMetered("", quota, n, skew);
      AllAtOnceAllowed("", quota, n, 0 + Length(quota) - 2 * skew);
      assert !WithinBound(AtOnce("", quota, n), "", quota, 0, skew);
    }
  }

  lemma AtOnceIsMetered(key: Key, quota: Quota, n: nat, skew: nat)
    requires ValidQuota(quota)
    ensures Metered(AtOnce(key, quota, n), key, quota, skew)
  {
    LoneKeyIsTracked(AtOnce(key, quota, n), key);
  }

  // ---- One window ----

  /** Hits of `key` allowed from position `first` of the history on. */
  function AllowedSince(history: History, key: Key, first: nat): nat {
    if |history| <= first then 0
    else
      var n := |history| - 1;
      AllowedSince(history[..n], key, first) + if history[n].key == key && Verdict(history).allowed then 1 else 0
  }

  /** Hits of `key` from position `first` of the history on. */
  function HitsSince(history: History, key: Key, first: nat): nat {
    if |history| <= first then 0
    else HitsSince(history[..|history| - 1], key, first) + if history[|history| - 1].key == key then 1 else 0
  }

  /** `opener` opened the window the map now holds for the key: its reading fixes the reset, every hit of the
      key since was counted, and those allowed are the first `maxRequests` of them. */
  ghost predicate OpenedBy(history: History, key: Key, quota: Quota, opener: nat) {
    && opener < |history| && history[opener].key == key
    && Find(WindowsAfter(history), key).Some?
    && var window := Find(WindowsAfter(history), key).value;
      && window.resetsAt == history[opener].now + Length(quota)
      && 1 <= window.count == Min(HitsSince(history, key, opener), U32_MAX)
      && (quota.maxRequests < U32_MAX ==>
            AllowedSince(history, key, opener) == Min(HitsSince(history, key, opener), quota.maxRequests))
      && (forall i :: opener < i < |history| && history[i].key == key ==> history[i].now < window.resetsAt)
  }

  lemma WindowStays(windows: Windows, hit: Hit, key: Key)
    requires hit.key != key && key in HitStep(windows, hit).0
    ensures key in windows && HitStep(windows, hit).0[key] == windows[key]
  {
  }

  lemma CountedHit(windows: Windows, hit: Hit)
    requires hit.key in HitStep(windows, hit).0
    ensures !Refused(windows, hit)
    ensures var window := Counted(Find(windows, hit.key), hit);
      && Find(HitStep(windows, hit).0, hit.key) == Some(window)
      && (HitStep(windows, hit).1.allowed <==> window.count <= hit.quota.maxRequests)
  {
  }

  /** In whatever order the hits read the clock, a window lets through exactly its hits up to `maxRequests`. */
  lemma {:induction false} WindowBudget(history: History, key: Key, quota: Quota) returns (opener: nat)
    requires FixedQuota(history, key, quota) && ValidQuota(quota) && key in WindowsAfter(history)
    ensures OpenedBy(history, key, quota, opener)
  {
    hide HitStep;
    var n := |history| - 1;
    var before, hit := history[..n], history[n];
    if hit.key != key {
      WindowStays(WindowsAfter(before), hit, key);
      opener := WindowBudget(before, key, quota);
    } else {
      CountedHit(WindowsAfter(before), hit);
      if Live(Find(WindowsAfter(before), key), hit.now) {
        opener := WindowBudget(before, key, quota);
      } else {
        opener := n;
        assert AllowedSince(before, key, n) == 0 && HitsSince(before, key, n) == 0;
      }
    }
  }

  lemma {:induction false} LastWindowCovers(history: History, key: Key, quota: Quota)
    requires Metered(history, key, quota, 0)
    ensures forall i :: 0 <= i < |history| && history[i].key == key ==>
      LastWindow(history, key).Some? && history[i].now < LastWindow(history, key).value.resetsAt
  {
    if history != [] {
      hide WindowsAfter, Verdict, Tracked;
      var n := |history| - 1;
      MeteredPrefix(history, key, quota, 0);
      LastWindowCovers(history[..n], key, quota);
      assert forall i :: 0 <= i < n ==> history[..n][i] == history[i];
      if history[n].key == key {
        OwnHit(history, key, quota, 0);
      }
    }
  }

  lemma {:induction false} OwnHitsBefore(history: History, key: Key, from: nat, to: nat)
    requires forall i :: 0 <= i < |history| && history[i].key == key ==> history[i].now < from
    ensures AllowedIn(history, key, from, to) == 0
  {
    if history != [] {
      OwnHitsBefore(history[..|history| - 1], key, from, to);
    }
  }

  /** When hits come in clock order, a window is an interval of the clock: the hits allowed while it lasts are
      its first `maxRequests`. */
  lemma {:induction false} WindowBudgetInOrder(history: History, key: Key, quota: Quota)
    requires Metered(history, key, quota, 0) && quota.maxRequests < U32_MAX && LastWindow(history, key).Some?
    ensures var window := LastWindow(history, key).value;
      && Length(quota) <= window.resetsAt
      && AllowedIn(history, key, window.resetsAt - Length(quota), window.resetsAt)
           == Min(window.count, quota.maxRequests)
      && (forall i :: 0 <= i < |history| && history[i].key == key ==> history[i].now < window.resetsAt)
  {
    hide WindowsAfter, Verdict, Tracked;
    var n := |history| - 1;
    var before, hit := history[..n], history[n];
    MeteredPrefix(history, key, quota, 0);
    LastWindowCovers(history, key, quota);
    LastWindowCovers(before, key, quota);
    if hit.key != key {
      WindowBudgetInOrder(before, key, quota);
    } else {
      OwnHit(history, key, quota, 0);
      if Live(LastWindow(before, key), hit.now) {
        WindowBudgetInOrder(before, key, quota);
        WindowOpenedInTime(before, key, quota);
      } else {
        OwnHitsBefore(before, key, hit.now, hit.now + Length(quota));
      }
    }
  }

  lemma {:induction false} WindowOpenedInTime(history: History, key: Key, quota: Quota)
    requires Metered(history, key, quota, 0) && LastWindow(history, key).Some?
    ensures LastWindow(history, key).value.count >= 1
    ensures LastWindow(history, key).value.resetsAt <= Latest(history) + Length(quota)
  {
    hide WindowsAfter, Verdict, Tracked;
    var n := |history| - 1;
    MeteredPrefix(history, key, quota, 0);
    if history[n].key == key {
      OwnHit(history, key, quota, 0);
    }
    if LastWindow(history[..n], key).Some? {
      WindowOpenedInTime(history[..n], key, quota);
    }
  }

  /** The budget reported as remaining and what the window has let through add up to the quota. */
  lemma RemainingIsBudgetLeft(history: History, quota: Quota) returns (opener: nat)
    requires history != []
    requires var hit := history[|history| - 1];
      && FixedQuota(history, hit.key, quota) && ValidQuota(quota) && quota.maxRequests < U32_MAX
      && !Refused(WindowsAfter(history[..|history| - 1]), hit)
    ensures OpenedBy(history, history[|history| - 1].key, quota, opener)
    ensures Verdict(history).remaining + AllowedSince(history, history[|history| - 1].key, opener)
      == quota.maxRequests
  {
    hide HitStep;
    var hit := history[|history| - 1];
    TrackedHit(WindowsAfter(history[..|history| - 1]), hit);
    opener := WindowBudget(history, hit.key, quota);
  }

  // ---- The advertised delay ----

  /** The delay a tracked hit is told is at least a second and the least whole number of seconds that
      reaches the reset. It is within the window exactly when the hit read the clock no earlier than the
      hit that opened the window did, so always when hits come in clock order. */
  lemma RetryAfterReachesReset(history: History, quota: Quota, seconds: nat) returns (opener: nat)
    requires history != []
    requires var hit := history[|history| - 1];
      && FixedQuota(history, hit.key, quota) && ValidQuota(quota)
      && !Refused(WindowsAfter(history[..|history| - 1]), hit)
    ensures OpenedBy(history, history[|history| - 1].key, quota, opener)
    ensures var hit, delay := history[|history| - 1], Verdict(history).retryAfterSeconds;
      && 1 <= delay
      && (history[opener].now + Length(quota) <= hit.now + seconds * NANOS <==> delay <= seconds)
      && (delay <= quota.windowSeconds <==> history[opener].now <= hit.now)
      && (Timed(history) ==> delay <= quota.windowSeconds)
  {
    hide HitStep, AllowedSince;
    var n := |history| - 1;
    var hit := history[n];
    TrackedHit(WindowsAfter(history[..n]), hit);
    opener := WindowBudget(history, hit.key, quota);
    var resetIn := Counted(Find(WindowsAfter(history[..n]), hit.key), hit).resetsAt - hit.now;
    CeilSecondsIsLeast(resetIn, seconds);
    CeilSecondsIsLeast(resetIn, 0);
    CeilSecondsIsLeast(resetIn, quota.windowSeconds);
  }

  /** Two hits at once: the one that reads the clock first waits for the lock and is told one second more
      than the window. */
  lemma StaleHitWaitsLonger(key: Key, quota: Quota, t: nat)
    requires ValidQuota(quota)
    ensures var history := [HitAt(key, quota, t + 1), HitAt(key, quota, t)];
      Verdict(history).retryAfterSeconds == quota.windowSeconds + 1 && Skewed(history, 1)
  {
    var first, second := HitAt(key, quota, t + 1), HitAt(key, quota, t);
    Snoc([], first);
    Snoc([first], second);
    assert [] + [first] == [first] && [first] + [second] == [first, second];
    CeilSecondsIsLeast(Length(quota) + 1, quota.windowSeconds);
    CeilSecondsIsLeast(Length(quota) + 1, quota.windowSeconds + 1);
  }

  lemma {:induction false} OthersLeaveWindow(history: History, others: History, key: Key)
    requires forall i :: 0 <= i < |others| ==> others[i].key != key
    ensures var stored := Find(WindowsAfter(history), key);
      Find(WindowsAfter(history + others), key) in {stored, None}
  {
    if others == [] {
      assert history + others == history;
    } else {
      hide HitStep;
      var n := |others| - 1;
      OthersLeaveWindow(history, others[..n], key);
      assert history + others == history + others[..n] + [others[n]];
      Snoc(history + others[..n], others[n]);
      OtherHit(WindowsAfter(history + others[..n]), others[n], key);
    }
  }

  /** A client that returns no earlier than advertised, its key not hit meanwhile, is allowed, whatever
      other keys and sweeps did in between and whatever the order of the clock readings. */
  lemma ReturningClientIsAllowed(history: History, others: History, back: Hit)
    requires history != [] && back.key == history[|history| - 1].key && ValidQuota(back.quota)
    requires forall i :: 0 <= i < |others| ==> others[i].key != back.key
    requires back.now >= history[|history| - 1].now + Verdict(history).retryAfterSeconds * NANOS
    ensures Verdict(history + others + [back]).allowed
  {
    var n := |history| - 1;
    var hit, windows := history[n], WindowsAfter(history[..n]);
    LastHitLeaves(windows, hit);
    OthersLeaveWindow(history, others, back.key);
    Snoc(history + others, back);
    ExpiredIsAllowed(WindowsAfter(history + others), back);
  }

  lemma LastHitLeaves(windows: Windows, hit: Hit)
    ensures var stored := Find(HitStep(windows, hit).0, hit.key);
      stored.Some? ==> stored.value.resetsAt <= hit.now + HitStep(windows, hit).1.retryAfterSeconds * NANOS
  {
    if !Refused(windows, hit) {
      TrackedHit(windows, hit);
      var resetIn := Counted(Find(windows, hit.key), hit).resetsAt - hit.now;
      CeilSecondsIsLeast(resetIn, CeilSeconds(resetIn));
    }
  }

  lemma ExpiredIsAllowed(windows: Windows, hit: Hit)
    requires ValidQuota(hit.quota) && !Live(Find(windows, hit.key), hit.now)
    ensures HitStep(windows, hit).1.allowed
  {
  }
}
