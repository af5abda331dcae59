/** When deleting expired sessions changes no later answer, and why it never does in a table the service
    itself filled. */
module SessionPruning {
  import opened Options
  import opened Sessions
  import opened SessionRuns

  /** No session of `family` can be exchanged, now or later. */
  ghost predicate DeadAt(rows: Table, family: FamilyId, now: nat) {
    forall id :: Belongs(rows, id, family) ==> !Usable(rows[id], now)
  }

  /** Pruning at `now` would only delete rows of families in which nothing is usable. */
  ghost predicate Prunable(rows: Table, now: nat) {
    forall id :: id in rows && rows[id].familyExpiresAt <= now ==> DeadAt(rows, rows[id].familyId, now)
  }

  ghost predicate SameFamily(a: Table, b: Table, family: FamilyId) {
    forall id :: (Belongs(a, id, family) || Belongs(b, id, family)) ==>
      id in a && id in b && a[id] == b[id]
  }

  ghost predicate FamilyMatches(a: Table, b: Table, family: FamilyId, now: nat) {
    SameFamily(a, b, family) || (DeadAt(a, family, now) && DeadAt(b, family, now))
  }

  /** `b` is `a` less some rows, and the two differ only inside families nothing can revive. */
  ghost predicate Similar(a: Table, b: Table, now: nat) {
    && UniqueHashes(a)
    && (forall id :: id in b ==>
          id in a && a[id].tokenHash == b[id].tokenHash && a[id].familyId == b[id].familyId)
    && (forall family: FamilyId :: FamilyMatches(a, b, family, now))
  }

  /** The random source supplies nothing that is already stored. */
  ghost predicate FreshFor(rows: Table, e: Event) {
    match e.request
    case Login(_, family, id, hash) => !Taken(rows, id, hash) && Gone(rows, family)
    case Refresh(_, nextId, nextHash) => !Taken(rows, nextId, nextHash)
    case _ => true
  }

  // ---- One step on each side ----

  lemma SelectSimilar(a: Table, b: Table, now: nat, hash: Hash)
    requires Similar(a, b, now)
    ensures UniqueHashes(b)
    ensures Select(b, hash).Some? ==> Select(a, hash) == Select(b, hash)
    ensures Select(b, hash).None? && Select(a, hash).Some? ==>
      && HoldsHash(a, Select(a, hash).value, hash)
      && DeadAt(a, a[Select(a, hash).value].familyId, now)
      && DeadAt(b, a[Select(a, hash).value].familyId, now)
  {
    if Select(b, hash).Some? {
      var id := Select(b, hash).value;
      assert HoldsHash(b, id, hash);
      SelectFinds(a, id, hash);
    } else if Select(a, hash).Some? {
      var id := Select(a, hash).value;
      var family := a[id].familyId;
      assert HoldsHash(a, id, hash) && Belongs(a, id, family);
      assert !HoldsHash(b, id, hash);
      assert FamilyMatches(a, b, family, now);
    }
  }

  /** Time alone keeps the two tables alike. */
  lemma SimilarLater(a: Table, b: Table, now: nat, now': nat)
    requires Similar(a, b, now) && now <= now'
    ensures Similar(a, b, now')
  {
    forall family: FamilyId ensures FamilyMatches(a, b, family, now') {
      assert FamilyMatches(a, b, family, now);
    }
  }

  /** The same revocation on both sides keeps them alike. */
  lemma SimilarRevoked(a: Table, b: Table, a': Table, b': Table, now: nat)
    requires Similar(a, b, now)
    requires a'.Keys == a.Keys && b'.Keys == b.Keys
    requires forall id :: id in a ==> a'[id] == a[id] || a'[id] == Revoked(a[id], now)
    requires forall id :: id in b ==> b'[id] == b[id] || b'[id] == Revoked(b[id], now)
    requires forall id :: id in b && a[id] == b[id] ==>
      a'[id] == b'[id] || (DeadAt(a, a[id].familyId, now) && DeadAt(b, a[id].familyId, now))
    ensures Similar(a', b', now)
  {
    forall family: FamilyId ensures FamilyMatches(a', b', family, now) {
      assert FamilyMatches(a, b, family, now);
      assert forall id :: Belongs(a', id, family) <==> Belongs(a, id, family);
      assert forall id :: Belongs(b', id, family) <==> Belongs(b, id, family);
    }
  }

  lemma RevokeStepSimilar(a: Table, b: Table, e: Event)
    requires Similar(a, b, e.now) && e.request.Logout?
    ensures Similar(Step(a, e).rows, Step(b, e).rows, e.now)
  {
    SimilarRevoked(a, b, Step(a, e).rows, Step(b, e).rows, e.now);
  }

  lemma LoginStepSimilar(a: Table, b: Table, e: Event)
    requires Similar(a, b, e.now) && e.request.Login? && FreshFor(a, e)
    ensures Step(a, e).answer == Step(b, e).answer
    ensures Similar(Step(a, e).rows, Step(b, e).rows, e.now)
  {
    var Login(user, family, id, hash) := e.request;
    SelectSimilar(a, b, e.now, hash);
    var a', b' := Step(a, e).rows, Step(b, e).rows;
    assert forall i :: i in a ==> !HoldsHash(a, i, hash) && !Belongs(a, i, family);
    forall f: FamilyId ensures FamilyMatches(a', b', f, e.now) {
      assert FamilyMatches(a, b, f, e.now);
      if f == family {
        assert forall i :: i in b ==> !Belongs(b, i, family);
      } else {
        assert forall i :: Belongs(a', i, f) <==> Belongs(a, i, f);
        assert forall i :: Belongs(b', i, f) <==> Belongs(b, i, f);
      }
    }
  }

  /** A stored row and its twin answer alike: same family, same row, or both unusable. */
  lemma RefreshAnswersAlike(a: Table, b: Table, e: Event)
    requires Similar(a, b, e.now) && e.request.Refresh? && FreshFor(a, e)
    ensures Step(a, e).answer == Step(b, e).answer
    ensures Step(a, e).answer.Granted? ==>
      Select(a, e.request.presented).Some? && Select(b, e.request.presented) == Select(a, e.request.presented)
    ensures Select(a, e.request.presented).Some? ==>
      var id := Select(a, e.request.presented).value;
      && HoldsHash(a, id, e.request.presented)
      && (Step(a, e).answer.Granted? ==>
            id in b && a[id] == b[id] && SameFamily(a, b, a[id].familyId))
  {
    var Refresh(presented, nextId, nextHash) := e.request;
    SelectSimilar(a, b, e.now, presented);
    SelectSimilar(a, b, e.now, nextHash);
    if Select(a, presented).Some? {
      var id := Select(a, presented).value;
      var family := a[id].familyId;
      assert HoldsHash(a, id, presented) && Belongs(a, id, family);
      assert FamilyMatches(a, b, family, e.now);
      if id in b {
        assert Belongs(b, id, family);
      }
    }
  }

  lemma RefusedRefreshSimilar(a: Table, b: Table, e: Event)
    requires Similar(a, b, e.now) && e.request.Refresh? && FreshFor(a, e)
    requires !Step(a, e).answer.Granted?
    ensures Similar(Step(a, e).rows, Step(b, e).rows, e.now)
  {
    RefreshAnswersAlike(a, b, e);
    var presented := e.request.presented;
    SelectSimilar(a, b, e.now, presented);
    if Select(a, presented).Some? {
      var id := Select(a, presented).value;
      assert Belongs(a, id, a[id].familyId);
      assert FamilyMatches(a, b, a[id].familyId, e.now);
    }
    SimilarRevoked(a, b, Step(a, e).rows, Step(b, e).rows, e.now);
  }

  lemma GrantedFamilyMatches(a: Table, b: Table, e: Event, f: FamilyId)
    requires Similar(a, b, e.now) && e.request.Refresh? && FreshFor(a, e)
    requires Step(a, e).answer.Granted?
    ensures FamilyMatches(Step(a, e).rows, Step(b, e).rows, f, e.now)
  {
    var nextId := e.request.nextId;
    RefreshAnswersAlike(a, b, e);
    var id := Select(a, e.request.presented).value;
    var a', b' := Step(a, e).rows, Step(b, e).rows;
    assert a'[nextId] == b'[nextId] && a'[id] == b'[id];
    assert FamilyMatches(a, b, f, e.now);
    if f == a[id].familyId {
      forall i | Belongs(a', i, f) || Belongs(b', i, f) ensures i in a' && i in b' && a'[i] == b'[i] {
        assert i != nextId ==> Belongs(a, i, f) || Belongs(b, i, f);
      }
    } else {
      assert forall i :: Belongs(a', i, f) <==> Belongs(a, i, f);
      assert forall i :: Belongs(b', i, f) <==> Belongs(b, i, f);
    }
  }

  lemma GrantedRefreshSimilar(a: Table, b: Table, e: Event)
    requires Similar(a, b, e.now) && e.request.Refresh? && FreshFor(a, e)
    requires Step(a, e).answer.Granted?
    ensures Similar(Step(a, e).rows, Step(b, e).rows, e.now)
  {
    forall f: FamilyId ensures FamilyMatches(Step(a, e).rows, Step(b, e).rows, f, e.now) {
      GrantedFamilyMatches(a, b, e, f);
    }
    RefreshAnswersAlike(a, b, e);
    hide FamilyMatches;
    assert forall i :: i in a ==> !HoldsHash(a, i, e.request.nextHash);
  }

  /** The same request gives the same answer on both sides and keeps them alike. */
  lemma StepSimilar(a: Table, b: Table, e: Event)
    requires Similar(a, b, e.now) && !e.request.Prune? && FreshFor(a, e)
    ensures Step(a, e).answer == Step(b, e).answer
    ensures Similar(Step(a, e).rows, Step(b, e).rows, e.now)
  {
    match e.request
    case Login(_, _, _, _) => LoginStepSimilar(a, b, e);
    case Refresh(_, _, _) =>
      RefreshAnswersAlike(a, b, e);
      if Step(a, e).answer.Granted? {
        GrantedRefreshSimilar(a, b, e);
      } else {
        RefusedRefreshSimilar(a, b, e);
      }
    case Logout(_) => RevokeStepSimilar(a, b, e);
  }

  lemma PruneSimilar(a: Table, b: Table, now: nat)
    requires Similar(a, b, now) && Prunable(b, now)
    ensures Similar(a, Unexpired(b, now), now)
  {
    var kept := Unexpired(b, now);
    forall family: FamilyId ensures FamilyMatches(a, kept, family, now) {
      assert FamilyMatches(a, b, family, now);
      assert forall id :: Belongs(kept, id, family) ==> Belongs(b, id, family);
      if SameFamily(a, b, family) && !DeadAt(b, family, now) {
        forall id | Belongs(b, id, family) ensures Belongs(kept, id, family) {
        }
      } else if SameFamily(a, b, family) {
        forall id | Belongs(a, id, family) ensures !Usable(a[id], now) {
          assert Belongs(b, id, family);
        }
      }
    }
  }

  // ---- A whole run against the run that never prunes ----

  /** The answers to every request but the prunes, whose results no client sees. */
  ghost function Answers(rows: Table, events: seq<Event>): seq<Answer>
    decreases |events|
  {
    if events == [] then []
    else
      (if events[0].request.Prune? then [] else [Step(rows, events[0]).answer])
      + Answers(Step(rows, events[0]).rows, events[1..])
  }

  function WithoutPrunes(events: seq<Event>): seq<Event> {
    if events == [] then []
    else (if events[0].request.Prune? then [] else [events[0]]) + WithoutPrunes(events[1..])
  }

  lemma ReachableIsPrunable(rows: Table, j: Journal, now: nat, now': nat)
    requires Inv(rows, j, now)
    ensures Prunable(rows, now')
  {
    forall id | id in rows && rows[id].familyExpiresAt <= now' ensures DeadAt(rows, rows[id].familyId, now') {
      var family := rows[id].familyId;
      assert Belongs(rows, id, family);
      assert FamilyInv(rows, family, j.families[family], now);
    }
  }

  lemma FreshInUnpruned(a: Table, j: Journal, e: Event)
    requires Covered(a, j) && Fresh(j, e)
    ensures FreshFor(a, e)
  {
    match e.request
    case Login(_, family, id, hash) =>
      NotTaken(a, j, id, hash);
    case Refresh(_, nextId, nextHash) => NotTaken(a, j, nextId, nextHash);
    case _ =>
  }

  lemma CoveredStays(a: Table, b: Table, j: Journal, e: Event)
    requires Covered(a, j) && !e.request.Prune?
    requires Step(a, e).answer == Step(b, e).answer
    requires e.request.Refresh? && Select(a, e.request.presented).Some? ==>
      HoldsHash(a, Select(a, e.request.presented).value, e.request.presented)
    ensures Covered(Step(a, e).rows, Note(j, b, e))
  {
  }

  lemma {:induction false} PrunedRunAnswersAlike(a: Table, b: Table, j: Journal, events: seq<Event>, now: nat)
    requires Inv(b, j, now) && Orderly(b, j, events, now)
    requires Similar(a, b, now) && Covered(a, j)
    ensures Answers(b, events) == Answers(a, WithoutPrunes(events))
    decreases |events|
  {
    if events != [] {
      var e := events[0];
      SimilarLater(a, b, now, e.now);
      OrderlyTail(b, j, events, now);
      var b', j' := Step(b, e).rows, Note(j, b, e);
      if e.request.Prune? {
        PruneKeeps(b, j, now, e.now);
        ReachableIsPrunable(b, j, now, e.now);
        PruneSimilar(a, b, e.now);
        PrunedRunAnswersAlike(a, b', j', events[1..], e.now);
        assert WithoutPrunes(events) == WithoutPrunes(events[1..]);
        assert Answers(b, events) == Answers(b', events[1..]);
      } else {
        FreshInUnpruned(a, j, e);
        StepSimilar(a, b, e);
        CoveredStays(a, b, j, e);
        PrunedRunAnswersAlike(Step(a, e).rows, b', j', events[1..], e.now);
        var rest := WithoutPrunes(events[1..]);
        assert WithoutPrunes(events) == [e] + rest;
        assert ([e] + rest)[1..] == rest;
      }
    }
  }

  /** Two runs with the same requests, clock and random source, one pruning at arbitrary moments and one
      never, give the same answer to every login, exchange and logout. */
  lemma PruningIsInvisible(events: seq<Event>)
    requires Orderly(map[], EMPTY_JOURNAL, events, 0)
    ensures Answers(map[], events) == Answers(map[], WithoutPrunes(events))
  {
    PrunedRunAnswersAlike(map[], map[], EMPTY_JOURNAL, events, 0);
  }

  // ---- One prune of an arbitrary table: exactly when it is invisible ----

  /** A prune-free continuation that starts at `now`. */
  ghost predicate Continuation(rows: Table, events: seq<Event>, now: nat)
    decreases |events|
  {
    events == [] ||
    (&& now <= events[0].now && !events[0].request.Prune? && FreshFor(rows, events[0])
     && Continuation(Step(rows, events[0]).rows, events[1..], events[0].now))
  }

  lemma {:induction false} SimilarAnswerAlike(a: Table, b: Table, events: seq<Event>, now: nat)
    requires Similar(a, b, now) && Continuation(a, events, now)
    ensures Answers(a, events) == Answers(b, events)
    decreases |events|
  {
    if events != [] {
      SimilarLater(a, b, now, events[0].now);
      StepSimilar(a, b, events[0]);
      SimilarAnswerAlike(Step(a, events[0]).rows, Step(b, events[0]).rows, events[1..], events[0].now);
    }
  }

  ghost predicate Below(rows: Table, n: nat) {
    forall id :: id in rows ==> id < n && rows[id].tokenHash < n
  }

  lemma Bounded(rows: Table) returns (n: nat)
    ensures Below(rows, n)
    decreases |rows|
  {
    if rows == map[] {
      n := 0;
    } else {
      var id :| id in rows;
      var rest := map i | i in rows && i != id :: rows[i];
      assert rest.Keys == rows.Keys - {id};
      var m := Bounded(rest);
      n := m + id + rows[id].tokenHash + 1;
      forall i | i in rows ensures i < n && rows[i].tokenHash < n {
        assert i != id ==> i in rest;
      }
    }
  }

  /** Log out of the deleted session, replay it, then exchange the usable one: with the deleted row in
      place the replay revokes the family, without it the exchange succeeds. */
  function Telltale(gone: Hash, live: Hash, n: nat, now: nat, policy: RefreshPolicy): seq<Event> {
    [Event(now, Logout(gone), policy), Event(now, Refresh(gone, n, n), policy),
     Event(now, Refresh(live, n + 1, n + 1), policy)]
  }

  /** Three requests in a row, step by step. */
  lemma ThreeAnswers(rows: Table, es: seq<Event>)
    requires |es| == 3 && forall i :: 0 <= i < 3 ==> !es[i].request.Prune?
    ensures var first := Step(rows, es[0]);
      var second := Step(first.rows, es[1]);
      var third := Step(second.rows, es[2]);
      && Answers(rows, es) == [first.answer, second.answer, third.answer]
      && (es[0].now <= es[1].now <= es[2].now
          && FreshFor(rows, es[0]) && FreshFor(first.rows, es[1]) && FreshFor(second.rows, es[2])
          ==> Continuation(rows, es, es[0].now))
  {
    hide Step, FreshFor;
    var first := Step(rows, es[0]);
    var second := Step(first.rows, es[1]);
    assert es[1..][0] == es[1] && es[1..][1..][0] == es[2] && es[1..][1..][1..] == [];
    assert Answers(second.rows, es[1..][1..]) == [Step(second.rows, es[2]).answer];
    if es[1].now <= es[2].now && FreshFor(first.rows, es[1]) && FreshFor(second.rows, es[2]) {
      assert Continuation(second.rows, es[1..][1..], es[1].now);
      assert Continuation(first.rows, es[1..], es[1].now);
    }
  }

  /** A replay with ids no row has. */
  lemma Replayed(rows: Table, e: Event, id: SessionId, n: nat)
    requires UniqueHashes(rows) && Below(rows, n) && e.request.Refresh?
    requires HoldsHash(rows, id, e.request.presented) && rows[id].revokedAt.Some?
    requires e.request.nextId >= n && e.request.nextHash >= n
    ensures Step(rows, e) == Outcome(FamilyRevoked(rows, rows[id].familyId, e.now), Unauthorized)
    ensures FreshFor(rows, e)
  {
    SelectFinds(rows, id, e.request.presented);
    assert forall i :: !HoldsHash(rows, i, e.request.nextHash);
  }

  /** Logging a session out, or revoking its family, leaves its hash and family and revokes it. */
  lemma RevokedStill(rows: Table, now: nat, d: SessionId, n: nat)
    requires UniqueHashes(rows) && Below(rows, n) && d in rows
    ensures var rows' := SessionRevoked(rows, rows[d].tokenHash, now);
      && rows'.Keys == rows.Keys && UniqueHashes(rows') && Below(rows', n) && rows'[d].revokedAt.Some?
      && forall id :: id in rows ==>
           HoldsHash(rows', id, rows[id].tokenHash) && rows'[id].familyId == rows[id].familyId
    ensures var rows' := FamilyRevoked(rows, rows[d].familyId, now);
      && rows'.Keys == rows.Keys && UniqueHashes(rows') && Below(rows', n)
      && forall id :: id in rows ==>
           HoldsHash(rows', id, rows[id].tokenHash)
           && (rows[id].familyId == rows[d].familyId ==> rows'[id].revokedAt.Some?)
  {
  }

  lemma TelltaleUnpruned(rows: Table, policy: RefreshPolicy, now: nat, d: SessionId, s: SessionId, n: nat)
    requires UniqueHashes(rows) && Below(rows, n)
    requires d in rows && s in rows && rows[d].familyId == rows[s].familyId
    ensures var es := Telltale(rows[d].tokenHash, rows[s].tokenHash, n, now, policy);
      Answers(rows, es) == [Done, Unauthorized, Unauthorized] && Continuation(rows, es, now)
  {
    hide Rotate, Answers, Continuation, UniqueHashes, Below, SessionRevoked, FamilyRevoked, HoldsHash;
    var es := Telltale(rows[d].tokenHash, rows[s].tokenHash, n, now, policy);
    ThreeAnswers(rows, es);
    var rows1 := SessionRevoked(rows, rows[d].tokenHash, now);
    var rows2 := FamilyRevoked(rows1, rows[d].familyId, now);
    assert Step(rows, es[0]) == Outcome(rows1, Done) && FreshFor(rows, es[0]);
    hide Step, FreshFor;
    RevokedStill(rows, now, d, n);
    RevokedStill(rows1, now, d, n);
    assert HoldsHash(rows1, d, rows[d].tokenHash) && HoldsHash(rows1, s, rows[s].tokenHash);
    SameHash(rows1, s, rows[s].tokenHash);
    Replayed(rows1, es[1], d, n);
    assert HoldsHash(rows2, s, rows1[s].tokenHash);
    Replayed(rows2, es[2], s, n);
  }

  lemma SameHash(rows: Table, id: SessionId, hash: Hash)
    requires HoldsHash(rows, id, hash)
    ensures id in rows && rows[id].tokenHash == hash
  {
  }

  lemma TelltalePruned(rows: Table, policy: RefreshPolicy, now: nat, gone: Hash, s: SessionId, n: nat)
    requires UniqueHashes(rows) && Below(rows, n)
    requires s in rows && Usable(rows[s], now)
    requires forall id :: !HoldsHash(rows, id, gone)
    ensures var answers := Answers(rows, Telltale(gone, rows[s].tokenHash, n, now, policy));
      |answers| == 3 && answers[2].Granted?
  {
    var es := Telltale(gone, rows[s].tokenHash, n, now, policy);
    ThreeAnswers(rows, es);
    assert forall id :: id in rows ==> !HoldsHash(rows, id, gone);
    assert Step(rows, es[0]).rows == rows;
    assert Step(rows, es[1]).rows == rows;
    assert HoldsHash(rows, s, rows[s].tokenHash);
    SelectFinds(rows, s, rows[s].tokenHash);
    var n1 := n + 1;
    assert forall i :: !HoldsHash(rows, i, n1);
  }

  /** A prune that deletes a row of a family with a usable session can be told from no prune at all. */
  lemma UnprunablePruneShows(rows: Table, policy: RefreshPolicy, now: nat) returns (events: seq<Event>)
    requires UniqueHashes(rows) && !Prunable(rows, now)
    ensures Continuation(rows, events, now)
    ensures Answers(rows, events) != Answers(Unexpired(rows, now), events)
  {
    var d :| d in rows && rows[d].familyExpiresAt <= now && !DeadAt(rows, rows[d].familyId, now);
    var s :| Belongs(rows, s, rows[d].familyId) && Usable(rows[s], now);
    var n := Bounded(rows);
    events := Telltale(rows[d].tokenHash, rows[s].tokenHash, n, now, policy);
    TelltaleUnpruned(rows, policy, now, d, s, n);
    forall id ensures !HoldsHash(Unexpired(rows, now), id, rows[d].tokenHash) {
    }
    TelltalePruned(Unexpired(rows, now), policy, now, rows[d].tokenHash, s, n);
  }

  /** The prune of any table changes no later answer exactly when every family that would lose a row has
      nothing usable left, or the database refuses it because a surviving row names a deleted one. */
  lemma PruneInvisibleExactlyWhenPrunable(rows: Table, now: nat)
    requires UniqueHashes(rows)
    ensures Prunable(rows, now) || !ReferencesHold(Unexpired(rows, now)) <==>
      forall events :: Continuation(rows, events, now) ==>
        Answers(rows, events) == Answers(DeleteExpired(rows, now).rows, events)
  {
    if !ReferencesHold(Unexpired(rows, now)) {
      assert DeleteExpired(rows, now).rows == rows;
    } else if Prunable(rows, now) {
      assert Similar(rows, rows, now) by {
        assert forall family: FamilyId :: SameFamily(rows, rows, family) && FamilyMatches(rows, rows, family, now);
      }
      PruneSimilar(rows, rows, now);
      forall events | Continuation(rows, events, now)
        ensures Answers(rows, events) == Answers(DeleteExpired(rows, now).rows, events)
      {
        SimilarAnswerAlike(rows, Unexpired(rows, now), events, now);
      }
    } else {
      var events := UnprunablePruneShows(rows, RefreshPolicy(1, 1), now);
    }
  }

  const DAY: nat := 86_400

  /** A row as the service wrote it on `day`, with the default token lifetime of 30 days, and as the migration
      that added the family expiry left it: 90 days from its own creation. */
  function Migrated(day: nat, hash: Hash, next: Option<(nat, SessionId)>): Session {
    Session(0, 0, hash, (day + 30) * DAY, (day + 90) * DAY,
            if next.Some? then Some(next.value.0 * DAY) else None,
            if next.Some? then Some(next.value.1) else None)
  }

  /** A session renewed on days 29, 58 and 87. */
  function MigratedFamily(): Table {
    map[0 := Migrated(0, 0, Some((29, 1))), 1 := Migrated(29, 1, Some((58, 2))),
        2 := Migrated(58, 2, Some((87, 3))), 3 := Migrated(87, 3, None)]
  }

  lemma MigratedFamilyPruned()
    ensures DeleteExpired(MigratedFamily(), 90 * DAY) == Outcome(MigratedFamily() - {0}, Done)
  {
    assert Unexpired(MigratedFamily(), 90 * DAY) == MigratedFamily() - {0};
  }

  /** So a migrated family need not expire as one: on day 90 the first row is pruned while the last is usable. */
  lemma MigratedFamilyIsNotPrunable()
    ensures UniqueHashes(MigratedFamily()) && ReferencesHold(MigratedFamily())
    ensures DeleteExpired(MigratedFamily(), 90 * DAY) == Outcome(MigratedFamily() - {0}, Done)
    ensures !Prunable(MigratedFamily(), 90 * DAY)
  {
    var rows := MigratedFamily();
    MigratedFamilyPruned();
    hide DeleteExpired, Unexpired;
    assert Belongs(rows, 3, 0) && Usable(rows[3], 90 * DAY);
    assert rows[0].familyId == 0 && !DeadAt(rows, 0, 90 * DAY);
  }
}
