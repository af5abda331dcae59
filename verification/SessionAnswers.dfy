/** What a client is told and what that is worth: exactly when a request is granted, which token it is
    answered with, and for how long that token is accepted. */
module SessionAnswers {
  import opened Options
  import opened Sessions
  import opened SessionRuns

  // ---- One request ----

  /** Some stored session of this token could be exchanged at `now`. */
  ghost predicate Exchangeable(rows: Table, hash: Hash, now: nat) {
    exists id :: HoldsHash(rows, id, hash) && Usable(rows[id], now)
  }

  /** An exchange is granted exactly when the token presented is exchangeable and the new id and token are
      free, fails in the database exactly when they are not, and is unauthorized otherwise. */
  lemma GrantedExactlyWhen(rows: Table, e: Event)
    requires UniqueHashes(rows) && e.request.Refresh?
    ensures var free := e.request.nextId !in rows && forall i :: !HoldsHash(rows, i, e.request.nextHash);
      var usable := Exchangeable(rows, e.request.presented, e.now);
      var answer := Step(rows, e).answer;
      && (answer.Granted? <==> usable && free)
      && (answer == DatabaseError <==> usable && !free)
      && (answer == Unauthorized <==> !usable)
  {
    var presented := e.request.presented;
    if id :| HoldsHash(rows, id, presented) {
      SelectFinds(rows, id, presented);
      assert forall i :: HoldsHash(rows, i, presented) ==> i == id;
    } else {
      assert Select(rows, presented) == None;
    }
  }

  /** A login is granted exactly when its id and token are free, and fails in the database otherwise. */
  lemma LoginGrantedExactlyWhen(rows: Table, e: Event)
    requires e.request.Login?
    ensures var free := e.request.id !in rows && forall i :: !HoldsHash(rows, i, e.request.hash);
      var answer := Step(rows, e).answer;
      (answer.Granted? <==> free) && (answer == DatabaseError <==> !free)
  {
  }

  /** A request that is not granted changes nothing, except that presenting a revoked token revokes what was
      left of its family. */
  lemma RefusalLeavesRows(rows: Table, e: Event, family: FamilyId)
    requires UniqueHashes(rows) && (e.request.Login? || e.request.Refresh?) && !Step(rows, e).answer.Granted?
    requires e.request.Refresh? && FamilyOf(rows, e.request.presented) == Some(family) ==>
      Exchangeable(rows, e.request.presented, e.now)
      || forall id :: HoldsHash(rows, id, e.request.presented) ==> rows[id].revokedAt == None
    ensures forall id :: Belongs(rows, id, family) || Belongs(Step(rows, e).rows, id, family) ==>
      id in rows && id in Step(rows, e).rows && Step(rows, e).rows[id] == rows[id]
    ensures Step(rows, e).rows.Keys == rows.Keys
  {
    if e.request.Refresh? && Select(rows, e.request.presented).Some? {
      var id := Select(rows, e.request.presented).value;
      assert HoldsHash(rows, id, e.request.presented);
      if other :| HoldsHash(rows, other, e.request.presented) && Usable(rows[other], e.now) {
        assert other == id;
      }
    }
  }

  /** The row a granted token names: stored, unrevoked, without a successor, and usable until the expiry the
      client was told. */
  ghost predicate Issued(rows: Table, family: FamilyId, userId: UserId, hash: Hash, expiresAt: nat) {
    exists id :: HoldsHash(rows, id, hash)
      && rows[id].familyId == family && rows[id].userId == userId
      && rows[id].revokedAt == None && rows[id].replacedBy == None
      && rows[id].expiresAt == expiresAt && expiresAt <= rows[id].familyExpiresAt
  }

  /** In a reachable table a login is always granted: the user's new token, good for the token lifetime. */
  lemma LoginAnswer(rows: Table, j: Journal, e: Event, now: nat)
    requires Inv(rows, j, now) && now <= e.now && ValidPolicy(e.policy) && e.request.Login? && Fresh(j, e)
    ensures Step(rows, e).answer == Granted(e.request.userId, e.request.hash, e.now + e.policy.tokenTtl)
    ensures Issued(Step(rows, e).rows, e.request.familyId, e.request.userId, e.request.hash,
                   e.now + e.policy.tokenTtl)
  {
    LoginKeeps(rows, j, e, now);
    var rows' := Step(rows, e).rows;
    assert HoldsHash(rows', e.request.id, e.request.hash);
  }

  function Lesser(a: nat, b: nat): nat { if a <= b then a else b }

  /** A granted exchange answers with the family's user and the new token, good for the token lifetime or to
      the end of the family, whichever comes first; the new row says the same. */
  lemma ExchangeAnswer(rows: Table, j: Journal, e: Event, now: nat)
    requires Inv(rows, j, now) && now <= e.now && ValidPolicy(e.policy) && e.request.Refresh? && Fresh(j, e)
    requires Step(rows, e).answer.Granted?
    ensures FamilyOf(rows, e.request.presented).Some?
    ensures FamilyOf(rows, e.request.presented).value in j.families
    ensures var family := FamilyOf(rows, e.request.presented).value;
      var f := j.families[family];
      var expiresAt := Lesser(e.now + e.policy.tokenTtl, f.startedAt + f.lifetime);
      && Step(rows, e).answer == Granted(f.userId, e.request.nextHash, expiresAt)
      && Issued(Step(rows, e).rows, family, f.userId, e.request.nextHash, expiresAt)
  {
    GrantIsExchange(rows, j, e, now);
    ExchangeExpiry(rows, j, e, now);
    var rows' := Step(rows, e).rows;
    assert HoldsHash(rows', e.request.nextId, e.request.nextHash);
  }

  lemma ExchangeExpiry(rows: Table, j: Journal, e: Event, now: nat)
    requires Inv(rows, j, now) && e.request.Refresh? && Fresh(j, e) && Step(rows, e).answer.Granted?
    ensures Select(rows, e.request.presented).Some?
    ensures var session := rows[Select(rows, e.request.presented).value];
      var answer := Step(rows, e).answer;
      var next := Step(rows, e).rows[e.request.nextId];
      && session.familyId in j.families
      && var f := j.families[session.familyId];
      && answer == Granted(f.userId, e.request.nextHash, Lesser(e.now + e.policy.tokenTtl, f.startedAt + f.lifetime))
      && next.expiresAt == answer.expiresAt && next.revokedAt == None
  {
    SelectIsMember(rows, j, now, e.request.presented);
    var id := Select(rows, e.request.presented).value;
    assert Belongs(rows, id, rows[id].familyId);
  }

  lemma FamilyEndsTogether(rows: Table, j: Journal, now: nat, family: FamilyId)
    requires Inv(rows, j, now) && family in j.families
    ensures forall id :: Belongs(rows, id, family) ==>
      rows[id].familyExpiresAt == j.families[family].startedAt + j.families[family].lifetime
  {
    assert FamilyInv(rows, family, j.families[family], now);
  }

  lemma PruneKeepsUnexpired(rows: Table, e: Event, id: SessionId)
    requires e.request.Prune? && DeleteExpired(rows, e.now).answer == Done
    ensures id in Step(rows, e).rows <==> id in rows && e.now < rows[id].familyExpiresAt
    ensures id in Step(rows, e).rows ==> Step(rows, e).rows[id] == rows[id]
  {
  }

  /** After a prune, the families with rows are those that had some and have not come to their end. */
  lemma PruneRemovesExactly(rows: Table, j: Journal, e: Event, now: nat, family: FamilyId)
    requires Inv(rows, j, now) && now <= e.now && e.request.Prune? && family in j.families
    ensures var f := j.families[family];
      Gone(Step(rows, e).rows, family) <==> Gone(rows, family) || f.startedAt + f.lifetime <= e.now
    ensures !Gone(Step(rows, e).rows, family) ==>
      forall id :: Belongs(rows, id, family) ==> id in Step(rows, e).rows && Step(rows, e).rows[id] == rows[id]
  {
    hide Inv, Step, DeleteExpired;
    var f, rows' := j.families[family], Step(rows, e).rows;
    PruneKeeps(rows, j, now, e.now);
    FamilyEndsTogether(rows, j, now, family);
    forall id
      ensures Belongs(rows', id, family) <==> Belongs(rows, id, family) && e.now < f.startedAt + f.lifetime
      ensures Belongs(rows', id, family) ==> rows'[id] == rows[id]
    {
      PruneKeepsUnexpired(rows, e, id);
    }
  }

  // ---- How long a token is accepted ----

  /** Logs this token out, or presents a token of its family. */
  ghost predicate Touches(rows: Table, e: Event, hash: Hash, family: FamilyId) {
    match e.request
    case Logout(token) => token == hash
    case Refresh(presented, _, _) => FamilyOf(rows, presented) == Some(family)
    case _ => false
  }

  ghost predicate LeftAlone(rows: Table, j: Journal, events: seq<Event>, hash: Hash, family: FamilyId)
    decreases |events|
  {
    events == [] ||
    (!Touches(rows, events[0], hash, family)
     && LeftAlone(Step(rows, events[0]).rows, Note(j, rows, events[0]), events[1..], hash, family))
  }

  /** `hash` was issued, and no session that still holds it is good for anything at `t`. */
  ghost predicate Useless(rows: Table, j: Journal, hash: Hash, t: nat) {
    hash in j.hashes
    && forall id :: HoldsHash(rows, id, hash) ==> rows[id].revokedAt.Some? || rows[id].expiresAt <= t
  }

  lemma UselessStays(rows: Table, j: Journal, e: Event, hash: Hash, t: nat)
    requires UniqueHashes(rows) && Useless(rows, j, hash, t) && Fresh(j, e)
    ensures Useless(Step(rows, e).rows, Note(j, rows, e), hash, t)
    ensures e.request.Refresh? && e.request.presented == hash && t <= e.now ==> !Step(rows, e).answer.Granted?
  {
    var rows' := Step(rows, e).rows;
    if e.request.Refresh? && Select(rows, e.request.presented).Some? {
      assert HoldsHash(rows, Select(rows, e.request.presented).value, e.request.presented);
    }
    forall id | HoldsHash(rows', id, hash) ensures rows'[id].revokedAt.Some? || rows'[id].expiresAt <= t {
      assert id in rows ==> HoldsHash(rows, id, hash);
    }
  }

  lemma AnswerFirst(rows: Table, j: Journal, events: seq<Event>)
    requires events != []
    ensures AnswerAt(rows, j, events, 0) == Step(rows, events[0]).answer
  {
  }

  lemma {:induction false} UselessNeverGranted(rows: Table, j: Journal, events: seq<Event>, e: Event, now: nat,
                                              hash: Hash)
    requires Inv(rows, j, now) && Orderly(rows, j, events + [e], now) && Useless(rows, j, hash, e.now)
    requires e.request.Refresh? && e.request.presented == hash
    ensures !AnswerAt(rows, j, events + [e], |events|).Granted?
    decreases |events|
  {
    hide Step, Note, Fresh, Useless, Inv;
    var all := events + [e];
    OrderlyTail(rows, j, all, now);
    UniqueInInv(rows, j, now);
    UselessStays(rows, j, all[0], hash, e.now);
    if events == [] {
      assert all[0] == e;
      AnswerFirst(rows, j, all);
    } else {
      assert all[1..] == events[1..] + [e];
      AnswerLater(rows, j, all, |events|);
      UselessNeverGranted(Step(rows, all[0]).rows, Note(j, rows, all[0]), events[1..], e, all[0].now, hash);
    }
  }

  lemma UniqueInInv(rows: Table, j: Journal, now: nat)
    requires Inv(rows, j, now)
    ensures UniqueHashes(rows)
  {
  }

  /** The last session of a family, unrevoked: the one whose token can still be exchanged. */
  ghost predicate Open(rows: Table, id: SessionId, hash: Hash, family: FamilyId, expiresAt: nat) {
    && HoldsHash(rows, id, hash) && rows[id].familyId == family
    && rows[id].revokedAt == None && rows[id].expiresAt == expiresAt
  }

  lemma UntouchedByRefresh(rows: Table, j: Journal, e: Event, id: SessionId, hash: Hash, family: FamilyId,
                           expiresAt: nat)
    requires UniqueHashes(rows) && Covered(rows, j) && Fresh(j, e) && e.request.Refresh?
    requires Open(rows, id, hash, family, expiresAt) && !Touches(rows, e, hash, family)
    ensures Open(Step(rows, e).rows, id, hash, family, expiresAt)
  {
    NotTaken(rows, j, e.request.nextId, e.request.nextHash);
    if Select(rows, e.request.presented).Some? {
      assert HoldsHash(rows, Select(rows, e.request.presented).value, e.request.presented);
    }
  }

  lemma UntouchedByPrune(rows: Table, j: Journal, e: Event, now: nat, id: SessionId, hash: Hash, family: FamilyId,
                         expiresAt: nat)
    requires Inv(rows, j, now) && now <= e.now && ValidPolicy(e.policy) && Fresh(j, e) && e.request.Prune?
    requires Open(rows, id, hash, family, expiresAt)
    ensures Open(Step(rows, e).rows, id, hash, family, expiresAt)
      || (expiresAt <= e.now && Useless(Step(rows, e).rows, Note(j, rows, e), hash, e.now))
  {
    FamilyLifetime(rows, j, e, now);
    PruneKeeps(rows, j, now, e.now);
    UniqueInInv(rows, j, now);
    hide Inv, Step, DeleteExpired;
    forall i ensures HoldsHash(Step(rows, e).rows, i, hash) ==> HoldsHash(rows, i, hash) && i == id {
      PruneKeepsUnexpired(rows, e, i);
    }
    PruneKeepsUnexpired(rows, e, id);
    IssuedHash(rows, j, e, now, id);
  }

  lemma IssuedHash(rows: Table, j: Journal, e: Event, now: nat, id: SessionId)
    requires Inv(rows, j, now) && id in rows
    ensures rows[id].tokenHash in Note(j, rows, e).hashes
  {
  }

  /** A request that leaves the session alone leaves it as it is, or finds it expired. */
  lemma UntouchedStays(rows: Table, j: Journal, e: Event, now: nat, id: SessionId, hash: Hash, family: FamilyId,
                       expiresAt: nat)
    requires Inv(rows, j, now) && now <= e.now && ValidPolicy(e.policy) && Fresh(j, e)
    requires Open(rows, id, hash, family, expiresAt) && !Touches(rows, e, hash, family)
    ensures Open(Step(rows, e).rows, id, hash, family, expiresAt)
      || (expiresAt <= e.now && Useless(Step(rows, e).rows, Note(j, rows, e), hash, e.now))
  {
    match e.request
    case Login(_, _, newId, newHash) => NotTaken(rows, j, newId, newHash);
    case Refresh(_, _, _) => UntouchedByRefresh(rows, j, e, id, hash, family, expiresAt);
    case Logout(token) =>
    case Prune => UntouchedByPrune(rows, j, e, now, id, hash, family, expiresAt);
  }

  /** Touching it while it is good makes it useless for ever. */
  lemma TouchedIsUseless(rows: Table, j: Journal, e: Event, now: nat, id: SessionId, hash: Hash, family: FamilyId,
                         expiresAt: nat, t: nat)
    requires Inv(rows, j, now) && now <= e.now && ValidPolicy(e.policy) && Fresh(j, e) && e.now <= t
    requires Open(rows, id, hash, family, expiresAt) && Touches(rows, e, hash, family)
    ensures Useless(Step(rows, e).rows, Note(j, rows, e), hash, t)
  {
    var rows' := Step(rows, e).rows;
    assert Belongs(rows, id, family);
    if e.request.Refresh? {
      TouchedByRefresh(rows, j, e, now, id, hash, family, expiresAt);
    }
    forall i | HoldsHash(rows', i, hash) ensures rows'[i].revokedAt.Some? || rows'[i].expiresAt <= t {
      if e.request.Logout? {
        assert HoldsHash(rows, i, hash);
      }
    }
  }

  lemma TouchedByRefresh(rows: Table, j: Journal, e: Event, now: nat, id: SessionId, hash: Hash, family: FamilyId,
                         expiresAt: nat)
    requires Inv(rows, j, now) && now <= e.now && ValidPolicy(e.policy) && Fresh(j, e) && e.request.Refresh?
    requires Open(rows, id, hash, family, expiresAt) && Touches(rows, e, hash, family)
    ensures var rows' := Step(rows, e).rows;
      forall i :: HoldsHash(rows', i, hash) ==> rows'[i].revokedAt.Some? || rows'[i].expiresAt <= e.now
  {
    var presented := e.request.presented;
    SelectIsMember(rows, j, now, presented);
    var other := Select(rows, presented).value;
    var f := j.families[family];
    assert Belongs(rows, id, family) && Belongs(rows, other, family);
    UnrevokedIsTail(rows, family, f, now, id);
    UnrevokedIsTail(rows, family, f, now, other);
    assert other == id || rows[other].revokedAt.Some?;
    NotTaken(rows, j, e.request.nextId, e.request.nextHash);
    FamilyLifetime(rows, j, e, now);
    var rows' := Step(rows, e).rows;
    forall i | HoldsHash(rows', i, hash) ensures rows'[i].revokedAt.Some? || rows'[i].expiresAt <= e.now {
      assert i in rows ==> HoldsHash(rows, i, hash);
    }
  }

  /** Over every run, a token that is good now is granted later exactly when it is presented before its expiry
      and, in between, was not logged out and no token of its family was presented. */
  lemma {:induction false} AcceptedExactlyWhen(rows: Table, j: Journal, events: seq<Event>, e: Event, now: nat,
                                              id: SessionId, hash: Hash, family: FamilyId, expiresAt: nat)
    requires Inv(rows, j, now) && Orderly(rows, j, events + [e], now)
    requires Open(rows, id, hash, family, expiresAt)
    requires e.request.Refresh? && e.request.presented == hash
    ensures AnswerAt(rows, j, events + [e], |events|).Granted?
       <==> e.now < expiresAt && LeftAlone(rows, j, events, hash, family)
    decreases |events|
  {
    hide Step, Note, Fresh, Useless, Inv, Open, Touches, Orderly;
    var all := events + [e];
    OrderlyTail(rows, j, all, now);
    if events == [] {
      assert all[0] == e;
      AnswerFirst(rows, j, all);
      OpenIsGranted(rows, j, e, now, id, hash, family, expiresAt);
    } else {
      var rows', j' := Step(rows, all[0]).rows, Note(j, rows, all[0]);
      assert all[0] == events[0] && all[1..] == events[1..] + [e];
      AnswerLater(rows, j, all, |events|);
      LaterIsNoEarlier(rows', j', events[1..], e, all[0].now);
      if Touches(rows, all[0], hash, family) {
        TouchedIsUseless(rows, j, all[0], now, id, hash, family, expiresAt, e.now);
        UselessNeverGranted(rows', j', events[1..], e, all[0].now, hash);
      } else {
        UntouchedStays(rows, j, all[0], now, id, hash, family, expiresAt);
        if Open(rows', id, hash, family, expiresAt) {
          AcceptedExactlyWhen(rows', j', events[1..], e, all[0].now, id, hash, family, expiresAt);
        } else {
          UselessLater(rows', j', hash, all[0].now, e.now);
          UselessNeverGranted(rows', j', events[1..], e, all[0].now, hash);
        }
      }
    }
  }

  lemma UselessLater(rows: Table, j: Journal, hash: Hash, t: nat, t': nat)
    requires Useless(rows, j, hash, t) && t <= t'
    ensures Useless(rows, j, hash, t')
  {
  }

  lemma {:induction false} LaterIsNoEarlier(rows: Table, j: Journal, events: seq<Event>, e: Event, now: nat)
    requires Orderly(rows, j, events + [e], now)
    ensures now <= e.now
    decreases |events|
  {
    if events != [] {
      assert (events + [e])[1..] == events[1..] + [e];
      LaterIsNoEarlier(Step(rows, events[0]).rows, Note(j, rows, events[0]), events[1..], e, events[0].now);
    }
  }

  lemma OpenIsGranted(rows: Table, j: Journal, e: Event, now: nat, id: SessionId, hash: Hash, family: FamilyId,
                      expiresAt: nat)
    requires Inv(rows, j, now) && now <= e.now && ValidPolicy(e.policy) && Fresh(j, e)
    requires Open(rows, id, hash, family, expiresAt) && e.request.Refresh? && e.request.presented == hash
    ensures Step(rows, e).answer.Granted? <==> e.now < expiresAt
  {
    GrantedExactlyWhen(rows, e);
    FamilyLifetime(rows, j, e, now);
    NotTaken(rows, j, e.request.nextId, e.request.nextHash);
    assert forall i :: HoldsHash(rows, i, e.request.nextHash) ==> Taken(rows, e.request.nextId, e.request.nextHash);
  }

  ghost function FamilyServed(rows: Table, e: Event): Option<FamilyId> {
    match e.request
    case Login(_, family, _, _) => Some(family)
    case Refresh(presented, _, _) => FamilyOf(rows, presented)
    case _ => None
  }

  /** The token a login or an exchange answers with is accepted exactly while the client was told it would be:
      strictly before the expiry in the answer, unless it was logged out or a token of its family was presented
      in between. */
  lemma AnswerIsHonoured(rows: Table, j: Journal, grant: Event, events: seq<Event>, e: Event, now: nat)
    requires Inv(rows, j, now) && Orderly(rows, j, [grant] + (events + [e]), now)
    requires Step(rows, grant).answer.Granted?
    requires e.request.Refresh? && e.request.presented == Step(rows, grant).answer.tokenHash
    ensures FamilyServed(rows, grant).Some?
    ensures var rows1, j1 := Step(rows, grant).rows, Note(j, rows, grant);
      var answer := Step(rows, grant).answer;
      AnswerAt(rows1, j1, events + [e], |events|).Granted?
      <==> e.now < answer.expiresAt
           && LeftAlone(rows1, j1, events, answer.tokenHash, FamilyServed(rows, grant).value)
  {
    var answer := Step(rows, grant).answer;
    var rows1, j1 := Step(rows, grant).rows, Note(j, rows, grant);
    OrderlyTail(rows, j, [grant] + (events + [e]), now);
    assert ([grant] + (events + [e]))[1..] == events + [e];
    if grant.request.Login? {
      LoginAnswer(rows, j, grant, now);
    } else {
      ExchangeAnswer(rows, j, grant, now);
    }
    hide Step, Note, Inv, Orderly, LeftAlone;
    var family := FamilyServed(rows, grant).value;
    var id :| HoldsHash(rows1, id, answer.tokenHash) && rows1[id].familyId == family
              && rows1[id].revokedAt == None && rows1[id].expiresAt == answer.expiresAt;
    AcceptedExactlyWhen(rows1, j1, events, e, grant.now, id, answer.tokenHash, family, answer.expiresAt);
  }
}
