/** Whole runs of the session table: the rotation chains, single use of tokens, dead families, and the
    absolute lifetime of a family. */
module SessionRuns {
  import opened Options
  import opened Sessions

  datatype Request =
    | Login(userId: UserId, familyId: FamilyId, id: SessionId, hash: Hash)
    | Refresh(presented: Hash, nextId: SessionId, nextHash: Hash)
    | Logout(token: Hash)
    | Prune

  /** `policy` is what the service is configured with at the time; a redeploy may change it. */
  datatype Event = Event(now: nat, request: Request, policy: RefreshPolicy)

  ghost function Step(rows: Table, e: Event): Outcome {
    match e.request
    case Login(user, family, id, hash) => Issue(rows, user, family, id, hash, e.policy, e.now)
    case Refresh(presented, nextId, nextHash) => Rotate(rows, presented, nextId, nextHash, e.policy, e.now)
    case Logout(token) => Outcome(SessionRevoked(rows, token, e.now), Done)
    case Prune => DeleteExpired(rows, e.now)
  }

  // ---- What happened, kept forever ----

  /** A login, the family lifetime it was given, and the sessions granted since, oldest first. */
  datatype Family = Family(userId: UserId, startedAt: nat, lifetime: nat, members: seq<SessionId>)

  /** Every family ever started, and every id and token hash ever supplied by the random source. */
  datatype Journal = Journal(families: map<FamilyId, Family>, ids: set<SessionId>, hashes: set<Hash>)

  const EMPTY_JOURNAL := Journal(map[], {}, {})

  ghost function FamilyOf(rows: Table, hash: Hash): Option<FamilyId> {
    match Select(rows, hash)
    case None => None
    case Some(id) => Some(rows[id].familyId)
  }

  ghost function Note(j: Journal, rows: Table, e: Event): Journal {
    var granted := Step(rows, e).answer.Granted?;
    match e.request
    case Login(user, family, id, hash) =>
      Journal(if granted then j.families[family := Family(user, e.now, e.policy.familyTtl, [id])] else j.families,
              j.ids + {id}, j.hashes + {hash})
    case Refresh(presented, nextId, nextHash) =>
      var family := FamilyOf(rows, presented);
      Journal(
        if granted && family.Some? && family.value in j.families then
          var f := j.families[family.value];
          j.families[family.value := f.(members := f.members + [nextId])]
        else j.families,
        j.ids + {nextId}, j.hashes + {nextHash})
    case _ => j
  }

  /** The random source never repeats an id, a token or a family id. */
  predicate Fresh(j: Journal, e: Event) {
    match e.request
    case Login(_, family, id, hash) => family !in j.families && id !in j.ids && hash !in j.hashes
    case Refresh(_, nextId, nextHash) => nextId !in j.ids && nextHash !in j.hashes
    case _ => true
  }

  // ---- The invariant ----

  ghost predicate Belongs(rows: Table, id: SessionId, family: FamilyId) {
    id in rows && rows[id].familyId == family
  }

  ghost predicate RowOf(s: Session, f: Family, now: nat) {
    && s.userId == f.userId
    && s.familyExpiresAt == f.startedAt + f.lifetime
    && s.expiresAt <= f.startedAt + f.lifetime
  }

  ghost predicate Linked(rows: Table, id: SessionId, next: SessionId) {
    && id in rows && next in rows
    && rows[id].replacedBy == Some(next)
    && rows[id].revokedAt.Some?
  }

  /** The stored rows of `family` are one `replaced_by` chain: the journal's members in order, each but
      the last revoked and naming the next, sharing the user and the family expiry, with expiries that
      never pass the family's. */
  ghost predicate Chain(rows: Table, family: FamilyId, f: Family, now: nat) {
    && |f.members| > 0
    && (forall i, k :: 0 <= i < k < |f.members| ==> f.members[i] != f.members[k])
    && (forall id :: Belongs(rows, id, family) <==> id in f.members)
    && (forall id :: Belongs(rows, id, family) ==> RowOf(rows[id], f, now))
    && (forall i, k :: 0 <= i < |f.members| && k == i + 1 && k < |f.members| ==>
          Linked(rows, f.members[i], f.members[k]))
    && Belongs(rows, f.members[|f.members| - 1], family)
    && rows[f.members[|f.members| - 1]].replacedBy == None
  }

  ghost predicate Gone(rows: Table, family: FamilyId) {
    forall id :: !Belongs(rows, id, family)
  }

  ghost predicate FamilyInv(rows: Table, family: FamilyId, f: Family, now: nat) {
    || Chain(rows, family, f, now)
    || (Gone(rows, family) && f.startedAt + f.lifetime <= now)
  }

  ghost predicate Covered(rows: Table, j: Journal) {
    forall id :: id in rows ==>
      id in j.ids && rows[id].tokenHash in j.hashes && rows[id].familyId in j.families
  }

  ghost predicate Inv(rows: Table, j: Journal, now: nat) {
    && UniqueHashes(rows)
    && Covered(rows, j)
    && (forall f :: f in j.families ==> FamilyInv(rows, f, j.families[f], now))
    && (forall f, id :: f in j.families && id in j.families[f].members ==> id in j.ids)
  }

  lemma SelectIsMember(rows: Table, j: Journal, now: nat, hash: Hash)
    requires Inv(rows, j, now) && Select(rows, hash).Some?
    ensures var id := Select(rows, hash).value;
      && HoldsHash(rows, id, hash)
      && rows[id].familyId in j.families
      && Chain(rows, rows[id].familyId, j.families[rows[id].familyId], now)
      && id in j.families[rows[id].familyId].members
  {
    var id := Select(rows, hash).value;
    assert Belongs(rows, id, rows[id].familyId);
    assert FamilyInv(rows, rows[id].familyId, j.families[rows[id].familyId], now);
  }

  lemma NotTaken(rows: Table, j: Journal, id: SessionId, hash: Hash)
    requires Covered(rows, j) && id !in j.ids && hash !in j.hashes
    ensures !Taken(rows, id, hash)
  {
    forall i ensures !HoldsHash(rows, i, hash) {
    }
  }

  /** A family whose rows are untouched keeps its invariant as time passes. */
  lemma FamilyFramed(rows: Table, rows': Table, family: FamilyId, f: Family,
                     now: nat, now': nat)
    requires FamilyInv(rows, family, f, now) && now <= now'
    requires forall id :: Belongs(rows, id, family) <==> Belongs(rows', id, family)
    requires forall id :: Belongs(rows, id, family) ==> id in rows' && rows[id] == rows'[id]
    ensures FamilyInv(rows', family, f, now')
  {
    if Chain(rows, family, f, now) {
      forall i, k | 0 <= i < |f.members| && k == i + 1 && k < |f.members|
        ensures Linked(rows', f.members[i], f.members[k])
      {
        assert Linked(rows, f.members[i], f.members[k]);
        assert Belongs(rows, f.members[i], family) && Belongs(rows, f.members[k], family);
      }
      assert Chain(rows', family, f, now');
    }
  }

  /** Revoking rows changes no link, owner or expiry. */
  lemma FamilyRevokingFramed(rows: Table, rows': Table, family: FamilyId, f: Family,
                             now: nat, now': nat)
    requires FamilyInv(rows, family, f, now) && now <= now'
    requires rows'.Keys == rows.Keys
    requires forall id :: id in rows ==> rows'[id] == rows[id] || rows'[id] == Revoked(rows[id], now')
    ensures FamilyInv(rows', family, f, now')
  {
    assert forall id :: Belongs(rows, id, family) <==> Belongs(rows', id, family);
    if Chain(rows, family, f, now) {
      forall i, k | 0 <= i < |f.members| && k == i + 1 && k < |f.members|
        ensures Linked(rows', f.members[i], f.members[k])
      {
        assert Linked(rows, f.members[i], f.members[k]);
      }
      assert Chain(rows', family, f, now');
    }
  }

  lemma RevokingKeeps(rows: Table, rows': Table, j: Journal, now: nat, now': nat)
    requires Inv(rows, j, now) && now <= now'
    requires rows'.Keys == rows.Keys
    requires forall id :: id in rows ==> rows'[id] == rows[id] || rows'[id] == Revoked(rows[id], now')
    ensures Inv(rows', j, now')
  {
    forall f | f in j.families ensures FamilyInv(rows', f, j.families[f], now') {
      FamilyRevokingFramed(rows, rows', f, j.families[f], now, now');
    }
  }

  lemma SingletonChain(rows: Table, family: FamilyId, f: Family, now: nat, id: SessionId)
    requires f.members == [id] && (forall i :: Belongs(rows, i, family) <==> i == id)
    requires id in rows && RowOf(rows[id], f, now) && rows[id].replacedBy == None
    ensures Chain(rows, family, f, now)
  {
    assert Belongs(rows, id, family);
  }

  lemma LoginKeeps(rows: Table, j: Journal, e: Event, now: nat)
    requires Inv(rows, j, now) && now <= e.now && ValidPolicy(e.policy)
    requires e.request.Login? && Fresh(j, e)
    ensures Step(rows, e).answer.Granted?
    ensures Inv(Step(rows, e).rows, Note(j, rows, e), e.now)
  {
    var Login(user, family, id, hash) := e.request;
    NotTaken(rows, j, id, hash);
    var rows', j' := Step(rows, e).rows, Note(j, rows, e);
    assert forall i :: i in rows ==> !HoldsHash(rows, i, hash);
    forall f | f in j'.families ensures FamilyInv(rows', f, j'.families[f], e.now) {
      if f == family {
        SingletonChain(rows', family, j'.families[family], e.now, id);
      } else {
        FamilyFramed(rows, rows', f, j.families[f], now, e.now);
      }
    }
  }

  /** Only the tail of a chain can still be unrevoked. */
  lemma UnrevokedIsTail(rows: Table, family: FamilyId, f: Family, now: nat, id: SessionId)
    requires Chain(rows, family, f, now) && Belongs(rows, id, family)
    ensures id != f.members[|f.members| - 1] ==> rows[id].revokedAt.Some? && rows[id].replacedBy.Some?
  {
    var i :| 0 <= i < |f.members| && f.members[i] == id;
    if i < |f.members| - 1 {
      var k := i + 1;
      assert Linked(rows, f.members[i], f.members[k]);
    }
  }

  /** The table after a successful exchange of the tail `id`. */
  ghost predicate Exchanged(rows: Table, rows': Table, id: SessionId, nextId: SessionId, now': nat) {
    && id in rows && nextId !in rows && nextId in rows'
    && rows' == rows[nextId := rows'[nextId]][id := rows[id].(revokedAt := Some(now'), replacedBy := Some(nextId))]
    && rows'[nextId].familyId == rows[id].familyId
    && rows'[nextId].replacedBy == None
  }

  lemma LinksExtend(rows: Table, rows': Table, family: FamilyId, f: Family,
                    now: nat, now': nat, id: SessionId, nextId: SessionId, i: nat)
    requires Chain(rows, family, f, now) && id == f.members[|f.members| - 1]
    requires Exchanged(rows, rows', id, nextId, now')
    requires i < |f.members|
    ensures Linked(rows', f.members[i], (f.members + [nextId])[i + 1])
  {
    if i < |f.members| - 1 {
      var k := i + 1;
      assert Linked(rows, f.members[i], f.members[k]);
    }
  }

  lemma ChainExtends(rows: Table, rows': Table, family: FamilyId, f: Family,
                     now: nat, now': nat, id: SessionId, nextId: SessionId)
    requires Chain(rows, family, f, now) && now <= now'
    requires Exchanged(rows, rows', id, nextId, now') && rows[id].revokedAt == None && rows[id].familyId == family
    requires RowOf(rows'[nextId], f, now')
    ensures id == f.members[|f.members| - 1]
    ensures Chain(rows', family, f.(members := f.members + [nextId]), now')
  {
    assert Belongs(rows, id, family);
    UnrevokedIsTail(rows, family, f, now, id);
    var m := f.members + [nextId];
    forall i ensures Belongs(rows', i, family) <==> i in m {
      assert Belongs(rows, i, family) <==> i in f.members;
    }
    forall i | Belongs(rows', i, family) ensures RowOf(rows'[i], f, now') {
      assert i != nextId ==> Belongs(rows, i, family);
    }
    forall i, k | 0 <= i < |m| && k == i + 1 && k < |m| ensures Linked(rows', m[i], m[k]) {
      LinksExtend(rows, rows', family, f, now, now', id, nextId, i);
    }
    assert forall i :: 0 <= i < |f.members| ==> m[i] == f.members[i] && Belongs(rows, f.members[i], family);
    assert m[|m| - 1] == nextId;
  }

  lemma GrantIsExchange(rows: Table, j: Journal, e: Event, now: nat)
    requires Inv(rows, j, now) && now <= e.now && ValidPolicy(e.policy)
    requires e.request.Refresh? && Fresh(j, e) && Step(rows, e).answer.Granted?
    ensures Select(rows, e.request.presented).Some?
    ensures var id := Select(rows, e.request.presented).value;
      var nextId, nextHash, rows' := e.request.nextId, e.request.nextHash, Step(rows, e).rows;
      && Exchanged(rows, rows', id, nextId, e.now)
      && rows[id].revokedAt == None && rows[id].familyId in j.families
      && rows'[nextId].tokenHash == nextHash && nextHash !in j.hashes && nextId !in j.ids
     
      && var family := rows[id].familyId; var f := j.families[family];
         && Chain(rows, family, f, now)
         && RowOf(rows'[nextId], f, e.now)
         && Note(j, rows, e)
              == Journal(j.families[family := f.(members := f.members + [nextId])], j.ids + {nextId},
                         j.hashes + {nextHash})
  {
    SelectIsMember(rows, j, now, e.request.presented);
    var id := Select(rows, e.request.presented).value;
    assert Belongs(rows, id, rows[id].familyId);
  }

  lemma ExchangeCovered(rows: Table, rows': Table, j: Journal, j': Journal, now': nat, id: SessionId, nextId: SessionId)
    requires UniqueHashes(rows) && Covered(rows, j) && Exchanged(rows, rows', id, nextId, now')
    requires rows'[nextId].tokenHash !in j.hashes
    requires j'.ids == j.ids + {nextId} && j'.hashes == j.hashes + {rows'[nextId].tokenHash}
    requires j.families.Keys <= j'.families.Keys
    ensures UniqueHashes(rows') && Covered(rows', j')
  {
  }

  /** A family other than the one extended. */
  lemma ExchangeElsewhere(rows: Table, rows': Table, family: FamilyId, f: Family,
                          now: nat, now': nat, id: SessionId, nextId: SessionId)
    requires FamilyInv(rows, family, f, now) && now <= now'
    requires Exchanged(rows, rows', id, nextId, now') && rows[id].familyId != family
    ensures FamilyInv(rows', family, f, now')
  {
    hide FamilyInv;
    FamilyFramed(rows, rows', family, f, now, now');
  }

  lemma ExchangeKeeps(rows: Table, rows': Table, j: Journal, now: nat, now': nat,
                      id: SessionId, nextId: SessionId)
    requires Inv(rows, j, now) && now <= now'
    requires Exchanged(rows, rows', id, nextId, now')
    requires rows[id].revokedAt == None && rows[id].familyId in j.families
    requires rows'[nextId].tokenHash !in j.hashes && nextId !in j.ids
    requires Chain(rows, rows[id].familyId, j.families[rows[id].familyId], now)
    requires RowOf(rows'[nextId], j.families[rows[id].familyId], now')
    ensures var family := rows[id].familyId; var f := j.families[family];
      Inv(rows', Journal(j.families[family := f.(members := f.members + [nextId])],
                         j.ids + {nextId}, j.hashes + {rows'[nextId].tokenHash}), now')
  {
    var family := rows[id].familyId;
    var f0 := j.families[family];
    var j' := Journal(j.families[family := f0.(members := f0.members + [nextId])],
                      j.ids + {nextId}, j.hashes + {rows'[nextId].tokenHash});
    ChainExtends(rows, rows', family, f0, now, now', id, nextId);
    ExchangeCovered(rows, rows', j, j', now', id, nextId);
    hide Chain, Exchanged, UniqueHashes, Covered;
    forall f | f in j'.families ensures FamilyInv(rows', f, j'.families[f], now') {
      if f != family {
        ExchangeElsewhere(rows, rows', f, j.families[f], now, now', id, nextId);
      }
    }
  }

  lemma RefreshKeeps(rows: Table, j: Journal, e: Event, now: nat)
    requires Inv(rows, j, now) && now <= e.now && ValidPolicy(e.policy)
    requires e.request.Refresh? && Fresh(j, e)
    ensures Inv(Step(rows, e).rows, Note(j, rows, e), e.now)
  {
    hide Chain;
    var Refresh(presented, nextId, nextHash) := e.request;
    NotTaken(rows, j, nextId, nextHash);
    var out := Step(rows, e);
    if !out.answer.Granted? {
      RevokingKeeps(rows, out.rows, j, now, e.now);
    } else {
      GrantIsExchange(rows, j, e, now);
      var id := Select(rows, presented).value;
      ExchangeKeeps(rows, out.rows, j, now, e.now, id, nextId);
    }
  }

  /** All rows of a family expire together, so pruning removes whole families and never leaves a
      dangling reference. */
  lemma PruneKeeps(rows: Table, j: Journal, now: nat, now': nat)
    requires Inv(rows, j, now) && now <= now'
    ensures DeleteExpired(rows, now').answer == Done
    ensures Inv(DeleteExpired(rows, now').rows, j, now')
  {
    var kept := Unexpired(rows, now');
    forall id | id in kept && kept[id].replacedBy.Some? ensures kept[id].replacedBy.value in kept {
      var family := rows[id].familyId;
      var f := j.families[family];
      assert Belongs(rows, id, family);
      assert FamilyInv(rows, family, f, now);
      var k :| 0 <= k < |f.members| && f.members[k] == id;
      var k1 := k + 1;
      assert Linked(rows, f.members[k], f.members[k1]);
      assert Belongs(rows, f.members[k1], family);
    }
    forall f | f in j.families ensures FamilyInv(kept, f, j.families[f], now') {
      var family := j.families[f];
      assert FamilyInv(rows, f, family, now);
      if family.startedAt + family.lifetime <= now' {
        forall id ensures !Belongs(kept, id, f) {
          assert Belongs(kept, id, f) ==> Belongs(rows, id, f);
        }
      } else {
        forall id ensures Belongs(kept, id, f) <==> Belongs(rows, id, f) {
          assert Belongs(rows, id, f) <==> id in family.members;
        }
        FamilyFramed(rows, kept, f, family, now, now');
      }
    }
  }

  lemma StepKeeps(rows: Table, j: Journal, e: Event, now: nat)
    requires Inv(rows, j, now) && now <= e.now && ValidPolicy(e.policy) && Fresh(j, e)
    ensures Inv(Step(rows, e).rows, Note(j, rows, e), e.now)
  {
    match e.request
    case Login(_, _, _, _) => LoginKeeps(rows, j, e, now);
    case Refresh(_, _, _) => RefreshKeeps(rows, j, e, now);
    case Logout(token) => RevokingKeeps(rows, SessionRevoked(rows, token, e.now), j, now, e.now);
    case Prune => PruneKeeps(rows, j, now, e.now);
  }

  // ---- Runs ----

  /** Time never runs backwards and the random source stays fresh. */
  ghost predicate Orderly(rows: Table, j: Journal, events: seq<Event>, now: nat)
    decreases |events|
  {
    events == [] ||
    (&& now <= events[0].now && ValidPolicy(events[0].policy)
     && Fresh(j, events[0])
     && Orderly(Step(rows, events[0]).rows, Note(j, rows, events[0]), events[1..], events[0].now))
  }

  ghost function After(rows: Table, j: Journal, events: seq<Event>): (Table, Journal)
    decreases |events|
  {
    if events == [] then (rows, j)
    else After(Step(rows, events[0]).rows, Note(j, rows, events[0]), events[1..])
  }

  function LastTime(events: seq<Event>, now: nat): nat {
    if events == [] then now else events[|events| - 1].now
  }

  /** Every reachable table is made of rotation chains. */
  lemma {:induction false} RunKeeps(rows: Table, j: Journal, events: seq<Event>, now: nat)
    requires Inv(rows, j, now) && Orderly(rows, j, events, now)
    ensures var (rows', j') := After(rows, j, events);
      Inv(rows', j', LastTime(events, now))
    decreases |events|
  {
    if events != [] {
      StepKeeps(rows, j, events[0], now);
      RunKeeps(Step(rows, events[0]).rows, Note(j, rows, events[0]), events[1..], events[0].now);
    }
  }

  lemma ReachableTablesAreChains(events: seq<Event>)
    requires Orderly(map[], EMPTY_JOURNAL, events, 0)
    ensures var (rows, j) := After(map[], EMPTY_JOURNAL, events);
      Inv(rows, j, LastTime(events, 0))
  {
    RunKeeps(map[], EMPTY_JOURNAL, events, 0);
  }

  lemma SeqSetSize(s: seq<SessionId>, t: set<SessionId>)
    requires forall i, k :: 0 <= i < k < |s| ==> s[i] != s[k]
    requires forall id :: id in t <==> id in s
    ensures |t| == |s|
  {
    if s != [] {
      var init := s[..|s| - 1];
      var last := s[|s| - 1];
      assert s == init + [last];
      SeqSetSize(init, t - {last});
    } else {
      assert t == {};
    }
  }

  /** What the invariant says of one family, in terms of its rows alone: at most one row is unrevoked,
      exactly one names no successor, and there is one row more than the rotations that succeeded. */
  lemma FamilyShape(rows: Table, j: Journal, now: nat, family: FamilyId)
    requires Inv(rows, j, now) && family in j.families && !Gone(rows, family)
    ensures var tail := j.families[family].members[|j.families[family].members| - 1];
      && Belongs(rows, tail, family)
      && (forall id :: Belongs(rows, id, family) && rows[id].revokedAt == None ==> id == tail)
      && (forall id :: Belongs(rows, id, family) ==> (rows[id].replacedBy == None <==> id == tail))
      && |set id | id in rows && Belongs(rows, id, family)| == |j.families[family].members|
  {
    var f := j.families[family];
    assert FamilyInv(rows, family, f, now);
    forall id | Belongs(rows, id, family)
      ensures id != f.members[|f.members| - 1] ==> rows[id].replacedBy.Some? && rows[id].revokedAt.Some?
    {
      UnrevokedIsTail(rows, family, f, now, id);
    }
    SeqSetSize(f.members, set id | id in rows && Belongs(rows, id, family));
  }

  // ---- Rows are exchanges ----

  /** How many tokens of `family` the run exchanges. */
  ghost function Exchanges(rows: Table, j: Journal, events: seq<Event>, family: FamilyId): nat
    decreases |events|
  {
    if events == [] then 0
    else
      var e := events[0];
      (if e.request.Refresh? && Step(rows, e).answer.Granted? && FamilyOf(rows, e.request.presented) == Some(family)
       then 1 else 0)
      + Exchanges(Step(rows, e).rows, Note(j, rows, e), events[1..], family)
  }

  lemma StepMembers(rows: Table, j: Journal, e: Event, now: nat, family: FamilyId)
    requires Inv(rows, j, now) && Fresh(j, e) && family in j.families
    ensures family in Note(j, rows, e).families
    ensures |Note(j, rows, e).families[family].members| == |j.families[family].members|
      + if e.request.Refresh? && Step(rows, e).answer.Granted? && FamilyOf(rows, e.request.presented) == Some(family)
        then 1 else 0
  {
    hide Step;
    if e.request.Refresh? && Step(rows, e).answer.Granted? {
      GrantExtendsFamily(rows, j, e, now);
    }
  }

  lemma {:induction false} MembersAreExchanges(rows: Table, j: Journal, events: seq<Event>, now: nat, family: FamilyId)
    requires Inv(rows, j, now) && Orderly(rows, j, events, now) && family in j.families
    ensures var (rows', j') := After(rows, j, events);
      && family in j'.families
      && |j'.families[family].members| == |j.families[family].members| + Exchanges(rows, j, events, family)
    decreases |events|
  {
    if events != [] {
      hide Step, Note, Inv, Fresh;
      OrderlyTail(rows, j, events, now);
      StepMembers(rows, j, events[0], now, family);
      MembersAreExchanges(Step(rows, events[0]).rows, Note(j, rows, events[0]), events[1..], events[0].now, family);
    }
  }

  /** From a login on, over every run and until it is pruned, the family has one row more than the exchanges
      that succeeded. */
  lemma OneRowMoreThanExchanges(rows: Table, j: Journal, login: Event, events: seq<Event>, now: nat)
    requires Inv(rows, j, now) && login.request.Login? && Orderly(rows, j, [login] + events, now)
    ensures var family := login.request.familyId;
      var rows1, j1 := Step(rows, login).rows, Note(j, rows, login);
      var rows' := After(rows1, j1, events).0;
      !Gone(rows', family) ==>
        |set id | id in rows' && Belongs(rows', id, family)| == 1 + Exchanges(rows1, j1, events, family)
  {
    hide Step, Note, Inv, Gone, Orderly;
    var family := login.request.familyId;
    OrderlyTail(rows, j, [login] + events, now);
    assert ([login] + events)[1..] == events;
    var rows1, j1 := Step(rows, login).rows, Note(j, rows, login);
    LoginStarts(rows, j, login, now);
    MembersAreExchanges(rows1, j1, events, login.now, family);
    RunKeeps(rows1, j1, events, login.now);
    var (rows', j') := After(rows1, j1, events);
    if !Gone(rows', family) {
      FamilyShape(rows', j', LastTime(events, login.now), family);
    }
  }

  lemma LoginStarts(rows: Table, j: Journal, e: Event, now: nat)
    requires Inv(rows, j, now) && now <= e.now && ValidPolicy(e.policy) && e.request.Login? && Fresh(j, e)
    ensures var families := Note(j, rows, e).families;
      e.request.familyId in families && |families[e.request.familyId].members| == 1
  {
    LoginKeeps(rows, j, e, now);
  }

  // ---- A token is exchanged at most once ----

  /** `hash` was issued and no row that could still hold it is unrevoked. */
  ghost predicate Spent(rows: Table, j: Journal, hash: Hash) {
    hash in j.hashes && forall id :: HoldsHash(rows, id, hash) ==> rows[id].revokedAt.Some?
  }

  lemma ExchangeSpends(rows: Table, j: Journal, e: Event, now: nat)
    requires Inv(rows, j, now) && e.request.Refresh? && Fresh(j, e)
    requires Step(rows, e).answer.Granted?
    ensures Spent(Step(rows, e).rows, Note(j, rows, e), e.request.presented)
  {
    SelectIsMember(rows, j, now, e.request.presented);
  }

  lemma SpentStays(rows: Table, j: Journal, e: Event, hash: Hash)
    requires UniqueHashes(rows) && Spent(rows, j, hash) && Fresh(j, e)
    ensures Spent(Step(rows, e).rows, Note(j, rows, e), hash)
    ensures e.request.Refresh? && e.request.presented == hash ==> !Step(rows, e).answer.Granted?
  {
    var rows' := Step(rows, e).rows;
    if e.request.Refresh? && Select(rows, e.request.presented).Some? {
      assert HoldsHash(rows, Select(rows, e.request.presented).value, e.request.presented);
    }
    forall id | HoldsHash(rows', id, hash) ensures rows'[id].revokedAt.Some? {
      assert id in rows ==> HoldsHash(rows, id, hash);
    }
  }

  ghost function AnswerAt(rows: Table, j: Journal, events: seq<Event>, i: nat): Answer
    requires i < |events|
    decreases |events|
  {
    if i == 0 then Step(rows, events[0]).answer
    else AnswerAt(Step(rows, events[0]).rows, Note(j, rows, events[0]), events[1..], i - 1)
  }

  lemma {:induction false} SpentNeverGranted(rows: Table, j: Journal, events: seq<Event>,
                                            now: nat, hash: Hash, i: nat)
    requires Inv(rows, j, now) && Orderly(rows, j, events, now)
    requires Spent(rows, j, hash) && i < |events|
    requires events[i].request.Refresh? && events[i].request.presented == hash
    ensures !AnswerAt(rows, j, events, i).Granted?
    decreases |events|
  {
    StepKeeps(rows, j, events[0], now);
    SpentStays(rows, j, events[0], hash);
    if i > 0 {
      SpentNeverGranted(Step(rows, events[0]).rows, Note(j, rows, events[0]), events[1..], events[0].now, hash, i - 1);
    }
  }

  lemma AnswerLater(rows: Table, j: Journal, events: seq<Event>, i: nat)
    requires 0 < i < |events|
    ensures AnswerAt(rows, j, events, i)
      == AnswerAt(Step(rows, events[0]).rows, Note(j, rows, events[0]), events[1..], i - 1)
  {
  }

  lemma OrderlyTail(rows: Table, j: Journal, events: seq<Event>, now: nat)
    requires Inv(rows, j, now)
    requires events != [] && Orderly(rows, j, events, now)
    ensures var rows', j' := Step(rows, events[0]).rows, Note(j, rows, events[0]);
      && Fresh(j, events[0]) && now <= events[0].now && ValidPolicy(events[0].policy)
      && Inv(rows', j', events[0].now)
      && Orderly(rows', j', events[1..], events[0].now)
  {
    StepKeeps(rows, j, events[0], now);
  }

  /** Over every run, no token is exchanged successfully twice. */
  lemma {:induction false} ExchangedAtMostOnce(rows: Table, j: Journal, events: seq<Event>,
                                              now: nat, i: nat, k: nat)
    requires Inv(rows, j, now) && Orderly(rows, j, events, now)
    requires i < k < |events| && events[i].request.Refresh? && events[k].request.Refresh?
    requires events[i].request.presented == events[k].request.presented
    requires AnswerAt(rows, j, events, i).Granted?
    ensures !AnswerAt(rows, j, events, k).Granted?
    decreases |events|
  {
    hide Step, Note;
    OrderlyTail(rows, j, events, now);
    AnswerLater(rows, j, events, k);
    if i == 0 {
      ExchangeSpends(rows, j, events[0], now);
      SpentNeverGranted(Step(rows, events[0]).rows, Note(j, rows, events[0]), events[1..],
                        events[0].now, events[0].request.presented, k - 1);
    } else {
      AnswerLater(rows, j, events, i);
      ExchangedAtMostOnce(Step(rows, events[0]).rows, Note(j, rows, events[0]), events[1..], events[0].now, i - 1,
                          k - 1);
    }
  }

  // ---- A replay kills its family for good ----

  ghost predicate DeadFamily(rows: Table, family: FamilyId) {
    forall id :: Belongs(rows, id, family) ==> rows[id].revokedAt.Some?
  }

  /** Presenting any stored revoked token, whatever its expiry, revokes its whole family. */
  lemma ReplayKillsFamily(rows: Table, e: Event, id: SessionId)
    requires UniqueHashes(rows) && e.request.Refresh?
    requires HoldsHash(rows, id, e.request.presented) && rows[id].revokedAt.Some?
    ensures Step(rows, e).answer == Unauthorized
    ensures DeadFamily(Step(rows, e).rows, rows[id].familyId)
  {
    SelectFinds(rows, id, e.request.presented);
    var rows' := Step(rows, e).rows;
    forall i | Belongs(rows', i, rows[id].familyId) ensures rows'[i].revokedAt.Some? {
      assert Belongs(rows, i, rows[id].familyId);
    }
  }

  lemma RefreshOfDeadFails(rows: Table, e: Event, family: FamilyId)
    requires e.request.Refresh? && Select(rows, e.request.presented).Some?
    requires DeadFamily(rows, family)
    ensures DeadFamily(Step(rows, e).rows, family)
    ensures FamilyOf(rows, e.request.presented) == Some(family) ==> Step(rows, e).answer == Unauthorized
  {
    var id := Select(rows, e.request.presented).value;
    assert HoldsHash(rows, id, e.request.presented);
    assert rows[id].familyId == family ==> Belongs(rows, id, family);
    var rows' := Step(rows, e).rows;
    forall i | Belongs(rows', i, family) ensures rows'[i].revokedAt.Some? {
      assert i in rows ==> Belongs(rows, i, family);
    }
  }

  lemma DeadStays(rows: Table, j: Journal, e: Event, now: nat, family: FamilyId)
    requires Inv(rows, j, now) && Fresh(j, e)
    requires family in j.families && DeadFamily(rows, family)
    ensures DeadFamily(Step(rows, e).rows, family)
    ensures family in Note(j, rows, e).families
    ensures Note(j, rows, e).families[family] == j.families[family]
  {
    match e.request
    case Refresh(presented, _, _) =>
      if Select(rows, presented).Some? {
        RefreshOfDeadFails(rows, e, family);
      }
    case _ =>
  }

  /** A granted exchange always extends the family of the token presented, so a family that gains no
      member has no successful exchange. */
  lemma GrantExtendsFamily(rows: Table, j: Journal, e: Event, now: nat)
    requires Inv(rows, j, now) && e.request.Refresh? && Step(rows, e).answer.Granted?
    ensures FamilyOf(rows, e.request.presented).Some?
    ensures var family := FamilyOf(rows, e.request.presented).value;
      && family in j.families
      && Note(j, rows, e).families[family].members == j.families[family].members + [e.request.nextId]
  {
    SelectIsMember(rows, j, now, e.request.presented);
  }

  /** No token of a dead family ever succeeds again, in any continuation of the run. */
  lemma {:induction false} DeadFamilyIsFrozen(rows: Table, j: Journal, events: seq<Event>,
                                             now: nat, family: FamilyId)
    requires Inv(rows, j, now) && Orderly(rows, j, events, now)
    requires family in j.families && DeadFamily(rows, family)
    ensures var (rows', j') := After(rows, j, events);
      && DeadFamily(rows', family)
      && family in j'.families && j'.families[family] == j.families[family]
    decreases |events|
  {
    if events != [] {
      StepKeeps(rows, j, events[0], now);
      DeadStays(rows, j, events[0], now, family);
      DeadFamilyIsFrozen(Step(rows, events[0]).rows, Note(j, rows, events[0]), events[1..], events[0].now, family);
    }
  }

  /** A request for a token of a dead family is refused, however far into the run it comes. */
  lemma {:induction false} DeadFamilyNeverGrants(rows: Table, j: Journal, events: seq<Event>,
                                                now: nat, family: FamilyId, i: nat)
    requires Inv(rows, j, now) && Orderly(rows, j, events, now)
    requires family in j.families && DeadFamily(rows, family)
    requires i < |events| && events[i].request.Refresh?
    requires FamilyOf(After(rows, j, events[..i]).0, events[i].request.presented) == Some(family)
    ensures AnswerAt(rows, j, events, i) == Unauthorized
    decreases |events|
  {
    hide Step, Note, FamilyOf, DeadFamily;
    OrderlyTail(rows, j, events, now);
    DeadStays(rows, j, events[0], now, family);
    if i == 0 {
      assert events[..0] == [];
      assert FamilyOf(rows, events[0].request.presented).Some?;
      FamilyOfFinds(rows, events[0].request.presented);
      RefreshOfDeadFails(rows, events[0], family);
    } else {
      assert events[..i][0] == events[0] && events[..i][1..] == events[1..][..i - 1];
      AnswerLater(rows, j, events, i);
      DeadFamilyNeverGrants(Step(rows, events[0]).rows, Note(j, rows, events[0]), events[1..], events[0].now, family,
                            i - 1);
    }
  }

  lemma FamilyOfFinds(rows: Table, hash: Hash)
    requires FamilyOf(rows, hash).Some?
    ensures Select(rows, hash).Some?
  {
  }

  /** Once a revoked token still stored is presented, whatever its expiry, no token of that family ever
      succeeds again. */
  lemma ReplayEndsFamily(rows: Table, j: Journal, replay: Event, events: seq<Event>,
                         now: nat, id: SessionId, i: nat)
    requires Inv(rows, j, now)
    requires Orderly(rows, j, [replay] + events, now)
    requires replay.request.Refresh? && HoldsHash(rows, id, replay.request.presented) && rows[id].revokedAt.Some?
    ensures Step(rows, replay).answer == Unauthorized
    ensures var rows', j' := Step(rows, replay).rows, Note(j, rows, replay);
      i < |events| && events[i].request.Refresh?
      && FamilyOf(After(rows', j', events[..i]).0, events[i].request.presented) == Some(rows[id].familyId)
      ==> AnswerAt(rows', j', events, i) == Unauthorized
  {
    hide Step, Note, FamilyOf, DeadFamily, Inv;
    var family := rows[id].familyId;
    var rows', j' := Step(rows, replay).rows, Note(j, rows, replay);
    ReplayedFamilyIsKnown(rows, j, replay, now, id);
    ReplayKillsFamily(rows, replay, id);
    OrderlyTail(rows, j, [replay] + events, now);
    assert ([replay] + events)[1..] == events;
    if i < |events| && events[i].request.Refresh?
       && FamilyOf(After(rows', j', events[..i]).0, events[i].request.presented) == Some(family) {
      DeadFamilyNeverGrants(rows', j', events, replay.now, family, i);
    }
  }

  lemma ReplayedFamilyIsKnown(rows: Table, j: Journal, e: Event, now: nat, id: SessionId)
    requires Inv(rows, j, now) && id in rows && e.request.Refresh?
    ensures UniqueHashes(rows) && rows[id].familyId in Note(j, rows, e).families
  {
  }

  /** A revocation, once recorded, is never rewritten, and neither is the successor it names. */
  lemma RevocationIsSticky(rows: Table, e: Event, id: SessionId)
    requires UniqueHashes(rows) && id in rows && rows[id].revokedAt.Some?
    ensures var rows' := Step(rows, e).rows;
      id in rows' ==> rows'[id] == rows[id]
  {
    if e.request.Refresh? && Select(rows, e.request.presented).Some? {
      assert HoldsHash(rows, Select(rows, e.request.presented).value, e.request.presented);
    }
  }

  // ---- Absolute lifetime ----

  /** In a reachable table the family test never decides alone, and every successful exchange happens
      strictly before the family's absolute end and yields a token that ends no later. */
  lemma FamilyLifetime(rows: Table, j: Journal, e: Event, now: nat)
    requires Inv(rows, j, now) && now <= e.now && ValidPolicy(e.policy) && Fresh(j, e)
    ensures forall id :: id in rows && rows[id].familyExpiresAt <= e.now ==> rows[id].expiresAt <= e.now
    ensures e.request.Refresh? && Step(rows, e).answer.Granted? ==>
      && FamilyOf(rows, e.request.presented).Some?
      && FamilyOf(rows, e.request.presented).value in j.families
      && var f := j.families[FamilyOf(rows, e.request.presented).value];
         var id := Select(rows, e.request.presented).value;
         var answer := Step(rows, e).answer;
         && e.now < f.startedAt + f.lifetime
         && answer.expiresAt <= f.startedAt + f.lifetime
         && (rows[id].expiresAt <= answer.expiresAt <==> rows[id].expiresAt <= e.now + e.policy.tokenTtl)
         && answer.userId == f.userId
  {
    forall id | id in rows && rows[id].familyExpiresAt <= e.now ensures rows[id].expiresAt <= e.now {
      var family := rows[id].familyId;
      assert Belongs(rows, id, family);
      assert FamilyInv(rows, family, j.families[family], now);
    }
    if e.request.Refresh? && Step(rows, e).answer.Granted? {
      SelectIsMember(rows, j, now, e.request.presented);
    }
  }

  /** No token was given more than `ttl` from now, and each successor outlives the token it replaced. */
  ghost predicate Ascending(rows: Table, ttl: nat, now: nat) {
    && (forall id :: id in rows ==> rows[id].expiresAt <= now + ttl)
    && (forall id :: id in rows && rows[id].replacedBy.Some? ==>
          rows[id].replacedBy.value in rows
          && rows[id].expiresAt <= rows[rows[id].replacedBy.value].expiresAt)
  }

  lemma RevokingAscends(rows: Table, rows': Table, ttl: nat, ttl': nat, now: nat, now': nat)
    requires Ascending(rows, ttl, now) && now + ttl <= now' + ttl'
    requires rows'.Keys == rows.Keys
    requires forall id :: id in rows ==> rows'[id] == rows[id] || rows'[id] == Revoked(rows[id], now')
    ensures Ascending(rows', ttl', now')
  {
  }

  lemma PruningAscends(rows: Table, ttl: nat, ttl': nat, now: nat, now': nat)
    requires Ascending(rows, ttl, now) && now + ttl <= now' + ttl'
    requires DeleteExpired(rows, now').answer == Done
    ensures Ascending(DeleteExpired(rows, now').rows, ttl', now')
  {
  }

  lemma ExchangeAscends(rows: Table, rows': Table, id: SessionId, nextId: SessionId, ttl: nat, ttl': nat, now: nat,
                        now': nat)
    requires Ascending(rows, ttl, now) && now + ttl <= now' + ttl'
    requires Exchanged(rows, rows', id, nextId, now')
    requires rows[id].expiresAt <= rows'[nextId].expiresAt <= now' + ttl'
    ensures Ascending(rows', ttl', now')
  {
  }

  lemma LoginAscends(rows: Table, j: Journal, e: Event, now: nat, ttl: nat)
    requires Inv(rows, j, now) && now <= e.now && e.request.Login? && Fresh(j, e)
    requires Ascending(rows, ttl, now) && ttl <= e.policy.tokenTtl
    ensures Ascending(Step(rows, e).rows, e.policy.tokenTtl, e.now)
  {
    NotTaken(rows, j, e.request.id, e.request.hash);
  }

  lemma GrantExpiry(rows: Table, e: Event)
    requires e.request.Refresh? && Step(rows, e).answer.Granted?
    ensures e.request.nextId in Step(rows, e).rows
    ensures Select(rows, e.request.presented) != Some(e.request.nextId) ==>
      Step(rows, e).rows[e.request.nextId].expiresAt == Step(rows, e).answer.expiresAt <= e.now + e.policy.tokenTtl
  {
  }

  lemma StepAscends(rows: Table, j: Journal, e: Event, now: nat, ttl: nat)
    requires Inv(rows, j, now) && now <= e.now && ValidPolicy(e.policy) && Fresh(j, e)
    requires Ascending(rows, ttl, now) && ttl <= e.policy.tokenTtl
    ensures Ascending(Step(rows, e).rows, e.policy.tokenTtl, e.now)
  {
    var rows', ttl' := Step(rows, e).rows, e.policy.tokenTtl;
    match e.request
    case Login(_, _, _, _) => LoginAscends(rows, j, e, now, ttl);
    case Refresh(presented, nextId, _) =>
      if Step(rows, e).answer.Granted? {
        GrantIsExchange(rows, j, e, now);
        FamilyLifetime(rows, j, e, now);
        GrantExpiry(rows, e);
        hide Step, Note, Inv, Chain, Ascending;
        var id := Select(rows, presented).value;
        TokenWithin(rows, id, ttl, now);
        ExchangeAscends(rows, rows', id, nextId, ttl, ttl', now, e.now);
      } else {
        RevokingAscends(rows, rows', ttl, ttl', now, e.now);
      }
    case Logout(_) => RevokingAscends(rows, rows', ttl, ttl', now, e.now);
    case Prune =>
      PruneKeeps(rows, j, now, e.now);
      PruningAscends(rows, ttl, ttl', now, e.now);
  }

  lemma TokenWithin(rows: Table, id: SessionId, ttl: nat, now: nat)
    requires Ascending(rows, ttl, now) && id in rows
    ensures rows[id].expiresAt <= now + ttl
  {
  }

  /** The configured token lifetime starts no lower than `ttl` and is never lowered. */
  predicate NeverLowered(events: seq<Event>, ttl: nat) {
    events == [] || (ttl <= events[0].policy.tokenTtl && NeverLowered(events[1..], events[0].policy.tokenTtl))
  }

  function LastTtl(events: seq<Event>, ttl: nat): nat {
    if events == [] then ttl else events[|events| - 1].policy.tokenTtl
  }

  lemma TailOfRun(rows: Table, j: Journal, events: seq<Event>, now: nat, ttl: nat)
    requires events != [] && NeverLowered(events, ttl)
    ensures ttl <= events[0].policy.tokenTtl && NeverLowered(events[1..], events[0].policy.tokenTtl)
    ensures After(rows, j, events) == After(Step(rows, events[0]).rows, Note(j, rows, events[0]), events[1..])
    ensures LastTime(events, now) == LastTime(events[1..], events[0].now)
    ensures LastTtl(events, ttl) == LastTtl(events[1..], events[0].policy.tokenTtl)
  {
  }

  /** While the token lifetime is not lowered, expiries never decrease along a chain. */
  lemma {:induction false} ExpiriesAscend(rows: Table, j: Journal, events: seq<Event>, now: nat, ttl: nat)
    requires Inv(rows, j, now) && Orderly(rows, j, events, now)
    requires Ascending(rows, ttl, now) && NeverLowered(events, ttl)
    ensures Ascending(After(rows, j, events).0, LastTtl(events, ttl), LastTime(events, now))
    decreases |events|
  {
    if events != [] {
      hide *;
      OrderlyTail(rows, j, events, now);
      TailOfRun(rows, j, events, now, ttl);
      StepAscends(rows, j, events[0], now, ttl);
      ExpiriesAscend(Step(rows, events[0]).rows, Note(j, rows, events[0]), events[1..], events[0].now,
                     events[0].policy.tokenTtl);
    }
  }
}
