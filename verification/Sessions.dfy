/** The `auth_sessions` table and the four transactions that change it.
    A refresh token is identified with its hash; times are whole seconds of one clock. */
module Sessions {
  import opened Options

  type SessionId = nat
  type UserId = nat
  type FamilyId = nat
  type Hash = nat

  datatype Session = Session(
    userId: UserId,
    familyId: FamilyId,
    tokenHash: Hash,
    expiresAt: nat,
    familyExpiresAt: nat,
    revokedAt: Option<nat>,
    replacedBy: Option<SessionId>)

  /** Rows by primary key. */
  type Table = map<SessionId, Session>

  datatype RefreshPolicy = RefreshPolicy(tokenTtl: nat, familyTtl: nat)

  /** What startup validation guarantees of the two lifetimes. */
  predicate ValidPolicy(policy: RefreshPolicy) {
    0 < policy.tokenTtl <= policy.familyTtl
  }

  datatype Answer =
    | Granted(userId: UserId, tokenHash: Hash, expiresAt: nat)
    | Unauthorized
    | Done
    | DatabaseError

  datatype Outcome = Outcome(rows: Table, answer: Answer)

  // ---- Rows and statements ----

  /** The unique index on `token_hash`. */
  ghost predicate UniqueHashes(rows: Table) {
    forall i, j :: i in rows && j in rows && rows[i].tokenHash == rows[j].tokenHash ==> i == j
  }

  ghost predicate HoldsHash(rows: Table, id: SessionId, hash: Hash) {
    id in rows && rows[id].tokenHash == hash
  }

  ghost function Select(rows: Table, hash: Hash): Option<SessionId> {
    if exists id :: HoldsHash(rows, id, hash) then
      var id :| HoldsHash(rows, id, hash); Some(id)
    else
      None
  }

  lemma SelectFinds(rows: Table, id: SessionId, hash: Hash)
    requires UniqueHashes(rows) && HoldsHash(rows, id, hash)
    ensures Select(rows, hash) == Some(id)
  {
    assert exists i :: HoldsHash(rows, i, hash);
  }

  /** An insert of this id and hash would violate the primary key or the unique index. */
  ghost predicate Taken(rows: Table, id: SessionId, hash: Hash) {
    id in rows || Select(rows, hash).Some?
  }

  function Revoked(session: Session, now: nat): Session {
    if session.revokedAt.Some? then session else session.(revokedAt := Some(now))
  }

  function FamilyRevoked(rows: Table, family: FamilyId, now: nat): Table {
    map id | id in rows :: if rows[id].familyId == family then Revoked(rows[id], now) else rows[id]
  }

  function SessionRevoked(rows: Table, hash: Hash, now: nat): Table {
    map id | id in rows :: if rows[id].tokenHash == hash then Revoked(rows[id], now) else rows[id]
  }

  function Unexpired(rows: Table, now: nat): Table {
    map id | id in rows && rows[id].familyExpiresAt > now :: rows[id]
  }

  /** The self-reference on `replaced_by`: every successor named is a stored row. */
  predicate ReferencesHold(rows: Table) {
    forall id :: id in rows && rows[id].replacedBy.Some? ==> rows[id].replacedBy.value in rows
  }

  function RotatedExpiry(now: nat, tokenTtl: nat, familyExpiresAt: nat): nat {
    if now + tokenTtl <= familyExpiresAt then now + tokenTtl else familyExpiresAt
  }

  /** What a session must be for its token to be exchanged. */
  predicate Usable(s: Session, now: nat) {
    s.revokedAt == None && now < s.expiresAt && now < s.familyExpiresAt
  }

  // ---- Transactions ----

  ghost function Issue(rows: Table, userId: UserId, familyId: FamilyId, id: SessionId, hash: Hash,
                       policy: RefreshPolicy, now: nat): Outcome
  {
    if Taken(rows, id, hash) then Outcome(rows, DatabaseError)
    else
      var expiresAt := now + policy.tokenTtl;
      Outcome(rows[id := Session(userId, familyId, hash, expiresAt, now + policy.familyTtl, None, None)],
              Granted(userId, hash, expiresAt))
  }

  ghost function Rotate(rows: Table, presented: Hash, nextId: SessionId, nextHash: Hash,
                        policy: RefreshPolicy, now: nat): Outcome
  {
    match Select(rows, presented)
    case None => Outcome(rows, Unauthorized)
    case Some(id) =>
      var session := rows[id];
      if session.revokedAt.Some? then
        Outcome(FamilyRevoked(rows, session.familyId, now), Unauthorized)
      else if session.expiresAt <= now || session.familyExpiresAt <= now then
        Outcome(rows, Unauthorized)
      else if Taken(rows, nextId, nextHash) then
        Outcome(rows, DatabaseError)
      else
        var expiresAt := RotatedExpiry(now, policy.tokenTtl, session.familyExpiresAt);
        Outcome(rows[nextId := Session(session.userId, session.familyId, nextHash, expiresAt,
                                       session.familyExpiresAt, None, None)]
                    [id := session.(revokedAt := Some(now), replacedBy := Some(nextId))],
                Granted(session.userId, nextHash, expiresAt))
  }

  /** `DELETE`, refused by the database when a surviving row would reference a deleted one. */
  ghost function DeleteExpired(rows: Table, now: nat): Outcome {
    if ReferencesHold(Unexpired(rows, now)) then Outcome(Unexpired(rows, now), Done)
    else Outcome(rows, DatabaseError)
  }

  /** The table as the service changes it, one method a transaction. */
  class SessionStore {
    var rows: Table

    ghost predicate Valid()
      reads this
    {
      UniqueHashes(rows)
    }

    constructor ()
      ensures Valid() && rows == map[]
    {
      rows := map[];
    }

    method FindByHash(hash: Hash) returns (found: Option<SessionId>)
      requires Valid()
      ensures found == Select(rows, hash)
    {
      var ids := rows.Keys;
      while ids != {}
        invariant ids <= rows.Keys
        invariant forall id :: id in rows && id !in ids ==> rows[id].tokenHash != hash
        decreases |ids|
      {
        var id :| id in ids;
        if rows[id].tokenHash == hash {
          SelectFinds(rows, id, hash);
          return Some(id);
        }
        ids := ids - {id};
      }
      return None;
    }

    method InsertSession(id: SessionId, session: Session) returns (inserted: bool)
      requires Valid()
      modifies this
      ensures Valid()
      ensures inserted == !Taken(old(rows), id, session.tokenHash)
      ensures rows == if inserted then old(rows)[id := session] else old(rows)
    {
      var clash := FindByHash(session.tokenHash);
      inserted := id !in rows && clash == None;
      if inserted {
        assert forall i :: i in rows ==> !HoldsHash(rows, i, session.tokenHash);
        rows := rows[id := session];
      }
    }

    method IssueRefreshToken(userId: UserId, familyId: FamilyId, id: SessionId, hash: Hash,
                             policy: RefreshPolicy, now: nat) returns (answer: Answer)
      requires Valid()
      modifies this
      ensures Valid()
      ensures Outcome(rows, answer) == Issue(old(rows), userId, familyId, id, hash, policy, now)
    {
      var expiresAt := now + policy.tokenTtl;
      var inserted := InsertSession(id,
        Session(userId, familyId, hash, expiresAt, now + policy.familyTtl, None, None));
      answer := if inserted then Granted(userId, hash, expiresAt) else DatabaseError;
    }

    method RevokeFamily(family: FamilyId, now: nat)
      requires Valid()
      modifies this
      ensures Valid() && rows == FamilyRevoked(old(rows), family, now)
      ensures rows.Keys == old(rows).Keys
      ensures forall id :: id in rows && old(rows)[id].familyId != family ==> rows[id] == old(rows)[id]
      ensures forall id :: id in rows && old(rows)[id].revokedAt.Some? ==> rows[id] == old(rows)[id]
      ensures forall id :: id in rows && old(rows)[id].familyId == family && old(rows)[id].revokedAt == None ==>
        rows[id] == old(rows)[id].(revokedAt := Some(now))
    {
      rows := map id | id in rows :: if rows[id].familyId == family then Revoked(rows[id], now) else rows[id];
    }

    method RotateRefreshToken(presented: Hash, nextId: SessionId, nextHash: Hash,
                              policy: RefreshPolicy, now: nat) returns (answer: Answer)
      requires Valid()
      modifies this
      ensures Valid()
      ensures Outcome(rows, answer) == Rotate(old(rows), presented, nextId, nextHash, policy, now)
    {
      var found := FindByHash(presented);
      if found == None {
        return Unauthorized;
      }
      var id := found.value;
      assert HoldsHash(rows, id, presented);
      var session := rows[id];
      if session.revokedAt.Some? {
        RevokeFamily(session.familyId, now);
        return Unauthorized;
      }
      if session.expiresAt <= now || session.familyExpiresAt <= now {
        return Unauthorized;
      }
      var expiresAt := RotatedExpiry(now, policy.tokenTtl, session.familyExpiresAt);
      var inserted := InsertSession(nextId,
        Session(session.userId, session.familyId, nextHash, expiresAt, session.familyExpiresAt, None, None));
      if !inserted {
        return DatabaseError;
      }
      rows := rows[id := rows[id].(revokedAt := Some(now), replacedBy := Some(nextId))];
      answer := Granted(session.userId, nextHash, expiresAt);
    }

    method RevokeSession(hash: Hash, now: nat)
      requires Valid()
      modifies this
      ensures Valid() && rows == SessionRevoked(old(rows), hash, now)
      ensures rows.Keys == old(rows).Keys
      ensures forall id :: id in rows && rows[id] != old(rows)[id] ==>
        && Select(old(rows), hash) == Some(id) && old(rows)[id].revokedAt == None
        && rows[id] == old(rows)[id].(revokedAt := Some(now))
      ensures Select(old(rows), hash).Some? ==>
        var id := Select(old(rows), hash).value; id in rows && rows[id].revokedAt.Some?
    {
      rows := map id | id in rows :: if rows[id].tokenHash == hash then Revoked(rows[id], now) else rows[id];
      forall id | id in rows && rows[id].tokenHash == hash ensures Select(old(rows), hash) == Some(id) {
        SelectFinds(old(rows), id, hash);
      }
    }

    method DeleteExpiredSessionFamilies(now: nat) returns (answer: Answer)
      requires Valid()
      modifies this
      ensures Valid()
      ensures Outcome(rows, answer) == DeleteExpired(old(rows), now)
    {
      var kept := map id | id in rows && rows[id].familyExpiresAt > now :: rows[id];
      assert kept == Unexpired(rows, now);
      if forall id :: id in kept && kept[id].replacedBy.Some? ==> kept[id].replacedBy.value in kept {
        rows := kept;
        answer := Done;
      } else {
        answer := DatabaseError;
      }
    }
  }
}
