/**
 * The identity store itself: user, credential and session methods that edit the maps one by one, each
 * proved to take exactly the step of the state machine.
 */
module IdentityStore {
  import opened Common
  import opened IdentityModel

  lemma RevokeNone(s: State, at: int)
    ensures RevokeSessions(s, {}, at) == s
  {
    assert HashesOf(s.tokenHash, {}) == {};
  }

  lemma RevokeJustOne(s: State, id: string, at: int)
    requires id in s.sessions
    ensures RevokeSessions(s, {id}, at)
         == s.(sessions := s.sessions[id := s.sessions[id].(revokedAt := Some(at))],
               tokenHash := s.tokenHash - {id},
               byTokenHash := if id in s.tokenHash then s.byTokenHash - {s.tokenHash[id]} else s.byTokenHash)
  {
    var s' := RevokeSessions(s, {id}, at);
    assert HashesOf(s.tokenHash, {id}) == if id in s.tokenHash then {s.tokenHash[id]} else {};
    assert s'.sessions == s.sessions[id := s.sessions[id].(revokedAt := Some(at))];
  }

  /** One more session of a cascade. */
  lemma RevokeOneMore(s: State, ids: set<string>, id: string, at: int)
    requires ids <= s.sessions.Keys && id in s.sessions && id !in ids
    ensures id in RevokeSessions(s, ids, at).sessions && RevokeSessions(s, ids, at).sessions[id] == s.sessions[id]
    ensures RevokeSessions(RevokeSessions(s, ids, at), {id}, at) == RevokeSessions(s, ids + {id}, at)
  {
    var s1 := RevokeSessions(s, ids, at);
    var s2, s3 := RevokeSessions(s1, {id}, at), RevokeSessions(s, ids + {id}, at);
    assert HashesOf(s.tokenHash, ids + {id}) == HashesOf(s.tokenHash, ids) + HashesOf(s1.tokenHash, {id});
    assert s2.sessions == s3.sessions;
    assert s2.tokenHash == s3.tokenHash;
    assert s2.byTokenHash == s3.byTokenHash;
  }

  lemma EndSessionFrame(before: State, sid: string, now: int)
    requires sid in before.sessions
    ensures forall id :: id in before.sessions && id != sid ==>
      id in RevokeSessions(before, {sid}, now).sessions && RevokeSessions(before, {sid}, now).sessions[id] == before.sessions[id]
  {
  }

  lemma RevokeNoCredentials(s: State, stamps: string -> int)
    ensures RevokeCredentials(s, {}, stamps) == s
  {
  }

  lemma RevokeOneMoreCredential(s: State, ids: set<string>, id: string, stamps: string -> int)
    requires ids <= s.creds.Keys && id in s.creds && id !in ids
    ensures var s1 := RevokeCredentials(s, ids, stamps);
      && id in s1.creds && s1.creds[id] == s.creds[id]
      && RevokeCredentials(s, ids + {id}, stamps)
         == s1.(creds := s1.creds[id := s.creds[id].(status := Revoked, updatedAt := stamps(id))],
                activeCred := s1.activeCred - {s.creds[id].Key()})
  {
    var s1, s2 := RevokeCredentials(s, ids, stamps), RevokeCredentials(s, ids + {id}, stamps);
    assert (set x | x in ids + {id} :: s.creds[x].Key()) == (set x | x in ids :: s.creds[x].Key()) + {s.creds[id].Key()};
    assert s2.creds == s1.creds[id := s.creds[id].(status := Revoked, updatedAt := stamps(id))];
    assert s2.activeCred == s1.activeCred - {s.creds[id].Key()};
  }

  class InMemoryIdentityStore {
    var users: map<string, User>
    var credentials: map<string, Credential>
    var activeCredByIdent: map<(string, string), string>
    var passwordHashes: map<string, string>
    var passkeyPublicKeys: map<string, seq<bv8>>
    var sessions: map<string, Session>
    var sessionTokenHash: map<string, string>
    var sessionByTokenHash: map<string, string>

    ghost function Value(): State
      reads this
    {
      State(users, credentials, activeCredByIdent, passwordHashes, passkeyPublicKeys, sessions, sessionTokenHash, sessionByTokenHash)
    }

    ghost predicate Valid()
      reads this
    {
      Inv(Value())
    }

    constructor ()
      ensures Valid() && Value() == EMPTY
    {
      users, credentials, activeCredByIdent, passwordHashes, passkeyPublicKeys := map[], map[], map[], map[], map[];
      sessions, sessionTokenHash, sessionByTokenHash := map[], map[], map[];
    }

    // -------------------------------------------------------------- cascades

    /** Marks one session revoked and forgets its token. */
    method EndSession(sid: string, now: int)
      requires sid in sessions
      modifies this`sessions, this`sessionTokenHash, this`sessionByTokenHash
      ensures Value() == RevokeSessions(old(Value()), {sid}, now)
    {
      hide RevokeSessions;
      RevokeJustOne(Value(), sid, now);
      var ss := sessions[sid].(revokedAt := Some(now));
      sessions := sessions[sid := ss];
      if sid in sessionTokenHash {
        var th := sessionTokenHash[sid];
        sessionTokenHash := sessionTokenHash - {sid};
        sessionByTokenHash := sessionByTokenHash - {th};
      }
    }

    /** Ends every live session of a user, in map order. */
    method CascadeRevokeSessionsForUser(usrId: string, now: int)
      modifies this`sessions, this`sessionTokenHash, this`sessionByTokenHash
      ensures Value() == RevokeSessions(old(Value()), LiveOfUser(old(sessions), usrId), now)
    {
      hide RevokeSessions;
      ghost var before, gone, held := Value(), {}, LiveOfUser(sessions, usrId);
      RevokeNone(before, now);
      var pending := sessions.Keys;
      while pending != {}
        invariant pending <= before.sessions.Keys && gone <= before.sessions.Keys && gone !! pending && gone == held - pending
        invariant Value() == RevokeSessions(before, gone, now)
        invariant forall id :: id in pending ==> id in sessions && sessions[id] == before.sessions[id]
        decreases pending
      {
        var sid: string :| sid in pending;
        VisitOne(held, pending, gone, sid);
        pending := pending - {sid};
        var ss := sessions[sid];
        assert (ss.usrId == usrId && ss.revokedAt.None?) == (sid in held);
        if ss.usrId == usrId && ss.revokedAt.None? {
          RevokeOneMore(before, gone, sid, now);
          EndSessionFrame(Value(), sid, now);
          EndSession(sid, now);
          gone := gone + {sid};
        }
      }
      assert gone == held;
    }

    /** Ends every live session of a credential, in map order. */
    method CascadeRevokeSessionsForCredential(credId: string, now: int)
      modifies this`sessions, this`sessionTokenHash, this`sessionByTokenHash
      ensures Value() == RevokeSessions(old(Value()), LiveOfCredential(old(sessions), credId), now)
    {
      hide RevokeSessions;
      ghost var before, gone, held := Value(), {}, LiveOfCredential(sessions, credId);
      RevokeNone(before, now);
      var pending := sessions.Keys;
      while pending != {}
        invariant pending <= before.sessions.Keys && gone <= before.sessions.Keys && gone !! pending && gone == held - pending
        invariant Value() == RevokeSessions(before, gone, now)
        invariant forall id :: id in pending ==> id in sessions && sessions[id] == before.sessions[id]
        decreases pending
      {
        var sid: string :| sid in pending;
        VisitOne(held, pending, gone, sid);
        pending := pending - {sid};
        var ss := sessions[sid];
        assert (ss.credId == credId && ss.revokedAt.None?) == (sid in held);
        if ss.credId == credId && ss.revokedAt.None? {
          RevokeOneMore(before, gone, sid, now);
          EndSessionFrame(Value(), sid, now);
          EndSession(sid, now);
          gone := gone + {sid};
        }
      }
      assert gone == held;
    }

    /** Revokes every active credential of a revoked user, in map order. */
    method CascadeRevokeCredentials(usrId: string, stamps: string -> int)
      modifies this`credentials, this`activeCredByIdent
      ensures Value() == RevokeCredentials(old(Value()), ActiveOfUser(old(credentials), usrId), stamps)
    {
      hide RevokeCredentials;
      ghost var before, gone, held := Value(), {}, ActiveOfUser(credentials, usrId);
      RevokeNoCredentials(before, stamps);
      var pending := credentials.Keys;
      while pending != {}
        invariant pending <= before.creds.Keys && gone <= before.creds.Keys && gone !! pending && gone == held - pending
        invariant Value() == RevokeCredentials(before, gone, stamps)
        invariant forall id :: id in pending ==> id in credentials && credentials[id] == before.creds[id]
        decreases pending
      {
        var cid: string :| cid in pending;
        VisitOne(held, pending, gone, cid);
        pending := pending - {cid};
        var c := credentials[cid];
        assert (c.usrId == usrId && c.status == Active) == (cid in held);
        if c.usrId == usrId && c.status == Active {
          RevokeOneMoreCredential(before, gone, cid, stamps);
          RevokeInCascade(cid, c, stamps(cid));
          gone := gone + {cid};
        }
      }
      assert gone == held;
    }

    /** One turn of that loop. */
    method RevokeInCascade(cid: string, c: Credential, at: int)
      requires cid in credentials && c == credentials[cid]
      modifies this`credentials, this`activeCredByIdent
      ensures Value() == old(Value()).(
        creds := old(credentials)[cid := c.(status := Revoked, updatedAt := at)], activeCred := old(activeCredByIdent) - {c.Key()})
    {
      credentials := credentials[cid := c.(status := Revoked, updatedAt := at)];
      activeCredByIdent := activeCredByIdent - {(c.kind.TypeName(), c.identifier)};
    }

    // -------------------------------------------------------------- users

    method CreateUser(displayName: Option<string>, id: string, now: int) returns (u: User)
      requires Valid() && id !in users
      modifies this
      ensures Valid() && Value() == Step(old(Value()), Op.CreateUser(displayName, id, now)).next
      ensures id in users && u == users[id]
    {
      hide Inv;
      StepKeepsInv(Value(), Op.CreateUser(displayName, id, now));
      u := User(id, Active, now, now, displayName);
      users := users[id := u];
    }

    method UpdateUser(usrId: string, displayName: Option<string>, clear: bool, now: int) returns (r: Result<User, Error>)
      requires Valid()
      modifies this
      ensures Valid()
      ensures var step := Step(old(Value()), Op.UpdateUser(usrId, displayName, clear, now));
        && Value() == step.next
        && (if step.error.Some? then r == Err(step.error.value) else usrId in users && r == Ok(users[usrId]))
    {
      hide Inv;
      StepKeepsInv(Value(), Op.UpdateUser(usrId, displayName, clear, now));
      if usrId !in users {
        return Err(NotFound);
      }
      var u := users[usrId];
      if u.status == Revoked {
        return Err(AlreadyTerminal);
      }
      if clear {
        u := u.(displayName := None);
      } else if displayName.Some? {
        u := u.(displayName := displayName);
      }
      u := u.(updatedAt := now);
      users := users[usrId := u];
      return Ok(u);
    }

    /** SuspendUser, ReinstateUser and RevokeUser. */
    method TransitionUser(usrId: string, target: Status, now: int, cascadeAt: int, stamps: string -> int) returns (r: Result<User, Error>)
      requires Valid()
      modifies this
      ensures Valid()
      ensures var step := Step(old(Value()), Op.TransitionUser(usrId, target, now, cascadeAt, stamps));
        && Value() == step.next
        && (if step.error.Some? then r == Err(step.error.value) else usrId in users && r == Ok(users[usrId]))
    {
      hide Inv, RevokeSessions, RevokeCredentials, LiveOfUser, ActiveOfUser;
      StepKeepsInv(Value(), Op.TransitionUser(usrId, target, now, cascadeAt, stamps));
      if usrId !in users {
        return Err(NotFound);
      }
      var u := users[usrId];
      if u.status == Revoked {
        return Err(AlreadyTerminal);
      }
      if u.status == target {
        return Ok(u);
      }
      if target == Active && u.status != Suspended {
        return Err(Precondition("invalid_transition"));
      }
      u := u.(status := target, updatedAt := now);
      users := users[usrId := u];
      if target == Suspended || target == Revoked {
        CascadeRevokeSessionsForUser(usrId, cascadeAt);
      }
      if target == Revoked {
        CascadeRevokeCredentials(usrId, stamps);
      }
      return Ok(u);
    }

    // -------------------------------------------------------------- credentials

    /** A password hash or a public key is filed under the credential's id. */
    method StoreSecret(id: string, input: CredentialInput)
      modifies this`passwordHashes, this`passkeyPublicKeys
      ensures Value() == WithSecret(old(Value()), id, input)
    {
      match input
      case PasswordInput(hash) =>
        if hash.Some? {
          passwordHashes := passwordHashes[id := hash.value];
        }
      case PasskeyInput(publicKey, _, _) => passkeyPublicKeys := passkeyPublicKeys[id := publicKey];
      case OidcInput(_, _) =>
    }

    /** CreatePasswordCredential, CreatePasskeyCredential and CreateOIDCCredential. */
    method CreateCredential(usrId: string, input: CredentialInput, identifier: string, id: string, now: int) returns (r: Result<Credential, Error>)
      requires Valid() && id !in credentials
      modifies this
      ensures Valid()
      ensures var step := Step(old(Value()), Op.CreateCredential(usrId, input, identifier, id, now));
        && Value() == step.next
        && (if step.error.Some? then r == Err(step.error.value) else id in credentials && r == Ok(credentials[id]))
    {
      hide Inv;
      StepKeepsInv(Value(), Op.CreateCredential(usrId, input, identifier, id, now));
      if usrId !in users {
        return Err(NotFound);
      }
      var kind := input.AsKind();
      if (kind.TypeName(), identifier) in activeCredByIdent {
        return Err(DuplicateCredential);
      }
      if input.Refused() {
        return Err(PasswordRejected);
      }
      var c := Credential(id, usrId, kind, identifier, Active, None, now, now);
      credentials := credentials[id := c];
      StoreSecret(id, input);
      activeCredByIdent := activeCredByIdent[(kind.TypeName(), identifier) := id];
      return Ok(c);
    }

    /** RotatePassword, RotatePasskey and RotateOIDC: revoke and re-add. */
    method Rotate(credId: string, input: CredentialInput, newId: string, now: int, cascadeAt: int) returns (r: Result<Credential, Error>)
      requires Valid() && newId !in credentials
      modifies this
      ensures Valid()
      ensures var step := Step(old(Value()), Op.Rotate(credId, input, newId, now, cascadeAt));
        && Value() == step.next
        && (if step.error.Some? then r == Err(step.error.value) else newId in credentials && r == Ok(credentials[newId]))
    {
      hide Inv, RevokeSessions, LiveOfCredential;
      StepKeepsInv(Value(), Op.Rotate(credId, input, newId, now, cascadeAt));
      if credId !in credentials {
        return Err(NotFound);
      }
      var c := credentials[credId];
      if c.status != Active {
        return Err(CredentialNotActive);
      }
      var kind := input.AsKind();
      if c.kind.TypeName() != kind.TypeName() {
        return Err(CredentialTypeMismatch);
      }
      if input.Refused() {
        return Err(PasswordRejected);
      }
      ghost var before := Value();
      StoreSecret(newId, input);
      var newCred := Credential(newId, c.usrId, kind, c.identifier, Active, Some(credId), now, now);
      c := c.(status := Revoked, updatedAt := now);
      credentials := credentials[credId := c];
      activeCredByIdent := activeCredByIdent - {(c.kind.TypeName(), c.identifier)};
      credentials := credentials[newId := newCred];
      activeCredByIdent := activeCredByIdent[(newCred.kind.TypeName(), newCred.identifier) := newId];
      assert activeCredByIdent == before.activeCred[c.Key() := newId];
      ghost var middle := Value();
      CascadeRevokeSessionsForCredential(credId, cascadeAt);
      RevokeSessionsFrame(middle, LiveOfCredential(middle.sessions, credId), cascadeAt);
      return Ok(newCred);
    }

    /** SuspendCredential, ReinstateCredential and RevokeCredential. */
    method TransitionCredential(credId: string, target: Status, now: int, cascadeAt: int) returns (r: Result<Credential, Error>)
      requires Valid()
      modifies this
      ensures Valid()
      ensures var step := Step(old(Value()), Op.TransitionCredential(credId, target, now, cascadeAt));
        && Value() == step.next
        && (if step.error.Some? then r == Err(step.error.value) else credId in credentials && r == Ok(credentials[credId]))
    {
      hide Inv, RevokeSessions, LiveOfCredential;
      StepKeepsInv(Value(), Op.TransitionCredential(credId, target, now, cascadeAt));
      if credId !in credentials {
        return Err(NotFound);
      }
      var c := credentials[credId];
      if c.status == Revoked {
        return Err(AlreadyTerminal);
      }
      if c.status == target {
        return Ok(c);
      }
      var k := (c.kind.TypeName(), c.identifier);
      if target == Active {
        if k in activeCredByIdent {
          return Err(DuplicateCredential);
        }
        activeCredByIdent := activeCredByIdent[k := credId];
      } else {
        activeCredByIdent := activeCredByIdent - {k};
      }
      c := c.(status := target, updatedAt := now);
      credentials := credentials[credId := c];
      if target == Suspended || target == Revoked {
        ghost var middle := Value();
        CascadeRevokeSessionsForCredential(credId, cascadeAt);
        RevokeSessionsFrame(middle, LiveOfCredential(middle.sessions, credId), cascadeAt);
      }
      return Ok(c);
    }

    // -------------------------------------------------------------- sessions

    method CreateSession(usrId: string, credId: string, ttlSeconds: int, id: string, hash: string, now: int) returns (r: Result<Session, Error>)
      requires Valid() && id !in sessions && hash !in sessionByTokenHash
      modifies this
      ensures Valid()
      ensures var step := Step(old(Value()), Op.CreateSession(usrId, credId, ttlSeconds, id, hash, now));
        && Value() == step.next
        && (if step.error.Some? then r == Err(step.error.value) else id in sessions && r == Ok(sessions[id]))
    {
      hide Inv;
      StepKeepsInv(Value(), Op.CreateSession(usrId, credId, ttlSeconds, id, hash, now));
      if usrId !in users {
        return Err(NotFound);
      }
      if credId !in credentials {
        return Err(NotFound);
      }
      var c := credentials[credId];
      if c.usrId != usrId {
        return Err(Precondition("cred_user_mismatch"));
      }
      if c.status != Active {
        return Err(CredentialNotActive);
      }
      var ses := Session(id, usrId, credId, now, now + ttlSeconds * SECOND, None);
      sessions := sessions[id := ses];
      sessionTokenHash := sessionTokenHash[id := hash];
      sessionByTokenHash := sessionByTokenHash[hash := id];
      return Ok(ses);
    }

    /** A verified token is the token of a live session with an active credential of its user. */
    method VerifySessionToken(hash: string, now: int) returns (r: Result<Session, Error>)
      requires Valid()
      ensures r.Ok? <==> hash in sessionByTokenHash && sessionByTokenHash[hash] in sessions && now < sessions[sessionByTokenHash[hash]].expiresAt
      ensures r.Ok? ==>
        && r.value == sessions[sessionByTokenHash[hash]] && r.value.revokedAt.None? && now < r.value.expiresAt
        && r.value.credId in credentials && credentials[r.value.credId].status == Active && credentials[r.value.credId].usrId == r.value.usrId
      ensures r.Err? ==> r.error == if hash in sessionByTokenHash then SessionExpired else InvalidToken
    {
      if hash !in sessionByTokenHash {
        return Err(InvalidToken);
      }
      var sid := sessionByTokenHash[hash];
      assert sid in sessionTokenHash;
      var ss := sessions[sid];
      if ss.revokedAt.Some? {
        return Err(SessionExpired);
      }
      if !(now < ss.expiresAt) {
        return Err(SessionExpired);
      }
      return Ok(ss);
    }

    method RefreshSession(sesId: string, checkedAt: int, newId: string, hash: string, now: int) returns (r: Result<Session, Error>)
      requires Valid() && newId !in sessions && hash !in sessionByTokenHash
      modifies this
      ensures Valid()
      ensures var step := Step(old(Value()), Op.RefreshSession(sesId, checkedAt, newId, hash, now));
        && Value() == step.next
        && (if step.error.Some? then r == Err(step.error.value) else newId in sessions && r == Ok(sessions[newId]))
    {
      hide Inv, RevokeSessions;
      StepKeepsInv(Value(), Op.RefreshSession(sesId, checkedAt, newId, hash, now));
      if sesId !in sessions {
        return Err(NotFound);
      }
      var ses := sessions[sesId];
      if ses.revokedAt.Some? {
        return Err(SessionExpired);
      }
      if !(checkedAt < ses.expiresAt) {
        return Err(SessionExpired);
      }
      EndSession(sesId, now);
      var ttl := ses.expiresAt - ses.createdAt;
      var ns := Session(newId, ses.usrId, ses.credId, now, now + ttl, None);
      sessions := sessions[newId := ns];
      sessionTokenHash := sessionTokenHash[newId := hash];
      sessionByTokenHash := sessionByTokenHash[hash := newId];
      return Ok(ns);
    }

    method RevokeSession(sesId: string, now: int) returns (r: Result<Session, Error>)
      requires Valid()
      modifies this
      ensures Valid()
      ensures var step := Step(old(Value()), Op.RevokeSession(sesId, now));
        && Value() == step.next
        && (if step.error.Some? then r == Err(step.error.value) else sesId in sessions && r == Ok(sessions[sesId]))
    {
      hide Inv, RevokeSessions;
      StepKeepsInv(Value(), Op.RevokeSession(sesId, now));
      if sesId !in sessions {
        return Err(NotFound);
      }
      var ss := sessions[sesId];
      if ss.revokedAt.Some? {
        return Ok(ss);
      }
      RevokeJustOne(Value(), sesId, now);
      EndSession(sesId, now);
      return Ok(sessions[sesId]);
    }
  }
}
