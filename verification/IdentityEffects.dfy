/**
 * What every user, credential and session call does, seen from outside: when it succeeds, which error it gives
 * otherwise, what it leaves, and that everything else stays.  Then, over all calls, exactly which call moves the
 * state of a user, a credential or a session.
 */
module IdentityEffects {
  import opened Common
  import opened IdentityModel

  // ---------------------------------------------------------------- frames

  ghost predicate SameCredentials(s: State, s': State) {
    s'.creds == s.creds && s'.activeCred == s.activeCred && s'.passwordHashes == s.passwordHashes && s'.passkeyKeys == s.passkeyKeys
  }

  ghost predicate SameSessions(s: State, s': State) {
    s'.sessions == s.sessions && s'.tokenHash == s.tokenHash && s'.byTokenHash == s.byTokenHash
  }

  /** Exactly the sessions `ids` end, at `at`, and their tokens are forgotten. */
  ghost predicate SessionsEnd(s: State, s': State, ids: set<string>, at: int) {
    && s'.sessions.Keys == s.sessions.Keys
    && (forall id :: id in s.sessions ==> s'.sessions[id] == if id in ids then s.sessions[id].(revokedAt := Some(at)) else s.sessions[id])
    && (forall id :: id in s'.tokenHash <==> id in s.tokenHash && id !in ids)
    && (forall id :: id in s'.tokenHash ==> s'.tokenHash[id] == s.tokenHash[id])
    && (forall hash :: hash in s'.byTokenHash <==> hash in s.byTokenHash && s.byTokenHash[hash] !in ids)
    && (forall hash :: hash in s'.byTokenHash ==> s'.byTokenHash[hash] == s.byTokenHash[hash])
  }

  lemma RevokingEnds(s: State, s1: State, ids: set<string>, at: int)
    requires TokensExact(s.sessions, s.tokenHash, s.byTokenHash) && SameSessions(s, s1) && ids <= s.tokenHash.Keys
    ensures SessionsEnd(s, RevokeSessions(s1, ids, at), ids, at)
    ensures RevokeSessions(s1, ids, at).users == s1.users && SameCredentials(s1, RevokeSessions(s1, ids, at))
  {
    var hashes := HashesOf(s.tokenHash, ids);
    forall hash | hash in s.byTokenHash ensures hash in hashes <==> s.byTokenHash[hash] in ids {
      assert s.tokenHash[s.byTokenHash[hash]] == hash;
      if hash in hashes {
        var id :| id in ids && id in s.tokenHash && s.tokenHash[id] == hash;
        assert s.byTokenHash[s.tokenHash[id]] == id;
      }
    }
  }

  /** What the invariant says of tokens and live sessions. */
  lemma Tokens(s: State)
    requires Inv(s)
    ensures TokensExact(s.sessions, s.tokenHash, s.byTokenHash) && IndexSound(s.creds, s.activeCred)
    ensures forall id :: id in s.tokenHash <==> id in s.sessions && s.sessions[id].revokedAt.None?
  {
  }

  // ---------------------------------------------------------------- users

  lemma CreateUserEffect(s: State, op: Op)
    requires op.CreateUser?
    ensures var out := Step(s, op);
      && out.error.None? && SameCredentials(s, out.next) && SameSessions(s, out.next)
      && op.id in out.next.users && out.next.users[op.id] == User(op.id, Active, op.now, op.now, op.displayName)
      && SameBut(s.users, out.next.users, {op.id})
  {
  }

  /** A known user who is not revoked gets the name cleared, set or kept, clearing wins. */
  lemma UpdateUserEffect(s: State, op: Op)
    requires op.UpdateUser?
    ensures var out := Step(s, op);
      && (op.usrId !in s.users ==> out == Outcome(s, Some(NotFound)))
      && (op.usrId in s.users && s.users[op.usrId].status == Revoked ==> out == Outcome(s, Some(AlreadyTerminal)))
      && (op.usrId in s.users && s.users[op.usrId].status != Revoked ==>
            && out.error.None? && SameCredentials(s, out.next) && SameSessions(s, out.next) && SameBut(s.users, out.next.users, {op.usrId})
            && op.usrId in out.next.users
            && var u, u' := s.users[op.usrId], out.next.users[op.usrId];
               && u'.id == u.id && u'.status == u.status && u'.createdAt == u.createdAt && u'.updatedAt == op.now
               && u'.displayName == (if op.clear then None else if op.displayName.Some? then op.displayName else u.displayName))
  {
  }

  /** The errors of a user transition, and the calls that change nothing. */
  lemma TransitionUserErrors(s: State, op: Op)
    requires op.TransitionUser?
    ensures var out := Step(s, op);
      && (op.usrId !in s.users ==> out == Outcome(s, Some(NotFound)))
      && (op.usrId in s.users && s.users[op.usrId].status == Revoked ==> out == Outcome(s, Some(AlreadyTerminal)))
      && (op.usrId in s.users && s.users[op.usrId].status != Revoked ==> out.error.None?)
      && (op.usrId in s.users && s.users[op.usrId].status == op.target && op.target != Revoked ==> out == Outcome(s, None))
  {
    hide RevokeSessions, RevokeCredentials;
  }

  /** The live sessions of a user. */
  function LiveIds(s: State, usrId: string): set<string> {
    set id | id in s.sessions && s.sessions[id].usrId == usrId && s.sessions[id].revokedAt.None?
  }

  /** A reinstatement changes only the status and time of a suspended user. */
  lemma ReinstateUserEffect(s: State, op: Op)
    requires op.TransitionUser? && op.target == Active && op.usrId in s.users && s.users[op.usrId].status == Suspended
    ensures Step(s, op) == Outcome(s.(users := s.users[op.usrId := s.users[op.usrId].(status := Active, updatedAt := op.now)]), None)
  {
  }

  /** A suspension also ends exactly the live sessions of the user. */
  lemma SuspendUserEffect(s: State, op: Op)
    requires Inv(s) && op.TransitionUser? && op.target == Suspended && op.usrId in s.users && s.users[op.usrId].status == Active
    ensures var s' := Step(s, op).next;
      && s'.users == s.users[op.usrId := s.users[op.usrId].(status := Suspended, updatedAt := op.now)]
      && SameCredentials(s, s') && SessionsEnd(s, s', LiveIds(s, op.usrId), op.cascadeAt)
  {
    assert Step(s, op) == StepTransitionUser(s, op);
    Tokens(s);
    hide Step, Inv, TokensExact, IndexSound, RevokeSessions, RevokeCredentials;
    var s1 := s.(users := s.users[op.usrId := s.users[op.usrId].(status := op.target, updatedAt := op.now)]);
    assert LiveIds(s, op.usrId) == LiveOfUser(s.sessions, op.usrId);
    RevokingEnds(s, s1, LiveOfUser(s.sessions, op.usrId), op.cascadeAt);
    hide LiveOfUser, LiveIds, SessionsEnd;
  }

  /** The active credentials of the user end, each at its own time, with their index entries. */
  ghost predicate CredentialsEnd(s: State, s': State, usrId: string, stamps: string -> int) {
    && s'.creds.Keys == s.creds.Keys
    && (forall id :: id in s.creds ==>
          s'.creds[id] == if s.creds[id].usrId == usrId && s.creds[id].status == Active
                          then s.creds[id].(status := Revoked, updatedAt := stamps(id)) else s.creds[id])
    && (forall key :: key in s'.activeCred <==>
          key in s.activeCred && forall id :: id in s.creds && s.creds[id].usrId == usrId && s.creds[id].status == Active ==>
                                   key != (s.creds[id].kind.TypeName(), s.creds[id].identifier))
    && (forall key :: key in s'.activeCred ==> s'.activeCred[key] == s.activeCred[key])
    && s'.passwordHashes == s.passwordHashes && s'.passkeyKeys == s.passkeyKeys
  }

  lemma CredentialsRevoked(s: State, base: State, usrId: string, stamps: string -> int)
    requires SameCredentials(s, base)
    ensures var s' := RevokeCredentials(s, ActiveOfUser(s.creds, usrId), stamps);
      CredentialsEnd(base, s', usrId, stamps) && s'.users == s.users && SameSessions(s, s')
  {
    var ids := ActiveOfUser(s.creds, usrId);
    assert forall id :: id in ids ==> s.creds[id].Key() == (s.creds[id].kind.TypeName(), s.creds[id].identifier);
  }

  lemma EndsThenSame(s: State, s1: State, s2: State, ids: set<string>, at: int)
    requires SessionsEnd(s, s1, ids, at) && SameSessions(s1, s2)
    ensures SessionsEnd(s, s2, ids, at)
  {
  }

  /** A revocation also ends exactly the active credentials of the user and their index entries. */
  lemma RevokeUserEffect(s: State, op: Op)
    requires Inv(s) && op.TransitionUser? && op.target == Revoked && op.usrId in s.users && s.users[op.usrId].status != Revoked
    ensures var s' := Step(s, op).next;
      && s'.users == s.users[op.usrId := s.users[op.usrId].(status := Revoked, updatedAt := op.now)]
      && SessionsEnd(s, s', LiveIds(s, op.usrId), op.cascadeAt) && CredentialsEnd(s, s', op.usrId, op.stamps)
  {
    assert Step(s, op) == StepTransitionUser(s, op);
    Tokens(s);
    hide Step, Inv, TokensExact, IndexSound, RevokeSessions, RevokeCredentials, CredentialsEnd;
    var s1 := s.(users := s.users[op.usrId := s.users[op.usrId].(status := op.target, updatedAt := op.now)]);
    assert LiveIds(s, op.usrId) == LiveOfUser(s.sessions, op.usrId);
    var s2 := RevokeSessions(s1, LiveOfUser(s.sessions, op.usrId), op.cascadeAt);
    RevokingEnds(s, s1, LiveOfUser(s.sessions, op.usrId), op.cascadeAt);
    CredentialsRevoked(s2, s, op.usrId, op.stamps);
    hide LiveOfUser, LiveIds, SessionsEnd, ActiveOfUser;
    EndsThenSame(s, s2, RevokeCredentials(s2, ActiveOfUser(s2.creds, op.usrId), op.stamps), LiveIds(s, op.usrId), op.cascadeAt);
  }

  // ---------------------------------------------------------------- credentials

  /** A credential needs a known user, a free identifier of its type and, for a password, a usable one; it is active, indexed and
      filed with its secret. */
  lemma CreateCredentialEffect(s: State, op: Op)
    requires Fresh(s, op) && op.CreateCredential?
    ensures var out, key := Step(s, op), (op.input.AsKind().TypeName(), op.identifier);
      var unusable := op.input.PasswordInput? && op.input.hash.None?;
      && (op.usrId !in s.users ==> out == Outcome(s, Some(NotFound)))
      && (op.usrId in s.users && key in s.activeCred ==> out == Outcome(s, Some(DuplicateCredential)))
      && (op.usrId in s.users && key !in s.activeCred && unusable ==> out == Outcome(s, Some(PasswordRejected)))
      && (op.usrId in s.users && key !in s.activeCred && !unusable ==>
            && out.error.None? && out.next.users == s.users && SameSessions(s, out.next)
            && op.id in out.next.creds
            && out.next.creds[op.id] == Credential(op.id, op.usrId, op.input.AsKind(), op.identifier, Active, None, op.now, op.now)
            && SameBut(s.creds, out.next.creds, {op.id})
            && key in out.next.activeCred && out.next.activeCred[key] == op.id && SameBut(s.activeCred, out.next.activeCred, {key})
            && SecretFiled(s, out.next, op.id, op.input))
  {
    if !op.input.Refused() {
      SecretKept(s, op.id, op.input);
    }
    SecretFrame(s, op.id, op.input);
    hide WithSecret;
  }

  /** The hash or public key is under the credential's id, and no other secret changes. */
  ghost predicate SecretFiled(s: State, s': State, id: string, input: CredentialInput) {
    && (input.PasswordInput? ==> id in s'.passwordHashes && Some(s'.passwordHashes[id]) == input.hash)
    && (input.PasskeyInput? ==> id in s'.passkeyKeys && s'.passkeyKeys[id] == input.publicKey)
    && SameBut(s.passwordHashes, s'.passwordHashes, if input.PasswordInput? then {id} else {})
    && SameBut(s.passkeyKeys, s'.passkeyKeys, if input.PasskeyInput? then {id} else {})
  }

  lemma SecretKept(s: State, id: string, input: CredentialInput)
    requires !input.Refused()
    ensures SecretFiled(s, WithSecret(s, id, input), id, input)
  {
  }

  /** The kinds: the sign count and party of a passkey, the issuer and subject of an OIDC credential. */
  lemma KindOfInput(input: CredentialInput)
    ensures match input
      case PasswordInput(_) => input.AsKind() == Password && input.AsKind().TypeName() == "password"
      case PasskeyInput(_, signCount, rpId) => input.AsKind() == Passkey(signCount, rpId) && input.AsKind().TypeName() == "passkey"
      case OidcInput(issuer, subject) => input.AsKind() == Oidc(issuer, subject) && input.AsKind().TypeName() == "oidc"
  {
  }

  /** The live sessions of a credential. */
  function LiveOn(s: State, credId: string): set<string> {
    set id | id in s.sessions && s.sessions[id].credId == credId && s.sessions[id].revokedAt.None?
  }

  lemma RotateErrors(s: State, op: Op)
    requires op.Rotate?
    ensures var out := Step(s, op);
      && (op.credId !in s.creds ==> out == Outcome(s, Some(NotFound)))
      && (op.credId in s.creds && s.creds[op.credId].status != Active ==> out == Outcome(s, Some(CredentialNotActive)))
      && (op.credId in s.creds && s.creds[op.credId].status == Active ==>
            var same := s.creds[op.credId].kind.TypeName() == op.input.AsKind().TypeName();
            var unusable := op.input.PasswordInput? && op.input.hash.None?;
            && (!same ==> out == Outcome(s, Some(CredentialTypeMismatch)))
            && (same && unusable ==> out == Outcome(s, Some(PasswordRejected)))
            && (same && !unusable ==> out.error.None?))
  {
    hide RevokeSessions, WithSecret;
  }

  /** A rotation revokes the credential, adds its successor for the same user and identifier, which takes over the index entry, and
      ends exactly the live sessions of the old one. */
  lemma RotateEffect(s: State, op: Op)
    requires Inv(s) && Fresh(s, op) && op.Rotate? && Step(s, op).error.None?
    ensures op.credId in s.creds
    ensures var c, s' := s.creds[op.credId], Step(s, op).next;
      var key := (c.kind.TypeName(), c.identifier);
      && s'.users == s.users && s'.creds.Keys == s.creds.Keys + {op.newId}
      && s'.creds[op.credId] == c.(status := Revoked, updatedAt := op.now)
      && s'.creds[op.newId] == Credential(op.newId, c.usrId, op.input.AsKind(), c.identifier, Active, Some(op.credId), op.now, op.now)
      && SameBut(s.creds, s'.creds, {op.credId, op.newId})
      && key in s'.activeCred && s'.activeCred[key] == op.newId && SameBut(s.activeCred, s'.activeCred, {key})
      && SecretFiled(s, s', op.newId, op.input)
      && SessionsEnd(s, s', LiveOn(s, op.credId), op.cascadeAt)
  {
    var c := s.creds[op.credId];
    var successor := Credential(op.newId, c.usrId, op.input.AsKind(), c.identifier, Active, Some(op.credId), op.now, op.now);
    var s1 := Exchanged(s, op, successor);
    var ids := LiveOn(s, op.credId);
    RotatedState(s, op, successor);
    Tokens(s);
    hide Step, Inv, TokensExact, IndexSound, RevokeSessions, SecretFiled, SessionsEnd;
    RevokingEnds(s, s1, ids, op.cascadeAt);
    SecretAfterEnd(s, s1, RevokeSessions(s1, ids, op.cascadeAt), op.newId, op.input);
    hide LiveOn, Exchanged;
  }

  /** The credential revoked, its successor in place. */
  function Exchanged(s: State, op: Op, successor: Credential): State
    requires op.Rotate? && op.credId in s.creds
  {
    var c := s.creds[op.credId];
    WithSecret(s, op.newId, op.input).(
      creds := s.creds[op.credId := c.(status := Revoked, updatedAt := op.now)][op.newId := successor],
      activeCred := s.activeCred[(c.kind.TypeName(), c.identifier) := op.newId])
  }

  lemma RotatedState(s: State, op: Op, successor: Credential)
    requires Fresh(s, op) && op.Rotate? && Step(s, op).error.None? && op.credId in s.creds
    requires successor == Credential(op.newId, s.creds[op.credId].usrId, op.input.AsKind(), s.creds[op.credId].identifier, Active,
                                     Some(op.credId), op.now, op.now)
    ensures var s1, c := Exchanged(s, op, successor), s.creds[op.credId];
      && Step(s, op).next == RevokeSessions(s1, LiveOn(s, op.credId), op.cascadeAt)
      && s1.users == s.users && SameSessions(s, s1) && SecretFiled(s, s1, op.newId, op.input)
      && s1.creds == s.creds[op.credId := c.(status := Revoked, updatedAt := op.now)][op.newId := successor]
      && s1.activeCred == s.activeCred[(c.kind.TypeName(), c.identifier) := op.newId]
  {
    assert Step(s, op) == StepRotate(s, op);
    assert LiveOn(s, op.credId) == LiveOfCredential(s.sessions, op.credId);
    SecretFrame(s, op.newId, op.input);
    SecretKept(s, op.newId, op.input);
    hide Step, WithSecret, RevokeSessions, LiveOn, LiveOfCredential;
  }

  lemma SecretAfterEnd(s: State, s1: State, s2: State, id: string, input: CredentialInput)
    requires SecretFiled(s, s1, id, input) && SameCredentials(s1, s2)
    ensures SecretFiled(s, s2, id, input)
  {
  }

  lemma TransitionCredentialErrors(s: State, op: Op)
    requires op.TransitionCredential?
    ensures var out := Step(s, op);
      && (op.credId !in s.creds ==> out == Outcome(s, Some(NotFound)))
      && (op.credId in s.creds ==>
            var c := s.creds[op.credId];
            var taken := op.target == Active && c.status == Suspended && (c.kind.TypeName(), c.identifier) in s.activeCred;
            && (c.status == Revoked ==> out == Outcome(s, Some(AlreadyTerminal)))
            && (c.status != Revoked && c.status == op.target ==> out == Outcome(s, None))
            && (taken ==> out == Outcome(s, Some(DuplicateCredential)))
            && (c.status != Revoked && c.status != op.target && !taken ==> out.error.None?))
  {
    hide RevokeSessions;
  }

  /** A reinstatement makes a suspended credential active and indexes it; a suspension or revocation drops the index entry of its
      identifier and ends exactly its live sessions. */
  lemma TransitionCredentialEffect(s: State, op: Op)
    requires Inv(s) && op.TransitionCredential? && Step(s, op).error.None? && op.credId in s.creds && s.creds[op.credId].status != op.target
    ensures var c, s' := s.creds[op.credId], Step(s, op).next;
      var key := (c.kind.TypeName(), c.identifier);
      && s'.users == s.users && s'.creds == s.creds[op.credId := c.(status := op.target, updatedAt := op.now)]
      && s'.passwordHashes == s.passwordHashes && s'.passkeyKeys == s.passkeyKeys && SameBut(s.activeCred, s'.activeCred, {key})
      && (op.target == Active ==> key in s'.activeCred && s'.activeCred[key] == op.credId && SameSessions(s, s'))
      && (op.target != Active ==> key !in s'.activeCred && SessionsEnd(s, s', LiveOn(s, op.credId), op.cascadeAt))
  {
    assert Step(s, op) == StepTransitionCredential(s, op);
    Tokens(s);
    hide Step, Inv, TokensExact, IndexSound, RevokeSessions;
    if op.target != Active {
      var c := s.creds[op.credId];
      var s1 := s.(creds := s.creds[op.credId := c.(status := op.target, updatedAt := op.now)], activeCred := s.activeCred - {c.Key()});
      assert LiveOn(s, op.credId) == LiveOfCredential(s.sessions, op.credId);
      RevokingEnds(s, s1, LiveOfCredential(s.sessions, op.credId), op.cascadeAt);
      hide LiveOfCredential, LiveOn, SessionsEnd;
      assert Step(s, op).next == RevokeSessions(s1, LiveOn(s, op.credId), op.cascadeAt);
      hide StepTransitionCredential;
    } else {
      hide SessionsEnd, LiveOn, LiveOfCredential;
    }
  }

  // ---------------------------------------------------------------- sessions

  /** Nothing but one new live session and its token differs. */
  ghost predicate SessionOpens(s: State, s': State, ses: Session, hash: string) {
    && s'.users == s.users && SameCredentials(s, s')
    && ses.id in s'.sessions && s'.sessions[ses.id] == ses && SameBut(s.sessions, s'.sessions, {ses.id})
    && ses.id in s'.tokenHash && s'.tokenHash[ses.id] == hash && SameBut(s.tokenHash, s'.tokenHash, {ses.id})
    && hash in s'.byTokenHash && s'.byTokenHash[hash] == ses.id && SameBut(s.byTokenHash, s'.byTokenHash, {hash})
  }

  /** A session needs a known user and an active credential of that user, and lasts the given number of seconds. */
  lemma CreateSessionEffect(s: State, op: Op)
    requires op.CreateSession?
    ensures var out := Step(s, op);
      && (op.usrId !in s.users || op.credId !in s.creds ==> out == Outcome(s, Some(NotFound)))
      && (op.usrId in s.users && op.credId in s.creds ==>
            var c := s.creds[op.credId];
            && (c.usrId != op.usrId ==> out == Outcome(s, Some(Precondition("cred_user_mismatch"))))
            && (c.usrId == op.usrId && c.status != Active ==> out == Outcome(s, Some(CredentialNotActive)))
            && (c.usrId == op.usrId && c.status == Active ==>
                  && out.error.None?
                  && SessionOpens(s, out.next, Session(op.id, op.usrId, op.credId, op.now, op.now + op.ttlSeconds * 1_000_000_000, None), op.hash)))
  {
  }

  lemma RefreshErrors(s: State, op: Op)
    requires op.RefreshSession?
    ensures var out := Step(s, op);
      && (op.sesId !in s.sessions ==> out == Outcome(s, Some(NotFound)))
      && (op.sesId in s.sessions ==>
            var dead := s.sessions[op.sesId].revokedAt.Some? || s.sessions[op.sesId].expiresAt <= op.checkedAt;
            (dead ==> out == Outcome(s, Some(SessionExpired))) && (!dead ==> out.error.None?))
  {
    hide RevokeSessions, AddSession;
  }

  /** What a refresh opens: same user, credential and length. */
  function Renewed(ses: Session, newId: string, now: int): Session {
    Session(newId, ses.usrId, ses.credId, now, now + (ses.expiresAt - ses.createdAt), None)
  }

  /** A live unexpired session is exchanged for one of the same user, credential and length; the old one ends and its token is unknown. */
  lemma RefreshEffect(s: State, op: Op)
    requires Inv(s) && op.RefreshSession? && Step(s, op).error.None?
    ensures op.sesId in s.sessions
    ensures exists s1: State :: s1.users == s.users && SameCredentials(s, s1) && SessionsEnd(s, s1, {op.sesId}, op.now)
              && SessionOpens(s1, Step(s, op).next, Renewed(s.sessions[op.sesId], op.newId, op.now), op.hash)
  {
    assert Step(s, op) == StepRefreshSession(s, op);
    Tokens(s);
    hide Step, Inv, TokensExact, IndexSound, RevokeSessions, SessionsEnd, SessionOpens, AddSession;
    var s1 := RevokeSessions(s, {op.sesId}, op.now);
    assert Step(s, op).next == AddSession(s1, Renewed(s.sessions[op.sesId], op.newId, op.now), op.hash);
    hide StepRefreshSession;
    RevokingEnds(s, s, {op.sesId}, op.now);
    AddingOpens(s1, Renewed(s.sessions[op.sesId], op.newId, op.now), op.hash);
  }

  lemma AddingOpens(s: State, ses: Session, hash: string)
    ensures SessionOpens(s, AddSession(s, ses, hash), ses, hash)
  {
  }

  /** A known session ends at its first revocation; a later one changes nothing. */
  lemma RevokeSessionEffect(s: State, op: Op)
    requires Inv(s) && op.RevokeSession?
    ensures var out := Step(s, op);
      && (op.sesId !in s.sessions ==> out == Outcome(s, Some(NotFound)))
      && (op.sesId in s.sessions && s.sessions[op.sesId].revokedAt.Some? ==> out == Outcome(s, None))
      && (op.sesId in s.sessions && s.sessions[op.sesId].revokedAt.None? ==>
            out.error.None? && out.next.users == s.users && SameCredentials(s, out.next) && SessionsEnd(s, out.next, {op.sesId}, op.now))
  {
    if op.sesId in s.sessions && s.sessions[op.sesId].revokedAt.None? {
      Tokens(s);
      RevokingEnds(s, s, {op.sesId}, op.now);
    }
    hide Inv, RevokeSessions, SessionsEnd;
  }

  /** Signing out: the token of the session is invalid ever after, the record keeps its first revocation, and every other session and
      every other token's verification stays as it was. */
  lemma SignedOut(s: State, op: Op, hash: string, now: int, ops: seq<Op>, later: int)
    requires Inv(s) && op.RevokeSession? && VerifySession(s, hash, now).Ok? && VerifySession(s, hash, now).value.id == op.sesId
    requires FreshRun(Step(s, op).next, ops) && forall o :: o in ops ==> !Issues(o, hash)
    ensures VerifySession(Run(Step(s, op).next, ops), hash, later) == Err(InvalidToken)
    ensures var s' := Step(s, op).next;
      && op.sesId in s.sessions && op.sesId in s'.sessions
      && s'.sessions[op.sesId] == s.sessions[op.sesId].(revokedAt := Some(op.now))
      && (forall id :: id in s.sessions && id != op.sesId ==> id in s'.sessions && s'.sessions[id] == s.sessions[id])
      && (forall other, at :: other != hash ==> VerifySession(s', other, at) == VerifySession(s, other, at))
  {
    var s' := Step(s, op).next;
    hide Step;
    TokenOfSession(s, hash, now);
    Tokens(s);
    hide Inv, TokensExact, IndexSound;
    RevokeSessionEffect(s, op);
    TokensNeverComeBack(s', ops, hash, later);
  }

  lemma TokenOfSession(s: State, hash: string, now: int)
    requires Inv(s) && VerifySession(s, hash, now).Ok?
    ensures var id := VerifySession(s, hash, now).value.id;
      && id in s.sessions && s.sessions[id].revokedAt.None? && hash in s.byTokenHash && s.byTokenHash[hash] == id
      && forall other :: other in s.byTokenHash && s.byTokenHash[other] == id ==> other == hash
  {
    assert s.tokenHash[s.byTokenHash[hash]] == hash;
  }

  /** The first revocation of a session is its last: no later call changes the record. */
  lemma {:induction false} RevokedSessionsFrozen(s: State, ops: seq<Op>, id: string)
    requires Inv(s) && FreshRun(s, ops) && id in s.sessions && s.sessions[id].revokedAt.Some?
    ensures id in Run(s, ops).sessions && Run(s, ops).sessions[id] == s.sessions[id]
    decreases |ops|
  {
    hide Step, Inv, Fresh;
    if ops != [] {
      SessionLaw(s, ops[0], id);
      StepKeepsInv(s, ops[0]);
      RevokedSessionsFrozen(Step(s, ops[0]).next, ops[1..], id);
    }
  }

  // ---------------------------------------------------------------- laws over all calls

  /** The call ends the live session `id`. */
  ghost predicate EndsSession(s: State, op: Op, id: string)
    requires id in s.sessions
  {
    var ses := s.sessions[id];
    match op
    case TransitionUser(usrId, target, _, _, _) =>
      usrId == ses.usrId && target != Active && usrId in s.users && s.users[usrId].status != Revoked && s.users[usrId].status != target
    case Rotate(credId, input, _, _, _) =>
      && credId == ses.credId && credId in s.creds && s.creds[credId].status == Active
      && s.creds[credId].kind.TypeName() == input.AsKind().TypeName() && !(input.PasswordInput? && input.hash.None?)
    case TransitionCredential(credId, target, _, _) =>
      credId == ses.credId && target != Active && credId in s.creds && s.creds[credId].status != Revoked && s.creds[credId].status != target
    case RefreshSession(sesId, checkedAt, _, _, _) => sesId == id && checkedAt < ses.expiresAt
    case RevokeSession(sesId, _) => sesId == id
    case _ => false
  }

  /** The session keeps everything but the time of its revocation, which is set exactly when the call ends a live one. */
  ghost predicate SessionObeys(s: State, op: Op, id: string)
    requires id in s.sessions
  {
    && id in Step(s, op).next.sessions
    && var ses, ses' := s.sessions[id], Step(s, op).next.sessions[id];
       && ses' == ses.(revokedAt := ses'.revokedAt)
       && (ses.revokedAt.Some? ==> ses' == ses)
       && (ses.revokedAt.None? ==> (ses'.revokedAt.Some? <==> EndsSession(s, op, id)))
  }

  lemma KeptObeys(s: State, op: Op, id: string)
    requires id in s.sessions && id in Step(s, op).next.sessions && Step(s, op).next.sessions[id] == s.sessions[id]
    requires s.sessions[id].revokedAt.None? ==> !EndsSession(s, op, id)
    ensures SessionObeys(s, op, id)
  {
    hide Step, EndsSession;
  }

  lemma EndedObeys(s: State, op: Op, id: string, at: int)
    requires id in s.sessions && s.sessions[id].revokedAt.None? && EndsSession(s, op, id)
    requires id in Step(s, op).next.sessions && Step(s, op).next.sessions[id] == s.sessions[id].(revokedAt := Some(at))
    ensures SessionObeys(s, op, id)
  {
    hide Step, EndsSession;
  }

  /** For every call and session: a live one ends exactly by a sign-out, a refresh before its expiry, the end or rotation of its
      credential, or the suspension or revocation of its user, and nothing else about a session ever changes. */
  lemma SessionLaw(s: State, op: Op, id: string)
    requires Inv(s) && Fresh(s, op) && id in s.sessions
    ensures SessionObeys(s, op, id)
  {
    hide Inv, Step, Fresh, SessionObeys;
    match op
    case TransitionUser(_, _, _, _, _) => UserSessionLaw(s, op, id);
    case Rotate(_, _, _, _, _) => RotateSessionLaw(s, op, id);
    case TransitionCredential(_, _, _, _) => CredentialSessionLaw(s, op, id);
    case CreateSession(_, _, _, _, _, _) => CreateSessionLaw(s, op, id);
    case RefreshSession(_, _, _, _, _) => RefreshSessionLaw(s, op, id);
    case RevokeSession(_, _) => RevokeSessionLaw(s, op, id);
    case _ => QuietSessionLaw(s, op, id);
  }

  lemma QuietSessionLaw(s: State, op: Op, id: string)
    requires Fresh(s, op) && id in s.sessions && (op.CreateUser? || op.UpdateUser? || op.CreateCredential?)
    ensures SessionObeys(s, op, id)
  {
    if op.CreateUser? {
      CreateUserEffect(s, op);
    } else if op.UpdateUser? {
      UpdateUserEffect(s, op);
    } else {
      CreateCredentialEffect(s, op);
    }
    hide Step, Fresh, SameCredentials, SecretFiled;
    KeptObeys(s, op, id);
  }

  lemma UserSessionLaw(s: State, op: Op, id: string)
    requires Inv(s) && id in s.sessions && op.TransitionUser?
    ensures SessionObeys(s, op, id)
  {
    hide Step, Inv, CredentialsEnd, SameCredentials;
    TransitionUserErrors(s, op);
    if op.usrId in s.users && s.users[op.usrId].status != Revoked && s.users[op.usrId].status != op.target {
      if op.target == Active {
        ReinstateUserEffect(s, op);
        KeptObeys(s, op, id);
      } else {
        if op.target == Suspended {
          SuspendUserEffect(s, op);
        } else {
          RevokeUserEffect(s, op);
        }
        if id in LiveIds(s, op.usrId) {
          EndedObeys(s, op, id, op.cascadeAt);
        } else {
          KeptObeys(s, op, id);
        }
      }
    } else {
      KeptObeys(s, op, id);
    }
  }

  lemma RotateSessionLaw(s: State, op: Op, id: string)
    requires Inv(s) && Fresh(s, op) && id in s.sessions && op.Rotate?
    ensures SessionObeys(s, op, id)
  {
    hide Step, Inv, Fresh, SecretFiled;
    RotateErrors(s, op);
    if Step(s, op).error.None? {
      RotateEffect(s, op);
      if id in LiveOn(s, op.credId) {
        EndedObeys(s, op, id, op.cascadeAt);
      } else {
        KeptObeys(s, op, id);
      }
    } else {
      KeptObeys(s, op, id);
    }
  }

  lemma CredentialSessionLaw(s: State, op: Op, id: string)
    requires Inv(s) && id in s.sessions && op.TransitionCredential?
    ensures SessionObeys(s, op, id)
  {
    hide Step, Inv;
    TransitionCredentialErrors(s, op);
    if Step(s, op).error.None? && op.credId in s.creds && s.creds[op.credId].status != op.target {
      TransitionCredentialEffect(s, op);
      if op.target != Active && id in LiveOn(s, op.credId) {
        EndedObeys(s, op, id, op.cascadeAt);
      } else {
        KeptObeys(s, op, id);
      }
    } else {
      KeptObeys(s, op, id);
    }
  }

  lemma CreateSessionLaw(s: State, op: Op, id: string)
    requires Fresh(s, op) && id in s.sessions && op.CreateSession?
    ensures SessionObeys(s, op, id)
  {
    assert op.id != id;
    CreateSessionEffect(s, op);
    hide Step, Fresh;
    if Step(s, op).next != s {
      SameButMeans(s.sessions, Step(s, op).next.sessions, {op.id}, id);
    }
    KeptObeys(s, op, id);
  }

  lemma RefreshSessionLaw(s: State, op: Op, id: string)
    requires Inv(s) && Fresh(s, op) && id in s.sessions && op.RefreshSession?
    ensures SessionObeys(s, op, id)
  {
    RefreshErrors(s, op);
    if Step(s, op).error.None? {
      assert op.newId != id;
      hide Step, Inv, Fresh;
      RefreshedRow(s, op, id);
      if id == op.sesId {
        EndedObeys(s, op, id, op.now);
      } else {
        KeptObeys(s, op, id);
      }
    } else {
      hide Step, Inv, Fresh;
      KeptObeys(s, op, id);
    }
  }

  lemma RefreshedRow(s: State, op: Op, id: string)
    requires Inv(s) && op.RefreshSession? && Step(s, op).error.None? && id in s.sessions && id != op.newId
    ensures var s' := Step(s, op).next;
      id in s'.sessions && s'.sessions[id] == if id == op.sesId then s.sessions[id].(revokedAt := Some(op.now)) else s.sessions[id]
  {
    RefreshEffect(s, op);
    hide Step, Inv, SessionsEnd, SessionOpens, SameCredentials;
    var s1: State :| SessionsEnd(s, s1, {op.sesId}, op.now)
                  && SessionOpens(s1, Step(s, op).next, Renewed(s.sessions[op.sesId], op.newId, op.now), op.hash);
    EndedThenOpened(s, s1, Step(s, op).next, {op.sesId}, op.now, Renewed(s.sessions[op.sesId], op.newId, op.now), op.hash, id);
  }

  lemma RevokeSessionLaw(s: State, op: Op, id: string)
    requires Inv(s) && id in s.sessions && op.RevokeSession?
    ensures SessionObeys(s, op, id)
  {
    RevokeSessionEffect(s, op);
    hide Step, Inv, SameCredentials;
    if id == op.sesId && s.sessions[id].revokedAt.None? {
      EndedObeys(s, op, id, op.now);
    } else {
      KeptObeys(s, op, id);
    }
  }

  lemma EndedThenOpened(s: State, s1: State, s': State, ids: set<string>, at: int, begun: Session, hash: string, id: string)
    requires SessionsEnd(s, s1, ids, at) && SessionOpens(s1, s', begun, hash) && id in s.sessions && id != begun.id
    ensures id in s'.sessions && s'.sessions[id] == if id in ids then s.sessions[id].(revokedAt := Some(at)) else s.sessions[id]
  {
    SameButMeans(s1.sessions, s'.sessions, {begun.id}, id);
  }

  /** The call ends the active or suspended credential `id`. */
  ghost predicate EndsCredential(s: State, op: Op, id: string)
    requires id in s.creds
  {
    var c := s.creds[id];
    match op
    case TransitionUser(usrId, target, _, _, _) =>
      usrId == c.usrId && target == Revoked && c.status == Active && usrId in s.users && s.users[usrId].status != Revoked
    case Rotate(credId, input, _, _, _) =>
      && credId == id && c.status == Active && c.kind.TypeName() == input.AsKind().TypeName()
      && !(input.PasswordInput? && input.hash.None?)
    case TransitionCredential(credId, target, _, _) => credId == id && target == Revoked
    case _ => false
  }

  /** The state the credential is in after the call. */
  ghost function NextCredStatus(s: State, op: Op, id: string): Status
    requires id in s.creds
  {
    var c := s.creds[id];
    if c.status != Revoked && EndsCredential(s, op, id) then Revoked
    else if c.status == Active && op.TransitionCredential? && op.credId == id && op.target == Suspended then Suspended
    else if c.status == Suspended && op.TransitionCredential? && op.credId == id && op.target == Active
            && (c.kind.TypeName(), c.identifier) !in s.activeCred then Active
    else c.status
  }

  ghost predicate CredentialObeys(s: State, op: Op, id: string)
    requires id in s.creds
  {
    && id in Step(s, op).next.creds
    && var c, c' := s.creds[id], Step(s, op).next.creds[id];
       c' == c.(status := NextCredStatus(s, op, id), updatedAt := c'.updatedAt) && (c'.status == c.status ==> c' == c)
  }

  lemma CredentialAs(s: State, op: Op, id: string, status: Status, at: int)
    requires id in s.creds && id in Step(s, op).next.creds && NextCredStatus(s, op, id) == status
    requires Step(s, op).next.creds[id] == if s.creds[id].status == status then s.creds[id] else s.creds[id].(status := status, updatedAt := at)
    ensures CredentialObeys(s, op, id)
  {
    hide Step, NextCredStatus;
  }

  /** For every call and credential: exactly which call suspends, reinstates or ends it, and that nothing else about it ever changes but
      the time of that change. */
  lemma CredentialLaw(s: State, op: Op, id: string)
    requires Inv(s) && Fresh(s, op) && id in s.creds
    ensures CredentialObeys(s, op, id)
  {
    hide Inv, Step, Fresh, CredentialObeys;
    match op
    case TransitionUser(_, _, _, _, _) => UserCredentialLaw(s, op, id);
    case Rotate(_, _, _, _, _) => RotateCredentialLaw(s, op, id);
    case TransitionCredential(_, _, _, _) => TransitionCredentialLaw(s, op, id);
    case CreateCredential(_, _, _, _, _) => NewCredentialLaw(s, op, id);
    case _ => QuietCredentialLaw(s, op, id);
  }

  lemma UserCredentialLaw(s: State, op: Op, id: string)
    requires Inv(s) && id in s.creds && op.TransitionUser?
    ensures CredentialObeys(s, op, id)
  {
    hide Step, Inv, SessionsEnd;
    TransitionUserErrors(s, op);
    if op.usrId in s.users && s.users[op.usrId].status != Revoked && s.users[op.usrId].status != op.target {
      if op.target == Active {
        ReinstateUserEffect(s, op);
      } else if op.target == Suspended {
        SuspendUserEffect(s, op);
      } else {
        RevokeUserEffect(s, op);
      }
    }
    CredentialAs(s, op, id, NextCredStatus(s, op, id), op.stamps(id));
  }

  lemma RotateCredentialLaw(s: State, op: Op, id: string)
    requires Inv(s) && Fresh(s, op) && id in s.creds && op.Rotate?
    ensures CredentialObeys(s, op, id)
  {
    assert op.newId != id;
    hide Step, Inv, Fresh, SecretFiled, SessionsEnd;
    RotateErrors(s, op);
    if Step(s, op).error.None? {
      RotateEffect(s, op);
      if id != op.credId {
        SameButMeans(s.creds, Step(s, op).next.creds, {op.credId, op.newId}, id);
      }
    }
    CredentialAs(s, op, id, NextCredStatus(s, op, id), op.now);
  }

  lemma TransitionCredentialLaw(s: State, op: Op, id: string)
    requires Inv(s) && id in s.creds && op.TransitionCredential?
    ensures CredentialObeys(s, op, id)
  {
    hide Step, Inv, SessionsEnd, LiveOn;
    TransitionCredentialErrors(s, op);
    if Step(s, op).error.None? && op.credId in s.creds && s.creds[op.credId].status != op.target {
      TransitionCredentialEffect(s, op);
    }
    CredentialAs(s, op, id, NextCredStatus(s, op, id), op.now);
  }

  lemma NewCredentialLaw(s: State, op: Op, id: string)
    requires Fresh(s, op) && id in s.creds && op.CreateCredential?
    ensures CredentialObeys(s, op, id)
  {
    assert op.id != id;
    CreateCredentialEffect(s, op);
    hide Step, Fresh, SecretFiled;
    if Step(s, op).next != s {
      SameButMeans(s.creds, Step(s, op).next.creds, {op.id}, id);
    }
    CredentialAs(s, op, id, s.creds[id].status, op.now);
  }

  lemma QuietCredentialLaw(s: State, op: Op, id: string)
    requires Inv(s) && id in s.creds
    requires op.CreateUser? || op.UpdateUser? || op.CreateSession? || op.RefreshSession? || op.RevokeSession?
    ensures CredentialObeys(s, op, id)
  {
    hide Step, Inv, SessionsEnd, SessionOpens;
    if op.CreateUser? {
      CreateUserEffect(s, op);
    } else if op.UpdateUser? {
      UpdateUserEffect(s, op);
    } else {
      SessionCallKeepsCredentials(s, op);
    }
    CredentialAs(s, op, id, s.creds[id].status, 0);
  }

  lemma SessionCallKeepsCredentials(s: State, op: Op)
    requires Inv(s) && (op.CreateSession? || op.RefreshSession? || op.RevokeSession?)
    ensures Step(s, op).next.creds == s.creds && Step(s, op).next.users == s.users
  {
    hide Inv, RevokeSessions;
    if op.RefreshSession? || op.RevokeSession? {
      RevokeSessionsFrame(s, {op.sesId}, op.now);
    }
  }
}
