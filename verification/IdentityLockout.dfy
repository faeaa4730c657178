/**
 * How long a lock-out lasts.  Suspending or revoking a user, and ending a credential, ends its sessions;
 * this says over whole runs when such a user or credential can have a live session again, and exactly
 * which calls give a user who is not active one.
 */
module IdentityLockout {
  import opened Common
  import opened IdentityModel

  // ---------------------------------------------------------------- until the next session

  ghost predicate NoLiveOfUser(s: State, usrId: string) {
    forall id :: id in s.sessions && s.sessions[id].usrId == usrId ==> s.sessions[id].revokedAt.Some?
  }

  ghost predicate NoLiveOfCredential(s: State, credId: string) {
    forall id :: id in s.sessions && s.sessions[id].credId == credId ==> s.sessions[id].revokedAt.Some?
  }

  predicate OpensForUser(op: Op, usrId: string) {
    op.CreateSession? && op.usrId == usrId
  }

  predicate OpensForCredential(op: Op, credId: string) {
    op.CreateSession? && op.credId == credId
  }

  /** Sessions may end, but none appears, changes hands or comes back. */
  ghost predicate OnlyEnds(before: Sessions, after: Sessions) {
    forall id :: id in after ==>
      && id in before && after[id].usrId == before[id].usrId && after[id].credId == before[id].credId
      && (before[id].revokedAt.Some? ==> after[id].revokedAt.Some?)
  }

  lemma RevokingOnlyEnds(s: State, ids: set<string>, at: int)
    ensures OnlyEnds(s.sessions, RevokeSessions(s, ids, at).sessions)
  {
  }

  lemma OnlyEndsSame(sessions: Sessions)
    ensures OnlyEnds(sessions, sessions)
  {
  }

  lemma TransitionUserOnlyEnds(s: State, op: Op)
    requires op.TransitionUser?
    ensures OnlyEnds(s.sessions, StepTransitionUser(s, op).next.sessions)
  {
    hide RevokeSessions, LiveOfUser, ActiveOfUser, OnlyEnds;
    OnlyEndsSame(s.sessions);
    if op.usrId in s.users {
      var s1 := s.(users := s.users[op.usrId := s.users[op.usrId].(status := op.target, updatedAt := op.now)]);
      RevokingOnlyEnds(s1, LiveOfUser(s1.sessions, op.usrId), op.cascadeAt);
    }
  }

  lemma RotateOnlyEnds(s: State, op: Op)
    requires op.Rotate?
    ensures OnlyEnds(s.sessions, StepRotate(s, op).next.sessions)
  {
    hide RevokeSessions, LiveOfCredential, OnlyEnds, WithSecret;
    OnlyEndsSame(s.sessions);
    SecretFrame(s, op.newId, op.input);
    forall s1: State | s1.sessions == s.sessions
      ensures OnlyEnds(s.sessions, RevokeSessions(s1, LiveOfCredential(s1.sessions, op.credId), op.cascadeAt).sessions)
    {
      RevokingOnlyEnds(s1, LiveOfCredential(s1.sessions, op.credId), op.cascadeAt);
    }
  }

  lemma TransitionCredentialOnlyEnds(s: State, op: Op)
    requires op.TransitionCredential?
    ensures OnlyEnds(s.sessions, StepTransitionCredential(s, op).next.sessions)
  {
    hide RevokeSessions, LiveOfCredential, OnlyEnds;
    OnlyEndsSame(s.sessions);
    forall s1: State | s1.sessions == s.sessions
      ensures OnlyEnds(s.sessions, RevokeSessions(s1, LiveOfCredential(s1.sessions, op.credId), op.cascadeAt).sessions)
    {
      RevokingOnlyEnds(s1, LiveOfCredential(s1.sessions, op.credId), op.cascadeAt);
    }
  }

  lemma OtherCallsOnlyEnd(s: State, op: Op)
    requires op.CreateUser? || op.UpdateUser? || op.CreateCredential? || op.RevokeSession?
    ensures OnlyEnds(s.sessions, Step(s, op).next.sessions)
  {
    hide RevokeSessions, OnlyEnds, WithSecret;
    OnlyEndsSame(s.sessions);
    if op.CreateCredential? {
      SecretFrame(s, op.id, op.input);
    } else if op.RevokeSession? {
      RevokingOnlyEnds(s, {op.sesId}, op.now);
    }
  }

  /** No call but a creation or a refresh brings a session. */
  lemma CallsOnlyEnd(s: State, op: Op)
    requires !op.CreateSession? && !op.RefreshSession?
    ensures OnlyEnds(s.sessions, Step(s, op).next.sessions)
  {
    hide OnlyEnds, StepTransitionUser, StepRotate, StepTransitionCredential;
    match op
    case TransitionUser(_, _, _, _, _) => TransitionUserOnlyEnds(s, op);
    case Rotate(_, _, _, _, _) => RotateOnlyEnds(s, op);
    case TransitionCredential(_, _, _, _) => TransitionCredentialOnlyEnds(s, op);
    case _ => OtherCallsOnlyEnd(s, op);
  }

  /** A creation or a refresh brings one session; a refresh hands on user and credential of a live one. */
  lemma BroughtSession(s: State, op: Op)
    requires op.CreateSession? || op.RefreshSession?
    ensures var s', newId := Step(s, op).next, if op.CreateSession? then op.id else op.newId;
      || OnlyEnds(s.sessions, s'.sessions)
      || (&& newId in s'.sessions && OnlyEnds(s.sessions, s'.sessions - {newId})
          && if op.CreateSession? then s'.sessions[newId].usrId == op.usrId && s'.sessions[newId].credId == op.credId
             else && op.sesId in s.sessions && s.sessions[op.sesId].revokedAt.None?
                  && s'.sessions[newId].usrId == s.sessions[op.sesId].usrId
                  && s'.sessions[newId].credId == s.sessions[op.sesId].credId)
  {
    hide OnlyEnds, RevokeSessions;
    OnlyEndsSame(s.sessions);
    if op.CreateSession? {
      OnlyEndsLess(s.sessions, s.sessions, op.id);
      assert op.id in Step(s, op).next.sessions ==> Step(s, op).next.sessions - {op.id} == s.sessions - {op.id};
    } else {
      var ended := RevokeSessions(s, {op.sesId}, op.now).sessions;
      RevokingOnlyEnds(s, {op.sesId}, op.now);
      OnlyEndsLess(s.sessions, ended, op.newId);
      assert StepRefreshSession(s, op).error.None? ==> Step(s, op).next.sessions - {op.newId} == ended - {op.newId};
    }
  }

  lemma OnlyEndsLess(before: Sessions, after: Sessions, id: string)
    requires OnlyEnds(before, after)
    ensures OnlyEnds(before, after - {id})
  {
  }

  lemma StepOpensNone(s: State, op: Op, usrId: string, credId: string)
    ensures NoLiveOfUser(s, usrId) && !OpensForUser(op, usrId) ==> NoLiveOfUser(Step(s, op).next, usrId)
    ensures NoLiveOfCredential(s, credId) && !OpensForCredential(op, credId) ==> NoLiveOfCredential(Step(s, op).next, credId)
  {
    hide Step;
    if op.CreateSession? || op.RefreshSession? {
      BroughtSession(s, op);
      var s', newId := Step(s, op).next, if op.CreateSession? then op.id else op.newId;
      assert forall id :: id in s'.sessions && id != newId ==> id in s'.sessions - {newId};
    } else {
      CallsOnlyEnd(s, op);
    }
  }

  lemma {:induction false} RunOpensNone(s: State, ops: seq<Op>, usrId: string, credId: string)
    ensures NoLiveOfUser(s, usrId) && (forall op :: op in ops ==> !OpensForUser(op, usrId)) ==> NoLiveOfUser(Run(s, ops), usrId)
    ensures NoLiveOfCredential(s, credId) && (forall op :: op in ops ==> !OpensForCredential(op, credId))
        ==> NoLiveOfCredential(Run(s, ops), credId)
    decreases |ops|
  {
    hide Step, NoLiveOfUser, NoLiveOfCredential, OpensForUser, OpensForCredential;
    if ops == [] {
    } else {
      StepOpensNone(s, ops[0], usrId, credId);
      assert ops[0] in ops;
      assert forall op :: op in ops[1..] ==> op in ops;
      RunOpensNone(Step(s, ops[0]).next, ops[1..], usrId, credId);
    }
  }

  lemma VerifiedIsLive(s: State, hash: string, now: int)
    requires VerifySession(s, hash, now).Ok?
    ensures var ses := VerifySession(s, hash, now).value;
      ses.revokedAt.None? && exists id :: id in s.sessions && s.sessions[id] == ses
  {
  }

  /** From a suspension or revocation of a user until a session is next created for that user, no session token of the user
      verifies, whatever else happens; a reinstatement alone brings none back. */
  lemma UserStaysLockedOut(s: State, op: Op, ops: seq<Op>, hash: string, now: int)
    requires Inv(s) && op.TransitionUser? && op.target != Active
    requires Step(s, op).error.None? && s.users[op.usrId].status != op.target
    requires forall later :: later in ops ==> !OpensForUser(later, op.usrId)
    ensures var r := VerifySession(Run(Step(s, op).next, ops), hash, now); r.Ok? ==> r.value.usrId != op.usrId
  {
    assert NoLiveOfUser(Step(s, op).next, op.usrId);
    hide Step, Inv, Run, VerifySession, NoLiveOfCredential;
    var end := Run(Step(s, op).next, ops);
    RunOpensNone(Step(s, op).next, ops, op.usrId, "");
    if VerifySession(end, hash, now).Ok? {
      VerifiedIsLive(end, hash, now);
    }
  }

  lemma EndedHasNoLive(s: State, op: Op)
    requires Inv(s) && Fresh(s, op) && Step(s, op).error.None?
    requires (op.TransitionCredential? && op.target != Active) || op.Rotate?
    ensures NoLiveOfCredential(Step(s, op).next, op.credId)
  {
    StepKeepsInv(s, op);
    EndedCredential(s, op);
    hide Step, Ids, IndexSound, TokensExact;
  }

  /** From the end of a credential, by suspension, revocation or rotation, until a session is next created on it, no session
      token of it verifies. */
  lemma CredentialStaysLockedOut(s: State, op: Op, ops: seq<Op>, hash: string, now: int)
    requires Inv(s) && Fresh(s, op) && Step(s, op).error.None?
    requires (op.TransitionCredential? && op.target != Active) || op.Rotate?
    requires forall later :: later in ops ==> !OpensForCredential(later, op.credId)
    ensures var r := VerifySession(Run(Step(s, op).next, ops), hash, now); r.Ok? ==> r.value.credId != op.credId
  {
    EndedHasNoLive(s, op);
    hide Step, Inv, Run, VerifySession, NoLiveOfUser;
    var end := Run(Step(s, op).next, ops);
    RunOpensNone(Step(s, op).next, ops, "", op.credId);
    if VerifySession(end, hash, now).Ok? {
      VerifiedIsLive(end, hash, now);
    }
  }

  lemma RevokedStaysRevoked(s: State, op: Op, credId: string)
    requires Fresh(s, op) && credId in s.creds && s.creds[credId].status == Revoked
    ensures credId in Step(s, op).next.creds && Step(s, op).next.creds[credId] == s.creds[credId]
  {
    hide RevokeSessions, WithSecret, LiveOfUser, LiveOfCredential, StepRotate, StepTransitionCredential;
    match op
    case Rotate(_, _, _, _, _) => RevokedNotRotated(s, op, credId);
    case TransitionCredential(_, _, _, _) => RevokedNotTransitioned(s, op, credId);
    case TransitionUser(_, _, _, _, _) =>
      if op.usrId in s.users {
        var s1 := s.(users := s.users[op.usrId := s.users[op.usrId].(status := op.target, updatedAt := op.now)]);
        RevokeSessionsFrame(s1, LiveOfUser(s1.sessions, op.usrId), op.cascadeAt);
      }
    case CreateCredential(_, _, _, _, _) => SecretFrame(s, op.id, op.input);
    case RefreshSession(_, _, _, _, _) => RevokeSessionsFrame(s, {op.sesId}, op.now);
    case RevokeSession(_, _) => RevokeSessionsFrame(s, {op.sesId}, op.now);
    case _ =>
  }

  lemma RevokedNotRotated(s: State, op: Op, credId: string)
    requires Fresh(s, op) && op.Rotate? && credId in s.creds && s.creds[credId].status == Revoked
    ensures credId in StepRotate(s, op).next.creds && StepRotate(s, op).next.creds[credId] == s.creds[credId]
  {
    hide RevokeSessions, WithSecret, LiveOfCredential;
    SecretFrame(s, op.newId, op.input);
    forall s1: State, ids, at ensures RevokeSessions(s1, ids, at).creds == s1.creds {
      RevokeSessionsFrame(s1, ids, at);
    }
  }

  lemma RevokedNotTransitioned(s: State, op: Op, credId: string)
    requires op.TransitionCredential? && credId in s.creds && s.creds[credId].status == Revoked
    ensures var s' := StepTransitionCredential(s, op).next; credId in s'.creds && s'.creds[credId] == s.creds[credId]
  {
    hide RevokeSessions, LiveOfCredential;
    if op.credId in s.creds {
      var c := s.creds[op.credId].(status := op.target, updatedAt := op.now);
      var s1 := s.(creds := s.creds[op.credId := c], activeCred := s.activeCred - {c.Key()});
      RevokeSessionsFrame(s1, LiveOfCredential(s1.sessions, op.credId), op.cascadeAt);
    }
  }

  /** A revoked or rotated credential never changes again and no session token of it ever verifies, over any run at all. */
  lemma {:induction false} RevokedCredentialIsGone(s: State, ops: seq<Op>, credId: string, hash: string, now: int)
    requires Inv(s) && FreshRun(s, ops) && credId in s.creds && s.creds[credId].status == Revoked
    ensures credId in Run(s, ops).creds && Run(s, ops).creds[credId] == s.creds[credId]
    ensures var r := VerifySession(Run(s, ops), hash, now); r.Ok? ==> r.value.credId != credId
    decreases |ops|
  {
    hide Step, Fresh;
    if ops == [] {
      hide Ids, IndexSound, TokensExact;
    } else {
      hide Inv, VerifySession;
      RevokedStaysRevoked(s, ops[0], credId);
      StepKeepsInv(s, ops[0]);
      RevokedCredentialIsGone(Step(s, ops[0]).next, ops[1..], credId, hash, now);
    }
  }

  // ---------------------------------------------------------------- users who are not active

  /** Live sessions belong to active users. */
  ghost predicate LiveUsersActive(users: map<string, User>, sessions: Sessions) {
    forall id :: id in sessions && sessions[id].revokedAt.None? ==> sessions[id].usrId in users && users[sessions[id].usrId].status == Active
  }

  /** The guards of a session, none of which looks at the user's status. */
  predicate OpensForInactive(s: State, op: Op) {
    && op.CreateSession? && op.usrId in s.users && s.users[op.usrId].status != Active
    && op.credId in s.creds && s.creds[op.credId].usrId == op.usrId && s.creds[op.credId].status == Active
  }

  /** A call gives a suspended or revoked user a live session if and only if it creates one for such a user. */
  lemma StepLiveUsersIff(s: State, op: Op)
    requires Fresh(s, op) && LiveUsersActive(s.users, s.sessions)
    ensures LiveUsersActive(Step(s, op).next.users, Step(s, op).next.sessions) <==> !OpensForInactive(s, op)
  {
    hide LiveUsersActive, StepTransitionUser, StepCreateSession;
    match op
    case TransitionUser(_, _, _, _, _) => TransitionUserLive(s, op);
    case CreateCredential(_, _, _, _, _) => CredentialCallsLive(s, op);
    case Rotate(_, _, _, _, _) => CredentialCallsLive(s, op);
    case TransitionCredential(_, _, _, _) => CredentialCallsLive(s, op);
    case CreateSession(_, _, _, _, _, _) => CreateSessionLiveIff(s, op);
    case _ => OtherCallsLive(s, op);
  }

  lemma TransitionUserLive(s: State, op: Op)
    requires LiveUsersActive(s.users, s.sessions) && op.TransitionUser?
    ensures LiveUsersActive(StepTransitionUser(s, op).next.users, StepTransitionUser(s, op).next.sessions)
  {
    hide RevokeCredentials;
    if op.usrId in s.users {
      var s1 := s.(users := s.users[op.usrId := s.users[op.usrId].(status := op.target, updatedAt := op.now)]);
      var s2 := RevokeSessions(s1, LiveOfUser(s1.sessions, op.usrId), op.cascadeAt);
      RevokeCredentialsFrame(s2, ActiveOfUser(s2.creds, op.usrId), op.stamps);
      assert LiveUsersActive(s2.users, s2.sessions);
    }
  }

  lemma CredentialCallsLive(s: State, op: Op)
    requires LiveUsersActive(s.users, s.sessions) && (op.CreateCredential? || op.Rotate? || op.TransitionCredential?)
    ensures LiveUsersActive(Step(s, op).next.users, Step(s, op).next.sessions)
  {
    CallsOnlyEnd(s, op);
    CredentialCallsKeepUsers(s, op);
    hide Step;
  }

  lemma CredentialCallsKeepUsers(s: State, op: Op)
    requires op.CreateCredential? || op.Rotate? || op.TransitionCredential?
    ensures Step(s, op).next.users == s.users
  {
    hide RevokeSessions, WithSecret;
    forall s1: State, ids, at ensures RevokeSessions(s1, ids, at).users == s1.users {
      RevokeSessionsFrame(s1, ids, at);
    }
    forall id, input ensures WithSecret(s, id, input).users == s.users {
      SecretFrame(s, id, input);
    }
  }

  lemma CreateSessionLiveIff(s: State, op: Op)
    requires Fresh(s, op) && LiveUsersActive(s.users, s.sessions) && op.CreateSession?
    ensures LiveUsersActive(StepCreateSession(s, op).next.users, StepCreateSession(s, op).next.sessions) <==> !OpensForInactive(s, op)
  {
    if OpensForInactive(s, op) {
      assert StepCreateSession(s, op).next.sessions[op.id].revokedAt.None?;
    }
  }

  lemma OtherCallsLive(s: State, op: Op)
    requires Fresh(s, op) && LiveUsersActive(s.users, s.sessions)
    requires op.CreateUser? || op.UpdateUser? || op.RefreshSession? || op.RevokeSession?
    ensures LiveUsersActive(Step(s, op).next.users, Step(s, op).next.sessions)
  {
    hide RevokeSessions;
    if op.RefreshSession? || op.RevokeSession? {
      RevokeSessionsFrame(s, {op.sesId}, op.now);
      RevokingOnlyEnds(s, {op.sesId}, op.now);
    }
  }

  predicate NeverOpensForInactive(s: State, ops: seq<Op>)
    decreases |ops|
  {
    ops == [] || (!OpensForInactive(s, ops[0]) && NeverOpensForInactive(Step(s, ops[0]).next, ops[1..]))
  }

  lemma {:induction false} RunLiveUsers(s: State, ops: seq<Op>)
    requires LiveUsersActive(s.users, s.sessions) && FreshRun(s, ops) && NeverOpensForInactive(s, ops)
    ensures LiveUsersActive(Run(s, ops).users, Run(s, ops).sessions)
    decreases |ops|
  {
    hide Step, Fresh, LiveUsersActive, OpensForInactive;
    if ops == [] {
    } else {
      StepLiveUsersIff(s, ops[0]);
      RunLiveUsers(Step(s, ops[0]).next, ops[1..]);
    }
  }

  /** Without such calls, in every reachable state a session token verifies only for an active user. */
  lemma TokensOfActiveUsersOnly(ops: seq<Op>, hash: string, now: int)
    requires FreshRun(EMPTY, ops) && NeverOpensForInactive(EMPTY, ops)
    ensures var s, r := Run(EMPTY, ops), VerifySession(Run(EMPTY, ops), hash, now);
      r.Ok? ==> r.value.usrId in s.users && s.users[r.value.usrId].status == Active
  {
    RunLiveUsers(EMPTY, ops);
    hide Run;
  }

  // ---------------------------------------------------------------- credentials of revoked users

  predicate Standing(users: map<string, User>, usrId: string) {
    usrId in users && users[usrId].status != Revoked
  }

  /** Active credentials belong to users who are not revoked. */
  ghost predicate OwnersStanding(users: map<string, User>, creds: Creds) {
    forall id :: id in creds && creds[id].status == Active ==> Standing(users, creds[id].usrId)
  }

  /** Creating or reinstating a credential, with guards that do not look at the user's status. */
  predicate ArmsRevoked(s: State, op: Op) {
    match op
    case CreateCredential(usrId, input, identifier, _, _) =>
      usrId in s.users && !Standing(s.users, usrId) && (input.AsKind().TypeName(), identifier) !in s.activeCred && !input.Refused()
    case TransitionCredential(credId, target, _, _) =>
      && target == Active && credId in s.creds && s.creds[credId].status == Suspended
      && s.creds[credId].Key() !in s.activeCred && !Standing(s.users, s.creds[credId].usrId)
    case _ => false
  }

  /** Revoking the credentials of a user leaves active ones only to others. */
  lemma CredentialsOfOthers(s: State, usrId: string, stamps: string -> int)
    ensures var s' := RevokeCredentials(s, ActiveOfUser(s.creds, usrId), stamps);
      && s'.users == s.users
      && forall id :: id in s'.creds && s'.creds[id].status == Active ==> id in s.creds && s'.creds[id] == s.creds[id] && s.creds[id].usrId != usrId
  {
  }

  lemma TransitionUserStanding(s: State, op: Op)
    requires OwnersStanding(s.users, s.creds) && op.TransitionUser?
    ensures OwnersStanding(StepTransitionUser(s, op).next.users, StepTransitionUser(s, op).next.creds)
  {
    hide RevokeSessions, LiveOfUser, RevokeCredentials;
    if op.usrId in s.users {
      var s1 := s.(users := s.users[op.usrId := s.users[op.usrId].(status := op.target, updatedAt := op.now)]);
      RevokeSessionsFrame(s1, LiveOfUser(s1.sessions, op.usrId), op.cascadeAt);
      CredentialsOfOthers(RevokeSessions(s1, LiveOfUser(s1.sessions, op.usrId), op.cascadeAt), op.usrId, op.stamps);
    }
  }

  lemma TransitionCredentialStandingIff(s: State, op: Op)
    requires OwnersStanding(s.users, s.creds) && op.TransitionCredential?
    ensures OwnersStanding(StepTransitionCredential(s, op).next.users, StepTransitionCredential(s, op).next.creds) <==> !ArmsRevoked(s, op)
  {
    hide RevokeSessions, LiveOfCredential;
    if op.credId in s.creds {
      var c := s.creds[op.credId].(status := op.target, updatedAt := op.now);
      var s1 := s.(creds := s.creds[op.credId := c], activeCred := s.activeCred - {c.Key()});
      RevokeSessionsFrame(s1, LiveOfCredential(s1.sessions, op.credId), op.cascadeAt);
      assert s.creds[op.credId := c][op.credId].usrId == s.creds[op.credId].usrId;
    }
  }

  lemma NewCredentialStandingIff(s: State, op: Op)
    requires OwnersStanding(s.users, s.creds) && Fresh(s, op) && op.CreateCredential?
    ensures OwnersStanding(StepCreateCredential(s, op).next.users, StepCreateCredential(s, op).next.creds) <==> !ArmsRevoked(s, op)
  {
    hide WithSecret;
    SecretFrame(s, op.id, op.input);
    if ArmsRevoked(s, op) {
      assert StepCreateCredential(s, op).next.creds[op.id].status == Active;
    }
  }

  lemma RotateStanding(s: State, op: Op)
    requires OwnersStanding(s.users, s.creds) && op.Rotate?
    ensures OwnersStanding(StepRotate(s, op).next.users, StepRotate(s, op).next.creds)
  {
    hide RevokeSessions, LiveOfCredential, WithSecret;
    SecretFrame(s, op.newId, op.input);
    forall s1: State, ids, at ensures RevokeSessions(s1, ids, at).creds == s1.creds && RevokeSessions(s1, ids, at).users == s1.users {
      RevokeSessionsFrame(s1, ids, at);
    }
  }

  /** A call gives a revoked user an active credential if and only if it creates or reinstates one for that user. */
  lemma StepOwnersStandingIff(s: State, op: Op)
    requires OwnersStanding(s.users, s.creds) && Fresh(s, op)
    ensures OwnersStanding(Step(s, op).next.users, Step(s, op).next.creds) <==> !ArmsRevoked(s, op)
  {
    hide RevokeSessions, StepTransitionUser, StepTransitionCredential, StepCreateCredential, StepRotate;
    match op
    case TransitionUser(_, _, _, _, _) => TransitionUserStanding(s, op);
    case TransitionCredential(_, _, _, _) => TransitionCredentialStandingIff(s, op);
    case CreateCredential(_, _, _, _, _) => NewCredentialStandingIff(s, op);
    case Rotate(_, _, _, _, _) => RotateStanding(s, op);
    case RefreshSession(_, _, _, _, _) => RevokeSessionsFrame(s, {op.sesId}, op.now);
    case RevokeSession(_, _) => RevokeSessionsFrame(s, {op.sesId}, op.now);
    case _ =>
  }

  predicate NeverArmsRevoked(s: State, ops: seq<Op>)
    decreases |ops|
  {
    ops == [] || (!ArmsRevoked(s, ops[0]) && NeverArmsRevoked(Step(s, ops[0]).next, ops[1..]))
  }

  lemma {:induction false} RunOwnersStanding(s: State, ops: seq<Op>)
    requires OwnersStanding(s.users, s.creds) && FreshRun(s, ops) && NeverArmsRevoked(s, ops)
    ensures OwnersStanding(Run(s, ops).users, Run(s, ops).creds)
    decreases |ops|
  {
    hide Step, Fresh, OwnersStanding, ArmsRevoked;
    if ops == [] {
    } else {
      StepOwnersStandingIff(s, ops[0]);
      RunOwnersStanding(Step(s, ops[0]).next, ops[1..]);
    }
  }

  /** Without such calls a revoked user has no active credential in any reachable state, and no session token that verifies. */
  lemma RevokedUsersStayOut(ops: seq<Op>, hash: string, now: int)
    requires FreshRun(EMPTY, ops) && NeverArmsRevoked(EMPTY, ops)
    ensures var s, r := Run(EMPTY, ops), VerifySession(Run(EMPTY, ops), hash, now);
      && (forall id :: id in s.creds && s.creds[id].status == Active ==> Standing(s.users, s.creds[id].usrId))
      && (r.Ok? ==> Standing(s.users, r.value.usrId))
  {
    EmptyInv();
    RunOwnersStanding(EMPTY, ops);
    RunKeepsInv(EMPTY, ops);
    hide Run, IndexSound, TokensExact;
  }

  /** A user is revoked, gets a new credential, and signs in. */
  function RevokedUserReturns(): seq<Op> {
    [ CreateUser(None, "u", 1),
      TransitionUser("u", Revoked, 2, 2, id => 2),
      CreateCredential("u", PasswordInput(Some("x")), "a@b", "c1", 3),
      CreateSession("u", "c1", 3600, "s1", "h", 4) ]
  }

  /** In the code as it is, that run ends with a session token that verifies for a revoked user. */
  lemma RevokedUserSignsIn()
    ensures FreshRun(EMPTY, RevokedUserReturns())
    ensures var s, r := Run(EMPTY, RevokedUserReturns()), VerifySession(Run(EMPTY, RevokedUserReturns()), "h", 5);
      "u" in s.users && s.users["u"].status == Revoked && r.Ok? && r.value.usrId == "u"
  {
    var ops := RevokedUserReturns();
    var s1 := Step(EMPTY, ops[0]).next;
    var s2 := Step(s1, ops[1]).next;
    var s3 := Step(s2, ops[2]).next;
    var s4 := Step(s3, ops[3]).next;
    assert s2.users["u"].status == Revoked && s2.creds == map[] && s2.sessions == map[];
    assert Run(EMPTY, ops) == s4;
  }

  // ---------------------------------------------------------------- stored secrets

  /** Exactly the password credentials have a stored hash, and exactly the passkeys a stored public key. */
  ghost predicate SecretsExact(creds: Creds, hashes: map<string, string>, keys: map<string, seq<bv8>>) {
    && (forall id :: id in hashes <==> id in creds && creds[id].kind.Password?)
    && (forall id :: id in keys <==> id in creds && creds[id].kind.Passkey?)
  }

  ghost predicate SecretsKept(s: State, s': State) {
    && (forall id :: id in s.passwordHashes ==> id in s'.passwordHashes && s'.passwordHashes[id] == s.passwordHashes[id])
    && (forall id :: id in s.passkeyKeys ==> id in s'.passkeyKeys && s'.passkeyKeys[id] == s.passkeyKeys[id])
  }

  ghost predicate SameKinds(creds: Creds, creds': Creds) {
    creds'.Keys == creds.Keys && forall id :: id in creds ==> creds'[id].kind == creds[id].kind
  }

  /** One credential more: of its kind, and the rest as before. */
  ghost predicate OneMore(creds: Creds, creds': Creds, id: string, kind: Kind) {
    && id !in creds && creds'.Keys == creds.Keys + {id} && creds'[id].kind == kind
    && forall x :: x in creds ==> creds'[x].kind == creds[x].kind
  }

  lemma PasswordAdded(creds: Creds, creds': Creds, hashes: map<string, string>, keys: map<string, seq<bv8>>, id: string, hash: string)
    requires SecretsExact(creds, hashes, keys) && OneMore(creds, creds', id, Password)
    ensures SecretsExact(creds', hashes[id := hash], keys)
  {
  }

  lemma PasskeyAdded(creds: Creds, creds': Creds, hashes: map<string, string>, keys: map<string, seq<bv8>>, id: string, kind: Kind, key: seq<bv8>)
    requires SecretsExact(creds, hashes, keys) && OneMore(creds, creds', id, kind) && kind.Passkey?
    ensures SecretsExact(creds', hashes, keys[id := key])
  {
  }

  lemma OidcAdded(creds: Creds, creds': Creds, hashes: map<string, string>, keys: map<string, seq<bv8>>, id: string, kind: Kind)
    requires SecretsExact(creds, hashes, keys) && OneMore(creds, creds', id, kind) && kind.Oidc?
    ensures SecretsExact(creds', hashes, keys)
  {
  }

  /** A new credential comes with the secret of its kind. */
  lemma SecretAdded(s: State, id: string, input: CredentialInput, creds: Creds)
    requires SecretsExact(s.creds, s.passwordHashes, s.passkeyKeys) && !input.Refused() && OneMore(s.creds, creds, id, input.AsKind())
    ensures var s' := WithSecret(s, id, input); SecretsExact(creds, s'.passwordHashes, s'.passkeyKeys) && SecretsKept(s, s')
  {
    assert id !in s.passwordHashes && id !in s.passkeyKeys;
    hide SecretsExact, OneMore;
    match input
    case PasswordInput(hash) => PasswordAdded(s.creds, creds, s.passwordHashes, s.passkeyKeys, id, hash.value);
    case PasskeyInput(key, _, _) => PasskeyAdded(s.creds, creds, s.passwordHashes, s.passkeyKeys, id, input.AsKind(), key);
    case OidcInput(_, _) => OidcAdded(s.creds, creds, s.passwordHashes, s.passkeyKeys, id, input.AsKind());
  }

  lemma SecretsFollowKinds(creds: Creds, creds': Creds, hashes: map<string, string>, keys: map<string, seq<bv8>>)
    requires SecretsExact(creds, hashes, keys) && SameKinds(creds, creds')
    ensures SecretsExact(creds', hashes, keys)
  {
  }

  lemma TransitionUserKeepsKinds(s: State, op: Op)
    requires op.TransitionUser?
    ensures var s' := StepTransitionUser(s, op).next;
      SameKinds(s.creds, s'.creds) && s'.passwordHashes == s.passwordHashes && s'.passkeyKeys == s.passkeyKeys
  {
    hide RevokeSessions, LiveOfUser, RevokeCredentials, SameKinds;
    KindsStay(s.creds);
    if op.usrId in s.users {
      var s1 := s.(users := s.users[op.usrId := s.users[op.usrId].(status := op.target, updatedAt := op.now)]);
      var s2 := RevokeSessions(s1, LiveOfUser(s1.sessions, op.usrId), op.cascadeAt);
      RevokeSessionsSecrets(s1, LiveOfUser(s1.sessions, op.usrId), op.cascadeAt);
      RevokeCredentialsFrame(s2, ActiveOfUser(s2.creds, op.usrId), op.stamps);
    }
  }

  lemma KindsStay(creds: Creds)
    ensures SameKinds(creds, creds)
  {
  }

  lemma RevokeCredentialsFrame(s: State, ids: set<string>, stamps: string -> int)
    requires ids <= s.creds.Keys
    ensures var s' := RevokeCredentials(s, ids, stamps);
      && SameKinds(s.creds, s'.creds) && s'.users == s.users && s'.sessions == s.sessions
      && s'.passwordHashes == s.passwordHashes && s'.passkeyKeys == s.passkeyKeys
  {
  }

  lemma TransitionCredentialKeepsKinds(s: State, op: Op)
    requires op.TransitionCredential?
    ensures var s' := StepTransitionCredential(s, op).next;
      SameKinds(s.creds, s'.creds) && s'.passwordHashes == s.passwordHashes && s'.passkeyKeys == s.passkeyKeys
  {
    hide RevokeSessions, LiveOfCredential, SameKinds;
    KindsStay(s.creds);
    if op.credId in s.creds {
      var c := s.creds[op.credId].(status := op.target, updatedAt := op.now);
      var s1 := s.(creds := s.creds[op.credId := c], activeCred := s.activeCred - {c.Key()});
      RevokeSessionsSecrets(s1, LiveOfCredential(s1.sessions, op.credId), op.cascadeAt);
      OneKindStays(s.creds, op.credId, c);
    }
  }

  lemma OneKindStays(creds: Creds, id: string, c: Credential)
    requires id in creds && c.kind == creds[id].kind
    ensures SameKinds(creds, creds[id := c])
  {
  }

  /** Every call but the two that make credentials leaves secrets and kinds alone. */
  lemma OtherCallsKeepKinds(s: State, op: Op)
    requires !op.CreateCredential? && !op.Rotate?
    ensures var s' := Step(s, op).next;
      SameKinds(s.creds, s'.creds) && s'.passwordHashes == s.passwordHashes && s'.passkeyKeys == s.passkeyKeys
  {
    hide RevokeSessions, StepTransitionUser, StepTransitionCredential, SameKinds;
    KindsStay(s.creds);
    match op
    case TransitionUser(_, _, _, _, _) => TransitionUserKeepsKinds(s, op);
    case TransitionCredential(_, _, _, _) => TransitionCredentialKeepsKinds(s, op);
    case RefreshSession(_, _, _, _, _) => RevokeSessionsSecrets(s, {op.sesId}, op.now);
    case RevokeSession(_, _) => RevokeSessionsSecrets(s, {op.sesId}, op.now);
    case _ =>
  }

  lemma RevokeSessionsSecrets(s: State, ids: set<string>, at: int)
    ensures var s2 := RevokeSessions(s, ids, at);
      s2.creds == s.creds && s2.passwordHashes == s.passwordHashes && s2.passkeyKeys == s.passkeyKeys
  {
  }

  lemma NewCredentialSecret(s: State, op: Op)
    requires Fresh(s, op) && SecretsExact(s.creds, s.passwordHashes, s.passkeyKeys) && op.CreateCredential?
    ensures var s' := StepCreateCredential(s, op).next;
      SecretsExact(s'.creds, s'.passwordHashes, s'.passkeyKeys) && SecretsKept(s, s')
  {
    hide WithSecret, SecretsExact;
    var s' := StepCreateCredential(s, op).next;
    if StepCreateCredential(s, op).error.None? {
      SecretAdded(s, op.id, op.input, s'.creds);
    }
  }

  lemma RotatedSecret(s: State, op: Op)
    requires Fresh(s, op) && SecretsExact(s.creds, s.passwordHashes, s.passkeyKeys) && op.Rotate?
    ensures var s' := StepRotate(s, op).next;
      SecretsExact(s'.creds, s'.passwordHashes, s'.passkeyKeys) && SecretsKept(s, s')
  {
    hide WithSecret, SecretsExact, RevokeSessions, LiveOfCredential;
    var s' := StepRotate(s, op).next;
    forall s1: State, ids, at
      ensures var s2 := RevokeSessions(s1, ids, at);
        s2.creds == s1.creds && s2.passwordHashes == s1.passwordHashes && s2.passkeyKeys == s1.passkeyKeys
    {
      RevokeSessionsSecrets(s1, ids, at);
    }
    if StepRotate(s, op).error.None? {
      SecretAdded(s, op.newId, op.input, s'.creds);
    }
  }

  lemma StepKeepsSecrets(s: State, op: Op)
    requires SecretsExact(s.creds, s.passwordHashes, s.passkeyKeys) && Fresh(s, op)
    ensures var s' := Step(s, op).next; SecretsExact(s'.creds, s'.passwordHashes, s'.passkeyKeys) && SecretsKept(s, s')
  {
    hide Fresh, SecretsExact, SameKinds, StepCreateCredential, StepRotate;
    if op.CreateCredential? {
      NewCredentialSecret(s, op);
    } else if op.Rotate? {
      RotatedSecret(s, op);
    } else {
      hide Step;
      OtherCallsKeepKinds(s, op);
      SecretsFollowKinds(s.creds, Step(s, op).next.creds, s.passwordHashes, s.passkeyKeys);
    }
  }

  /** Over any run exactly the password credentials have a hash and the passkeys a key, and stored secrets never change. */
  lemma {:induction false} RunKeepsSecrets(s: State, ops: seq<Op>)
    requires SecretsExact(s.creds, s.passwordHashes, s.passkeyKeys) && FreshRun(s, ops)
    ensures var s' := Run(s, ops); SecretsExact(s'.creds, s'.passwordHashes, s'.passkeyKeys) && SecretsKept(s, s')
    decreases |ops|
  {
    hide Step, Fresh, SecretsExact;
    if ops == [] {
    } else {
      StepKeepsSecrets(s, ops[0]);
      RunKeepsSecrets(Step(s, ops[0]).next, ops[1..]);
    }
  }

  /** In every reachable state a password credential found by its identifier is active and has the hash to verify against. */
  lemma PasswordLookupHasHash(ops: seq<Op>, identifier: string)
    requires FreshRun(EMPTY, ops)
    ensures var s := Run(EMPTY, ops);
      ("password", identifier) in s.activeCred ==>
        var id := s.activeCred[("password", identifier)];
        id in s.creds && s.creds[id].status == Active && s.creds[id].identifier == identifier && id in s.passwordHashes
  {
    EmptyInv();
    RunKeepsInv(EMPTY, ops);
    RunKeepsSecrets(EMPTY, ops);
    hide Run, TokensExact, LiveCredentials;
  }
}
