/**
 * Users, credentials and sessions as a state machine, and what every call keeps: a session that is
 * not revoked has an active credential of its own user, and exactly those sessions have a token.
 */
module IdentityModel {
  import opened Common

  datatype Status = Active | Suspended | Revoked

  datatype User = User(id: string, status: Status, createdAt: int, updatedAt: int, displayName: Option<string>)

  /** The three credential variants with their own fields. */
  datatype Kind = Password | Passkey(signCount: int, rpId: string) | Oidc(issuer: string, subject: string)
  {
    function TypeName(): string {
      match this case Password => "password" case Passkey(_, _) => "passkey" case Oidc(_, _) => "oidc"
    }
  }

  /** What a new or rotated credential is made of.  A password arrives hashed, or not at all when it cannot be hashed. */
  datatype CredentialInput =
    | PasswordInput(hash: Option<string>)
    | PasskeyInput(publicKey: seq<bv8>, signCount: int, rpId: string)
    | OidcInput(issuer: string, subject: string)
  {
    function AsKind(): Kind {
      match this
      case PasswordInput(_) => Password
      case PasskeyInput(_, signCount, rpId) => Passkey(signCount, rpId)
      case OidcInput(issuer, subject) => Oidc(issuer, subject)
    }

    predicate Refused() { PasswordInput? && hash.None? }
  }

  datatype Credential = Credential(
    id: string, usrId: string, kind: Kind, identifier: string, status: Status, replacesId: Option<string>, createdAt: int, updatedAt: int)
  {
    function Key(): (string, string) { (kind.TypeName(), identifier) }
  }

  datatype Session = Session(id: string, usrId: string, credId: string, createdAt: int, expiresAt: int, revokedAt: Option<int>)

  datatype Error =
    | NotFound | AlreadyTerminal | DuplicateCredential | CredentialNotActive | CredentialTypeMismatch
    | SessionExpired | InvalidToken | PasswordRejected | Precondition(reason: string)

  /** The maps of the store.  Tokens are known only by their hashes. */
  datatype State = State(
    users: map<string, User>,
    creds: map<string, Credential>,
    activeCred: map<(string, string), string>,
    passwordHashes: map<string, string>,
    passkeyKeys: map<string, seq<bv8>>,
    sessions: map<string, Session>,
    tokenHash: map<string, string>,
    byTokenHash: map<string, string>)

  const EMPTY := State(map[], map[], map[], map[], map[], map[], map[], map[])

  /** Times are nanoseconds. */
  const SECOND := 1_000_000_000

  datatype Op =
    | CreateUser(displayName: Option<string>, id: string, now: int)
    | UpdateUser(usrId: string, displayName: Option<string>, clear: bool, now: int)
    | TransitionUser(usrId: string, target: Status, now: int, cascadeAt: int, stamps: string -> int)
    | CreateCredential(usrId: string, input: CredentialInput, identifier: string, id: string, now: int)
    | Rotate(credId: string, input: CredentialInput, newId: string, now: int, cascadeAt: int)
    | TransitionCredential(credId: string, target: Status, now: int, cascadeAt: int)
    | CreateSession(usrId: string, credId: string, ttlSeconds: int, id: string, hash: string, now: int)
    | RefreshSession(sesId: string, checkedAt: int, newId: string, hash: string, now: int)
    | RevokeSession(sesId: string, now: int)

  datatype Outcome = Outcome(next: State, error: Option<Error>)

  function Fails(s: State, e: Error): Outcome { Outcome(s, Some(e)) }
  function Succeeds(s: State): Outcome { Outcome(s, None) }

  // ---------------------------------------------------------------- sessions

  /** The hashes of the sessions `ids`. */
  function HashesOf(tokenHash: map<string, string>, ids: set<string>): set<string> {
    set id | id in ids && id in tokenHash :: tokenHash[id]
  }

  /** Revokes the sessions `ids` and forgets their tokens. */
  function RevokeSessions(s: State, ids: set<string>, at: int): State {
    s.(sessions := map id | id in s.sessions :: if id in ids then s.sessions[id].(revokedAt := Some(at)) else s.sessions[id],
       tokenHash := s.tokenHash - ids,
       byTokenHash := s.byTokenHash - HashesOf(s.tokenHash, ids))
  }

  function LiveOfUser(sessions: map<string, Session>, usrId: string): set<string> {
    set id | id in sessions && sessions[id].usrId == usrId && sessions[id].revokedAt.None?
  }

  function LiveOfCredential(sessions: map<string, Session>, credId: string): set<string> {
    set id | id in sessions && sessions[id].credId == credId && sessions[id].revokedAt.None?
  }

  function AddSession(s: State, ses: Session, hash: string): State {
    s.(sessions := s.sessions[ses.id := ses], tokenHash := s.tokenHash[ses.id := hash], byTokenHash := s.byTokenHash[hash := ses.id])
  }

  // ---------------------------------------------------------------- steps

  function StepCreateUser(s: State, op: Op): Outcome
    requires op.CreateUser?
  {
    Succeeds(s.(users := s.users[op.id := User(op.id, Active, op.now, op.now, op.displayName)]))
  }

  function StepUpdateUser(s: State, op: Op): Outcome
    requires op.UpdateUser?
  {
    if op.usrId !in s.users then Fails(s, NotFound)
    else
      var u := s.users[op.usrId];
      if u.status == Revoked then Fails(s, AlreadyTerminal)
      else
        var name := if op.clear then None else if op.displayName.Some? then op.displayName else u.displayName;
        Succeeds(s.(users := s.users[op.usrId := u.(displayName := name, updatedAt := op.now)]))
  }

  /** The credentials a revoked user takes along. */
  function ActiveOfUser(creds: map<string, Credential>, usrId: string): set<string> {
    set id | id in creds && creds[id].usrId == usrId && creds[id].status == Active
  }

  function RevokeCredentials(s: State, ids: set<string>, stamps: string -> int): State
    requires ids <= s.creds.Keys
  {
    s.(creds := map id | id in s.creds ::
                  if id in ids then s.creds[id].(status := Revoked, updatedAt := stamps(id)) else s.creds[id],
       activeCred := s.activeCred - (set id | id in ids :: s.creds[id].Key()))
  }

  function StepTransitionUser(s: State, op: Op): Outcome
    requires op.TransitionUser?
  {
    if op.usrId !in s.users then Fails(s, NotFound)
    else
      var u := s.users[op.usrId];
      if u.status == Revoked then Fails(s, AlreadyTerminal)
      else if u.status == op.target then Succeeds(s)
      else if op.target == Active && u.status != Suspended then Fails(s, Precondition("invalid_transition"))
      else
        var s1 := s.(users := s.users[op.usrId := u.(status := op.target, updatedAt := op.now)]);
        var s2 := if op.target == Active then s1 else RevokeSessions(s1, LiveOfUser(s1.sessions, op.usrId), op.cascadeAt);
        Succeeds(if op.target == Revoked then RevokeCredentials(s2, ActiveOfUser(s2.creds, op.usrId), op.stamps) else s2)
  }

  /** The secret of credential `id` goes to the map of its kind. */
  function WithSecret(s: State, id: string, input: CredentialInput): State {
    match input
    case PasswordInput(hash) => if hash.Some? then s.(passwordHashes := s.passwordHashes[id := hash.value]) else s
    case PasskeyInput(key, _, _) => s.(passkeyKeys := s.passkeyKeys[id := key])
    case OidcInput(_, _) => s
  }

  function StepCreateCredential(s: State, op: Op): Outcome
    requires op.CreateCredential?
  {
    var c := Credential(op.id, op.usrId, op.input.AsKind(), op.identifier, Active, None, op.now, op.now);
    if op.usrId !in s.users then Fails(s, NotFound)
    else if c.Key() in s.activeCred then Fails(s, DuplicateCredential)
    else if op.input.Refused() then Fails(s, PasswordRejected)
    else Succeeds(WithSecret(s, op.id, op.input).(creds := s.creds[op.id := c], activeCred := s.activeCred[c.Key() := op.id]))
  }

  /** Revoke and re-add; every live session of the old credential ends. */
  function StepRotate(s: State, op: Op): Outcome
    requires op.Rotate?
  {
    if op.credId !in s.creds then Fails(s, NotFound)
    else
      var c := s.creds[op.credId];
      if c.status != Active then Fails(s, CredentialNotActive)
      else if c.kind.TypeName() != op.input.AsKind().TypeName() then Fails(s, CredentialTypeMismatch)
      else if op.input.Refused() then Fails(s, PasswordRejected)
      else
        var successor := Credential(op.newId, c.usrId, op.input.AsKind(), c.identifier, Active, Some(op.credId), op.now, op.now);
        var s1 := WithSecret(s, op.newId, op.input).(
          creds := s.creds[op.credId := c.(status := Revoked, updatedAt := op.now)][op.newId := successor],
          activeCred := s.activeCred[c.Key() := op.newId]);
        Succeeds(RevokeSessions(s1, LiveOfCredential(s1.sessions, op.credId), op.cascadeAt))
  }

  function StepTransitionCredential(s: State, op: Op): Outcome
    requires op.TransitionCredential?
  {
    if op.credId !in s.creds then Fails(s, NotFound)
    else
      var c := s.creds[op.credId];
      if c.status == Revoked then Fails(s, AlreadyTerminal)
      else if c.status == op.target then Succeeds(s)
      else if op.target == Active && c.Key() in s.activeCred then Fails(s, DuplicateCredential)
      else
        var index := if op.target == Active then s.activeCred[c.Key() := op.credId] else s.activeCred - {c.Key()};
        var s1 := s.(creds := s.creds[op.credId := c.(status := op.target, updatedAt := op.now)], activeCred := index);
        Succeeds(if op.target == Active then s1 else RevokeSessions(s1, LiveOfCredential(s1.sessions, op.credId), op.cascadeAt))
  }

  function StepCreateSession(s: State, op: Op): Outcome
    requires op.CreateSession?
  {
    if op.usrId !in s.users then Fails(s, NotFound)
    else if op.credId !in s.creds then Fails(s, NotFound)
    else if s.creds[op.credId].usrId != op.usrId then Fails(s, Precondition("cred_user_mismatch"))
    else if s.creds[op.credId].status != Active then Fails(s, CredentialNotActive)
    else Succeeds(AddSession(s, Session(op.id, op.usrId, op.credId, op.now, op.now + op.ttlSeconds * SECOND, None), op.hash))
  }

  function StepRefreshSession(s: State, op: Op): Outcome
    requires op.RefreshSession?
  {
    if op.sesId !in s.sessions then Fails(s, NotFound)
    else
      var ses := s.sessions[op.sesId];
      if ses.revokedAt.Some? || op.checkedAt >= ses.expiresAt then Fails(s, SessionExpired)
      else
        var s1 := RevokeSessions(s, {op.sesId}, op.now);
        var ttl := ses.expiresAt - ses.createdAt;
        Succeeds(AddSession(s1, Session(op.newId, ses.usrId, ses.credId, op.now, op.now + ttl, None), op.hash))
  }

  function StepRevokeSession(s: State, op: Op): Outcome
    requires op.RevokeSession?
  {
    if op.sesId !in s.sessions then Fails(s, NotFound)
    else if s.sessions[op.sesId].revokedAt.Some? then Succeeds(s)
    else Succeeds(RevokeSessions(s, {op.sesId}, op.now))
  }

  function Step(s: State, op: Op): Outcome {
    match op
    case CreateUser(_, _, _) => StepCreateUser(s, op)
    case UpdateUser(_, _, _, _) => StepUpdateUser(s, op)
    case TransitionUser(_, _, _, _, _) => StepTransitionUser(s, op)
    case CreateCredential(_, _, _, _, _) => StepCreateCredential(s, op)
    case Rotate(_, _, _, _, _) => StepRotate(s, op)
    case TransitionCredential(_, _, _, _) => StepTransitionCredential(s, op)
    case CreateSession(_, _, _, _, _, _) => StepCreateSession(s, op)
    case RefreshSession(_, _, _, _, _) => StepRefreshSession(s, op)
    case RevokeSession(_, _) => StepRevokeSession(s, op)
  }

  /** What presenting a token yields; the revoked branch is the source's. */
  function VerifySession(s: State, hash: string, now: int): Result<Session, Error> {
    if hash !in s.byTokenHash || s.byTokenHash[hash] !in s.sessions then Err(InvalidToken)
    else
      var ses := s.sessions[s.byTokenHash[hash]];
      if ses.revokedAt.Some? then Err(SessionExpired)
      else if now >= ses.expiresAt then Err(SessionExpired)
      else Ok(ses)
  }

  /** Generated ids and token hashes are fresh. */
  predicate Fresh(s: State, op: Op) {
    match op
    case CreateUser(_, id, _) => id !in s.users
    case CreateCredential(_, _, _, id, _) => id !in s.creds
    case Rotate(_, _, newId, _, _) => newId !in s.creds
    case CreateSession(_, _, _, id, hash, _) => id !in s.sessions && hash !in s.byTokenHash
    case RefreshSession(_, _, newId, hash, _) => newId !in s.sessions && hash !in s.byTokenHash
    case _ => true
  }

  function Run(s: State, ops: seq<Op>): State
    decreases |ops|
  {
    if ops == [] then s else Run(Step(s, ops[0]).next, ops[1..])
  }

  predicate FreshRun(s: State, ops: seq<Op>)
    decreases |ops|
  {
    ops == [] || (Fresh(s, ops[0]) && FreshRun(Step(s, ops[0]).next, ops[1..]))
  }

  lemma TwoSteps(s: State, op1: Op, op2: Op)
    ensures Run(s, [op1, op2]) == Step(Step(s, op1).next, op2).next
    ensures FreshRun(s, [op1, op2]) <==> Fresh(s, op1) && Fresh(Step(s, op1).next, op2)
  {
    hide Step, Fresh;
    var s1 := Step(s, op1).next;
    assert [op1, op2][1..] == [op2] && [op2][1..] == [];
    assert Run(s1, [op2]) == Run(Step(s1, op2).next, []);
    assert FreshRun(s1, [op2]) <==> Fresh(s1, op2) && FreshRun(Step(s1, op2).next, []);
  }

  lemma {:induction false} RunSplit(s: State, ops: seq<Op>, n: nat)
    requires n <= |ops|
    ensures Run(s, ops) == Run(Run(s, ops[..n]), ops[n..])
    ensures FreshRun(s, ops) <==> FreshRun(s, ops[..n]) && FreshRun(Run(s, ops[..n]), ops[n..])
    decreases n
  {
    hide Step, Fresh;
    if n == 0 {
      assert ops[0..] == ops && ops[..0] == [];
    } else {
      RunSplit(Step(s, ops[0]).next, ops[1..], n - 1);
      assert ops[..n][1..] == ops[1..][..n - 1] && ops[1..][n - 1..] == ops[n..];
    }
  }

  // ---------------------------------------------------------------- invariants

  type Creds = map<string, Credential>
  type Sessions = map<string, Session>

  ghost predicate Ids(creds: Creds, sessions: Sessions) {
    && (forall id :: id in creds ==> creds[id].id == id)
    && (forall id :: id in sessions ==> sessions[id].id == id)
  }

  /** Every entry of the identifier index names an active credential of that type and identifier. */
  ghost predicate IndexSound(creds: Creds, index: map<(string, string), string>) {
    forall key :: key in index ==> index[key] in creds && creds[index[key]].status == Active && creds[index[key]].Key() == key
  }

  /** A session that is not revoked has an active credential, owned by the session's user. */
  ghost predicate LiveCredentials(creds: Creds, sessions: Sessions) {
    forall id :: id in sessions && sessions[id].revokedAt.None? ==>
      && sessions[id].credId in creds
      && creds[sessions[id].credId].status == Active
      && creds[sessions[id].credId].usrId == sessions[id].usrId
  }

  /** The token maps are mutually inverse, and their sessions are exactly those not revoked. */
  ghost predicate TokensExact(sessions: Sessions, tokenHash: map<string, string>, byTokenHash: map<string, string>) {
    && (forall id :: id in tokenHash <==> id in sessions && sessions[id].revokedAt.None?)
    && (forall id :: id in tokenHash ==> tokenHash[id] in byTokenHash && byTokenHash[tokenHash[id]] == id)
    && (forall hash :: hash in byTokenHash ==> byTokenHash[hash] in tokenHash && tokenHash[byTokenHash[hash]] == hash)
  }

  ghost predicate Inv(s: State) {
    && Ids(s.creds, s.sessions) && IndexSound(s.creds, s.activeCred)
    && LiveCredentials(s.creds, s.sessions) && TokensExact(s.sessions, s.tokenHash, s.byTokenHash)
  }

  lemma RevokeSessionsKeeps(s: State, ids: set<string>, at: int)
    requires TokensExact(s.sessions, s.tokenHash, s.byTokenHash) && ids <= s.tokenHash.Keys
    ensures var s' := RevokeSessions(s, ids, at); TokensExact(s'.sessions, s'.tokenHash, s'.byTokenHash)
    ensures Ids(s.creds, s.sessions) ==> Ids(s.creds, RevokeSessions(s, ids, at).sessions)
  {
    var s' := RevokeSessions(s, ids, at);
    forall hash | hash in HashesOf(s.tokenHash, ids) ensures hash in s.byTokenHash && s.byTokenHash[hash] in ids {
      var id :| id in ids && id in s.tokenHash && s.tokenHash[id] == hash;
      assert s.byTokenHash[s.tokenHash[id]] == id;
    }
    forall hash | hash in s'.byTokenHash ensures s'.byTokenHash[hash] in s'.tokenHash {
      var id := s.byTokenHash[hash];
      assert s.tokenHash[id] == hash;
    }
  }

  lemma AddSessionKeeps(s: State, ses: Session, hash: string)
    requires TokensExact(s.sessions, s.tokenHash, s.byTokenHash) && LiveCredentials(s.creds, s.sessions) && Ids(s.creds, s.sessions)
    requires ses.id !in s.sessions && hash !in s.byTokenHash && ses.revokedAt.None?
    requires ses.credId in s.creds && s.creds[ses.credId].status == Active && s.creds[ses.credId].usrId == ses.usrId
    ensures var s' := AddSession(s, ses, hash);
      && TokensExact(s'.sessions, s'.tokenHash, s'.byTokenHash) && LiveCredentials(s'.creds, s'.sessions) && Ids(s'.creds, s'.sessions)
  {
  }

  /** Revoking sessions never endangers the others. */
  lemma FewerLive(creds: Creds, s: State, ids: set<string>, at: int)
    requires LiveCredentials(creds, s.sessions)
    ensures LiveCredentials(creds, RevokeSessions(s, ids, at).sessions)
  {
  }

  // ---------------------------------------------------------------- calls keep the invariant

  /** All sessions of a user end. */
  lemma UserSessionsEnd(s: State, usrId: string, at: int)
    requires Inv(s)
    ensures var s' := RevokeSessions(s, LiveOfUser(s.sessions, usrId), at);
      Inv(s') && forall id :: id in s'.sessions && s'.sessions[id].revokedAt.None? ==> s'.sessions[id].usrId != usrId
  {
    var ids := LiveOfUser(s.sessions, usrId);
    hide IndexSound, Ids;
    RevokeSessionsKeeps(s, ids, at);
    FewerLive(s.creds, s, ids, at);
    hide TokensExact, LiveCredentials;
  }

  lemma TransitionUserKeepsInv(s: State, op: Op)
    requires Inv(s) && op.TransitionUser?
    ensures Inv(StepTransitionUser(s, op).next)
  {
    hide IndexSound, Ids, TokensExact, LiveCredentials, RevokeSessions, LiveOfUser, RevokeCredentials;
    if op.usrId in s.users {
      var s1 := s.(users := s.users[op.usrId := s.users[op.usrId].(status := op.target, updatedAt := op.now)]);
      UserSessionsEnd(s1, op.usrId, op.cascadeAt);
      RevokeCredentialsKeeps(RevokeSessions(s1, LiveOfUser(s1.sessions, op.usrId), op.cascadeAt), op.usrId, op.stamps);
    }
  }

  /** Revoking all credentials of a user without live sessions. */
  lemma RevokeCredentialsKeeps(s: State, usrId: string, stamps: string -> int)
    requires Inv(s)
    requires forall id :: id in s.sessions && s.sessions[id].revokedAt.None? ==> s.sessions[id].usrId != usrId
    ensures Inv(RevokeCredentials(s, ActiveOfUser(s.creds, usrId), stamps))
  {
    var ids := ActiveOfUser(s.creds, usrId);
    var s' := RevokeCredentials(s, ids, stamps);
    hide TokensExact;
    assert IndexSound(s'.creds, s'.activeCred) by {
      forall key | key in s'.activeCred ensures s'.activeCred[key] !in ids {
        assert s.creds[s.activeCred[key]].Key() == key;
      }
    }
  }

  lemma SecretFrame(s: State, id: string, input: CredentialInput)
    ensures var s' := WithSecret(s, id, input);
      && s'.users == s.users && s'.creds == s.creds && s'.activeCred == s.activeCred
      && s'.sessions == s.sessions && s'.tokenHash == s.tokenHash && s'.byTokenHash == s.byTokenHash
  {
  }

  lemma CreateCredentialKeepsInv(s: State, op: Op)
    requires Inv(s) && Fresh(s, op) && op.CreateCredential?
    ensures Inv(StepCreateCredential(s, op).next)
  {
    hide TokensExact, WithSecret;
    SecretFrame(s, op.id, op.input);
  }

  /** The sessions of one credential end when the credential stops being active. */
  lemma EndCredential(s: State, s1: State, credId: string, at: int)
    requires Inv(s) && s1.users == s.users && s1.sessions == s.sessions && s1.tokenHash == s.tokenHash && s1.byTokenHash == s.byTokenHash
    requires IndexSound(s1.creds, s1.activeCred) && forall id :: id in s1.creds ==> s1.creds[id].id == id
    requires forall id :: id in s.creds && id != credId ==> id in s1.creds && s1.creds[id] == s.creds[id]
    ensures Inv(RevokeSessions(s1, LiveOfCredential(s1.sessions, credId), at))
  {
    var ids := LiveOfCredential(s1.sessions, credId);
    RevokeSessionsKeeps(s1, ids, at);
    hide TokensExact, IndexSound;
  }

  lemma RotateKeepsInv(s: State, op: Op)
    requires Inv(s) && Fresh(s, op) && op.Rotate?
    ensures Inv(StepRotate(s, op).next)
  {
    if StepRotate(s, op).error.None? {
      var c := s.creds[op.credId];
      var successor := Credential(op.newId, c.usrId, op.input.AsKind(), c.identifier, Active, Some(op.credId), op.now, op.now);
      var s1 := WithSecret(s, op.newId, op.input).(
        creds := s.creds[op.credId := c.(status := Revoked, updatedAt := op.now)][op.newId := successor],
        activeCred := s.activeCred[c.Key() := op.newId]);
      SecretFrame(s, op.newId, op.input);
      hide WithSecret;
      assert IndexSound(s1.creds, s1.activeCred);
      hide IndexSound, LiveCredentials, TokensExact, RevokeSessions, LiveOfCredential;
      EndCredential(s, s1, op.credId, op.cascadeAt);
    }
  }

  lemma SetCredentialIndex(s: State, credId: string, c: Credential)
    requires Inv(s) && credId in s.creds && c.id == credId && c.Key() == s.creds[credId].Key()
    ensures c.status == Active && s.creds[credId].status != Active ==> IndexSound(s.creds[credId := c], s.activeCred[c.Key() := credId])
    ensures c.status != Active ==> IndexSound(s.creds[credId := c], s.activeCred - {c.Key()})
  {
    hide LiveCredentials, TokensExact;
  }

  lemma EndCredentialKeepsInv(s: State, op: Op)
    requires Inv(s) && op.TransitionCredential? && op.target != Active
    ensures Inv(StepTransitionCredential(s, op).next)
  {
    if StepTransitionCredential(s, op).error.None? && s.creds[op.credId].status != op.target {
      var c := s.creds[op.credId];
      var s1 := s.(creds := s.creds[op.credId := c.(status := op.target, updatedAt := op.now)], activeCred := s.activeCred - {c.Key()});
      assert c.id == op.credId;
      assert forall id :: id in s1.creds ==> s1.creds[id].id == id;
      hide IndexSound, LiveCredentials, TokensExact, RevokeSessions, LiveOfCredential;
      SetCredentialIndex(s, op.credId, s1.creds[op.credId]);
      EndCredential(s, s1, op.credId, op.cascadeAt);
    }
  }

  lemma TransitionCredentialKeepsInv(s: State, op: Op)
    requires Inv(s) && op.TransitionCredential?
    ensures Inv(StepTransitionCredential(s, op).next)
  {
    if op.target != Active {
      hide Inv, StepTransitionCredential;
      EndCredentialKeepsInv(s, op);
    } else if StepTransitionCredential(s, op).error.None? && s.creds[op.credId].status != op.target {
      hide TokensExact, IndexSound;
      SetCredentialIndex(s, op.credId, s.creds[op.credId].(status := op.target, updatedAt := op.now));
    }
  }

  lemma RevokeOneKeepsInv(s: State, id: string, at: int)
    requires Inv(s) && id in s.sessions && s.sessions[id].revokedAt.None?
    ensures Inv(RevokeSessions(s, {id}, at))
  {
    assert id in s.tokenHash;
    hide IndexSound, TokensExact, LiveCredentials;
    RevokeSessionsKeeps(s, {id}, at);
    FewerLive(s.creds, s, {id}, at);
  }

  lemma RevokeSessionsFrame(s: State, ids: set<string>, at: int)
    ensures var s' := RevokeSessions(s, ids, at);
      && s'.users == s.users && s'.creds == s.creds && s'.activeCred == s.activeCred
      && s'.sessions.Keys == s.sessions.Keys && s'.byTokenHash.Keys <= s.byTokenHash.Keys
  {
  }

  lemma RefreshKeepsInv(s: State, op: Op)
    requires Inv(s) && Fresh(s, op) && op.RefreshSession?
    ensures Inv(StepRefreshSession(s, op).next)
  {
    hide Ids, IndexSound, TokensExact, RevokeSessions;
    if StepRefreshSession(s, op).error.None? {
      var ses := s.sessions[op.sesId];
      var s1 := RevokeSessions(s, {op.sesId}, op.now);
      assert s.creds[ses.credId].status == Active && s.creds[ses.credId].usrId == ses.usrId && ses.credId in s.creds;
      RevokeSessionsFrame(s, {op.sesId}, op.now);
      RevokeOneKeepsInv(s, op.sesId, op.now);
      AddSessionKeeps(s1, Session(op.newId, ses.usrId, ses.credId, op.now, op.now + (ses.expiresAt - ses.createdAt), None), op.hash);
    }
  }

  lemma SessionStepKeepsInv(s: State, op: Op)
    requires Inv(s) && Fresh(s, op) && (op.CreateSession? || op.RevokeSession?)
    ensures Inv(Step(s, op).next)
  {
    hide IndexSound;
    if op.CreateSession? {
      hide TokensExact, LiveCredentials;
      if StepCreateSession(s, op).error.None? {
        AddSessionKeeps(s, Session(op.id, op.usrId, op.credId, op.now, op.now + op.ttlSeconds * SECOND, None), op.hash);
      }
    } else if op.sesId in s.sessions && s.sessions[op.sesId].revokedAt.None? {
      RevokeOneKeepsInv(s, op.sesId, op.now);
    }
  }

  lemma StepKeepsInv(s: State, op: Op)
    requires Inv(s) && Fresh(s, op)
    ensures Inv(Step(s, op).next)
  {
    hide Ids, IndexSound, LiveCredentials, TokensExact;
    match op
    case TransitionUser(_, _, _, _, _) => TransitionUserKeepsInv(s, op);
    case CreateCredential(_, _, _, _, _) => CreateCredentialKeepsInv(s, op);
    case Rotate(_, _, _, _, _) => RotateKeepsInv(s, op);
    case TransitionCredential(_, _, _, _) => TransitionCredentialKeepsInv(s, op);
    case CreateSession(_, _, _, _, _, _) => SessionStepKeepsInv(s, op);
    case RefreshSession(_, _, _, _, _) => RefreshKeepsInv(s, op);
    case RevokeSession(_, _) => SessionStepKeepsInv(s, op);
    case _ =>
  }

  lemma EmptyInv()
    ensures Inv(EMPTY)
  {
  }

  lemma {:induction false} RunKeepsInv(s: State, ops: seq<Op>)
    requires Inv(s) && FreshRun(s, ops)
    ensures Inv(Run(s, ops))
    decreases |ops|
  {
    hide Inv, Step, Fresh;
    if ops == [] {
    } else {
      StepKeepsInv(s, ops[0]);
      RunKeepsInv(Step(s, ops[0]).next, ops[1..]);
    }
  }

  // ---------------------------------------------------------------- what a verified token means

  /** In every reachable state a token verifies exactly when it is the token of an unexpired session that
      is not revoked; its credential is then active and owned by its user.  So a known token never
      takes the revoked branch. */
  lemma VerifiedMeansLive(ops: seq<Op>, hash: string, now: int)
    requires FreshRun(EMPTY, ops)
    ensures var s := Run(EMPTY, ops);
      && (hash in s.byTokenHash ==> s.byTokenHash[hash] in s.sessions && s.sessions[s.byTokenHash[hash]].revokedAt.None?)
      && (VerifySession(s, hash, now).Ok? <==>
            exists id :: id in s.tokenHash && s.tokenHash[id] == hash && id in s.sessions && now < s.sessions[id].expiresAt)
      && (VerifySession(s, hash, now).Ok? ==>
            var ses := VerifySession(s, hash, now).value;
            ses.credId in s.creds && s.creds[ses.credId].status == Active && s.creds[ses.credId].usrId == ses.usrId)
  {
    EmptyInv();
    RunKeepsInv(EMPTY, ops);
    var s := Run(EMPTY, ops);
    hide Step, Run, IndexSound;
    if hash in s.byTokenHash {
      assert s.tokenHash[s.byTokenHash[hash]] == hash;
    }
  }

  /** Suspension, revocation and rotation leave the credential inactive. */
  lemma EndedCredential(s: State, op: Op)
    requires Fresh(s, op) && Step(s, op).error.None?
    requires (op.TransitionCredential? && op.target != Active) || op.Rotate?
    ensures op.credId in Step(s, op).next.creds && Step(s, op).next.creds[op.credId].status != Active
  {
  }

  /** A refresh moves user, credential and lifetime to the new session, and the old token is gone. */
  lemma RefreshMovesSession(s: State, op: Op)
    requires Inv(s) && Fresh(s, op) && op.RefreshSession? && StepRefreshSession(s, op).error.None?
    ensures var s', ses := StepRefreshSession(s, op).next, s.sessions[op.sesId];
      && op.sesId in s.tokenHash && s.tokenHash[op.sesId] !in s'.byTokenHash
      && VerifySession(s', op.hash, op.now) == (if ses.expiresAt > ses.createdAt then Ok(s'.sessions[op.newId]) else Err(SessionExpired))
      && s'.sessions[op.newId].usrId == ses.usrId && s'.sessions[op.newId].credId == ses.credId
      && s'.sessions[op.newId].expiresAt - s'.sessions[op.newId].createdAt == ses.expiresAt - ses.createdAt
  {
    hide IndexSound, LiveCredentials, Ids;
    assert op.sesId in s.tokenHash;
    var gone := s.tokenHash[op.sesId];
    assert gone in HashesOf(s.tokenHash, {op.sesId});
  }

  // ---------------------------------------------------------------- tokens never come back

  predicate Issues(op: Op, hash: string) {
    (op.CreateSession? || op.RefreshSession?) && op.hash == hash
  }

  lemma StepIssues(s: State, op: Op, hash: string)
    requires hash !in s.byTokenHash && !Issues(op, hash)
    ensures hash !in Step(s, op).next.byTokenHash
  {
    hide RevokeSessions, StepRotate, StepTransitionCredential, WithSecret;
    match op
    case Rotate(_, _, _, _, _) => CredentialCallIssuesNone(s, op, hash);
    case TransitionCredential(_, _, _, _) => CredentialCallIssuesNone(s, op, hash);
    case CreateCredential(_, _, _, _, _) => SecretFrame(s, op.id, op.input);
    case TransitionUser(_, _, _, _, _) =>
      if op.usrId in s.users {
        var s1 := s.(users := s.users[op.usrId := s.users[op.usrId].(status := op.target, updatedAt := op.now)]);
        RevokeSessionsFrame(s1, LiveOfUser(s1.sessions, op.usrId), op.cascadeAt);
      }
    case RefreshSession(_, _, _, _, _) => RevokeSessionsFrame(s, {op.sesId}, op.now);
    case RevokeSession(_, _) => RevokeSessionsFrame(s, {op.sesId}, op.now);
    case _ =>
  }

  lemma CredentialCallIssuesNone(s: State, op: Op, hash: string)
    requires hash !in s.byTokenHash && (op.Rotate? || op.TransitionCredential?)
    ensures hash !in Step(s, op).next.byTokenHash
  {
    hide RevokeSessions, WithSecret;
    forall s1: State, ids, at ensures RevokeSessions(s1, ids, at).byTokenHash.Keys <= s1.byTokenHash.Keys {
      RevokeSessionsFrame(s1, ids, at);
    }
    if op.Rotate? {
      SecretFrame(s, op.newId, op.input);
    }
  }

  /** A token that is unknown stays unknown until it is issued. */
  lemma {:induction false} TokensNeverComeBack(s: State, ops: seq<Op>, hash: string, now: int)
    requires hash !in s.byTokenHash && forall op :: op in ops ==> !Issues(op, hash)
    ensures VerifySession(Run(s, ops), hash, now) == Err(InvalidToken)
    decreases |ops|
  {
    hide Step, Issues;
    if ops == [] {
    } else {
      assert ops[0] in ops;
      StepIssues(s, ops[0], hash);
      TokensNeverComeBack(Step(s, ops[0]).next, ops[1..], hash, now);
    }
  }

  // ---------------------------------------------------------------- when the identifier index is exact

  /** Every active credential is found under its type and identifier. */
  ghost predicate IndexExact(creds: Creds, index: map<(string, string), string>) {
    forall id :: id in creds && creds[id].status == Active ==> creds[id].Key() in index && index[creds[id].Key()] == id
  }

  /** A suspended credential whose identifier another active credential holds by now. */
  predicate Superseded(s: State, credId: string) {
    credId in s.creds && s.creds[credId].status == Suspended && s.creds[credId].Key() in s.activeCred
  }

  predicate Harmless(s: State, op: Op) {
    op.TransitionCredential? && op.target == Revoked ==> !Superseded(s, op.credId)
  }

  /** A call keeps the identifier index exact if and only if it does not revoke a superseded credential. */
  lemma StepExactIff(s: State, op: Op)
    requires Inv(s) && Fresh(s, op) && IndexExact(s.creds, s.activeCred)
    ensures IndexExact(Step(s, op).next.creds, Step(s, op).next.activeCred) <==> Harmless(s, op)
  {
    hide Ids, LiveCredentials, TokensExact;
    match op
    case TransitionCredential(_, _, _, _) => TransitionExactIff(s, op);
    case TransitionUser(_, _, _, _, _) => TransitionUserExact(s, op);
    case Rotate(_, _, _, _, _) => RotateExact(s, op);
    case RefreshSession(_, _, _, _, _) =>
    case RevokeSession(_, _) =>
    case _ =>
  }

  lemma ActivatedExact(creds: Creds, index: map<(string, string), string>, id: string, c: Credential)
    requires IndexExact(creds, index) && id in creds && c.Key() !in index
    ensures IndexExact(creds[id := c], index[c.Key() := id])
  {
  }

  lemma EndedExactIff(creds: Creds, index: map<(string, string), string>, id: string, c: Credential)
    requires IndexSound(creds, index) && IndexExact(creds, index)
    requires id in creds && c.Key() == creds[id].Key() && c.status != Active
    ensures IndexExact(creds[id := c], index - {c.Key()}) <==> (creds[id].status == Active || c.Key() !in index)
  {
    if creds[id].status != Active && c.Key() in index {
      var other := index[c.Key()];
      assert creds[id := c][other] == creds[other];
    }
  }

  lemma TransitionExactIff(s: State, op: Op)
    requires Inv(s) && IndexExact(s.creds, s.activeCred) && op.TransitionCredential?
    ensures IndexExact(StepTransitionCredential(s, op).next.creds, StepTransitionCredential(s, op).next.activeCred) <==> Harmless(s, op)
  {
    hide Ids, LiveCredentials, TokensExact, IndexSound, IndexExact, RevokeSessions, LiveOfCredential;
    if StepTransitionCredential(s, op).error.None? && s.creds[op.credId].status != op.target {
      var c := s.creds[op.credId].(status := op.target, updatedAt := op.now);
      if op.target == Active {
        ActivatedExact(s.creds, s.activeCred, op.credId, c);
      } else {
        var s1 := s.(creds := s.creds[op.credId := c], activeCred := s.activeCred - {c.Key()});
        RevokeSessionsFrame(s1, LiveOfCredential(s1.sessions, op.credId), op.cascadeAt);
        EndedExactIff(s.creds, s.activeCred, op.credId, c);
      }
    }
  }

  lemma TransitionUserExact(s: State, op: Op)
    requires Inv(s) && IndexExact(s.creds, s.activeCred) && op.TransitionUser?
    ensures IndexExact(StepTransitionUser(s, op).next.creds, StepTransitionUser(s, op).next.activeCred)
  {
    hide Inv, IndexExact, RevokeSessions, LiveOfUser, RevokeCredentials;
    if op.usrId in s.users {
      var s1 := s.(users := s.users[op.usrId := s.users[op.usrId].(status := op.target, updatedAt := op.now)]);
      var s2 := RevokeSessions(s1, LiveOfUser(s1.sessions, op.usrId), op.cascadeAt);
      RevokeSessionsFrame(s1, LiveOfUser(s1.sessions, op.usrId), op.cascadeAt);
      RevokeCredentialsExact(s2, op.usrId, op.stamps);
    }
  }

  lemma RevokeCredentialsExact(s: State, usrId: string, stamps: string -> int)
    requires IndexExact(s.creds, s.activeCred)
    ensures var s' := RevokeCredentials(s, ActiveOfUser(s.creds, usrId), stamps); IndexExact(s'.creds, s'.activeCred)
  {
    var ids := ActiveOfUser(s.creds, usrId);
    var s' := RevokeCredentials(s, ids, stamps);
    forall id | id in s'.creds && s'.creds[id].status == Active
      ensures s'.creds[id].Key() in s'.activeCred && s'.activeCred[s'.creds[id].Key()] == id
    {
      assert s'.creds[id] == s.creds[id] && id !in ids;
      assert forall x :: x in ids && s.creds[x].Key() == s.creds[id].Key() ==> x == id;
    }
  }

  lemma RotateExact(s: State, op: Op)
    requires Inv(s) && Fresh(s, op) && IndexExact(s.creds, s.activeCred) && op.Rotate?
    ensures IndexExact(StepRotate(s, op).next.creds, StepRotate(s, op).next.activeCred)
  {
    hide Ids, LiveCredentials, TokensExact;
  }

  predicate HarmlessRun(s: State, ops: seq<Op>)
    decreases |ops|
  {
    ops == [] || (Harmless(s, ops[0]) && HarmlessRun(Step(s, ops[0]).next, ops[1..]))
  }

  lemma {:induction false} RunExact(s: State, ops: seq<Op>)
    requires Inv(s) && IndexExact(s.creds, s.activeCred) && FreshRun(s, ops) && HarmlessRun(s, ops)
    ensures IndexExact(Run(s, ops).creds, Run(s, ops).activeCred)
    decreases |ops|
  {
    hide Inv, IndexExact, Step, Fresh, Harmless;
    if ops == [] {
    } else {
      StepKeepsInv(s, ops[0]);
      StepExactIff(s, ops[0]);
      RunExact(Step(s, ops[0]).next, ops[1..]);
    }
  }

  /** In every state reached without revoking superseded credentials the index holds exactly the active credentials, so no
      two of them share a type and an identifier. */
  lemma IndexAlwaysExact(ops: seq<Op>)
    requires FreshRun(EMPTY, ops) && HarmlessRun(EMPTY, ops)
    ensures var s := Run(EMPTY, ops);
      && (forall key, id :: key in s.activeCred && s.activeCred[key] == id
            <==> id in s.creds && s.creds[id].status == Active && s.creds[id].Key() == key)
      && (forall id, id' ::
            (id in s.creds && id' in s.creds && s.creds[id].status == Active && s.creds[id'].status == Active
             && s.creds[id].Key() == s.creds[id'].Key()) ==> id == id')
  {
    EmptyInv();
    RunExact(EMPTY, ops);
    RunKeepsInv(EMPTY, ops);
    hide Run, TokensExact, LiveCredentials;
  }

  /** User u; a suspended password, the same identifier taken again, and the suspended one revoked. */
  function RevokeSuperseded(): seq<Op> {
    [ CreateUser(None, "u", 1),
      CreateCredential("u", PasswordInput(Some("x")), "a@b", "c1", 2),
      TransitionCredential("c1", Suspended, 3, 3),
      CreateCredential("u", PasswordInput(Some("y")), "a@b", "c2", 4),
      TransitionCredential("c1", Revoked, 5, 5) ]
  }

  /** In the code as it is, that run ends with an active credential its identifier no longer finds. */
  lemma RevokeSupersededLosesIndex()
    ensures FreshRun(EMPTY, RevokeSuperseded())
    ensures var s := Run(EMPTY, RevokeSuperseded());
      "c2" in s.creds && s.creds["c2"].status == Active && s.creds["c2"].Key() !in s.activeCred
  {
    var ops := RevokeSuperseded();
    var s3 := SuspendedPassword();
    var s4 := Step(s3, ops[3]).next;
    var s5 := Step(s4, ops[4]).next;
    assert Fresh(s3, ops[3]) && Fresh(s4, ops[4]);
    hide Step, Fresh;
    RunSplit(EMPTY, ops, 3);
    assert ops[3..] == [ops[3], ops[4]];
    TwoSteps(s3, ops[3], ops[4]);
  }

  lemma SuspendedPassword() returns (s: State)
    ensures FreshRun(EMPTY, RevokeSuperseded()[..3]) && Run(EMPTY, RevokeSuperseded()[..3]) == s
    ensures s.users.Keys == {"u"} && s.creds.Keys == {"c1"} && s.creds["c1"].status == Suspended && s.creds["c1"].usrId == "u"
    ensures s.creds["c1"].Key() == ("password", "a@b") && s.activeCred == map[] && s.sessions == map[]
  {
    var ops := RevokeSuperseded()[..3];
    var s1 := Step(EMPTY, ops[0]).next;
    TwoSteps(s1, ops[1], ops[2]);
    assert ops[1..] == [ops[1], ops[2]];
    s := Step(Step(s1, ops[1]).next, ops[2]).next;
  }
}
