/**
 * Personal access tokens.  Verification holds the lock twice and computes the password hash in
 * between, so other calls, and other verifications, may run between its two locked sections.  Users live
 * beside the tokens; creating a token looks them up, verifying one does not.
 */
module Pats {
  import opened Common
  import Id = IdentityModel
  import IdentityLockout

  datatype PatStatus = PatActive | PatRevoked

  /** Names are byte strings, as their length is counted in bytes. */
  datatype Pat = Pat(
    id: string, usrId: string, name: seq<bv8>, scope: seq<string>, status: PatStatus,
    expiresAt: Option<int>, lastUsedAt: Option<int>, revokedAt: Option<int>, createdAt: int, updatedAt: int)

  datatype Error = UserNotFound | InvalidName | ExpiresTooLate | NotFound | InvalidPatToken | PatRevokedError | PatExpiredError

  /** Times are nanoseconds. */
  const SECOND := 1_000_000_000
  const MAX_LIFETIME := 365 * 24 * 60 * 60 * SECOND

  /** The least time between two stored uses. */
  const WINDOW := 60 * SECOND

  /** The two maps: the records, and the last stored use of each. */
  datatype Store = Store(pats: map<string, Pat>, lastUsed: map<string, int>)

  /** What a verification carries from its first section to its second. */
  datatype Check = Check(patId: string, usrId: string, scope: seq<string>)

  datatype CreatePatInput = CreatePatInput(usrId: string, name: seq<bv8>, scope: seq<string>, expiresAt: Option<int>)

  // ---------------------------------------------------------------- what each call does

  function Refusal(input: CreatePatInput, users: map<string, Id.User>, checkedAt: int): Option<Error> {
    if input.usrId !in users then Some(UserNotFound)
    else if |input.name| < 1 || |input.name| > 120 then Some(InvalidName)
    else if input.expiresAt.Some? && input.expiresAt.value > checkedAt + MAX_LIFETIME then Some(ExpiresTooLate)
    else None
  }

  function NewPat(input: CreatePatInput, id: string, now: int): Pat {
    Pat(id, input.usrId, input.name, input.scope, PatActive, input.expiresAt, None, None, now, now)
  }

  function AfterRevoke(s: Store, id: string, now: int): Store {
    if id in s.pats && s.pats[id].revokedAt.None?
    then s.(pats := s.pats[id := s.pats[id].(revokedAt := Some(now), status := PatRevoked, updatedAt := now)])
    else s
  }

  /** First section: may this token be checked at all? */
  function Lookup(s: Store, id: string, now: int): Result<Check, Error> {
    if id !in s.pats then Err(InvalidPatToken)
    else
      var p := s.pats[id];
      if p.revokedAt.Some? then Err(PatRevokedError)
      else if p.expiresAt.Some? && now >= p.expiresAt.value then Err(PatExpiredError)
      else Ok(Check(id, p.usrId, p.scope))
  }

  /** The second section stores a use when the last one is old enough and the record is not revoked by now. */
  predicate Stamps(s: Store, id: string, now: int) {
    && (id in s.lastUsed ==> now - s.lastUsed[id] >= WINDOW)
    && id in s.pats && s.pats[id].revokedAt.None?
  }

  function AfterUse(s: Store, id: string, now: int): Store {
    if Stamps(s, id, now)
    then Store(s.pats[id := s.pats[id].(lastUsedAt := Some(now), updatedAt := now)], s.lastUsed[id := now])
    else s
  }

  // ---------------------------------------------------------------- interleavings

  /** The identity store, the token store, and the verifications under way, by thread. */
  datatype World = World(identity: Id.State, store: Store, checks: map<nat, Check>)

  /** One locked section, of a token call or of any user, credential or session call.  Whether the secret matches is decided
      between the sections of a verification. */
  datatype Event =
    | Identity(op: Id.Op)
    | Create(input: CreatePatInput, id: string, checkedAt: int, now: int)
    | Revoke(id: string, now: int)
    | Begin(thread: nat, id: string, now: int)
    | Finish(thread: nat, secretMatches: bool, now: int)

  predicate Succeeds(w: World, e: Event) {
    e.Finish? && e.thread in w.checks && e.secretMatches
  }

  function Step(w: World, e: Event): World {
    match e
    case Identity(op) => w.(identity := Id.Step(w.identity, op).next)
    case Create(input, id, checkedAt, now) =>
      if Refusal(input, w.identity.users, checkedAt).None?
      then w.(store := w.store.(pats := w.store.pats[id := NewPat(input, id, now)]))
      else w
    case Revoke(id, now) => w.(store := AfterRevoke(w.store, id, now))
    case Begin(thread, id, now) =>
      (match Lookup(w.store, id, now)
       case Err(_) => w.(checks := w.checks - {thread})
       case Ok(c) => w.(checks := w.checks[thread := c]))
    case Finish(thread, secretMatches, now) =>
      if thread !in w.checks then w
      else w.(store := if secretMatches then AfterUse(w.store, w.checks[thread].patId, now) else w.store, checks := w.checks - {thread})
  }

  function Run(w: World, events: seq<Event>): World
    decreases |events|
  {
    if events == [] then w else Run(Step(w, events[0]), events[1..])
  }

  /** Generated ids are fresh. */
  predicate Fresh(w: World, e: Event) {
    match e
    case Identity(op) => Id.Fresh(w.identity, op)
    case Create(_, id, _, _) => id !in w.store.pats
    case _ => true
  }

  predicate FreshRun(w: World, events: seq<Event>)
    decreases |events|
  {
    events == [] || (Fresh(w, events[0]) && FreshRun(Step(w, events[0]), events[1..]))
  }

  /** The stored use and the record agree, and revocation time and status do. */
  ghost predicate StoreInv(s: Store) {
    && (forall id :: id in s.pats ==>
          && s.pats[id].id == id
          && s.pats[id].lastUsedAt == (if id in s.lastUsed then Some(s.lastUsed[id]) else None)
          && (s.pats[id].revokedAt.Some? <==> s.pats[id].status == PatRevoked))
    && (forall id :: id in s.lastUsed ==> id in s.pats)
  }

  /** In addition, a check under way carries the stored user and scope. */
  ghost predicate Inv(w: World) {
    && StoreInv(w.store)
    && (forall t :: t in w.checks ==>
          && w.checks[t].patId in w.store.pats
          && w.checks[t].usrId == w.store.pats[w.checks[t].patId].usrId
          && w.checks[t].scope == w.store.pats[w.checks[t].patId].scope)
  }

  lemma StepKeepsInv(w: World, e: Event)
    requires Inv(w) && Fresh(w, e)
    ensures Inv(Step(w, e))
  {
  }

  /** A revoked record never changes, over any interleaving. */
  lemma {:induction false} RevokedRecordsFrozen(w: World, events: seq<Event>, id: string)
    requires FreshRun(w, events) && id in w.store.pats && w.store.pats[id].revokedAt.Some?
    ensures id in Run(w, events).store.pats && Run(w, events).store.pats[id] == w.store.pats[id]
    decreases |events|
  {
    if events == [] {
    } else {
      var w' := Step(w, events[0]);
      assert id in w'.store.pats && w'.store.pats[id] == w.store.pats[id];
      RevokedRecordsFrozen(w', events[1..], id);
    }
  }

  /** The uses of one token stored along a run, in order. */
  ghost function StoredUses(w: World, events: seq<Event>, id: string): seq<int>
    decreases |events|
  {
    if events == [] then []
    else
      var e := events[0];
      (if Succeeds(w, e) && w.checks[e.thread].patId == id && Stamps(w.store, id, e.now) then [e.now] else [])
      + StoredUses(Step(w, e), events[1..], id)
  }

  ghost predicate Spaced(uses: seq<int>) {
    forall i, j :: 0 <= i < j < |uses| ==> uses[j] - uses[i] >= 60_000_000_000
  }

  lemma SpacedCons(first: int, rest: seq<int>)
    requires Spaced(rest) && (|rest| > 0 ==> rest[0] - first >= WINDOW)
    ensures Spaced([first] + rest)
  {
    var uses := [first] + rest;
    forall i, j | 0 <= i < j < |uses| ensures uses[j] - uses[i] >= WINDOW {
      assert uses[j] == rest[j - 1];
      if i > 0 {
        assert uses[i] == rest[i - 1];
      } else {
        assert j > 1 ==> rest[j - 1] - rest[0] >= WINDOW;
      }
    }
  }

  /** Successive stored uses are at least the window apart, over any interleaving. */
  lemma {:induction false} StoredUsesApart(w: World, events: seq<Event>, id: string)
    requires FreshRun(w, events)
    ensures var uses := StoredUses(w, events, id);
      && Spaced(uses)
      && (|uses| > 0 && id in w.store.lastUsed ==> uses[0] - w.store.lastUsed[id] >= 60_000_000_000)
    decreases |events|
  {
    if events == [] {
    } else {
      var e, w' := events[0], Step(w, events[0]);
      var rest, uses := StoredUses(w', events[1..], id), StoredUses(w, events, id);
      StoredUsesApart(w', events[1..], id);
      UseMoves(w, e, id);
      var stamped := Succeeds(w, e) && w.checks[e.thread].patId == id && Stamps(w.store, id, e.now);
      assert uses == (if stamped then [e.now] else []) + rest;
      assert stamped ==> (id in w.store.lastUsed ==> e.now - w.store.lastUsed[id] >= WINDOW);
      hide Step, Stamps, StoredUses, Succeeds;
      if stamped {
        SpacedCons(e.now, rest);
      } else {
        assert uses == rest;
      }
    }
  }

  /** The stored use changes exactly when a use is stored. */
  lemma UseMoves(w: World, e: Event, id: string)
    ensures if Succeeds(w, e) && w.checks[e.thread].patId == id && Stamps(w.store, id, e.now)
            then id in Step(w, e).store.lastUsed && Step(w, e).store.lastUsed[id] == e.now
            else (id in Step(w, e).store.lastUsed <==> id in w.store.lastUsed)
                 && (id in w.store.lastUsed ==> Step(w, e).store.lastUsed[id] == w.store.lastUsed[id])
  {
  }

  /** A success reports the stored user and scope; unless the token was revoked meanwhile, the stored use is
      then less than one window old, and if it was, the store is unchanged. */
  lemma SuccessIsRecent(w: World, e: Event)
    requires Inv(w) && Succeeds(w, e)
    ensures var c, s' := w.checks[e.thread], Step(w, e).store;
      && c.patId in s'.pats && c.usrId == s'.pats[c.patId].usrId && c.scope == s'.pats[c.patId].scope
      && (s'.pats[c.patId].revokedAt.None? ==>
            s'.pats[c.patId].lastUsedAt.Some? && e.now - s'.pats[c.patId].lastUsedAt.value < 60_000_000_000)
      && (s'.pats[c.patId].revokedAt.Some? ==> s' == w.store)
  {
    var id := w.checks[e.thread].patId;
    assert id in w.store.pats;
    assert w.store.pats[id].lastUsedAt == if id in w.store.lastUsed then Some(w.store.lastUsed[id]) else None;
  }

  lemma {:induction false} RunKeepsInv(w: World, events: seq<Event>)
    requires Inv(w) && FreshRun(w, events)
    ensures Inv(Run(w, events))
    decreases |events|
  {
    hide Inv, Step;
    if events == [] {
    } else {
      StepKeepsInv(w, events[0]);
      RunKeepsInv(Step(w, events[0]), events[1..]);
    }
  }

  /** Once a token is revoked, no verification that begins later gets past its first section. */
  lemma RevokedNeverBeginsAgain(w: World, events: seq<Event>, id: string, now: int)
    requires FreshRun(w, events) && id in w.store.pats && w.store.pats[id].revokedAt.Some?
    ensures Lookup(Run(w, events).store, id, now) == Err(PatRevokedError)
  {
    RevokedRecordsFrozen(w, events, id);
  }

  // ---------------------------------------------------------------- what happens between the sections

  predicate Revokes(e: Event, id: string) { e.Revoke? && e.id == id }

  predicate OfThread(e: Event, t: nat) { (e.Begin? || e.Finish?) && e.thread == t }

  /** One event of another thread leaves the check, and changes of the record only its use and, by a revocation, its status. */
  lemma OtherEvent(w: World, e: Event, t: nat, id: string)
    requires Fresh(w, e) && !OfThread(e, t) && t in w.checks && id in w.store.pats
    ensures var w' := Step(w, e);
      && t in w'.checks && w'.checks[t] == w.checks[t] && id in w'.store.pats
      && w'.store.pats[id].usrId == w.store.pats[id].usrId && w'.store.pats[id].scope == w.store.pats[id].scope
      && w'.store.pats[id].expiresAt == w.store.pats[id].expiresAt
      && (w'.store.pats[id].revokedAt.Some? <==> w.store.pats[id].revokedAt.Some? || Revokes(e, id))
  {
    hide Id.Step;
  }

  lemma {:induction false} OtherEvents(w: World, middle: seq<Event>, t: nat, id: string)
    requires FreshRun(w, middle) && t in w.checks && id in w.store.pats
    requires forall e :: e in middle ==> !OfThread(e, t)
    ensures var w' := Run(w, middle);
      && t in w'.checks && w'.checks[t] == w.checks[t] && id in w'.store.pats
      && w'.store.pats[id].usrId == w.store.pats[id].usrId && w'.store.pats[id].scope == w.store.pats[id].scope
      && w'.store.pats[id].expiresAt == w.store.pats[id].expiresAt
      && (w'.store.pats[id].revokedAt.Some? <==> w.store.pats[id].revokedAt.Some? || exists e :: e in middle && Revokes(e, id))
    decreases |middle|
  {
    hide Step, Fresh, Revokes, OfThread;
    if middle != [] {
      var first, rest := middle[0], middle[1..];
      assert first in middle && forall e :: e in rest ==> e in middle;
      assert forall e :: e in middle ==> e == first || e in rest;
      OtherEvent(w, first, t, id);
      OtherEvents(Step(w, first), rest, t, id);
    }
  }

  /** A verification with the right secret succeeds whatever other calls come between its sections.  At that moment the token is
      revoked exactly when one of them revoked it, and otherwise expired exactly when its expiry has passed since. */
  lemma SuccessDespiteMiddle(w: World, t: nat, id: string, began: int, middle: seq<Event>, now: int)
    requires Lookup(w.store, id, began).Ok? && FreshRun(Step(w, Begin(t, id, began)), middle)
    requires forall e :: e in middle ==> !OfThread(e, t)
    ensures var p, w' := w.store.pats[id], Run(Step(w, Begin(t, id, began)), middle);
      && Succeeds(w', Finish(t, true, now)) && w'.checks[t] == Check(id, p.usrId, p.scope)
      && Lookup(w'.store, id, now) ==
           if exists e :: e in middle && Revokes(e, id) then Err(PatRevokedError)
           else if p.expiresAt.Some? && now >= p.expiresAt.value then Err(PatExpiredError)
           else Ok(Check(id, p.usrId, p.scope))
  {
    OtherEvents(Step(w, Begin(t, id, began)), middle, t, id);
  }

  const NOBODY := World(Id.EMPTY, Store(map[], map[]), map[])

  /** User u gets a token that expires at 100, and thread 0 begins to verify it at 50. */
  function Begun(): seq<Event> {
    [ Identity(Id.CreateUser(None, "u", 1)), Create(CreatePatInput("u", [0x61], [], Some(100)), "p", 2, 2), Begin(0, "p", 50) ]
  }

  lemma BegunWorld() returns (w: World)
    ensures w == Run(NOBODY, Begun()) && FreshRun(NOBODY, Begun())
    ensures "u" in w.identity.users && w.identity.users["u"].status == Id.Active
    ensures 0 in w.checks && w.checks[0].patId == "p" && "p" in w.store.pats && w.store.pats["p"].revokedAt.None?
    ensures w.store.pats["p"].expiresAt == Some(100) && w.store.pats["p"].usrId == "u"
  {
    var es := Begun();
    var w1 := Step(NOBODY, es[0]);
    var w2 := Step(w1, es[1]);
    w := Step(w2, es[2]);
    assert es[1..] == [es[1], es[2]] && es[1..][1..] == [es[2]] && [es[2]][1..] == [];
    assert Run(w2, [es[2]]) == Run(w, []);
  }

  /** In the code as it is, the verification succeeds after a revocation between its sections, and after an expiry too. */
  lemma SuccessAfterRevocation()
    ensures var w := Run(NOBODY, Begun());
      var w' := Step(w, Revoke("p", 60));
      && w' == Run(w, [Revoke("p", 60)]) && Lookup(w'.store, "p", 70) == Err(PatRevokedError) && Succeeds(w', Finish(0, true, 70))
      && Lookup(w.store, "p", 200) == Err(PatExpiredError) && Succeeds(w, Finish(0, true, 200))
  {
    var w := BegunWorld();
    assert [Revoke("p", 60)][1..] == [];
    assert Run(w, [Revoke("p", 60)]) == Run(Step(w, Revoke("p", 60)), []);
  }

  // ---------------------------------------------------------------- tokens of users who are not active

  predicate IsActive(users: map<string, Id.User>, usrId: string) {
    usrId in users && users[usrId].status == Id.Active
  }

  /** Tokens that are not revoked belong to active users. */
  ghost predicate TokensOfActive(w: World) {
    forall id :: id in w.store.pats && w.store.pats[id].revokedAt.None? ==> IsActive(w.identity.users, w.store.pats[id].usrId)
  }

  /** A token is made for a user who is not active, or the user of a token that is not revoked is suspended or revoked: neither a
      creation nor a verification looks at the status, and no status change touches tokens. */
  predicate LeavesToken(w: World, e: Event) {
    match e
    case Create(input, _, checkedAt, _) =>
      Refusal(input, w.identity.users, checkedAt).None? && !IsActive(w.identity.users, input.usrId)
    case Identity(op) =>
      && op.TransitionUser? && op.target != Id.Active
      && exists id :: id in w.store.pats && w.store.pats[id].revokedAt.None? && w.store.pats[id].usrId == op.usrId
    case _ => false
  }

  /** What identity calls do to the users. */
  lemma IdentityUsers(s: Id.State, op: Id.Op, usrId: string)
    requires Id.Fresh(s, op) && IsActive(s.users, usrId)
    ensures IsActive(Id.Step(s, op).next.users, usrId) <==> !(op.TransitionUser? && op.target != Id.Active && op.usrId == usrId)
  {
    hide Id.RevokeSessions, Id.LiveOfUser;
    if op.CreateCredential? || op.Rotate? || op.TransitionCredential? {
      IdentityLockout.CredentialCallsKeepUsers(s, op);
    } else {
      match op
      case TransitionUser(target, _, _, _, _) => TransitionedUser(s, op, usrId);
      case RefreshSession(sesId, _, _, _, now) => Id.RevokeSessionsFrame(s, {sesId}, now);
      case RevokeSession(sesId, now) => Id.RevokeSessionsFrame(s, {sesId}, now);
      case _ =>
    }
  }

  lemma TransitionedUser(s: Id.State, op: Id.Op, usrId: string)
    requires op.TransitionUser? && IsActive(s.users, usrId)
    ensures IsActive(Id.StepTransitionUser(s, op).next.users, usrId) <==> !(op.target != Id.Active && op.usrId == usrId)
  {
    hide Id.RevokeSessions, Id.LiveOfUser;
    if op.usrId in s.users {
      var s1 := s.(users := s.users[op.usrId := s.users[op.usrId].(status := op.target, updatedAt := op.now)]);
      Id.RevokeSessionsFrame(s1, Id.LiveOfUser(s1.sessions, op.usrId), op.cascadeAt);
    }
  }

  /** An event leaves a usable token with a user who is not active if and only if it is one of those two. */
  lemma StepTokensActiveIff(w: World, e: Event)
    requires TokensOfActive(w) && Fresh(w, e)
    ensures TokensOfActive(Step(w, e)) <==> !LeavesToken(w, e)
  {
    hide Id.Step, Id.Fresh;
    match e
    case Identity(op) =>
      var w' := Step(w, e);
      forall id | id in w.store.pats && w.store.pats[id].revokedAt.None?
        ensures IsActive(w'.identity.users, w.store.pats[id].usrId)
           <==> !(op.TransitionUser? && op.target != Id.Active && op.usrId == w.store.pats[id].usrId)
      {
        IdentityUsers(w.identity, op, w.store.pats[id].usrId);
      }
    case Create(input, id, _, now) =>
      if LeavesToken(w, e) {
        assert Step(w, e).store.pats[id].revokedAt.None?;
      }
    case _ =>
  }

  predicate NeverLeavesToken(w: World, events: seq<Event>)
    decreases |events|
  {
    events == [] || (!LeavesToken(w, events[0]) && NeverLeavesToken(Step(w, events[0]), events[1..]))
  }

  lemma {:induction false} RunTokensActive(w: World, events: seq<Event>)
    requires TokensOfActive(w) && FreshRun(w, events) && NeverLeavesToken(w, events)
    ensures TokensOfActive(Run(w, events))
    decreases |events|
  {
    hide TokensOfActive, Step, Fresh, LeavesToken;
    if events == [] {
    } else {
      StepTokensActiveIff(w, events[0]);
      RunTokensActive(Step(w, events[0]), events[1..]);
    }
  }

  /** Over every interleaving without such events a verification begins only for a token of an active user. */
  lemma VerifiedForActiveUsers(events: seq<Event>, id: string, now: int)
    requires FreshRun(NOBODY, events) && NeverLeavesToken(NOBODY, events)
    ensures var w := Run(NOBODY, events);
      Lookup(w.store, id, now).Ok? ==> IsActive(w.identity.users, Lookup(w.store, id, now).value.usrId)
  {
    RunTokensActive(NOBODY, events);
  }

  /** In the code as it is, a token of a revoked user goes on verifying. */
  lemma RevokedUsersTokenVerifies()
    ensures var w := Run(NOBODY, Begun());
      var gone := Identity(Id.TransitionUser("u", Id.Revoked, 60, 60, id => 60));
      var w' := Step(w, gone);
      && Fresh(w, gone) && w' == Run(w, [gone])
      && "u" in w'.identity.users && w'.identity.users["u"].status == Id.Revoked
      && Lookup(w'.store, "p", 70).Ok? && Succeeds(w', Finish(0, true, 70))
  {
    var w := BegunWorld();
    var op := Id.TransitionUser("u", Id.Revoked, 60, 60, id => 60);
    var gone := Identity(op);
    var s1 := w.identity.(users := w.identity.users["u" := w.identity.users["u"].(status := Id.Revoked, updatedAt := 60)]);
    Id.RevokeSessionsFrame(s1, Id.LiveOfUser(s1.sessions, "u"), 60);
    hide Id.RevokeSessions, Id.LiveOfUser;
    assert [gone][1..] == [];
    assert Run(w, [gone]) == Run(Step(w, gone), []);
  }

  // ---------------------------------------------------------------- the store

  class InMemoryPatStore {
    var users: map<string, Id.User>
    var pats: map<string, Pat>
    var patLastUsedPersist: map<string, int>

    ghost function Value(): Store
      reads this
    {
      Store(pats, patLastUsedPersist)
    }

    ghost predicate Valid()
      reads this
    {
      StoreInv(Value())
    }

    /** The method's new state is the one an interleaving takes, whatever checks are under way. */
    ghost predicate Took(before: Store, e: Event)
      reads this
    {
      forall identity: Id.State, checks: map<nat, Check> ::
        identity.users == users ==> Step(World(identity, before, checks), e).store == Value()
    }

    constructor ()
      ensures Valid() && users == map[] && Value() == Store(map[], map[])
    {
      users, pats, patLastUsedPersist := map[], map[], map[];
    }

    /** A token is made for a known user, of any status, with a name of 1 to 120 bytes and an expiry at most a year ahead; it is then
        active and unused, and no other record changes. */
    method CreatePat(input: CreatePatInput, id: string, checkedAt: int, now: int) returns (r: Result<Pat, Error>)
      requires Valid() && id !in pats
      modifies this`pats
      ensures Valid() && Took(old(Value()), Create(input, id, checkedAt, now))
      ensures r.Ok? <==>
        && input.usrId in users && 1 <= |input.name| <= 120
        && (input.expiresAt.Some? ==> input.expiresAt.value - checkedAt <= 365 * 86_400 * 1_000_000_000)
      ensures r.Err? ==> Value() == old(Value())
      ensures r.Err? ==> r.error == if input.usrId !in users then UserNotFound else if 1 <= |input.name| <= 120 then ExpiresTooLate else InvalidName
      ensures r.Ok? ==>
        && r.value.id == id && r.value.usrId == input.usrId && r.value.scope == input.scope && r.value.expiresAt == input.expiresAt
        && r.value.name == input.name && r.value.createdAt == now && r.value.updatedAt == now
        && r.value.status == PatActive && r.value.revokedAt.None? && r.value.lastUsedAt.None?
        && pats == old(pats)[id := r.value] && patLastUsedPersist == old(patLastUsedPersist)
        && forall at :: input.expiresAt == None || at < input.expiresAt.value ==>
             Lookup(Value(), id, at) == Ok(Check(id, input.usrId, input.scope))
    {
      if input.usrId !in users {
        return Err(UserNotFound);
      }
      if |input.name| < 1 || |input.name| > 120 {
        return Err(InvalidName);
      }
      if input.expiresAt.Some? {
        var max := checkedAt + MAX_LIFETIME;
        if input.expiresAt.value > max {
          return Err(ExpiresTooLate);
        }
      }
      var pat := Pat(id, input.usrId, input.name, input.scope, PatActive, input.expiresAt, None, None, now, now);
      pats := pats[id := pat];
      return Ok(pat);
    }

    /** The first locked section of VerifyPatToken succeeds exactly for a known token that is neither revoked nor expired. */
    method BeginVerify(id: string, now: int) returns (r: Result<Check, Error>)
      requires Valid()
      ensures r == Lookup(Value(), id, now)
      ensures r.Ok? <==>
        id in pats && pats[id].status == PatActive && (pats[id].expiresAt.Some? ==> now < pats[id].expiresAt.value)
      ensures r.Ok? ==> r.value.patId == id && r.value.usrId == pats[id].usrId && r.value.scope == pats[id].scope
      ensures r.Err? ==> r.error == if id !in pats then InvalidPatToken
                                    else if pats[id].status == PatRevoked then PatRevokedError else PatExpiredError
    {
      if id !in pats {
        return Err(InvalidPatToken);
      }
      var pat := pats[id];
      if pat.revokedAt.Some? {
        return Err(PatRevokedError);
      }
      if pat.expiresAt.Some? && !(now < pat.expiresAt.value) {
        return Err(PatExpiredError);
      }
      return Ok(Check(id, pat.usrId, pat.scope));
    }

    /** The second locked section reads the record afresh, since it may have been revoked meanwhile.  A success leaves a revoked
        record as it is and any other with a stored use less than one window old; no other record changes. */
    method FinishVerify(c: Check, secretMatches: bool, now: int) returns (r: Result<Check, Error>)
      requires Valid() && c.patId in pats
      modifies this`pats, this`patLastUsedPersist
      ensures Valid()
      ensures forall identity: Id.State, t: nat, checks: map<nat, Check> :: t in checks && checks[t] == c ==>
        Step(World(identity, old(Value()), checks), Finish(t, secretMatches, now)).store == Value()
      ensures r == if secretMatches then Ok(c) else Err(InvalidPatToken)
      ensures !secretMatches || old(pats)[c.patId].status == PatRevoked ==> Value() == old(Value())
      ensures pats.Keys == old(pats.Keys) && forall id :: id in pats && id != c.patId ==>
        pats[id] == old(pats)[id] && (id in patLastUsedPersist <==> id in old(patLastUsedPersist))
      ensures var p, p' := old(pats)[c.patId], pats[c.patId];
        var due := p.lastUsedAt.None? || now - p.lastUsedAt.value >= 60_000_000_000;
        && p' == (if secretMatches && p.status == PatActive && due then p.(lastUsedAt := Some(now), updatedAt := now) else p)
        && (secretMatches && p.status == PatActive ==> p'.lastUsedAt.Some? && now - p'.lastUsedAt.value < 60_000_000_000)
    {
      if !secretMatches {
        return Err(InvalidPatToken);
      }
      if c.patId !in patLastUsedPersist || now - patLastUsedPersist[c.patId] >= WINDOW {
        if c.patId in pats && pats[c.patId].revokedAt.None? {
          var p := pats[c.patId].(lastUsedAt := Some(now), updatedAt := now);
          pats := pats[c.patId := p];
          patLastUsedPersist := patLastUsedPersist[c.patId := now];
        }
      }
      return Ok(c);
    }

    /** A known token is revoked afterwards, since its first revocation, and never begins a verification again; nothing else changes. */
    method RevokePat(id: string, now: int) returns (r: Result<Pat, Error>)
      requires Valid()
      modifies this`pats
      ensures Valid() && Took(old(Value()), Revoke(id, now))
      ensures r == if id in pats then Ok(pats[id]) else Err(NotFound)
      ensures pats.Keys == old(pats.Keys) && patLastUsedPersist == old(patLastUsedPersist)
      ensures forall other :: other in pats && other != id ==> pats[other] == old(pats)[other]
      ensures id in pats ==>
        && pats[id] == (if old(pats)[id].status == PatRevoked then old(pats)[id]
                        else old(pats)[id].(status := PatRevoked, revokedAt := Some(now), updatedAt := now))
        && (forall at :: Lookup(Value(), id, at) == Err(PatRevokedError))
    {
      if id !in pats {
        return Err(NotFound);
      }
      var p := pats[id];
      if p.revokedAt.Some? {
        return Ok(p);
      }
      p := p.(revokedAt := Some(now), status := PatRevoked, updatedAt := now);
      pats := pats[id := p];
      return Ok(p);
    }
  }
}
