/**
 * The tenancy store as a state machine: organizations, memberships with their revoke-and-re-add
 * history, invitations, the mirrored tuples and the two secondary indexes.
 *
 * Every call is one operation; generated ids and clock readings are part of the operation.
 */
module TenancyModel {
  import opened Common
  import opened Keys

  type Role = string

  const OWNER: Role := "owner"
  const MEMBER: Role := "member"

  function AdminRank(role: Role): nat {
    if role == "owner" then 4 else if role == "admin" then 3 else if role == "member" then 2 else if role == "guest" then 1 else 0
  }

  datatype Status = Active | Suspended | Revoked

  datatype InvitationStatus = Pending | Accepted | Declined | InvRevoked | Expired

  datatype Organization = Organization(
    id: string, status: Status, createdAt: int, updatedAt: int, name: Option<string>, slug: Option<string>)

  datatype Membership = Membership(
    id: string, usrId: string, orgId: string, role: Role, status: Status,
    replacesId: Option<string>, invitedBy: Option<string>, removedBy: Option<string>, createdAt: int, updatedAt: int)
  {
    function Key(): (string, string) { (orgId, usrId) }
    function RoleTuple(): Tuple { Tuple("usr", usrId, role, "org", orgId) }
  }

  datatype Tuple = Tuple(subjectType: string, subjectId: string, relation: string, objectType: string, objectId: string)

  /** The key under which the tuple map files a tuple. */
  function TupleKey(t: Tuple): string {
    NaturalKey(t.subjectType, t.subjectId, t.relation, t.objectType, t.objectId)
  }

  datatype PreTuple = PreTuple(relation: string, objectType: string, objectId: string)

  datatype Invitation = Invitation(
    id: string, orgId: string, identifier: string, role: Role, status: InvitationStatus, preTuples: seq<PreTuple>,
    invitedBy: string, invitedUserId: Option<string>, createdAt: int, expiresAt: int,
    terminalAt: Option<int>, terminalBy: Option<string>)

  datatype Error =
    | NotFound | DuplicateMembership | OrgSlugConflict | SoleOwner | AlreadyTerminal
    | InvitationNotPending | InvitationExpired | Forbidden | IdentifierBindingRequired | IdentifierMismatch
    | RoleHierarchy | Precondition(reason: string)

  /** The maps of the store.  Tuples are filed under their joined natural keys; the membership index is keyed by
      organization and user, whose join is unambiguous because organization ids are generated. */
  datatype State = State(
    orgs: map<string, Organization>,
    mems: map<string, Membership>,
    invs: map<string, Invitation>,
    tuples: map<string, Tuple>,
    orgBySlug: map<string, string>,
    activeMem: map<(string, string), string>)

  const EMPTY := State(map[], map[], map[], map[], map[], map[])

  datatype UpdateOrgInput = UpdateOrgInput(name: Option<string>, slug: Option<string>, clearName: bool, clearSlug: bool)

  datatype Op =
    | CreateOrg(creator: string, name: Option<string>, slug: Option<string>, orgId: string, memId: string, now: int)
    | UpdateOrg(orgId: string, update: UpdateOrgInput, now: int)
    | TransitionOrg(orgId: string, target: Status, now: int, stamps: string -> int)
    | AddMember(orgId: string, usrId: string, role: Role, invitedBy: Option<string>, memId: string, now: int)
    | ChangeRole(memId: string, role: Role, newId: string, now: int)
    | SuspendMembership(memId: string, now: int)
    | ReinstateMembership(memId: string, now: int)
    | SelfLeave(memId: string, transferTo: Option<string>, newId: string, promotedAt: int, now: int)
    | AdminRemove(memId: string, adminUsrId: string, now: int)
    | TransferOwnership(orgId: string, fromId: string, toId: string, newToId: string, newFromId: string, promotedAt: int, demotedAt: int)
    | CreateInvitation(orgId: string, identifier: string, role: Role, inviter: string, expiresAt: int, preTuples: seq<PreTuple>, invId: string, now: int)
    | GetInvitation(invId: string, now: int, terminalAt: int)
    | AcceptInvitation(invId: string, asUsrId: Option<string>, acceptingIdentifier: Option<string>, mintedUsrId: string, memId: string, checkedAt: int, now: int)
    | DeclineInvitation(invId: string, asUsrId: Option<string>, now: int)
    | RevokeInvitation(invId: string, adminUsrId: string, now: int)

  /** The state after a call and the error it returns, if any. */
  datatype Outcome = Outcome(next: State, error: Option<Error>)

  function Fails(s: State, e: Error): Outcome { Outcome(s, Some(e)) }
  function Succeeds(s: State): Outcome { Outcome(s, None) }

  // ---------------------------------------------------------------- the two edits of a membership

  /** A tuple takes the place of whatever its key holds. */
  function Write(tuples: map<string, Tuple>, t: Tuple): map<string, Tuple> {
    tuples[TupleKey(t) := t]
  }

  function WriteAll(tuples: map<string, Tuple>, ts: seq<Tuple>): map<string, Tuple> {
    if ts == [] then tuples else Write(WriteAll(tuples, ts[..|ts| - 1]), ts[|ts| - 1])
  }

  lemma {:induction false} WriteAllPrefixed(tuples: map<string, Tuple>, first: Tuple, ts: seq<Tuple>)
    ensures WriteAll(Write(tuples, first), ts) == WriteAll(tuples, [first] + ts)
    decreases |ts|
  {
    var all := [first] + ts;
    assert all[..|all| - 1] == if ts == [] then [] else [first] + ts[..|ts| - 1];
    if ts != [] {
      WriteAllPrefixed(tuples, first, ts[..|ts| - 1]);
    }
  }

  /** A membership row leaves: revoked at `now`, its index entry and role tuple dropped. */
  function Retire(s: State, id: string, removedBy: Option<string>, now: int): State
    requires id in s.mems
  {
    var m := s.mems[id];
    var gone := m.(status := Revoked, updatedAt := now, removedBy := if removedBy.Some? then removedBy else m.removedBy);
    s.(mems := s.mems[id := gone], activeMem := s.activeMem - {m.Key()}, tuples := s.tuples - {TupleKey(m.RoleTuple())})
  }

  /** An active membership row enters, with its index entry and role tuple. */
  function Enroll(s: State, m: Membership): State {
    s.(mems := s.mems[m.id := m], activeMem := s.activeMem[m.Key() := m.id], tuples := Write(s.tuples, m.RoleTuple()))
  }

  function Successor(m: Membership, role: Role, newId: string, now: int): Membership {
    Membership(newId, m.usrId, m.orgId, role, Active, Some(m.id), m.invitedBy, None, now, now)
  }

  /** Revoke and re-add. */
  function Replace(s: State, id: string, role: Role, newId: string, now: int): State
    requires id in s.mems
  {
    Enroll(Retire(s, id, None, now), Successor(s.mems[id], role, newId, now))
  }

  predicate IsActiveOwner(m: Membership, orgId: string) {
    m.orgId == orgId && m.status == Active && m.role == OWNER
  }

  function Owners(mems: map<string, Membership>, orgId: string): set<string> {
    set id | id in mems && IsActiveOwner(mems[id], orgId)
  }

  // ---------------------------------------------------------------- organizations

  predicate IsSlugChar(c: char) { 'a' <= c <= 'z' || '0' <= c <= '9' || c == '-' }

  /** ^[a-z0-9]([a-z0-9-]{0,61}[a-z0-9])?$ */
  predicate ValidSlug(slug: string) {
    1 <= |slug| <= 63 && (forall i :: 0 <= i < |slug| ==> IsSlugChar(slug[i])) && slug[0] != '-' && slug[|slug| - 1] != '-'
  }

  function StepCreateOrg(s: State, op: Op): Outcome
    requires op.CreateOrg?
  {
    if op.slug.Some? && !ValidSlug(op.slug.value) then Fails(s, Precondition("invalid_slug"))
    else if op.slug.Some? && op.slug.value in s.orgBySlug then Fails(s, OrgSlugConflict)
    else
      var org := Organization(op.orgId, Active, op.now, op.now, op.name, op.slug);
      var s1 := s.(orgs := s.orgs[op.orgId := org],
                   orgBySlug := if op.slug.Some? then s.orgBySlug[op.slug.value := op.orgId] else s.orgBySlug);
      Succeeds(Enroll(s1, Membership(op.memId, op.creator, op.orgId, OWNER, Active, None, None, None, op.now, op.now)))
  }

  function DropSlug(index: map<string, string>, slug: Option<string>): map<string, string> {
    if slug.Some? then index - {slug.value} else index
  }

  function StepUpdateOrg(s: State, op: Op): Outcome
    requires op.UpdateOrg?
  {
    if op.orgId !in s.orgs then Fails(s, NotFound)
    else
      var o, input := s.orgs[op.orgId], op.update;
      if o.status == Revoked then Fails(s, AlreadyTerminal)
      else if !input.clearSlug && input.slug.Some? && !ValidSlug(input.slug.value) then Fails(s, Precondition("invalid_slug"))
      else if !input.clearSlug && input.slug.Some? && input.slug.value in s.orgBySlug && s.orgBySlug[input.slug.value] != op.orgId
      then Fails(s, OrgSlugConflict)
      else
        var name := if input.clearName then None else if input.name.Some? then input.name else o.name;
        var slug := if input.clearSlug then None else if input.slug.Some? then input.slug else o.slug;
        var index :=
          if input.clearSlug then DropSlug(s.orgBySlug, o.slug)
          else if input.slug.Some? then DropSlug(s.orgBySlug, o.slug)[input.slug.value := op.orgId]
          else s.orgBySlug;
        Succeeds(s.(orgs := s.orgs[op.orgId := o.(name := name, slug := slug, updatedAt := op.now)], orgBySlug := index))
  }

  /** The rows a revoked organization takes with it. */
  function ActiveIn(mems: map<string, Membership>, orgId: string): set<string> {
    set id | id in mems && mems[id].orgId == orgId && mems[id].status == Active
  }

  /** The memberships `ids` of one organization revoked together. */
  function RetireAll(s: State, ids: set<string>, stamps: string -> int): State
    requires ids <= s.mems.Keys
  {
    s.(mems := map id | id in s.mems ::
                 if id in ids then s.mems[id].(status := Revoked, updatedAt := stamps(id)) else s.mems[id],
       activeMem := s.activeMem - (set id | id in ids :: s.mems[id].Key()),
       tuples := s.tuples - (set id | id in ids :: TupleKey(s.mems[id].RoleTuple())))
  }

  function StepTransitionOrg(s: State, op: Op): Outcome
    requires op.TransitionOrg?
  {
    if op.orgId !in s.orgs then Fails(s, NotFound)
    else
      var o := s.orgs[op.orgId];
      if o.status == Revoked then Fails(s, AlreadyTerminal)
      else if op.target == Active && o.status != Suspended then Fails(s, Precondition("invalid_transition"))
      else
        var s1 := s.(orgs := s.orgs[op.orgId := o.(status := op.target, updatedAt := op.now)]);
        if op.target != Revoked then Succeeds(s1)
        else
          var s2 := RetireAll(s1, ActiveIn(s1.mems, op.orgId), op.stamps);
          Succeeds(s2.(orgBySlug := DropSlug(s2.orgBySlug, o.slug)))
  }

  // ---------------------------------------------------------------- memberships

  function StepAddMember(s: State, op: Op): Outcome
    requires op.AddMember?
  {
    if op.orgId !in s.orgs then Fails(s, NotFound)
    else if (op.orgId, op.usrId) in s.activeMem then Fails(s, DuplicateMembership)
    else Succeeds(Enroll(s, Membership(op.memId, op.usrId, op.orgId, op.role, Active, None, op.invitedBy, None, op.now, op.now)))
  }

  function StepChangeRole(s: State, op: Op): Outcome
    requires op.ChangeRole?
  {
    if op.memId !in s.mems then Fails(s, NotFound)
    else
      var m := s.mems[op.memId];
      if m.status != Active then Fails(s, Precondition("mem_not_active"))
      else if m.role == op.role then Succeeds(s)
      else if m.role == OWNER && |Owners(s.mems, m.orgId)| == 1 then Fails(s, SoleOwner)
      else Succeeds(Replace(s, op.memId, op.role, op.newId, op.now))
  }

  function StepSuspend(s: State, op: Op): Outcome
    requires op.SuspendMembership?
  {
    if op.memId !in s.mems then Fails(s, NotFound)
    else
      var m := s.mems[op.memId];
      if m.status == Revoked then Fails(s, AlreadyTerminal)
      else if m.status == Active && m.role == OWNER && |Owners(s.mems, m.orgId)| == 1 then Fails(s, SoleOwner)
      else Succeeds(s.(mems := s.mems[op.memId := m.(status := Suspended, updatedAt := op.now)],
                       activeMem := s.activeMem - {m.Key()}, tuples := s.tuples - {TupleKey(m.RoleTuple())}))
  }

  function StepReinstate(s: State, op: Op): Outcome
    requires op.ReinstateMembership?
  {
    if op.memId !in s.mems then Fails(s, NotFound)
    else
      var m := s.mems[op.memId];
      if m.status == Revoked then Fails(s, AlreadyTerminal)
      else if m.status != Suspended then Fails(s, Precondition("invalid_transition"))
      else if m.Key() in s.activeMem then Fails(s, DuplicateMembership)
      else Succeeds(s.(mems := s.mems[op.memId := m.(status := Active, updatedAt := op.now)],
                       activeMem := s.activeMem[m.Key() := op.memId], tuples := Write(s.tuples, m.RoleTuple())))
  }

  /** The sole owner hands ownership on before leaving. */
  function MustTransfer(s: State, m: Membership): bool {
    m.role == OWNER && |Owners(s.mems, m.orgId)| == 1
  }

  function StepSelfLeave(s: State, op: Op): Outcome
    requires op.SelfLeave?
  {
    if op.memId !in s.mems then Fails(s, NotFound)
    else
      var m := s.mems[op.memId];
      if m.status != Active then Fails(s, Precondition("mem_not_active"))
      else if !MustTransfer(s, m) then Succeeds(Retire(s, op.memId, Some(m.usrId), op.now))
      else if op.transferTo.None? then Fails(s, SoleOwner)
      else
        var key := (m.orgId, op.transferTo.value);
        if key !in s.activeMem || s.activeMem[key] !in s.mems then Fails(s, NotFound)
        else if s.mems[s.activeMem[key]].role == OWNER then Fails(s, Precondition("already_owner"))
        else
          var s1 := Replace(s, s.activeMem[key], OWNER, op.newId, op.promotedAt);
          Succeeds(Retire(s1, op.memId, Some(m.usrId), op.now))
  }

  function StepAdminRemove(s: State, op: Op): Outcome
    requires op.AdminRemove?
  {
    if op.memId !in s.mems then Fails(s, NotFound)
    else
      var m := s.mems[op.memId];
      var key := (m.orgId, op.adminUsrId);
      if m.status != Active then Fails(s, Precondition("mem_not_active"))
      else if key !in s.activeMem || s.activeMem[key] !in s.mems then Fails(s, Forbidden)
      else
        var rank := AdminRank(s.mems[s.activeMem[key]].role);
        if rank < 3 then Fails(s, Forbidden)
        else if rank < AdminRank(m.role) then Fails(s, RoleHierarchy)
        else if m.role == OWNER && |Owners(s.mems, m.orgId)| == 1 then Fails(s, SoleOwner)
        else Succeeds(Retire(s, op.memId, Some(op.adminUsrId), op.now))
  }

  function StepTransferOwnership(s: State, op: Op): Outcome
    requires op.TransferOwnership?
  {
    if op.fromId == op.toId then Fails(s, Precondition("self_transfer"))
    else if op.fromId !in s.mems || !IsActiveOwner(s.mems[op.fromId], op.orgId) then Fails(s, Precondition("not_active_owner"))
    else if op.toId !in s.mems || s.mems[op.toId].orgId != op.orgId || s.mems[op.toId].status != Active
    then Fails(s, Precondition("not_active_member"))
    else
      var s1 := Replace(s, op.toId, OWNER, op.newToId, op.promotedAt);
      Succeeds(Replace(s1, op.fromId, MEMBER, op.newFromId, op.demotedAt))
  }

  // ---------------------------------------------------------------- invitations

  function StepCreateInvitation(s: State, op: Op): Outcome
    requires op.CreateInvitation?
  {
    if op.orgId !in s.orgs then Fails(s, NotFound)
    else Succeeds(s.(invs := s.invs[op.invId :=
      Invitation(op.invId, op.orgId, op.identifier, op.role, Pending, op.preTuples, op.inviter, None, op.now, op.expiresAt, None, None)]))
  }

  function Expire(s: State, id: string, at: int): State
    requires id in s.invs
  {
    s.(invs := s.invs[id := s.invs[id].(status := Expired, terminalAt := Some(at))])
  }

  function StepGetInvitation(s: State, op: Op): Outcome
    requires op.GetInvitation?
  {
    if op.invId !in s.invs then Fails(s, NotFound)
    else if s.invs[op.invId].status == Pending && op.now >= s.invs[op.invId].expiresAt then Succeeds(Expire(s, op.invId, op.terminalAt))
    else Succeeds(s)
  }

  function AcceptingUser(op: Op): string
    requires op.AcceptInvitation?
  {
    if op.asUsrId.Some? then op.asUsrId.value else op.mintedUsrId
  }

  /** The tuples an invitation brings for its accepting user, in order. */
  function Materialized(inv: Invitation, usr: string): (ts: seq<Tuple>)
    ensures |ts| == |inv.preTuples|
  {
    seq(|inv.preTuples|, i requires 0 <= i < |inv.preTuples| =>
      Tuple("usr", usr, inv.preTuples[i].relation, inv.preTuples[i].objectType, inv.preTuples[i].objectId))
  }

  function StepAccept(s: State, op: Op): Outcome
    requires op.AcceptInvitation?
  {
    if op.invId !in s.invs then Fails(s, NotFound)
    else
      var inv, usr := s.invs[op.invId], AcceptingUser(op);
      if inv.status != Pending then Fails(s, InvitationNotPending)
      else if op.checkedAt >= inv.expiresAt then Fails(Expire(s, op.invId, op.now), InvitationExpired)
      else if op.asUsrId.Some? && op.acceptingIdentifier.None? then Fails(s, IdentifierBindingRequired)
      else if op.asUsrId.Some? && op.acceptingIdentifier.value != inv.identifier then Fails(s, IdentifierMismatch)
      else if (inv.orgId, usr) in s.activeMem then Fails(s, DuplicateMembership)
      else
        var s1 := Enroll(s, Membership(op.memId, usr, inv.orgId, inv.role, Active, None, Some(inv.invitedBy), None, op.now, op.now));
        Succeeds(s1.(tuples := WriteAll(s1.tuples, Materialized(inv, usr)),
                     invs := s1.invs[op.invId := inv.(status := Accepted, terminalAt := Some(op.now), invitedUserId := Some(usr))]))
  }

  /** The guards of an acceptance: a pending invitation before its expiry, the invited identifier when an existing user
      accepts, and no active membership in the way. */
  predicate Acceptable(s: State, op: Op)
    requires op.AcceptInvitation?
  {
    && op.invId in s.invs && s.invs[op.invId].status == Pending && op.checkedAt < s.invs[op.invId].expiresAt
    && (op.asUsrId.Some? ==> op.acceptingIdentifier == Some(s.invs[op.invId].identifier))
    && (s.invs[op.invId].orgId, AcceptingUser(op)) !in s.activeMem
  }

  lemma AcceptSucceedsIff(s: State, op: Op)
    requires op.AcceptInvitation?
    ensures StepAccept(s, op).error.None? <==> Acceptable(s, op)
  {
  }

  function StepDecline(s: State, op: Op): Outcome
    requires op.DeclineInvitation?
  {
    if op.invId !in s.invs then Fails(s, NotFound)
    else
      var inv := s.invs[op.invId];
      if inv.status != Pending then Fails(s, InvitationNotPending)
      else
        var seen := if op.asUsrId.Some? then inv.(terminalBy := op.asUsrId, invitedUserId := op.asUsrId) else inv;
        Succeeds(s.(invs := s.invs[op.invId := seen.(status := Declined, terminalAt := Some(op.now))]))
  }

  function StepRevokeInvitation(s: State, op: Op): Outcome
    requires op.RevokeInvitation?
  {
    if op.invId !in s.invs then Fails(s, NotFound)
    else
      var inv := s.invs[op.invId];
      if inv.status != Pending then Fails(s, InvitationNotPending)
      else Succeeds(s.(invs := s.invs[op.invId :=
        inv.(status := InvRevoked, terminalAt := Some(op.now), terminalBy := Some(op.adminUsrId))]))
  }

  function Step(s: State, op: Op): Outcome {
    match op
    case CreateOrg(_, _, _, _, _, _) => StepCreateOrg(s, op)
    case UpdateOrg(_, _, _) => StepUpdateOrg(s, op)
    case TransitionOrg(_, _, _, _) => StepTransitionOrg(s, op)
    case AddMember(_, _, _, _, _, _) => StepAddMember(s, op)
    case ChangeRole(_, _, _, _) => StepChangeRole(s, op)
    case SuspendMembership(_, _) => StepSuspend(s, op)
    case ReinstateMembership(_, _) => StepReinstate(s, op)
    case SelfLeave(_, _, _, _, _) => StepSelfLeave(s, op)
    case AdminRemove(_, _, _) => StepAdminRemove(s, op)
    case TransferOwnership(_, _, _, _, _, _, _) => StepTransferOwnership(s, op)
    case CreateInvitation(_, _, _, _, _, _, _, _) => StepCreateInvitation(s, op)
    case GetInvitation(_, _, _) => StepGetInvitation(s, op)
    case AcceptInvitation(_, _, _, _, _, _, _) => StepAccept(s, op)
    case DeclineInvitation(_, _, _) => StepDecline(s, op)
    case RevokeInvitation(_, _, _) => StepRevokeInvitation(s, op)
  }

  /** Generated ids are fresh. */
  predicate Fresh(s: State, op: Op) {
    match op
    case CreateOrg(_, _, _, orgId, memId, _) => orgId !in s.orgs && memId !in s.mems
    case AddMember(_, _, _, _, memId, _) => memId !in s.mems
    case ChangeRole(_, _, newId, _) => newId !in s.mems
    case SelfLeave(_, _, newId, _, _) => newId !in s.mems
    case TransferOwnership(_, _, _, newToId, newFromId, _, _) => newToId !in s.mems && newFromId !in s.mems && newToId != newFromId
    case CreateInvitation(_, _, _, _, _, _, invId, _) => invId !in s.invs
    case AcceptInvitation(_, _, _, _, memId, _, _) => memId !in s.mems
    case _ => true
  }

  function Run(s: State, ops: seq<Op>): State
    decreases |ops|
  {
    if ops == [] then s else Run(Step(s, ops[0]).next, ops[1..])
  }

  predicate FreshRun(s: State, ops: seq<Op>)
    decreases |ops|
  {
    ops == [] || (Fresh(s, ops[0]) && FreshRun(Step(s, ops[0]).next, ops[1..]))
  }

  lemma TwoSteps(s: State, op1: Op, op2: Op)
    ensures Run(s, [op1, op2]) == Step(Step(s, op1).next, op2).next
    ensures FreshRun(s, [op1, op2]) <==> Fresh(s, op1) && Fresh(Step(s, op1).next, op2)
  {
    hide Step, Fresh;
    var s1 := Step(s, op1).next;
    assert [op1, op2][1..] == [op2] && [op2][1..] == [];
    assert Run(s1, [op2]) == Run(Step(s1, op2).next, []);
    assert FreshRun(s1, [op2]) <==> Fresh(s1, op2) && FreshRun(Step(s1, op2).next, []);
  }

  lemma {:induction false} RunSplit(s: State, ops: seq<Op>, n: nat)
    requires n <= |ops|
    ensures Run(s, ops) == Run(Run(s, ops[..n]), ops[n..])
    ensures FreshRun(s, ops) <==> FreshRun(s, ops[..n]) && FreshRun(Run(s, ops[..n]), ops[n..])
    decreases n
  {
    hide Step, Fresh;
    if n == 0 {
      assert ops[0..] == ops && ops[..0] == [];
    } else {
      RunSplit(Step(s, ops[0]).next, ops[1..], n - 1);
      assert ops[..n][1..] == ops[1..][..n - 1] && ops[1..][n - 1..] == ops[n..];
    }
  }
}
