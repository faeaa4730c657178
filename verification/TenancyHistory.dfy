/**
 * What whole runs of the tenancy store never undo: revoked memberships and terminal invitations
 * stay as they are, an invitation is accepted at most once, and replacement chains are finite.
 */
module TenancyHistory {
  import opened Common
  import opened TenancyModel
  import opened TenancyInvariants

  // ---------------------------------------------------------------- frozen rows

  ghost predicate FrozenMems(mems: Mems, mems': Mems) {
    && (forall id :: id in mems ==> id in mems' && mems'[id].replacesId == mems[id].replacesId)
    && (forall id :: id in mems && mems[id].status == Revoked ==> mems'[id] == mems[id])
  }

  ghost predicate FrozenInvs(invs: map<string, Invitation>, invs': map<string, Invitation>) {
    && (forall id :: id in invs ==> id in invs' && invs'[id].preTuples == invs[id].preTuples)
    && (forall id :: id in invs && invs[id].status != Pending ==> invs'[id] == invs[id])
  }

  /** Rows never disappear, and revoked memberships and terminal invitations never change. */
  ghost predicate Frozen(s: State, s': State) {
    FrozenMems(s.mems, s'.mems) && FrozenInvs(s.invs, s'.invs)
  }

  lemma FrozenMemsSet(mems: Mems, id: string, m: Membership)
    requires id in mems ==> mems[id].status != Revoked && m.replacesId == mems[id].replacesId
    ensures FrozenMems(mems, mems) && FrozenMems(mems, mems[id := m])
  {
  }

  lemma FrozenSame(s: State)
    ensures Frozen(s, s)
  {
  }

  lemma FrozenTrans(a: State, b: State, c: State)
    requires Frozen(a, b) && Frozen(b, c)
    ensures Frozen(a, c)
  {
  }

  lemma RetireFreezes(s: State, id: string, removedBy: Option<string>, now: int)
    requires id in s.mems && s.mems[id].status == Active
    ensures Frozen(s, Retire(s, id, removedBy, now))
  {
  }

  lemma EnrollFreezes(s: State, m: Membership)
    requires m.id !in s.mems
    ensures Frozen(s, Enroll(s, m))
  {
  }

  lemma ReplaceFreezes(s: State, id: string, role: Role, newId: string, now: int)
    requires id in s.mems && s.mems[id].status == Active && newId !in s.mems
    ensures Frozen(s, Replace(s, id, role, newId, now))
  {
    var s1 := Retire(s, id, None, now);
    RetireFreezes(s, id, None, now);
    EnrollFreezes(s1, Successor(s.mems[id], role, newId, now));
    FrozenTrans(s, s1, Replace(s, id, role, newId, now));
  }

  lemma TransferFreezes(s: State, op: Op)
    requires Fresh(s, op) && op.TransferOwnership?
    ensures Frozen(s, StepTransferOwnership(s, op).next)
  {
    if StepTransferOwnership(s, op).error.None? {
      var s1 := Replace(s, op.toId, OWNER, op.newToId, op.promotedAt);
      assert s1.mems[op.fromId] == s.mems[op.fromId] && op.newFromId !in s1.mems;
      hide TupleKey, Replace, Frozen;
      ReplaceFreezes(s, op.toId, OWNER, op.newToId, op.promotedAt);
      ReplaceFreezes(s1, op.fromId, MEMBER, op.newFromId, op.demotedAt);
      FrozenTrans(s, s1, StepTransferOwnership(s, op).next);
    } else {
      FrozenSame(s);
    }
  }

  lemma SelfLeaveFreezes(s: State, op: Op)
    requires Inv(s) && Fresh(s, op) && op.SelfLeave?
    ensures Frozen(s, StepSelfLeave(s, op).next)
  {
    hide TupleKey, Inv, Frozen;
    if StepSelfLeave(s, op).error.None? {
      var leaver := Some(s.mems[op.memId].usrId);
      if MustTransfer(s, s.mems[op.memId]) {
        var tt := SelfLeaveTransfer(s, op);
        var s1 := Replace(s, tt, OWNER, op.newId, op.promotedAt);
        ReplaceFreezes(s, tt, OWNER, op.newId, op.promotedAt);
        assert s1.mems[op.memId] == s.mems[op.memId];
        RetireFreezes(s1, op.memId, leaver, op.now);
        FrozenTrans(s, s1, StepSelfLeave(s, op).next);
      } else {
        RetireFreezes(s, op.memId, leaver, op.now);
      }
    } else {
      FrozenSame(s);
    }
  }

  lemma OrgStepFreezes(s: State, op: Op)
    requires op.CreateOrg? || op.UpdateOrg?
    requires Fresh(s, op)
    ensures Frozen(s, Step(s, op).next)
  {
    FrozenSame(s);
    hide TupleKey, FrozenMems, FrozenInvs, ValidSlug;
    if op.CreateOrg? && StepCreateOrg(s, op).error.None? {
      FrozenMemsSet(s.mems, op.memId, Step(s, op).next.mems[op.memId]);
    }
  }

  lemma TransitionOrgFreezes(s: State, op: Op)
    requires op.TransitionOrg?
    ensures Frozen(s, StepTransitionOrg(s, op).next)
  {
    FrozenSame(s);
    hide TupleKey, FrozenInvs;
  }

  lemma MemberStepFreezes(s: State, op: Op)
    requires op.AddMember? || op.SuspendMembership? || op.ReinstateMembership?
    requires Fresh(s, op)
    ensures Frozen(s, Step(s, op).next)
  {
    FrozenSame(s);
    hide TupleKey, FrozenMems, FrozenInvs, Owners;
    if Step(s, op).error.None? {
      FrozenMemsSet(s.mems, op.memId, Step(s, op).next.mems[op.memId]);
    }
  }

  lemma SetInvitationFreezes(s: State, id: string, inv: Invitation, tuples: map<string, Tuple>)
    requires id in s.invs ==> s.invs[id].status == Pending && s.invs[id].preTuples == inv.preTuples
    ensures Frozen(s, s.(invs := s.invs[id := inv], tuples := tuples))
  {
  }

  lemma AcceptFreezes(s: State, op: Op)
    requires op.AcceptInvitation? && Fresh(s, op)
    ensures Frozen(s, StepAccept(s, op).next)
  {
    hide TupleKey, Frozen, Enroll;
    var s' := StepAccept(s, op).next;
    if StepAccept(s, op).error.None? {
      var inv := s.invs[op.invId];
      var m := Membership(op.memId, AcceptingUser(op), inv.orgId, inv.role, Active, None, Some(inv.invitedBy), None, op.now, op.now);
      EnrollFreezes(s, m);
      EnrollInvs(s, m);
      SetInvitationFreezes(Enroll(s, m), op.invId, s'.invs[op.invId], s'.tuples);
      FrozenTrans(s, Enroll(s, m), s');
    } else if StepAccept(s, op).error == Some(InvitationExpired) {
      SetInvitationFreezes(s, op.invId, s'.invs[op.invId], s.tuples);
    } else {
      FrozenSame(s);
    }
  }

  lemma EnrollInvs(s: State, m: Membership)
    ensures Enroll(s, m).invs == s.invs
  {
  }

  lemma InvitationFreezes(s: State, op: Op)
    requires op.CreateInvitation? || op.GetInvitation? || op.DeclineInvitation? || op.RevokeInvitation?
    requires Fresh(s, op)
    ensures Frozen(s, Step(s, op).next)
  {
    hide TupleKey, Frozen;
    var s' := Step(s, op).next;
    if s' == s {
      FrozenSame(s);
    } else {
      SetInvitationFreezes(s, op.invId, s'.invs[op.invId], s.tuples);
      assert s' == s.(invs := s.invs[op.invId := s'.invs[op.invId]], tuples := s.tuples);
    }
  }

  /** No operation ever changes a revoked membership or a terminal invitation. */
  lemma StepFreezes(s: State, op: Op)
    requires Inv(s) && Fresh(s, op)
    ensures Frozen(s, Step(s, op).next)
  {
    hide TupleKey, Inv, Frozen, StepSelfLeave, StepTransferOwnership, StepAccept, Replace, Retire;
    match op
    case ChangeRole(id, role, newId, now) =>
      if StepChangeRole(s, op).error.None? && s.mems[id].role != role {
        ReplaceFreezes(s, id, role, newId, now);
      } else {
        FrozenSame(s);
      }
    case SelfLeave(_, _, _, _, _) => SelfLeaveFreezes(s, op);
    case AdminRemove(id, admin, now) =>
      if StepAdminRemove(s, op).error.None? {
        RetireFreezes(s, id, Some(admin), now);
      } else {
        FrozenSame(s);
      }
    case TransferOwnership(_, _, _, _, _, _, _) => TransferFreezes(s, op);
    case CreateInvitation(_, _, _, _, _, _, _, _) => InvitationFreezes(s, op);
    case GetInvitation(_, _, _) => InvitationFreezes(s, op);
    case AcceptInvitation(_, _, _, _, _, _, _) => AcceptFreezes(s, op);
    case DeclineInvitation(_, _, _) => InvitationFreezes(s, op);
    case RevokeInvitation(_, _, _) => InvitationFreezes(s, op);
    case CreateOrg(_, _, _, _, _, _) => OrgStepFreezes(s, op);
    case UpdateOrg(_, _, _) => OrgStepFreezes(s, op);
    case TransitionOrg(_, _, _, _) => TransitionOrgFreezes(s, op);
    case _ => MemberStepFreezes(s, op);
  }

  /** Over any run, revoked memberships and terminal invitations stay exactly as they are. */
  lemma {:induction false} RunFreezes(s: State, ops: seq<Op>)
    requires Inv(s) && FreshRun(s, ops)
    ensures Frozen(s, Run(s, ops))
    decreases |ops|
  {
    hide TupleKey, Inv, Step, Fresh, Frozen;
    if ops == [] {
      FrozenSame(s);
    } else {
      StepFreezes(s, ops[0]);
      StepKeepsInv(s, ops[0]);
      RunFreezes(Step(s, ops[0]).next, ops[1..]);
      FrozenTrans(s, Step(s, ops[0]).next, Run(s, ops));
    }
  }

  // ---------------------------------------------------------------- invitations

  ghost predicate AcceptsNow(s: State, op: Op, invId: string) {
    op.AcceptInvitation? && op.invId == invId && Step(s, op).error.None?
  }

  /** How many calls of the run accept the invitation. */
  ghost function Acceptances(s: State, ops: seq<Op>, invId: string): nat
    decreases |ops|
  {
    if ops == [] then 0
    else (if AcceptsNow(s, ops[0], invId) then 1 else 0) + Acceptances(Step(s, ops[0]).next, ops[1..], invId)
  }

  /** No later write goes to the key of write `i`. */
  ghost predicate LastWith(writes: seq<Tuple>, i: nat)
    requires i < |writes|
  {
    forall j :: i < j < |writes| ==> TupleKey(writes[j]) != TupleKey(writes[i])
  }

  /** Every written key holds the last tuple written to it. */
  ghost predicate HoldsLast(after: map<string, Tuple>, writes: seq<Tuple>) {
    forall i :: 0 <= i < |writes| && LastWith(writes, i) ==> TupleKey(writes[i]) in after && after[TupleKey(writes[i])] == writes[i]
  }

  ghost predicate Unwritten(key: string, writes: seq<Tuple>) {
    forall i :: 0 <= i < |writes| ==> TupleKey(writes[i]) != key
  }

  /** No other key changes. */
  ghost predicate KeepsUnwritten(before: map<string, Tuple>, after: map<string, Tuple>, writes: seq<Tuple>) {
    forall key :: Unwritten(key, writes) ==> (key in after <==> key in before) && (key in before ==> after[key] == before[key])
  }

  lemma {:induction false} WrittenTuples(tuples: map<string, Tuple>, writes: seq<Tuple>)
    ensures HoldsLast(WriteAll(tuples, writes), writes) && KeepsUnwritten(tuples, WriteAll(tuples, writes), writes)
    decreases |writes|
  {
    if writes != [] {
      WrittenTuples(tuples, writes[..|writes| - 1]);
      OneMoreWrite(tuples, WriteAll(tuples, writes[..|writes| - 1]), writes);
    }
  }

  lemma OneMoreWrite(tuples: map<string, Tuple>, before: map<string, Tuple>, writes: seq<Tuple>)
    requires writes != []
    requires HoldsLast(before, writes[..|writes| - 1]) && KeepsUnwritten(tuples, before, writes[..|writes| - 1])
    ensures var after := Write(before, writes[|writes| - 1]); HoldsLast(after, writes) && KeepsUnwritten(tuples, after, writes)
  {
    hide TupleKey, TupleKey;
    var n := |writes| - 1;
    var after := Write(before, writes[n]);
    forall i | 0 <= i < |writes| && LastWith(writes, i)
      ensures TupleKey(writes[i]) in after && after[TupleKey(writes[i])] == writes[i]
    {
      if i < n {
        assert writes[..n][i] == writes[i] && LastWith(writes[..n], i);
        assert TupleKey(writes[n]) != TupleKey(writes[i]);
      }
    }
    forall key | Unwritten(key, writes)
      ensures (key in after <==> key in tuples) && (key in tuples ==> after[key] == tuples[key])
    {
      assert Unwritten(key, writes[..n]);
    }
  }

  /** An acceptance falls before the expiry.  It makes exactly one membership, indexed for the accepting user, writes exactly
      its role tuple and then the pre-tuples of the invitation in order, each under its joined key, and changes nothing else
      but the invitation itself, which it leaves accepted. */
  lemma AcceptanceEffect(s: State, op: Op, invId: string)
    requires Inv(s) && Fresh(s, op) && AcceptsNow(s, op, invId)
    ensures invId in s.invs && s.invs[invId].status == Pending && op.checkedAt < s.invs[invId].expiresAt
    ensures var s', inv, usr := Step(s, op).next, s.invs[invId], AcceptingUser(op);
      && (exists m: Membership ::
            && m.id == op.memId && m.Key() == (inv.orgId, usr) && m.role == inv.role && m.status == Active
            && m.invitedBy == Some(inv.invitedBy) && m.replacesId.None?
            && m.id !in s.mems && s'.mems == s.mems[m.id := m]
            && m.Key() !in s.activeMem && s'.activeMem == s.activeMem[m.Key() := m.id])
      && (var writes := [Tuple("usr", usr, inv.role, "org", inv.orgId)] + Materialized(inv, usr);
            HoldsLast(s'.tuples, writes) && KeepsUnwritten(s.tuples, s'.tuples, writes))
      && s'.orgs == s.orgs && s'.orgBySlug == s.orgBySlug
      && s'.invs.Keys == s.invs.Keys && (forall id :: id in s.invs && id != invId ==> s'.invs[id] == s.invs[id])
      && s'.invs[invId] == inv.(status := Accepted, terminalAt := Some(op.now), invitedUserId := Some(usr))
  {
    hide TupleKey, Inv;
    assert Step(s, op) == StepAccept(s, op);
    AcceptedRow(s, op);
    AcceptedTuples(s, op);
  }

  lemma AcceptedRow(s: State, op: Op)
    requires Fresh(s, op) && op.AcceptInvitation? && StepAccept(s, op).error.None?
    ensures op.invId in s.invs && s.invs[op.invId].status == Pending && op.checkedAt < s.invs[op.invId].expiresAt
    ensures var s', inv, usr := StepAccept(s, op).next, s.invs[op.invId], AcceptingUser(op);
      && (exists m: Membership ::
            && m.id == op.memId && m.Key() == (inv.orgId, usr) && m.role == inv.role && m.status == Active
            && m.invitedBy == Some(inv.invitedBy) && m.replacesId.None?
            && m.id !in s.mems && s'.mems == s.mems[m.id := m]
            && m.Key() !in s.activeMem && s'.activeMem == s.activeMem[m.Key() := m.id])
      && s'.orgs == s.orgs && s'.orgBySlug == s.orgBySlug
      && s'.invs == s.invs[op.invId := inv.(status := Accepted, terminalAt := Some(op.now), invitedUserId := Some(usr))]
  {
    var m := StepAccept(s, op).next.mems[op.memId];
    assert m.id == op.memId;
  }

  lemma AcceptedTuples(s: State, op: Op)
    requires op.AcceptInvitation? && StepAccept(s, op).error.None?
    ensures var s', inv, usr := StepAccept(s, op).next, s.invs[op.invId], AcceptingUser(op);
      var writes := [Tuple("usr", usr, inv.role, "org", inv.orgId)] + Materialized(inv, usr);
      HoldsLast(s'.tuples, writes) && KeepsUnwritten(s.tuples, s'.tuples, writes)
  {
    var inv, usr := s.invs[op.invId], AcceptingUser(op);
    var role, ts := Tuple("usr", usr, inv.role, "org", inv.orgId), Materialized(inv, usr);
    assert StepAccept(s, op).next.tuples == WriteAll(Write(s.tuples, role), ts);
    hide TupleKey, StepAccept, AcceptingUser, Materialized, TupleKey;
    WriteAllPrefixed(s.tuples, role, ts);
    WrittenTuples(s.tuples, [role] + ts);
  }

  /** A call that fails to accept adds no membership, index entry or tuple. */
  lemma RefusedAcceptanceAddsNothing(s: State, op: Op)
    requires op.AcceptInvitation? && Step(s, op).error.Some?
    ensures var s' := Step(s, op).next;
      s'.mems == s.mems && s'.tuples == s.tuples && s'.activeMem == s.activeMem && s'.orgs == s.orgs
  {
  }

  lemma TerminalNotAccepted(s: State, op: Op, invId: string)
    requires invId in s.invs && s.invs[invId].status != Pending
    ensures !AcceptsNow(s, op, invId)
  {
  }

  lemma {:induction false} NeverAcceptedAgain(s: State, ops: seq<Op>, invId: string)
    requires Inv(s) && FreshRun(s, ops) && invId in s.invs && s.invs[invId].status != Pending
    ensures Acceptances(s, ops, invId) == 0
    decreases |ops|
  {
    hide TupleKey, Inv, Step, Fresh, AcceptsNow;
    if ops == [] {
    } else {
      TerminalNotAccepted(s, ops[0], invId);
      StepFreezes(s, ops[0]);
      StepKeepsInv(s, ops[0]);
      NeverAcceptedAgain(Step(s, ops[0]).next, ops[1..], invId);
    }
  }

  /** Over any run each invitation is accepted at most once. */
  lemma {:induction false} AcceptedAtMostOnce(s: State, ops: seq<Op>, invId: string)
    requires Inv(s) && FreshRun(s, ops)
    ensures Acceptances(s, ops, invId) <= 1
    decreases |ops|
  {
    hide TupleKey, Inv, Step, Fresh, AcceptsNow;
    if ops == [] {
    } else {
      var s' := Step(s, ops[0]).next;
      StepKeepsInv(s, ops[0]);
      if AcceptsNow(s, ops[0], invId) {
        AcceptanceEffect(s, ops[0], invId);
        NeverAcceptedAgain(s', ops[1..], invId);
      } else {
        AcceptedAtMostOnce(s', ops[1..], invId);
      }
    }
  }

  /** Accepting as an existing user takes that user's identifier to equal the invited one; the user who
      accepts is the one who becomes a member. */
  lemma AcceptanceIsBound(s: State, op: Op, invId: string)
    requires Inv(s) && Fresh(s, op) && AcceptsNow(s, op, invId)
    ensures op.asUsrId.Some? ==> op.acceptingIdentifier == Some(s.invs[invId].identifier)
    ensures op.memId in Step(s, op).next.mems
    ensures Step(s, op).next.mems[op.memId].usrId == if op.asUsrId.Some? then op.asUsrId.value else op.mintedUsrId
  {
    hide TupleKey, Inv;
    AcceptanceEffect(s, op, invId);
  }

  // ---------------------------------------------------------------- removals

  /** Only an active owner or admin of the organization removes members, only an owner removes an owner,
      and never the last one; the row names who removed it. */
  lemma AdminRemovalIsAuthorized(s: State, op: Op)
    requires Inv(s) && op.AdminRemove? && Step(s, op).error.None?
    ensures var m, m' := s.mems[op.memId], Step(s, op).next.mems[op.memId];
      && m.status == Active && m' == m.(status := Revoked, removedBy := Some(op.adminUsrId), updatedAt := op.now)
      && (exists a ::
            && a in s.mems && s.mems[a].status == Active && s.mems[a].Key() == (m.orgId, op.adminUsrId)
            && s.mems[a].role in {"owner", "admin"}
            && (m.role == "owner" ==> s.mems[a].role == "owner"))
      && (m.role == "owner" ==> Owners(s.mems, m.orgId) - {op.memId} != {})
  {
    hide TupleKey, OrgRows, MemRows, InvRows, History, Slugs, Owned;
    var m := s.mems[op.memId];
    var a := s.activeMem[(m.orgId, op.adminUsrId)];
    assert a in s.mems && s.mems[a].status == Active && s.mems[a].Key() == (m.orgId, op.adminUsrId);
    if m.role == "owner" {
      assert op.memId in Owners(s.mems, m.orgId);
      NotSole(Owners(s.mems, m.orgId), op.memId);
    }
  }

  /** Leaving is refused to a sole owner who names no successor among the other active members. */
  lemma SoleOwnerCannotJustLeave(s: State, op: Op)
    requires Inv(s) && Fresh(s, op) && op.SelfLeave? && op.memId in s.mems
    requires s.mems[op.memId].status == Active && Owners(s.mems, s.mems[op.memId].orgId) == {op.memId}
    ensures Step(s, op).error.None? <==>
      && op.transferTo.Some?
      && exists t :: t in s.mems && t != op.memId && s.mems[t].status == Active
           && s.mems[t].Key() == (s.mems[op.memId].orgId, op.transferTo.value)
           && s.mems[t].Key() in s.activeMem && s.activeMem[s.mems[t].Key()] == t
  {
    var m := s.mems[op.memId];
    assert op.memId in Owners(s.mems, m.orgId);
    assert MustTransfer(s, m);
    if op.transferTo.Some? && (m.orgId, op.transferTo.value) in s.activeMem {
      var t := s.activeMem[(m.orgId, op.transferTo.value)];
      assert s.mems[t].Key() == (m.orgId, op.transferTo.value);
      assert IsActiveOwner(s.mems[t], m.orgId) <==> t in Owners(s.mems, m.orgId);
    }
    hide TupleKey, Inv, Owners, Replace, Retire;
  }

  // ---------------------------------------------------------------- replacement chains

  /** The row reached by following `k` replacement links. */
  function Ancestor(mems: Mems, id: string, k: nat): Option<string>
    decreases k
  {
    if id !in mems then None
    else if k == 0 then Some(id)
    else if mems[id].replacesId.None? then None
    else Ancestor(mems, mems[id].replacesId.value, k - 1)
  }

  /** `birth` numbers the rows below `n` so that every link goes to a smaller number. */
  ghost predicate Ranked(mems: Mems, birth: map<string, nat>, n: nat) {
    forall id :: id in mems ==>
      && id in birth && birth[id] < n
      && (mems[id].replacesId.Some? ==>
            mems[id].replacesId.value in mems && mems[id].replacesId.value in birth && birth[mems[id].replacesId.value] < birth[id])
  }

  /** Old rows keep their link, and new rows link only to old ones. */
  ghost predicate LinksBack(mems: Mems, mems': Mems) {
    && (forall id :: id in mems ==> id in mems' && mems'[id].replacesId == mems[id].replacesId)
    && (forall id :: id in mems' && id !in mems && mems'[id].replacesId.Some? ==> mems'[id].replacesId.value in mems)
  }

  lemma ReplaceLinksBack(mems: Mems, s: State, id: string, role: Role, newId: string, now: int)
    requires LinksBack(mems, s.mems) && id in mems && id in s.mems && s.mems[id].id == id && newId !in s.mems
    ensures LinksBack(mems, Replace(s, id, role, newId, now).mems)
  {
  }

  lemma RetireLinksBack(mems: Mems, s: State, id: string, removedBy: Option<string>, now: int)
    requires LinksBack(mems, s.mems) && id in s.mems
    ensures LinksBack(mems, Retire(s, id, removedBy, now).mems)
  {
  }

  lemma TransferLinksBack(s: State, op: Op)
    requires Inv(s) && Fresh(s, op) && op.TransferOwnership?
    ensures LinksBack(s.mems, StepTransferOwnership(s, op).next.mems)
  {
    if StepTransferOwnership(s, op).error.None? {
      var s1 := Replace(s, op.toId, OWNER, op.newToId, op.promotedAt);
      assert s.mems[op.toId].id == op.toId && s.mems[op.fromId].id == op.fromId;
      assert s1.mems[op.fromId] == s.mems[op.fromId] && op.newFromId !in s1.mems;
      assert LinksBack(s.mems, s.mems);
      assert s1.mems[op.fromId].id == op.fromId;
      hide TupleKey, Inv, LinksBack, Replace;
      ReplaceLinksBack(s.mems, s, op.toId, OWNER, op.newToId, op.promotedAt);
      ReplaceLinksBack(s.mems, s1, op.fromId, MEMBER, op.newFromId, op.demotedAt);
    }
  }

  lemma SelfLeaveLinksBack(s: State, op: Op)
    requires Inv(s) && Fresh(s, op) && op.SelfLeave?
    ensures LinksBack(s.mems, StepSelfLeave(s, op).next.mems)
  {
    assert LinksBack(s.mems, s.mems);
    if StepSelfLeave(s, op).error.None? {
      var leaver := Some(s.mems[op.memId].usrId);
      if MustTransfer(s, s.mems[op.memId]) {
        var tt := SelfLeaveTransfer(s, op);
        assert s.mems[tt].id == tt;
        hide TupleKey, Inv, LinksBack, StepSelfLeave;
        var s1 := Replace(s, tt, OWNER, op.newId, op.promotedAt);
        ReplaceLinksBack(s.mems, s, tt, OWNER, op.newId, op.promotedAt);
        RetireLinksBack(s.mems, s1, op.memId, leaver, op.now);
      } else {
        RetireLinksBack(s.mems, s, op.memId, leaver, op.now);
      }
    }
  }

  lemma ChangeRoleLinksBack(s: State, op: Op)
    requires Inv(s) && Fresh(s, op) && op.ChangeRole?
    ensures LinksBack(s.mems, StepChangeRole(s, op).next.mems)
  {
    assert LinksBack(s.mems, s.mems);
    if op.memId in s.mems {
      assert s.mems[op.memId].id == op.memId;
      hide TupleKey, Inv, LinksBack, Replace, Owners;
      ReplaceLinksBack(s.mems, s, op.memId, op.role, op.newId, op.now);
    }
  }

  lemma OrgStepLinksBack(s: State, op: Op)
    requires op.CreateOrg? || op.UpdateOrg?
    requires Fresh(s, op)
    ensures LinksBack(s.mems, Step(s, op).next.mems)
  {
  }

  lemma TransitionOrgLinksBack(s: State, op: Op)
    requires op.TransitionOrg?
    ensures LinksBack(s.mems, StepTransitionOrg(s, op).next.mems)
  {
  }

  lemma LinksBackSet(mems: Mems, id: string, m: Membership)
    requires id in mems ==> m.replacesId == mems[id].replacesId
    requires id !in mems ==> m.replacesId.None?
    ensures LinksBack(mems, mems) && LinksBack(mems, mems[id := m])
  {
  }

  lemma MemberStepLinksBack(s: State, op: Op)
    requires op.AddMember? || op.SuspendMembership? || op.ReinstateMembership?
    requires Fresh(s, op)
    ensures LinksBack(s.mems, Step(s, op).next.mems)
  {
    assert LinksBack(s.mems, s.mems);
    hide TupleKey, LinksBack, Owners;
    if Step(s, op).error.None? {
      LinksBackSet(s.mems, op.memId, Step(s, op).next.mems[op.memId]);
    }
  }

  lemma AdminRemoveLinksBack(s: State, op: Op)
    requires op.AdminRemove?
    ensures LinksBack(s.mems, StepAdminRemove(s, op).next.mems)
  {
    assert LinksBack(s.mems, s.mems);
    hide TupleKey, Owners, LinksBack, Retire;
    if StepAdminRemove(s, op).error.None? {
      RetireLinksBack(s.mems, s, op.memId, Some(op.adminUsrId), op.now);
    }
  }

  lemma InvitationStepLinksBack(s: State, op: Op)
    requires op.CreateInvitation? || op.GetInvitation? || op.DeclineInvitation? || op.RevokeInvitation?
    ensures LinksBack(s.mems, Step(s, op).next.mems)
  {
  }

  lemma AcceptLinksBack(s: State, op: Op)
    requires op.AcceptInvitation? && Fresh(s, op)
    ensures LinksBack(s.mems, StepAccept(s, op).next.mems)
  {
    assert LinksBack(s.mems, s.mems);
    hide TupleKey, LinksBack, Materialized;
    if StepAccept(s, op).error.None? {
      LinksBackSet(s.mems, op.memId, StepAccept(s, op).next.mems[op.memId]);
    }
  }

  lemma StepLinksBack(s: State, op: Op)
    requires Inv(s) && Fresh(s, op)
    ensures LinksBack(s.mems, Step(s, op).next.mems)
  {
    hide TupleKey, Inv, LinksBack, Fresh;
    match op
    case ChangeRole(_, _, _, _) => ChangeRoleLinksBack(s, op);
    case SelfLeave(_, _, _, _, _) => SelfLeaveLinksBack(s, op);
    case TransferOwnership(_, _, _, _, _, _, _) => TransferLinksBack(s, op);
    case CreateOrg(_, _, _, _, _, _) => OrgStepLinksBack(s, op);
    case UpdateOrg(_, _, _) => OrgStepLinksBack(s, op);
    case TransitionOrg(_, _, _, _) => TransitionOrgLinksBack(s, op);
    case AddMember(_, _, _, _, _, _) => MemberStepLinksBack(s, op);
    case SuspendMembership(_, _) => MemberStepLinksBack(s, op);
    case ReinstateMembership(_, _) => MemberStepLinksBack(s, op);
    case AdminRemove(_, _, _) => AdminRemoveLinksBack(s, op);
    case AcceptInvitation(_, _, _, _, _, _, _) => AcceptLinksBack(s, op);
    case _ => InvitationStepLinksBack(s, op);
  }

  lemma RankStep(mems: Mems, mems': Mems, birth: map<string, nat>, n: nat)
    returns (birth': map<string, nat>)
    requires Ranked(mems, birth, n) && LinksBack(mems, mems')
    ensures Ranked(mems', birth', n + 1)
  {
    birth' := map id | id in mems' :: if id in mems then birth[id] else n;
  }

  lemma {:induction false} RunRanks(s: State, ops: seq<Op>, birth: map<string, nat>, n: nat)
    returns (birth': map<string, nat>, n': nat)
    requires Inv(s) && FreshRun(s, ops) && Ranked(s.mems, birth, n)
    ensures Ranked(Run(s, ops).mems, birth', n')
    decreases |ops|
  {
    hide TupleKey, Inv, Step, Fresh, Ranked, LinksBack;
    if ops == [] {
      birth', n' := birth, n;
    } else {
      StepLinksBack(s, ops[0]);
      StepKeepsInv(s, ops[0]);
      var birth1 := RankStep(s.mems, Step(s, ops[0]).next.mems, birth, n);
      birth', n' := RunRanks(Step(s, ops[0]).next, ops[1..], birth1, n + 1);
    }
  }

  /** The rows of a chain are distinct. */
  lemma {:induction false} ChainPath(mems: Mems, birth: map<string, nat>, n: nat, id: string, k: nat)
    returns (path: seq<string>)
    requires Ranked(mems, birth, n) && id in mems && Ancestor(mems, id, k).Some?
    ensures |path| == k + 1 && Distinct(path) && path[0] == id && path[k] == Ancestor(mems, id, k).value
    ensures forall x :: x in path ==> x in mems && birth[x] <= birth[id]
    decreases k
  {
    if k == 0 {
      path := [id];
    } else {
      var rest := ChainPath(mems, birth, n, mems[id].replacesId.value, k - 1);
      assert forall i :: 0 <= i < |rest| ==> rest[i] in rest && birth[rest[i]] < birth[id];
      path := [id] + rest;
    }
  }

  /** In every reachable state replacement chains are acyclic and no longer than the number of rows. */
  lemma ChainsAreFinite(ops: seq<Op>, id: string, k: nat)
    requires FreshRun(EMPTY, ops) && id in Run(EMPTY, ops).mems
    ensures var mems := Run(EMPTY, ops).mems;
      && (k > 0 ==> Ancestor(mems, id, k) != Some(id))
      && (Ancestor(mems, id, k).Some? ==> k < |mems|)
  {
    EmptyInv();
    var birth, n := RunRanks(EMPTY, ops, map[], 0);
    var mems := Run(EMPTY, ops).mems;
    if Ancestor(mems, id, k).Some? {
      var path := ChainPath(mems, birth, n, id, k);
      DistinctSize(path);
      SubsetSize(Elements(path), mems.Keys);
    }
  }

  /** Every earlier row of a chain is revoked and of the same organization and user. */
  lemma {:induction false} ChainIsOneMembership(mems: Mems, id: string, k: nat)
    requires History(mems) && id in mems && k > 0 && Ancestor(mems, id, k).Some?
    ensures var a := Ancestor(mems, id, k).value;
      a in mems && mems[a].status == Revoked && mems[a].Key() == mems[id].Key()
    decreases k
  {
    assert Follows(mems, mems[id]);
    if k > 1 {
      ChainIsOneMembership(mems, mems[id].replacesId.value, k - 1);
    }
  }
}
