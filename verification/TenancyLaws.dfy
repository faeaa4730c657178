/**
 * Which call moves what: over all calls at once, exactly when an invitation, a membership or an organization
 * changes its state, and to which.
 */
module TenancyLaws {
  import opened Common
  import opened Keys
  import opened TenancyModel
  import opened TenancyInvariants
  import opened TenancyEffects
  import TenancyLifecycle
  import TenancyHistory

  predicate IsInvitationCall(op: Op) {
    op.CreateInvitation? || op.GetInvitation? || op.AcceptInvitation? || op.DeclineInvitation? || op.RevokeInvitation?
  }

  // ---------------------------------------------------------------- invitations

  /** What an invitation was created with. */
  ghost predicate SameOffer(i: Invitation, i': Invitation) {
    && i'.id == i.id && i'.orgId == i.orgId && i'.identifier == i.identifier && i'.role == i.role && i'.preTuples == i.preTuples
    && i'.invitedBy == i.invitedBy && i'.createdAt == i.createdAt && i'.expiresAt == i.expiresAt
  }

  /** The state a pending invitation is in after the call. */
  function NextStatus(s: State, op: Op, id: string): InvitationStatus
    requires id in s.invs
  {
    match op
    case AcceptInvitation(invId, _, _, _, _, checkedAt, _) =>
      if invId == id && s.invs[id].expiresAt <= checkedAt then Expired
      else if invId == id && Acceptable(s, op) then Accepted
      else Pending
    case GetInvitation(invId, now, _) => if invId == id && s.invs[id].expiresAt <= now then Expired else Pending
    case DeclineInvitation(invId, _, _) => if invId == id then Declined else Pending
    case RevokeInvitation(invId, _, _) => if invId == id then InvRevoked else Pending
    case _ => Pending
  }

  /** An invitation keeps its offer for ever.  Once it is not pending it never changes; while it is, it becomes accepted only by an
      acceptance whose guards hold, declined only by a decline, revoked only by a withdrawal, and expired exactly by a look or an
      acceptance attempt at or after its expiry; otherwise it stays as it is. */
  lemma InvitationLaw(s: State, op: Op, id: string)
    requires Inv(s) && Fresh(s, op) && id in s.invs
    ensures id in Step(s, op).next.invs
    ensures var i, i' := s.invs[id], Step(s, op).next.invs[id];
      && SameOffer(i, i')
      && (i.status != Pending ==> i' == i)
      && (i.status == Pending ==> i'.status == NextStatus(s, op, id) && (i'.status == Pending ==> i' == i))
  {
    hide Inv, Step, Fresh;
    if IsInvitationCall(op) {
      InvitationCallLaw(s, op, id);
    } else {
      TenancyLifecycle.MemberStepKeepsInvitations(s, op);
    }
  }

  lemma InvitationCallLaw(s: State, op: Op, id: string)
    requires Inv(s) && Fresh(s, op) && id in s.invs && IsInvitationCall(op)
    ensures id in Step(s, op).next.invs
    ensures var i, i' := s.invs[id], Step(s, op).next.invs[id];
      && SameOffer(i, i')
      && (i.status != Pending ==> i' == i)
      && (i.status == Pending ==> i'.status == NextStatus(s, op, id) && (i'.status == Pending ==> i' == i))
  {
    hide Step, Inv, Fresh, NextStatus, SameOffer;
    if op.CreateInvitation? || op.GetInvitation? {
      NewOrSeenLaw(s, op, id);
    } else if op.AcceptInvitation? {
      AcceptLaw(s, op, id);
    } else {
      AnswerLaw(s, op, id);
    }
  }

  lemma NewOrSeenLaw(s: State, op: Op, id: string)
    requires Inv(s) && Fresh(s, op) && id in s.invs && (op.CreateInvitation? || op.GetInvitation?)
    ensures id in Step(s, op).next.invs
    ensures var i, i' := s.invs[id], Step(s, op).next.invs[id];
      && SameOffer(i, i')
      && (i.status != Pending ==> i' == i)
      && (i.status == Pending ==> i'.status == NextStatus(s, op, id) && (i'.status == Pending ==> i' == i))
  {
    assert s.invs[id].id == id && (op.CreateInvitation? ==> op.invId != id) && (op.invId in s.invs ==> s.invs[op.invId].id == op.invId);
    if op.CreateInvitation? {
      CreateInvitationEffect(s, op);
    } else {
      GetInvitationEffect(s, op);
    }
    hide Step, Inv;
    OnlyOne(s, op, id, op.invId);
  }

  lemma AnswerLaw(s: State, op: Op, id: string)
    requires Inv(s) && id in s.invs && (op.DeclineInvitation? || op.RevokeInvitation?)
    ensures id in Step(s, op).next.invs
    ensures var i, i' := s.invs[id], Step(s, op).next.invs[id];
      && SameOffer(i, i')
      && (i.status != Pending ==> i' == i)
      && (i.status == Pending ==> i'.status == NextStatus(s, op, id) && (i'.status == Pending ==> i' == i))
  {
    assert s.invs[id].id == id && (op.invId in s.invs ==> s.invs[op.invId].id == op.invId);
    if op.DeclineInvitation? {
      DeclineEffect(s, op);
    } else {
      WithdrawEffect(s, op);
    }
    hide Step, Inv;
    OnlyOne(s, op, id, op.invId);
  }

  /** An invitation the call does not name stays as it is. */
  lemma OnlyOne(s: State, op: Op, id: string, invId: string)
    requires id in s.invs && !op.AcceptInvitation?
    requires Step(s, op).next.invs == s.invs || SameBut(s.invs, Step(s, op).next.invs, {invId})
    ensures id != invId ==> id in Step(s, op).next.invs && Step(s, op).next.invs[id] == s.invs[id]
  {
    hide Step;
    if id != invId && Step(s, op).next.invs != s.invs {
      SameButMeans(s.invs, Step(s, op).next.invs, {invId}, id);
    }
  }

  lemma AcceptLaw(s: State, op: Op, id: string)
    requires Inv(s) && Fresh(s, op) && id in s.invs && op.AcceptInvitation?
    ensures id in Step(s, op).next.invs
    ensures var i, i' := s.invs[id], Step(s, op).next.invs[id];
      && SameOffer(i, i')
      && (i.status != Pending ==> i' == i)
      && (i.status == Pending ==> i'.status == NextStatus(s, op, id) && (i'.status == Pending ==> i' == i))
  {
    assert op.invId in s.invs ==> s.invs[op.invId].id == op.invId;
    assert Step(s, op) == StepAccept(s, op);
    AcceptErrors(s, op);
    AcceptSucceedsIff(s, op);
    hide Step, Inv;
    if StepAccept(s, op).error.None? {
      TenancyHistory.AcceptedRow(s, op);
    }
    hide StepAccept;
    if op.invId in s.invs && id != op.invId && SameBut(s.invs, Step(s, op).next.invs, {op.invId}) {
      SameButMeans(s.invs, Step(s, op).next.invs, {op.invId}, id);
    }
  }

  // ---------------------------------------------------------------- memberships

  /** What a membership row was created with. */
  ghost predicate SameRow(m: Membership, m': Membership) {
    && m'.id == m.id && m'.usrId == m.usrId && m'.orgId == m.orgId && m'.role == m.role
    && m'.replacesId == m.replacesId && m'.invitedBy == m.invitedBy && m'.createdAt == m.createdAt
  }

  /** The call ends the active row `id`. */
  ghost predicate Ends(s: State, op: Op, id: string)
    requires id in s.mems
  {
    var m := s.mems[id];
    match op
    case TransitionOrg(orgId, target, _, _) =>
      orgId == m.orgId && target == Revoked && orgId in s.orgs && s.orgs[orgId].status != Revoked
    case ChangeRole(memId, role, _, _) => memId == id && m.role != role && !SoleOwnerRow(s, id)
    case SelfLeave(memId, transferTo, _, _, _) =>
      || (memId == id && !SoleOwnerRow(s, id))
      || (SoleOwnerRow(s, memId) && transferTo.Some?
          && var key := (s.mems[memId].orgId, transferTo.value);
             key in s.activeMem && s.activeMem[key] != memId && id in {memId, s.activeMem[key]})
    case AdminRemove(memId, adminUsrId, _) => memId == id && MayRemove(s, id, adminUsrId)
    case TransferOwnership(orgId, fromId, toId, _, _, _, _) =>
      id in {fromId, toId} && fromId != toId && ActiveOwner(s, fromId, orgId) && ActiveRow(s, toId, orgId)
    case _ => false
  }

  /** The user is an indexed owner of the row's organization and the row not its last active owner, or an indexed admin and the row not
      an owner's. */
  ghost predicate MayRemove(s: State, id: string, adminUsrId: string)
    requires id in s.mems
  {
    var key := (s.mems[id].orgId, adminUsrId);
    && key in s.activeMem && s.activeMem[key] in s.mems
    && var role := s.mems[s.activeMem[key]].role;
       (role == "owner" && !SoleOwnerRow(s, id)) || (role == "admin" && s.mems[id].role != "owner")
  }

  /** The state the row is in after the call. */
  ghost function NextRowStatus(s: State, op: Op, id: string): Status
    requires id in s.mems
  {
    var m := s.mems[id];
    if m.status == Active && Ends(s, op, id) then Revoked
    else if m.status == Active && op.SuspendMembership? && op.memId == id && !SoleOwnerRow(s, id) then Suspended
    else if m.status == Suspended && op.ReinstateMembership? && op.memId == id && (m.orgId, m.usrId) !in s.activeMem then Active
    else m.status
  }

  /** A row keeps user, organization, role, origin and predecessor for ever, and takes exactly the status these rules give it. */
  ghost predicate RowObeys(s: State, op: Op, id: string)
    requires id in s.mems
  {
    var s' := Step(s, op).next;
    id in s'.mems && SameRow(s.mems[id], s'.mems[id]) && s'.mems[id].status == NextRowStatus(s, op, id)
  }

  lemma UntouchedObeys(s: State, op: Op, id: string, ids: set<string>)
    requires id in s.mems && id !in ids && SameBut(s.mems, Step(s, op).next.mems, ids)
    requires NextRowStatus(s, op, id) == s.mems[id].status
    ensures RowObeys(s, op, id)
  {
    hide Step, NextRowStatus;
    SameButMeans(s.mems, Step(s, op).next.mems, ids, id);
  }

  /** A row the call ends is revoked and otherwise the same but for its remover and time. */
  lemma EndedObeys(s: State, op: Op, id: string, m: Membership)
    requires id in s.mems && s.mems[id].status == Active && Ends(s, op, id)
    requires id in Step(s, op).next.mems && Step(s, op).next.mems[id] == m && SameRow(s.mems[id], m) && m.status == Revoked
    ensures RowObeys(s, op, id)
  {
    hide Step, Ends;
  }

  lemma OrgCallRowLaw(s: State, op: Op, id: string)
    requires Inv(s) && Fresh(s, op) && id in s.mems && (op.CreateOrg? || op.UpdateOrg? || op.TransitionOrg?)
    ensures RowObeys(s, op, id)
  {
    if op.TransitionOrg? {
      TransitionOrgRowLaw(s, op, id);
    } else if op.CreateOrg? {
      assert op.memId != id;
      CreateOrgErrors(s, op);
      if Step(s, op).error.None? {
        CreateOrgEffect(s, op);
      }
      hide Step, Inv;
      UntouchedObeys(s, op, id, {op.memId});
    } else {
      UpdateOrgErrors(s, op);
      if Step(s, op).error.None? {
        UpdateOrgEffect(s, op);
      }
      hide Step, Inv;
      UntouchedObeys(s, op, id, {});
    }
  }

  lemma TransitionOrgRowLaw(s: State, op: Op, id: string)
    requires Inv(s) && id in s.mems && op.TransitionOrg?
    ensures RowObeys(s, op, id)
  {
    TransitionOrgErrors(s, op);
    if Step(s, op).error.None? && op.target == Revoked {
      OrgEndEffect(s, op);
      hide Step, Inv, OrgTupleKey, SlugGone;
      if s.mems[id].status == Active && s.mems[id].orgId == op.orgId {
        EndedObeys(s, op, id, Step(s, op).next.mems[id]);
      } else {
        UntouchedRow(s, op, id);
      }
    } else {
      if Step(s, op).error.None? {
        OrgStatusEffect(s, op);
      }
      hide Step, Inv;
      UntouchedRow(s, op, id);
    }
  }

  lemma AddMemberRowLaw(s: State, op: Op, id: string)
    requires Inv(s) && Fresh(s, op) && id in s.mems && op.AddMember?
    ensures RowObeys(s, op, id)
  {
    assert op.memId != id;
    AddMemberEffect(s, op);
    hide Step, Inv, OrgTupleKey, HasOrgTuple;
    UntouchedObeys(s, op, id, {op.memId});
  }

  lemma ReinstateRowLaw(s: State, op: Op, id: string)
    requires Inv(s) && id in s.mems && op.ReinstateMembership?
    ensures RowObeys(s, op, id)
  {
    assert op.memId in s.mems ==> s.mems[op.memId].id == op.memId;
    ReinstateEffect(s, op);
    hide Step, Inv, OrgTupleKey, HasOrgTuple;
    if id != op.memId {
      UntouchedObeys(s, op, id, {op.memId});
    }
  }

  lemma SuspendRowLaw(s: State, op: Op, id: string)
    requires Inv(s) && id in s.mems && op.SuspendMembership?
    ensures RowObeys(s, op, id)
  {
    assert op.memId in s.mems ==> s.mems[op.memId].id == op.memId;
    assert s.mems[id].status != Active ==> !SoleOwnerRow(s, id);
    SuspendEffect(s, op);
    hide Step, Inv, OrgTupleKey, SoleOwnerRow;
    if id != op.memId {
      UntouchedObeys(s, op, id, {op.memId});
    }
  }

  lemma ChangeRoleRowLaw(s: State, op: Op, id: string)
    requires Inv(s) && Fresh(s, op) && id in s.mems && op.ChangeRole?
    ensures RowObeys(s, op, id)
  {
    assert op.newId != id && (op.memId in s.mems ==> s.mems[op.memId].id == op.memId);
    ChangeRoleEffect(s, op);
    hide Step, Inv, Fresh, SoleOwnerRow, OrgTupleKey, HasOrgTuple;
    if id != op.memId {
      UntouchedObeys(s, op, id, {op.memId, op.newId});
    } else if Step(s, op).next.mems[id] == s.mems[id] {
      UntouchedRow(s, op, id);
    } else {
      EndedObeys(s, op, id, Step(s, op).next.mems[id]);
    }
  }

  lemma AdminRemoveRowLaw(s: State, op: Op, id: string)
    requires Inv(s) && id in s.mems && op.AdminRemove?
    ensures RowObeys(s, op, id)
  {
    assert op.memId in s.mems ==> s.mems[op.memId].id == op.memId;
    AdminRemoveEffect(s, op);
    hide Step, Inv, SoleOwnerRow, OrgTupleKey;
    if id != op.memId {
      UntouchedObeys(s, op, id, {op.memId});
    }
  }

  lemma SelfLeaveRowLaw(s: State, op: Op, id: string)
    requires Inv(s) && Fresh(s, op) && id in s.mems && op.SelfLeave?
    ensures RowObeys(s, op, id)
  {
    if SoleOwnerRow(s, op.memId) {
      HandOverRowLaw(s, op, id);
    } else {
      assert op.memId in s.mems ==> s.mems[op.memId].id == op.memId;
      hide Step, Inv, Fresh, SoleOwnerRow;
      SelfLeaveEffect(s, op);
      if id != op.memId || Step(s, op).next == s {
        UntouchedObeys(s, op, id, if Step(s, op).next == s then {} else {op.memId});
      } else {
        EndedObeys(s, op, id, Step(s, op).next.mems[id]);
      }
    }
  }

  lemma HandOverRowLaw(s: State, op: Op, id: string)
    requires Inv(s) && Fresh(s, op) && id in s.mems && op.SelfLeave? && SoleOwnerRow(s, op.memId)
    ensures RowObeys(s, op, id)
  {
    assert op.newId != id && s.mems[op.memId].id == op.memId;
    assert forall key :: key in s.activeMem ==> s.activeMem[key] in s.mems && s.mems[s.activeMem[key]].status == Active;
    hide Step, Inv, Fresh;
    HandOverEffect(s, op);
    var m := s.mems[op.memId];
    var key := (m.orgId, if op.transferTo.Some? then op.transferTo.value else "");
    if op.transferTo.Some? && key in s.activeMem && s.activeMem[key] != op.memId {
      var tt, s' := s.activeMem[key], Step(s, op).next;
      var s1: State :| Succeeded(s, s1, tt, "owner", op.newId, op.promotedAt) && op.memId in s1.mems && s1.mems[op.memId] == m
        && Departed(s1, s', m.(status := Revoked, removedBy := Some(m.usrId), updatedAt := op.now));
      hide Succeeded, Departed;
      LeftAfterSuccession(s, s1, s', tt, op.newId, op.promotedAt, m.(status := Revoked, removedBy := Some(m.usrId), updatedAt := op.now), id);
      if id in {op.memId, tt} {
        EndedObeys(s, op, id, s'.mems[id]);
      } else {
        UntouchedRow(s, op, id);
      }
    } else {
      UntouchedRow(s, op, id);
    }
  }

  lemma LeftAfterSuccession(s: State, s1: State, s': State, tt: string, newId: string, at: int, gone: Membership, id: string)
    requires id in s.mems && id != newId && tt in s.mems && gone.id in s.mems && tt != gone.id
    requires Succeeded(s, s1, tt, "owner", newId, at) && Departed(s1, s', gone)
    requires gone.status == Revoked && SameRow(s.mems[gone.id], gone)
    ensures id in s'.mems && SameRow(s.mems[id], s'.mems[id])
    ensures if id in {gone.id, tt} then s'.mems[id].status == Revoked else s'.mems[id] == s.mems[id]
  {
    hide OrgTupleKey, HasOrgTuple;
    if id != gone.id {
      SameButMeans(s1.mems, s'.mems, {gone.id}, id);
    }
    if id != tt && id != gone.id {
      SameButMeans(s.mems, s1.mems, {tt, newId}, id);
    }
  }

  lemma UntouchedRow(s: State, op: Op, id: string)
    requires id in s.mems && id in Step(s, op).next.mems && Step(s, op).next.mems[id] == s.mems[id]
    requires NextRowStatus(s, op, id) == s.mems[id].status
    ensures RowObeys(s, op, id)
  {
    hide Step, NextRowStatus;
  }

  lemma TransferRowLaw(s: State, op: Op, id: string)
    requires Inv(s) && Fresh(s, op) && id in s.mems && op.TransferOwnership?
    ensures RowObeys(s, op, id)
  {
    assert op.newToId != id && op.newFromId != id;
    hide Step, Inv, Fresh, Succeeded, RowObeys, NextRowStatus;
    TransferEffect(s, op);
    if Step(s, op).error.None? {
      var s1: State :| op.toId in s.mems && Succeeded(s, s1, op.toId, "owner", op.newToId, op.promotedAt)
        && op.fromId in s1.mems && s1.mems[op.fromId] == s.mems[op.fromId]
        && Succeeded(s1, Step(s, op).next, op.fromId, "member", op.newFromId, op.demotedAt);
      assert op.fromId in s.mems && op.fromId != op.toId;
      TwoSuccessions(s, s1, Step(s, op).next, op, id);
      TransferredObeys(s, op, id);
    } else {
      NoTransferObeys(s, op, id);
    }
  }

  lemma TransferredObeys(s: State, op: Op, id: string)
    requires id in s.mems && op.TransferOwnership? && op.fromId != op.toId && ActiveOwner(s, op.fromId, op.orgId) && ActiveRow(s, op.toId, op.orgId)
    requires id in Step(s, op).next.mems && SameRow(s.mems[id], Step(s, op).next.mems[id])
    requires if id in {op.fromId, op.toId} then Step(s, op).next.mems[id].status == Revoked else Step(s, op).next.mems[id] == s.mems[id]
    ensures RowObeys(s, op, id)
  {
    hide Step;
  }

  lemma NoTransferObeys(s: State, op: Op, id: string)
    requires id in s.mems && op.TransferOwnership? && Step(s, op).next == s
    requires op.fromId == op.toId || !ActiveOwner(s, op.fromId, op.orgId) || !ActiveRow(s, op.toId, op.orgId)
    ensures RowObeys(s, op, id)
  {
    hide Step;
  }

  lemma TwoSuccessions(s: State, s1: State, s': State, op: Op, id: string)
    requires op.TransferOwnership? && id in s.mems && id != op.newToId && id != op.newFromId && op.fromId != op.toId
    requires op.toId in s.mems && op.fromId in s.mems && Succeeded(s, s1, op.toId, "owner", op.newToId, op.promotedAt)
    requires op.fromId in s1.mems && s1.mems[op.fromId] == s.mems[op.fromId]
    requires Succeeded(s1, s', op.fromId, "member", op.newFromId, op.demotedAt)
    ensures id in s'.mems && SameRow(s.mems[id], s'.mems[id])
    ensures if id in {op.fromId, op.toId} then s'.mems[id].status == Revoked else s'.mems[id] == s.mems[id]
  {
    hide OrgTupleKey, HasOrgTuple;
    if id != op.fromId {
      SameButMeans(s1.mems, s'.mems, {op.fromId, op.newFromId}, id);
    }
    if id != op.toId {
      SameButMeans(s.mems, s1.mems, {op.toId, op.newToId}, id);
    }
  }

  lemma InvitationCallRowLaw(s: State, op: Op, id: string)
    requires Inv(s) && Fresh(s, op) && id in s.mems && IsInvitationCall(op)
    ensures RowObeys(s, op, id)
  {
    if op.AcceptInvitation? {
      AcceptedRows(s, op);
    } else {
      OtherInvitationRows(s, op);
    }
    hide Step, Inv, Fresh;
    UntouchedRow(s, op, id);
  }

  lemma AcceptedRows(s: State, op: Op)
    requires Fresh(s, op) && op.AcceptInvitation?
    ensures forall id :: id in s.mems ==> id in Step(s, op).next.mems && Step(s, op).next.mems[id] == s.mems[id]
  {
    assert Step(s, op) == StepAccept(s, op);
    hide Step, TupleKey, WriteAll, Materialized;
  }

  lemma OtherInvitationRows(s: State, op: Op)
    requires IsInvitationCall(op) && !op.AcceptInvitation?
    ensures Step(s, op).next.mems == s.mems
  {
  }

  /** For every call and every membership row: exactly which call suspends, reinstates or ends it, and that nothing else about it
      ever changes but its times and remover. */
  lemma RowLaw(s: State, op: Op, id: string)
    requires Inv(s) && Fresh(s, op) && id in s.mems
    ensures RowObeys(s, op, id)
  {
    hide Inv, Fresh, RowObeys;
    match op
    case CreateOrg(_, _, _, _, _, _) => OrgCallRowLaw(s, op, id);
    case UpdateOrg(_, _, _) => OrgCallRowLaw(s, op, id);
    case TransitionOrg(_, _, _, _) => OrgCallRowLaw(s, op, id);
    case AddMember(_, _, _, _, _, _) => AddMemberRowLaw(s, op, id);
    case SuspendMembership(_, _) => SuspendRowLaw(s, op, id);
    case ReinstateMembership(_, _) => ReinstateRowLaw(s, op, id);
    case ChangeRole(_, _, _, _) => ChangeRoleRowLaw(s, op, id);
    case AdminRemove(_, _, _) => AdminRemoveRowLaw(s, op, id);
    case SelfLeave(_, _, _, _, _) => SelfLeaveRowLaw(s, op, id);
    case TransferOwnership(_, _, _, _, _, _, _) => TransferRowLaw(s, op, id);
    case _ => InvitationCallRowLaw(s, op, id);
  }
}
