/**
 * Two rules of life and death that the calls keep only in part: a revoked organization has no active
 * members, and an invitation is answered or withdrawn before it expires.  For each, exactly the calls
 * that break it, and what holds of every run without such calls.
 */
module TenancyLifecycle {
  import opened Common
  import opened TenancyModel
  import opened TenancyInvariants

  // ---------------------------------------------------------------- members of revoked organizations

  /** Every active row belongs to an organization that is not revoked. */
  ghost predicate RevokedAreEmpty(orgs: Orgs, mems: Mems) {
    forall id :: id in mems && mems[id].status == Active ==> mems[id].orgId in orgs && orgs[mems[id].orgId].status != Revoked
  }

  predicate IsRevoked(s: State, orgId: string) {
    orgId in s.orgs && s.orgs[orgId].status == Revoked
  }

  /** The call makes a row active in a revoked organization: none of the three looks at the organization's status. */
  predicate Repopulates(s: State, op: Op) {
    match op
    case AddMember(orgId, usrId, _, _, _, _) => IsRevoked(s, orgId) && (orgId, usrId) !in s.activeMem
    case AcceptInvitation(invId, _, _, _, _, _, _) => Acceptable(s, op) && IsRevoked(s, s.invs[invId].orgId)
    case ReinstateMembership(memId, _) =>
      memId in s.mems && s.mems[memId].status == Suspended && s.mems[memId].Key() !in s.activeMem && IsRevoked(s, s.mems[memId].orgId)
    case _ => false
  }

  lemma RetireEmpty(s: State, id: string, removedBy: Option<string>, now: int)
    requires RevokedAreEmpty(s.orgs, s.mems) && id in s.mems
    ensures RevokedAreEmpty(s.orgs, Retire(s, id, removedBy, now).mems)
  {
  }

  lemma ReplaceEmpty(s: State, id: string, role: Role, newId: string, now: int)
    requires RevokedAreEmpty(s.orgs, s.mems) && id in s.mems && s.mems[id].status == Active
    ensures RevokedAreEmpty(s.orgs, Replace(s, id, role, newId, now).mems)
  {
  }

  lemma CreateOrgEmpty(s: State, op: Op)
    requires RevokedAreEmpty(s.orgs, s.mems) && Fresh(s, op) && op.CreateOrg?
    ensures RevokedAreEmpty(StepCreateOrg(s, op).next.orgs, StepCreateOrg(s, op).next.mems)
  {
    hide TupleKey, Write, ValidSlug;
  }

  lemma UpdateOrgEmpty(s: State, op: Op)
    requires RevokedAreEmpty(s.orgs, s.mems) && op.UpdateOrg?
    ensures RevokedAreEmpty(StepUpdateOrg(s, op).next.orgs, StepUpdateOrg(s, op).next.mems)
  {
    hide ValidSlug, DropSlug;
  }

  lemma TransitionOrgEmpty(s: State, op: Op)
    requires RevokedAreEmpty(s.orgs, s.mems) && op.TransitionOrg?
    ensures RevokedAreEmpty(StepTransitionOrg(s, op).next.orgs, StepTransitionOrg(s, op).next.mems)
  {
    hide TupleKey, DropSlug;
    if StepTransitionOrg(s, op).error.None? && op.target == Revoked {
      var s1 := s.(orgs := s.orgs[op.orgId := s.orgs[op.orgId].(status := op.target, updatedAt := op.now)]);
      RetireAllEmpties(s1, op.orgId, op.stamps);
    }
  }

  lemma RetireAllEmpties(s: State, orgId: string, stamps: string -> int)
    ensures var s' := RetireAll(s, ActiveIn(s.mems, orgId), stamps);
      && s'.orgs == s.orgs && s'.mems.Keys == s.mems.Keys
      && forall id :: id in s.mems && s'.mems[id].status == Active ==> s'.mems[id] == s.mems[id] && s.mems[id].orgId != orgId
  {
    hide TupleKey;
  }

  lemma RemovalEmpty(s: State, op: Op)
    requires RevokedAreEmpty(s.orgs, s.mems)
    requires op.ChangeRole? || op.SuspendMembership? || op.AdminRemove?
    ensures RevokedAreEmpty(Step(s, op).next.orgs, Step(s, op).next.mems)
  {
    hide TupleKey, Owners, Retire, Replace;
    if Step(s, op).error.None? && !op.SuspendMembership? {
      hide TupleKey, RevokedAreEmpty;
      if op.AdminRemove? {
        RetireFrame(s, op.memId, Some(op.adminUsrId), op.now);
        RetireEmpty(s, op.memId, Some(op.adminUsrId), op.now);
      } else if s.mems[op.memId].role != op.role {
        ReplaceFrame(s, op.memId, op.role, op.newId, op.now);
        ReplaceEmpty(s, op.memId, op.role, op.newId, op.now);
      }
    }
  }

  lemma RetireFrame(s: State, id: string, removedBy: Option<string>, now: int)
    requires id in s.mems
    ensures Retire(s, id, removedBy, now).orgs == s.orgs && Retire(s, id, removedBy, now).invs == s.invs
  {
  }

  lemma ReplaceFrame(s: State, id: string, role: Role, newId: string, now: int)
    requires id in s.mems
    ensures Replace(s, id, role, newId, now).orgs == s.orgs && Replace(s, id, role, newId, now).invs == s.invs
  {
  }

  lemma TransferEmpty(s: State, op: Op)
    requires Fresh(s, op) && RevokedAreEmpty(s.orgs, s.mems) && op.TransferOwnership?
    ensures RevokedAreEmpty(StepTransferOwnership(s, op).next.orgs, StepTransferOwnership(s, op).next.mems)
  {
    if StepTransferOwnership(s, op).error.None? {
      var s1 := Replace(s, op.toId, OWNER, op.newToId, op.promotedAt);
      assert s1.mems[op.fromId] == s.mems[op.fromId];
      hide TupleKey, RevokedAreEmpty, Replace;
      ReplaceFrame(s, op.toId, OWNER, op.newToId, op.promotedAt);
      ReplaceFrame(s1, op.fromId, MEMBER, op.newFromId, op.demotedAt);
      ReplaceEmpty(s, op.toId, OWNER, op.newToId, op.promotedAt);
      ReplaceEmpty(s1, op.fromId, MEMBER, op.newFromId, op.demotedAt);
    }
  }

  lemma SelfLeaveEmpty(s: State, op: Op)
    requires Inv(s) && Fresh(s, op) && RevokedAreEmpty(s.orgs, s.mems) && op.SelfLeave?
    ensures RevokedAreEmpty(StepSelfLeave(s, op).next.orgs, StepSelfLeave(s, op).next.mems)
  {
    hide TupleKey, Inv, RevokedAreEmpty;
    if StepSelfLeave(s, op).error.None? {
      var leaver := Some(s.mems[op.memId].usrId);
      if MustTransfer(s, s.mems[op.memId]) {
        var tt := SelfLeaveTransfer(s, op);
        var s1 := Replace(s, tt, OWNER, op.newId, op.promotedAt);
        ReplaceEmpty(s, tt, OWNER, op.newId, op.promotedAt);
        RetireEmpty(s1, op.memId, leaver, op.now);
      } else {
        RetireEmpty(s, op.memId, leaver, op.now);
      }
    }
  }

  lemma EntryEmptyIff(s: State, op: Op)
    requires Inv(s) && RevokedAreEmpty(s.orgs, s.mems) && Fresh(s, op)
    requires op.AddMember? || op.ReinstateMembership?
    ensures RevokedAreEmpty(Step(s, op).next.orgs, Step(s, op).next.mems) <==> !Repopulates(s, op)
  {
    hide TupleKey, Owned, Owners, Slugs, History, IndexSound, OrgRows, InvRows;
    if Repopulates(s, op) {
      assert Step(s, op).next.mems[op.memId].status == Active;
    }
  }

  lemma AcceptEmptyIff(s: State, op: Op)
    requires Inv(s) && RevokedAreEmpty(s.orgs, s.mems) && Fresh(s, op) && op.AcceptInvitation?
    ensures RevokedAreEmpty(StepAccept(s, op).next.orgs, StepAccept(s, op).next.mems) <==> !Repopulates(s, op)
  {
    hide TupleKey, Owned, Owners, Slugs, History, IndexSound, OrgRows, Materialized;
    AcceptSucceedsIff(s, op);
    hide TupleKey, Acceptable;
    if Repopulates(s, op) {
      assert StepAccept(s, op).next.mems[op.memId].status == Active;
    }
  }

  /** A call keeps revoked organizations without active members if and only if it does not add, admit or reinstate one. */
  lemma StepRevokedEmptyIff(s: State, op: Op)
    requires Inv(s) && RevokedAreEmpty(s.orgs, s.mems) && Fresh(s, op)
    ensures RevokedAreEmpty(Step(s, op).next.orgs, Step(s, op).next.mems) <==> !Repopulates(s, op)
  {
    hide TupleKey, Inv, Fresh, RevokedAreEmpty, StepTransitionOrg, StepCreateOrg, StepUpdateOrg, StepSelfLeave, StepTransferOwnership,
      StepAccept;
    match op
    case CreateOrg(_, _, _, _, _, _) => CreateOrgEmpty(s, op);
    case UpdateOrg(_, _, _) => UpdateOrgEmpty(s, op);
    case TransitionOrg(_, _, _, _) => TransitionOrgEmpty(s, op);
    case ChangeRole(_, _, _, _) => RemovalEmpty(s, op);
    case SuspendMembership(_, _) => RemovalEmpty(s, op);
    case AdminRemove(_, _, _) => RemovalEmpty(s, op);
    case SelfLeave(_, _, _, _, _) => SelfLeaveEmpty(s, op);
    case TransferOwnership(_, _, _, _, _, _, _) => TransferEmpty(s, op);
    case AddMember(_, _, _, _, _, _) => EntryEmptyIff(s, op);
    case AcceptInvitation(_, _, _, _, _, _, _) => AcceptEmptyIff(s, op);
    case ReinstateMembership(_, _) => EntryEmptyIff(s, op);
    case _ =>
  }

  predicate NeverRepopulates(s: State, ops: seq<Op>)
    decreases |ops|
  {
    ops == [] || (!Repopulates(s, ops[0]) && NeverRepopulates(Step(s, ops[0]).next, ops[1..]))
  }

  lemma {:induction false} RunRevokedEmpty(s: State, ops: seq<Op>)
    requires Inv(s) && RevokedAreEmpty(s.orgs, s.mems) && FreshRun(s, ops) && NeverRepopulates(s, ops)
    ensures RevokedAreEmpty(Run(s, ops).orgs, Run(s, ops).mems)
    decreases |ops|
  {
    hide TupleKey, Inv, Step, Fresh, RevokedAreEmpty, Repopulates;
    if ops == [] {
    } else {
      StepKeepsInv(s, ops[0]);
      StepRevokedEmptyIff(s, ops[0]);
      RunRevokedEmpty(Step(s, ops[0]).next, ops[1..]);
    }
  }

  /** Without such calls, no reachable state has an active member in a revoked organization. */
  lemma RevokedOrgsStayEmpty(ops: seq<Op>)
    requires FreshRun(EMPTY, ops) && NeverRepopulates(EMPTY, ops)
    ensures RevokedAreEmpty(Run(EMPTY, ops).orgs, Run(EMPTY, ops).mems)
  {
    EmptyInv();
    RunRevokedEmpty(EMPTY, ops);
  }

  function RevokeThen(last: Op): seq<Op> {
    [ CreateOrg("o", None, None, "org1", "mem1", 1),
      AddMember("org1", "u", MEMBER, None, "mem2", 2),
      SuspendMembership("mem2", 3),
      CreateInvitation("org1", "u@x", MEMBER, "o", 9, [], "inv1", 4),
      TransitionOrg("org1", Revoked, 5, id => 5),
      last ]
  }

  /** In the code as it is, each of the three calls leaves an active member in a revoked organization. */
  lemma RevokedOrgGainsMember(last: Op)
    requires last in {AddMember("org1", "u", MEMBER, None, "mem3", 6),
                      AcceptInvitation("inv1", Some("u"), Some("u@x"), "", "mem3", 6, 6),
                      ReinstateMembership("mem2", 6)}
    ensures FreshRun(EMPTY, RevokeThen(last))
    ensures var s := Run(EMPTY, RevokeThen(last));
      && "org1" in s.orgs && s.orgs["org1"].status == Revoked
      && exists id :: id in s.mems && s.mems[id].status == Active && s.mems[id].Key() == ("org1", "u")
  {
    var s := RevokedOrg(last);
    var id := if last.ReinstateMembership? then "mem2" else "mem3";
    assert Step(s, last).next.mems[id].status == Active;
  }

  lemma RevokedOrg(last: Op) returns (s: State)
    ensures "org1" in s.orgs && s.orgs["org1"].status == Revoked && s.activeMem == map[]
    ensures s.mems.Keys == {"mem1", "mem2"} && s.mems["mem2"].status == Suspended && s.mems["mem2"].Key() == ("org1", "u")
    ensures "inv1" in s.invs && s.invs["inv1"].status == Pending && s.invs["inv1"].expiresAt == 9
    ensures s.invs["inv1"].orgId == "org1" && s.invs["inv1"].identifier == "u@x"
    ensures Run(EMPTY, RevokeThen(last)) == Step(s, last).next
    ensures Fresh(s, last) ==> FreshRun(EMPTY, RevokeThen(last))
  {
    var ops := RevokeThen(last);
    var s3 := SuspendedMember(last);
    s := OrgEnds(s3, last);
    hide TupleKey, Fresh, Step;
    RunSplit(EMPTY, ops, 3);
    RunSplit(s3, ops[3..], 2);
    assert ops[3..][2..] == [last] && ops[3..][..2] == [ops[3], ops[4]];
    TwoSteps(s3, ops[3], ops[4]);
    assert Run(s, [last]) == Run(Step(s, last).next, []);
  }

  lemma OrgEnds(s: State, last: Op) returns (s': State)
    requires s.orgs.Keys == {"org1"} && s.orgs["org1"].status == Active && s.activeMem == map[("org1", "o") := "mem1"]
    requires s.mems.Keys == {"mem1", "mem2"} && s.mems["mem1"].status == Active && s.mems["mem2"].status == Suspended
    requires s.mems["mem1"].Key() == ("org1", "o") && s.mems["mem2"].Key() == ("org1", "u") && s.invs == map[]
    ensures var ops := RevokeThen(last);
      && Fresh(s, ops[3]) && Fresh(Step(s, ops[3]).next, ops[4])
      && s' == Step(Step(s, ops[3]).next, ops[4]).next
    ensures "org1" in s'.orgs && s'.orgs["org1"].status == Revoked && s'.activeMem == map[]
    ensures s'.mems.Keys == {"mem1", "mem2"} && s'.mems["mem2"].status == Suspended && s'.mems["mem2"].Key() == ("org1", "u")
    ensures "inv1" in s'.invs && s'.invs["inv1"].status == Pending && s'.invs["inv1"].expiresAt == 9
    ensures s'.invs["inv1"].orgId == "org1" && s'.invs["inv1"].identifier == "u@x"
  {
    var ops := RevokeThen(last);
    var s1 := Step(s, ops[3]).next;
    assert ActiveIn(s1.mems, "org1") == {"mem1"};
    s' := Step(s1, ops[4]).next;
  }

  lemma SuspendedMember(last: Op) returns (s: State)
    ensures FreshRun(EMPTY, RevokeThen(last)[..3]) && Run(EMPTY, RevokeThen(last)[..3]) == s
    ensures s.orgs.Keys == {"org1"} && s.orgs["org1"].status == Active && s.activeMem == map[("org1", "o") := "mem1"]
    ensures s.mems.Keys == {"mem1", "mem2"} && s.mems["mem1"].status == Active && s.mems["mem2"].status == Suspended
    ensures s.mems["mem1"].Key() == ("org1", "o") && s.mems["mem2"].Key() == ("org1", "u")
    ensures s.invs == map[]
  {
    var ops := RevokeThen(last)[..3];
    var s1 := Step(EMPTY, ops[0]).next;
    TwoSteps(s1, ops[1], ops[2]);
    assert ops[1..] == [ops[1], ops[2]];
    s := Step(Step(s1, ops[1]).next, ops[2]).next;
  }

  // ---------------------------------------------------------------- invitations past their expiry

  /** An invitation was accepted, declined or withdrawn before its expiry. */
  ghost predicate AnsweredInTime(invs: map<string, Invitation>) {
    forall id :: id in invs && invs[id].status in {Accepted, Declined, InvRevoked} ==>
      invs[id].terminalAt.Some? && invs[id].terminalAt.value < invs[id].expiresAt
  }

  predicate PendingAndDue(s: State, invId: string, now: int) {
    invId in s.invs && s.invs[invId].status == Pending && now >= s.invs[invId].expiresAt
  }

  /** Declining and withdrawing never look at the expiry; accepting looks, but stamps with a later clock reading. */
  predicate AnswersLate(s: State, op: Op) {
    match op
    case DeclineInvitation(invId, _, now) => PendingAndDue(s, invId, now)
    case RevokeInvitation(invId, _, now) => PendingAndDue(s, invId, now)
    case AcceptInvitation(invId, _, _, _, _, _, now) => Acceptable(s, op) && PendingAndDue(s, invId, now)
    case _ => false
  }

  lemma AcceptInTimeIff(s: State, op: Op)
    requires AnsweredInTime(s.invs) && Fresh(s, op) && op.AcceptInvitation?
    ensures AnsweredInTime(StepAccept(s, op).next.invs) <==> !AnswersLate(s, op)
  {
    hide TupleKey, Materialized, Enroll, WriteAll;
    AcceptSucceedsIff(s, op);
    assert forall m: Membership :: Enroll(s, m).invs == s.invs by {
      forall m: Membership ensures Enroll(s, m).invs == s.invs {
        EnrollFrame(s, m);
      }
    }
    if AnswersLate(s, op) {
      assert StepAccept(s, op).next.invs[op.invId].terminalAt == Some(op.now);
    }
  }

  lemma EnrollFrame(s: State, m: Membership)
    ensures Enroll(s, m).invs == s.invs
  {
  }

  lemma InvitationStepInTimeIff(s: State, op: Op)
    requires AnsweredInTime(s.invs) && Fresh(s, op)
    requires op.CreateInvitation? || op.GetInvitation? || op.DeclineInvitation? || op.RevokeInvitation?
    ensures AnsweredInTime(Step(s, op).next.invs) <==> !AnswersLate(s, op)
  {
    if AnswersLate(s, op) {
      var inv := Step(s, op).next.invs[op.invId];
      assert inv.status in {Accepted, Declined, InvRevoked} && inv.terminalAt == Some(op.now);
    }
  }

  lemma MemberStepKeepsInvitations(s: State, op: Op)
    requires !(op.CreateInvitation? || op.GetInvitation? || op.AcceptInvitation? || op.DeclineInvitation? || op.RevokeInvitation?)
    ensures Step(s, op).next.invs == s.invs
  {
    hide TupleKey, Owners, ValidSlug;
  }

  /** A call keeps all answers in time if and only if it does not answer a pending invitation past its expiry. */
  lemma StepInTimeIff(s: State, op: Op)
    requires AnsweredInTime(s.invs) && Fresh(s, op)
    ensures AnsweredInTime(Step(s, op).next.invs) <==> !AnswersLate(s, op)
  {
    hide TupleKey, AnsweredInTime, Fresh, StepAccept;
    if op.AcceptInvitation? {
      AcceptInTimeIff(s, op);
    } else if op.CreateInvitation? || op.GetInvitation? || op.DeclineInvitation? || op.RevokeInvitation? {
      InvitationStepInTimeIff(s, op);
    } else {
      MemberStepKeepsInvitations(s, op);
    }
  }

  predicate NeverAnswersLate(s: State, ops: seq<Op>)
    decreases |ops|
  {
    ops == [] || (!AnswersLate(s, ops[0]) && NeverAnswersLate(Step(s, ops[0]).next, ops[1..]))
  }

  /** Over any run without late answers every answered invitation was answered before its expiry. */
  lemma {:induction false} RunInTime(s: State, ops: seq<Op>)
    requires AnsweredInTime(s.invs) && FreshRun(s, ops) && NeverAnswersLate(s, ops)
    ensures AnsweredInTime(Run(s, ops).invs)
    decreases |ops|
  {
    hide TupleKey, Step, Fresh, AnsweredInTime, AnswersLate;
    if ops == [] {
    } else {
      StepInTimeIff(s, ops[0]);
      RunInTime(Step(s, ops[0]).next, ops[1..]);
    }
  }

  function DeclineAfterExpiry(): seq<Op> {
    [ CreateOrg("o", None, None, "org1", "mem1", 1),
      CreateInvitation("org1", "u@x", MEMBER, "o", 9, [], "inv1", 2),
      DeclineInvitation("inv1", None, 10) ]
  }

  /** In the code as it is, an invitation past its expiry that no call has looked at can be declined. */
  lemma ExpiredInvitationDeclined()
    ensures FreshRun(EMPTY, DeclineAfterExpiry())
    ensures var s := Run(EMPTY, DeclineAfterExpiry());
      "inv1" in s.invs && s.invs["inv1"].status == Declined && s.invs["inv1"].terminalAt == Some(10) && s.invs["inv1"].expiresAt == 9
  {
    var ops := DeclineAfterExpiry();
    var s1 := Step(EMPTY, ops[0]).next;
    var s2 := Step(s1, ops[1]).next;
    assert Run(EMPTY, ops) == Step(s2, ops[2]).next;
  }

  // ---------------------------------------------------------------- slugs of suspended organizations

  function SuspendWithSlug(): seq<Op> {
    [ CreateOrg("o", None, Some("s"), "org1", "mem1", 1), TransitionOrg("org1", Suspended, 2, id => 2) ]
  }

  /** A suspended organization keeps its slug, and nobody else can take it. */
  lemma SuspendedOrgKeepsSlug(creator: string, orgId: string, memId: string, now: int)
    ensures FreshRun(EMPTY, SuspendWithSlug())
    ensures var s := Run(EMPTY, SuspendWithSlug());
      && "org1" in s.orgs && s.orgs["org1"].status == Suspended && "s" in s.orgBySlug && s.orgBySlug["s"] == "org1"
      && Step(s, CreateOrg(creator, None, Some("s"), orgId, memId, now)).error == Some(OrgSlugConflict)
  {
    hide TupleKey, Write;
    var ops := SuspendWithSlug();
    assert ValidSlug("s");
    TwoSteps(EMPTY, ops[0], ops[1]);
    assert ops == [ops[0], ops[1]];
  }
}
