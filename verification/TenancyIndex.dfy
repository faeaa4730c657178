/**
 * The membership index is exactly the active rows, whatever tuples do.  One call can break it:
 * suspending a row that is already suspended drops the index entry of the row its user holds by now.
 */
module TenancyIndex {
  import opened Common
  import opened TenancyModel
  import opened TenancyInvariants

  type Index = map<(string, string), string>

  ghost predicate IndexExact(mems: Mems, index: Index) {
    forall id :: id in mems && mems[id].status == Active ==> mems[id].Key() in index && index[mems[id].Key()] == id
  }

  /** With an exact index no two active rows share an organization and a user. */
  lemma AtMostOneActive(mems: Mems, index: Index, id: string, id': string)
    requires IndexExact(mems, index) && id in mems && id' in mems
    requires mems[id].status == Active && mems[id'].status == Active && mems[id].Key() == mems[id'].Key()
    ensures id == id'
  {
  }

  // ---------------------------------------------------------------- the edits

  lemma RetireIndex(s: State, id: string, removedBy: Option<string>, now: int)
    requires IndexExact(s.mems, s.activeMem) && id in s.mems && s.mems[id].status == Active
    ensures IndexExact(Retire(s, id, removedBy, now).mems, Retire(s, id, removedBy, now).activeMem)
  {
  }

  lemma EnrollIndex(s: State, m: Membership)
    requires IndexExact(s.mems, s.activeMem) && m.id !in s.mems && m.Key() !in s.activeMem
    ensures IndexExact(Enroll(s, m).mems, Enroll(s, m).activeMem)
  {
  }

  lemma ReplaceIndex(s: State, id: string, role: Role, newId: string, now: int)
    requires IndexExact(s.mems, s.activeMem) && id in s.mems && s.mems[id].status == Active && newId !in s.mems
    ensures IndexExact(Replace(s, id, role, newId, now).mems, Replace(s, id, role, newId, now).activeMem)
  {
    hide TupleKey, IndexExact;
    RetireIndex(s, id, None, now);
    EnrollIndex(Retire(s, id, None, now), Successor(s.mems[id], role, newId, now));
  }

  lemma NewOrgHasNoKeys(s: State, orgId: string, usrId: string)
    requires Inv(s) && orgId !in s.orgs
    ensures (orgId, usrId) !in s.activeMem
  {
    forall key | key in s.activeMem ensures key.0 in s.orgs {
      assert s.mems[s.activeMem[key]].Key() == key;
    }
  }

  // ---------------------------------------------------------------- the calls

  lemma CreateOrgIndex(s: State, op: Op)
    requires Inv(s) && IndexExact(s.mems, s.activeMem) && Fresh(s, op) && op.CreateOrg?
    ensures IndexExact(StepCreateOrg(s, op).next.mems, StepCreateOrg(s, op).next.activeMem)
  {
    if StepCreateOrg(s, op).error.None? {
      NewOrgHasNoKeys(s, op.orgId, op.creator);
      hide TupleKey, Inv, IndexExact;
      EnrollIndex(s, Membership(op.memId, op.creator, op.orgId, OWNER, Active, None, None, None, op.now, op.now));
    }
  }

  lemma MemberStepIndex(s: State, op: Op)
    requires IndexExact(s.mems, s.activeMem) && Fresh(s, op)
    requires op.AddMember? || op.ChangeRole? || op.ReinstateMembership? || op.AdminRemove?
    ensures IndexExact(Step(s, op).next.mems, Step(s, op).next.activeMem)
  {
    hide TupleKey, Owners, Retire, Replace;
    if Step(s, op).error.None? && !op.ReinstateMembership? {
      hide TupleKey, IndexExact;
      if op.AddMember? {
        EnrollIndex(s, Membership(op.memId, op.usrId, op.orgId, op.role, Active, None, op.invitedBy, None, op.now, op.now));
      } else if op.AdminRemove? {
        RetireIndex(s, op.memId, Some(op.adminUsrId), op.now);
      } else if s.mems[op.memId].role != op.role {
        ReplaceIndex(s, op.memId, op.role, op.newId, op.now);
      }
    }
  }

  lemma TransferIndex(s: State, op: Op)
    requires IndexExact(s.mems, s.activeMem) && Fresh(s, op) && op.TransferOwnership?
    ensures IndexExact(StepTransferOwnership(s, op).next.mems, StepTransferOwnership(s, op).next.activeMem)
  {
    if StepTransferOwnership(s, op).error.None? {
      var s1 := Replace(s, op.toId, OWNER, op.newToId, op.promotedAt);
      assert s1.mems[op.fromId] == s.mems[op.fromId] && op.newFromId !in s1.mems;
      hide TupleKey, IndexExact, Replace;
      ReplaceIndex(s, op.toId, OWNER, op.newToId, op.promotedAt);
      ReplaceIndex(s1, op.fromId, MEMBER, op.newFromId, op.demotedAt);
    }
  }

  lemma SelfLeaveIndex(s: State, op: Op)
    requires Inv(s) && IndexExact(s.mems, s.activeMem) && Fresh(s, op) && op.SelfLeave?
    ensures IndexExact(StepSelfLeave(s, op).next.mems, StepSelfLeave(s, op).next.activeMem)
  {
    hide TupleKey, Inv, IndexExact;
    if StepSelfLeave(s, op).error.None? {
      var leaver := Some(s.mems[op.memId].usrId);
      if MustTransfer(s, s.mems[op.memId]) {
        var tt := SelfLeaveTransfer(s, op);
        var s1 := Replace(s, tt, OWNER, op.newId, op.promotedAt);
        ReplaceIndex(s, tt, OWNER, op.newId, op.promotedAt);
        assert s1.mems[op.memId] == s.mems[op.memId];
        RetireIndex(s1, op.memId, leaver, op.now);
      } else {
        RetireIndex(s, op.memId, leaver, op.now);
      }
    }
  }

  lemma TransitionOrgIndex(s: State, op: Op)
    requires IndexExact(s.mems, s.activeMem) && op.TransitionOrg?
    ensures IndexExact(StepTransitionOrg(s, op).next.mems, StepTransitionOrg(s, op).next.activeMem)
  {
    var s' := StepTransitionOrg(s, op).next;
    if StepTransitionOrg(s, op).error.None? && op.target == Revoked {
      var ids := ActiveIn(s.mems, op.orgId);
      forall id | id in s'.mems && s'.mems[id].status == Active
        ensures s'.mems[id].Key() in s'.activeMem && s'.activeMem[s'.mems[id].Key()] == id
      {
        assert s'.mems[id] == s.mems[id] && id !in ids;
        assert forall x :: x in ids && s.mems[x].Key() == s.mems[id].Key() ==> x == id;
      }
    }
  }

  lemma AcceptIndex(s: State, op: Op)
    requires IndexExact(s.mems, s.activeMem) && Fresh(s, op) && op.AcceptInvitation?
    ensures IndexExact(StepAccept(s, op).next.mems, StepAccept(s, op).next.activeMem)
  {
    hide TupleKey, Materialized;
    if StepAccept(s, op).error.None? {
      var inv := s.invs[op.invId];
      hide TupleKey, IndexExact;
      EnrollIndex(s, Membership(op.memId, AcceptingUser(op), inv.orgId, inv.role, Active, None, Some(inv.invitedBy), None, op.now, op.now));
    }
  }

  /** A suspended row whose user holds another active row. */
  predicate Superseded(s: State, memId: string) {
    memId in s.mems && s.mems[memId].status == Suspended && s.mems[memId].Key() in s.activeMem
  }

  /** What a caller can check before the call. */
  predicate KeepsIndex(s: State, op: Op) {
    op.SuspendMembership? ==> !Superseded(s, op.memId)
  }

  lemma SuspendIndexIff(s: State, op: Op)
    requires Inv(s) && IndexExact(s.mems, s.activeMem) && op.SuspendMembership?
    ensures IndexExact(StepSuspend(s, op).next.mems, StepSuspend(s, op).next.activeMem) <==> !Superseded(s, op.memId)
  {
    hide TupleKey, Owned, Owners, Slugs, History;
    var s' := StepSuspend(s, op).next;
    if Superseded(s, op.memId) {
      var other := s.activeMem[s.mems[op.memId].Key()];
      assert s'.mems[other] == s.mems[other] && s.mems[other].Key() !in s'.activeMem;
    }
  }

  /** A call keeps the index exact if and only if it does not suspend a superseded row. */
  lemma StepIndexIff(s: State, op: Op)
    requires Inv(s) && IndexExact(s.mems, s.activeMem) && Fresh(s, op)
    ensures IndexExact(Step(s, op).next.mems, Step(s, op).next.activeMem) <==> KeepsIndex(s, op)
  {
    hide TupleKey, Inv, Fresh, IndexExact, Superseded, StepTransitionOrg, StepCreateOrg, StepSelfLeave, StepTransferOwnership, StepAccept, StepSuspend;
    match op
    case CreateOrg(_, _, _, _, _, _) => CreateOrgIndex(s, op);
    case TransitionOrg(_, _, _, _) => TransitionOrgIndex(s, op);
    case SuspendMembership(_, _) => SuspendIndexIff(s, op);
    case SelfLeave(_, _, _, _, _) => SelfLeaveIndex(s, op);
    case TransferOwnership(_, _, _, _, _, _, _) => TransferIndex(s, op);
    case AcceptInvitation(_, _, _, _, _, _, _) => AcceptIndex(s, op);
    case _ =>
      if op.AddMember? || op.ChangeRole? || op.ReinstateMembership? || op.AdminRemove? {
        MemberStepIndex(s, op);
      }
  }

  predicate KeepsIndexRun(s: State, ops: seq<Op>)
    decreases |ops|
  {
    ops == [] || (KeepsIndex(s, ops[0]) && KeepsIndexRun(Step(s, ops[0]).next, ops[1..]))
  }

  lemma {:induction false} RunIndex(s: State, ops: seq<Op>)
    requires Inv(s) && IndexExact(s.mems, s.activeMem) && FreshRun(s, ops) && KeepsIndexRun(s, ops)
    ensures IndexExact(Run(s, ops).mems, Run(s, ops).activeMem)
    decreases |ops|
  {
    hide TupleKey, Inv, IndexExact, Step, Fresh, KeepsIndex;
    if ops == [] {
    } else {
      StepKeepsInv(s, ops[0]);
      StepIndexIff(s, ops[0]);
      RunIndex(Step(s, ops[0]).next, ops[1..]);
    }
  }

  /** In every state reached without suspending superseded rows the index holds exactly the active rows, so a user
      has at most one of them in an organization. */
  lemma IndexAlwaysExact(ops: seq<Op>)
    requires FreshRun(EMPTY, ops) && KeepsIndexRun(EMPTY, ops)
    ensures var s := Run(EMPTY, ops);
      && (forall key, id :: key in s.activeMem && s.activeMem[key] == id
            <==> id in s.mems && s.mems[id].status == Active && s.mems[id].Key() == key)
      && (forall id, id' ::
            (id in s.mems && id' in s.mems && s.mems[id].status == Active && s.mems[id'].status == Active
             && s.mems[id].Key() == s.mems[id'].Key()) ==> id == id')
  {
    EmptyInv();
    RunIndex(EMPTY, ops);
    RunKeepsInv(EMPTY, ops);
    hide TupleKey, Run, OrgRows, MemRows, InvRows, History, Owned, Slugs;
  }

  // ---------------------------------------------------------------- the failing run

  /** Owner o, member u; u suspended, added again, and the first row suspended once more. */
  function SuspendTwice(): seq<Op> {
    [ CreateOrg("o", None, None, "org1", "mem1", 1),
      AddMember("org1", "u", MEMBER, None, "mem2", 2),
      SuspendMembership("mem2", 3),
      AddMember("org1", "u", MEMBER, None, "mem3", 4),
      SuspendMembership("mem2", 5),
      AddMember("org1", "u", MEMBER, None, "mem4", 6) ]
  }

  /** In the code as it is, that run ends with two active memberships of one user in one organization. */
  lemma SuspendTwiceBreaksAgreement()
    ensures FreshRun(EMPTY, SuspendTwice())
    ensures var s := Run(EMPTY, SuspendTwice());
      && "mem3" in s.mems && "mem4" in s.mems && s.mems["mem3"].Key() == s.mems["mem4"].Key()
      && s.mems["mem3"].status == Active && s.mems["mem4"].status == Active
      && !IndexExact(s.mems, s.activeMem)
  {
    var ops := SuspendTwice();
    var s4 := AddedAgain();
    var s6 := SuspendedAgain(s4);
    SharedKey(s6.mems, s6.activeMem, "mem3", "mem4");
    hide Step, Fresh, IndexExact;
    RunSplit(EMPTY, ops, 4);
    assert ops[4..] == [ops[4], ops[5]];
    TwoSteps(s4, ops[4], ops[5]);
  }

  lemma SuspendedAgain(s: State) returns (s': State)
    requires "org1" in s.orgs && s.mems.Keys == {"mem1", "mem2", "mem3"}
    requires s.mems["mem2"].status == Suspended && s.mems["mem2"].Key() == ("org1", "u")
    requires s.mems["mem3"].status == Active && s.mems["mem3"].Key() == ("org1", "u")
    ensures var ops := SuspendTwice();
      Fresh(s, ops[4]) && Fresh(Step(s, ops[4]).next, ops[5]) && s' == Step(Step(s, ops[4]).next, ops[5]).next
    ensures "mem3" in s'.mems && "mem4" in s'.mems && s'.mems["mem3"].Key() == s'.mems["mem4"].Key()
    ensures s'.mems["mem3"].status == Active && s'.mems["mem4"].status == Active
  {
    hide TupleKey, Write, Owners;
    var ops := SuspendTwice();
    s' := Step(Step(s, ops[4]).next, ops[5]).next;
  }

  lemma AddedAgain() returns (s: State)
    ensures FreshRun(EMPTY, SuspendTwice()[..4]) && Run(EMPTY, SuspendTwice()[..4]) == s
    ensures "org1" in s.orgs && s.mems.Keys == {"mem1", "mem2", "mem3"}
    ensures s.mems["mem2"].status == Suspended && s.mems["mem2"].Key() == ("org1", "u")
    ensures s.mems["mem3"].status == Active && s.mems["mem3"].Key() == ("org1", "u")
  {
    var ops := SuspendTwice()[..4];
    var s2 := MemberJoined();
    s := Rejoined(s2);
    hide Step, Fresh;
    RunSplit(EMPTY, ops, 2);
    assert ops[..2] == SuspendTwice()[..2] && ops[2..] == [ops[2], ops[3]];
    TwoSteps(s2, ops[2], ops[3]);
  }

  lemma MemberJoined() returns (s: State)
    ensures FreshRun(EMPTY, SuspendTwice()[..2]) && Run(EMPTY, SuspendTwice()[..2]) == s
    ensures "org1" in s.orgs && s.mems.Keys == {"mem1", "mem2"}
    ensures s.mems["mem2"].status == Active && s.mems["mem2"].role == MEMBER && s.mems["mem2"].Key() == ("org1", "u")
  {
    hide TupleKey, Write, Owners;
    var ops := SuspendTwice()[..2];
    TwoSteps(EMPTY, ops[0], ops[1]);
    assert ops == [ops[0], ops[1]];
    s := Step(Step(EMPTY, ops[0]).next, ops[1]).next;
  }

  lemma Rejoined(s: State) returns (s': State)
    requires "org1" in s.orgs && s.mems.Keys == {"mem1", "mem2"}
    requires s.mems["mem2"].status == Active && s.mems["mem2"].role == MEMBER && s.mems["mem2"].Key() == ("org1", "u")
    ensures var ops := SuspendTwice();
      Fresh(s, ops[2]) && Fresh(Step(s, ops[2]).next, ops[3]) && s' == Step(Step(s, ops[2]).next, ops[3]).next
    ensures "org1" in s'.orgs && s'.mems.Keys == {"mem1", "mem2", "mem3"}
    ensures s'.mems["mem2"].status == Suspended && s'.mems["mem2"].Key() == ("org1", "u")
    ensures s'.mems["mem3"].status == Active && s'.mems["mem3"].Key() == ("org1", "u")
  {
    hide TupleKey, Write, Owners;
    var ops := SuspendTwice();
    s' := Step(Step(s, ops[2]).next, ops[3]).next;
  }

  lemma SharedKey(mems: Mems, index: Index, id: string, id': string)
    requires id in mems && id' in mems && id != id' && mems[id].status == Active && mems[id'].status == Active
    requires mems[id].Key() == mems[id'].Key()
    ensures !IndexExact(mems, index)
  {
  }
}
