/**
 * Joined tuple keys in the tenancy store.  While user ids, roles and the relations and types of pre-tuples are free
 * of bars, keys determine tuples and agreement has a simple condition; with a bar, one user's acceptance can
 * overwrite another's role tuple.
 */
module TenancyKeys {
  import opened Common
  import opened Keys
  import opened TenancyModel
  import opened TenancyInvariants
  import opened TenancyIndex
  import opened TenancyAgreement

  predicate Plain(t: Tuple) {
    BarFree(t.subjectType) && BarFree(t.subjectId) && BarFree(t.relation) && BarFree(t.objectType)
  }

  predicate PlainPreTuples(pts: seq<PreTuple>) {
    forall i :: 0 <= i < |pts| ==> BarFree(pts[i].relation) && BarFree(pts[i].objectType)
  }

  ghost predicate PlainTuples(tuples: Tuples) {
    forall key :: key in tuples ==> Plain(tuples[key])
  }

  ghost predicate PlainRows(mems: Mems, invs: map<string, Invitation>) {
    && (forall id :: id in mems ==> BarFree(mems[id].usrId) && BarFree(mems[id].role))
    && (forall id :: id in invs ==> BarFree(invs[id].role) && PlainPreTuples(invs[id].preTuples))
  }

  ghost predicate PlainState(s: State) {
    PlainTuples(s.tuples) && PlainRows(s.mems, s.invs)
  }

  /** The names a call brings are free of bars. */
  predicate PlainOp(op: Op) {
    match op
    case CreateOrg(creator, _, _, _, _, _) => BarFree(creator)
    case AddMember(_, usrId, role, _, _, _) => BarFree(usrId) && BarFree(role)
    case ChangeRole(_, role, _, _) => BarFree(role)
    case CreateInvitation(_, _, role, _, _, preTuples, _, _) => BarFree(role) && PlainPreTuples(preTuples)
    case AcceptInvitation(_, _, _, _, _, _, _) => BarFree(AcceptingUser(op))
    case _ => true
  }

  // ---------------------------------------------------------------- plain keys determine tuples

  lemma PlainKeyInjective(t: Tuple, t': Tuple)
    requires Plain(t) && Plain(t') && TupleKey(t) == TupleKey(t')
    ensures t == t'
  {
    NaturalKeyInjective(t.subjectType, t.subjectId, t.relation, t.objectType, t.objectId,
                        t'.subjectType, t'.subjectId, t'.relation, t'.objectType, t'.objectId);
  }

  lemma PlainNeverDisplaces(tuples: Tuples, t: Tuple)
    requires Filed(tuples) && PlainTuples(tuples) && Plain(t)
    ensures TupleKey(t) in tuples ==> tuples[TupleKey(t)] == t
    ensures !Displaces(tuples, t)
  {
    hide TupleKey, Plain;
    if TupleKey(t) in tuples {
      PlainKeyInjective(tuples[TupleKey(t)], t);
    }
  }

  lemma PlainReplace(tuples: Tuples, m: Membership, role: Role)
    requires Filed(tuples) && PlainTuples(tuples) && BarFree(m.usrId) && BarFree(role)
    ensures !ReplaceDisplaces(tuples, m, role)
    ensures Filed(AfterReplace(tuples, m, role)) && PlainTuples(AfterReplace(tuples, m, role))
  {
    hide TupleKey;
    var rest := tuples - {TupleKey(m.RoleTuple())};
    assert Plain(InRole(m, role));
    PlainNeverDisplaces(rest, InRole(m, role));
  }

  lemma {:induction false} WrittenPlain(ts: seq<Tuple>)
    requires forall i :: 0 <= i < |ts| ==> Plain(ts[i])
    ensures var written := WriteAll(map[], ts);
      && Filed(written) && PlainTuples(written)
      && (forall key :: key in written ==> written[key] in ts)
      && (forall i :: 0 <= i < |ts| ==> Holds(written, ts[i]))
    decreases |ts|
  {
    hide TupleKey, Plain;
    if ts != [] {
      var n := |ts| - 1;
      var before := WriteAll(map[], ts[..n]);
      assert forall i :: 0 <= i < n ==> ts[..n][i] == ts[i];
      WrittenPlain(ts[..n]);
      forall i | 0 <= i < |ts| ensures Holds(Write(before, ts[n]), ts[i]) {
        if i < n {
          assert Holds(before, ts[..n][i]);
          if TupleKey(ts[i]) == TupleKey(ts[n]) {
            PlainKeyInjective(ts[i], ts[n]);
          }
        }
      }
    }
  }

  /** Every organization pre-tuple is the role tuple the acceptance writes anyway, or stored already. */
  predicate BringsNothingNew(tuples: Tuples, role: Tuple, ts: seq<Tuple>) {
    forall i :: 0 <= i < |ts| && ts[i].objectType == "org" ==> ts[i] == role || Holds(tuples, ts[i])
  }

  lemma PlainWritesIff(tuples: Tuples, role: Tuple, ts: seq<Tuple>)
    requires Filed(tuples) && PlainTuples(tuples) && Plain(role) && forall i :: 0 <= i < |ts| ==> Plain(ts[i])
    ensures KeepsWrites(tuples, role, ts) <==> BringsNothingNew(tuples, role, ts)
  {
    hide TupleKey, Plain, WriteAll;
    var writes := [role] + ts;
    var written := WriteAll(map[], writes);
    WrittenPlain(writes);
    assert Holds(written, writes[0]);
    forall key | key in written && key in tuples ensures written[key] == tuples[key] {
      PlainKeyInjective(written[key], tuples[key]);
    }
    if KeepsWrites(tuples, role, ts) {
      forall i | 0 <= i < |ts| && ts[i].objectType == "org" ensures ts[i] == role || Holds(tuples, ts[i]) {
        assert Holds(written, writes[i + 1]);
      }
    }
    if BringsNothingNew(tuples, role, ts) {
      forall key | key in written && written[key].objectType == "org" ensures written[key] == role || Holds(tuples, written[key]) {
        var i :| 0 <= i < |writes| && writes[i] == written[key];
        assert i > 0 ==> ts[i - 1] == writes[i];
      }
    }
  }

  // ---------------------------------------------------------------- the simple condition

  /** With plain names, what a caller checks: a suspended row is suspended again only while nobody holds its role tuple, and an
      accepted invitation brings no organization tuple that is not held. */
  predicate PlainKeeps(s: State, op: Op) {
    match op
    case SuspendMembership(memId, _) => memId in s.mems && s.mems[memId].status == Suspended ==> !Holds(s.tuples, s.mems[memId].RoleTuple())
    case AcceptInvitation(invId, _, _, _, _, _, _) =>
      Acceptable(s, op) ==>
        var inv := s.invs[invId];
        BringsNothingNew(s.tuples, Tuple("usr", AcceptingUser(op), inv.role, "org", inv.orgId), Materialized(inv, AcceptingUser(op)))
    case _ => true
  }

  lemma PlainKeepsIff(s: State, op: Op)
    requires PlainState(s) && PlainOp(op) && Filed(s.tuples)
    ensures KeepsTuples(s, op) <==> PlainKeeps(s, op)
  {
    hide TupleKey, Filed, Displaces, ReplaceDisplaces, ValidSlug, Owners, KeepsWrites, BringsNothingNew, WriteAll;
    match op
    case CreateOrg(creator, _, _, orgId, _, _) => PlainNeverDisplaces(s.tuples, Tuple("usr", creator, OWNER, "org", orgId));
    case AddMember(orgId, usrId, role, _, _, _) => PlainNeverDisplaces(s.tuples, Tuple("usr", usrId, role, "org", orgId));
    case ChangeRole(memId, role, _, _) =>
      if memId in s.mems {
        PlainReplace(s.tuples, s.mems[memId], role);
      }
    case SuspendMembership(memId, _) =>
      if memId in s.mems {
        PlainNeverDisplaces(s.tuples, s.mems[memId].RoleTuple());
      }
    case ReinstateMembership(memId, _) =>
      if memId in s.mems {
        PlainNeverDisplaces(s.tuples, s.mems[memId].RoleTuple());
      }
    case SelfLeave(memId, transferTo, _, _, _) =>
      if HandsOver(s, memId, transferTo) {
        PlainReplace(s.tuples, s.mems[s.activeMem[(s.mems[memId].orgId, transferTo.value)]], OWNER);
      }
    case TransferOwnership(orgId, fromId, toId, _, _, _, _) =>
      if CanTransfer(s, orgId, fromId, toId) {
        PlainReplace(s.tuples, s.mems[toId], OWNER);
        PlainReplace(AfterReplace(s.tuples, s.mems[toId], OWNER), s.mems[fromId], MEMBER);
      }
    case AcceptInvitation(invId, _, _, _, _, _, _) =>
      if Acceptable(s, op) {
        PlainAcceptance(s, op);
      }
    case _ =>
  }

  lemma PlainAcceptance(s: State, op: Op)
    requires PlainState(s) && PlainOp(op) && Filed(s.tuples) && op.AcceptInvitation? && Acceptable(s, op)
    ensures var inv := s.invs[op.invId];
      var role, ts := Tuple("usr", AcceptingUser(op), inv.role, "org", inv.orgId), Materialized(inv, AcceptingUser(op));
      && Plain(role) && (forall i :: 0 <= i < |ts| ==> Plain(ts[i]))
      && (KeepsWrites(s.tuples, role, ts) <==> BringsNothingNew(s.tuples, role, ts))
  {
    hide TupleKey, Filed, KeepsWrites, BringsNothingNew, WriteAll;
    var inv := s.invs[op.invId];
    var role, ts := Tuple("usr", AcceptingUser(op), inv.role, "org", inv.orgId), Materialized(inv, AcceptingUser(op));
    PlainWritesIff(s.tuples, role, ts);
  }

  // ---------------------------------------------------------------- plain runs stay plain

  lemma {:induction false} PlainWriteAll(tuples: Tuples, ts: seq<Tuple>)
    requires PlainTuples(tuples) && forall i :: 0 <= i < |ts| ==> Plain(ts[i])
    ensures PlainTuples(WriteAll(tuples, ts))
    decreases |ts|
  {
    hide TupleKey, Plain;
    if ts != [] {
      assert forall i :: 0 <= i < |ts| - 1 ==> ts[..|ts| - 1][i] == ts[i];
      PlainWriteAll(tuples, ts[..|ts| - 1]);
    }
  }

  lemma AcceptKeepsPlain(s: State, op: Op)
    requires PlainState(s) && PlainOp(op) && op.AcceptInvitation?
    ensures PlainState(StepAccept(s, op).next)
  {
    hide TupleKey, WriteAll, Materialized;
    AcceptSucceedsIff(s, op);
    if StepAccept(s, op).error.None? {
      var inv, usr := s.invs[op.invId], AcceptingUser(op);
      PlainMaterialized(inv, usr);
      var role := Tuple("usr", usr, inv.role, "org", inv.orgId);
      assert Plain(role);
      PlainWriteAll(Write(s.tuples, role), Materialized(inv, usr));
    }
  }

  lemma PlainMaterialized(inv: Invitation, usr: string)
    requires BarFree(usr) && PlainPreTuples(inv.preTuples)
    ensures forall i :: 0 <= i < |Materialized(inv, usr)| ==> Plain(Materialized(inv, usr)[i])
  {
  }

  lemma RetirePlain(s: State, id: string, removedBy: Option<string>, now: int)
    requires PlainState(s) && id in s.mems
    ensures PlainState(Retire(s, id, removedBy, now))
  {
    hide TupleKey, Plain;
  }

  lemma EnrollPlain(s: State, m: Membership)
    requires PlainState(s) && BarFree(m.usrId) && BarFree(m.role)
    ensures PlainState(Enroll(s, m))
  {
    hide TupleKey;
  }

  lemma ReplacePlain(s: State, id: string, role: Role, newId: string, now: int)
    requires PlainState(s) && id in s.mems && BarFree(role)
    ensures PlainState(Replace(s, id, role, newId, now))
  {
    assert BarFree(s.mems[id].usrId);
    hide PlainState;
    RetirePlain(s, id, None, now);
    EnrollPlain(Retire(s, id, None, now), Successor(s.mems[id], role, newId, now));
  }

  lemma OrgStepPlain(s: State, op: Op)
    requires PlainState(s) && PlainOp(op) && (op.CreateOrg? || op.UpdateOrg? || op.TransitionOrg?)
    ensures PlainState(Step(s, op).next)
  {
    hide TupleKey, ValidSlug, Plain;
    if op.CreateOrg? && StepCreateOrg(s, op).error.None? {
      CreateOrgEnrolls(s, op);
      EnrollPlain(s, Membership(op.memId, op.creator, op.orgId, OWNER, Active, None, None, None, op.now, op.now));
    }
  }

  lemma SelfLeavePlain(s: State, op: Op)
    requires PlainState(s) && op.SelfLeave?
    ensures PlainState(StepSelfLeave(s, op).next)
  {
    hide PlainState, Owners;
    if StepSelfLeave(s, op).error.None? {
      var leaver := Some(s.mems[op.memId].usrId);
      if MustTransfer(s, s.mems[op.memId]) {
        var tt := s.activeMem[(s.mems[op.memId].orgId, op.transferTo.value)];
        ReplacePlain(s, tt, OWNER, op.newId, op.promotedAt);
        RetirePlain(Replace(s, tt, OWNER, op.newId, op.promotedAt), op.memId, leaver, op.now);
      } else {
        RetirePlain(s, op.memId, leaver, op.now);
      }
    }
  }

  lemma TransferPlain(s: State, op: Op)
    requires PlainState(s) && op.TransferOwnership?
    ensures PlainState(StepTransferOwnership(s, op).next)
  {
    hide PlainState;
    if StepTransferOwnership(s, op).error.None? {
      ReplacePlain(s, op.toId, OWNER, op.newToId, op.promotedAt);
      ReplacePlain(Replace(s, op.toId, OWNER, op.newToId, op.promotedAt), op.fromId, MEMBER, op.newFromId, op.demotedAt);
    }
  }

  lemma RowStepPlain(s: State, op: Op)
    requires PlainState(s) && PlainOp(op)
    requires op.AddMember? || op.ChangeRole? || op.SuspendMembership? || op.ReinstateMembership? || op.AdminRemove?
    ensures PlainState(Step(s, op).next)
  {
    hide TupleKey, Owners, Retire, Replace, Enroll;
    if Step(s, op).error.None? {
      if op.AddMember? {
        EnrollPlain(s, Membership(op.memId, op.usrId, op.orgId, op.role, Active, None, op.invitedBy, None, op.now, op.now));
      } else if op.ChangeRole? {
        ReplacePlain(s, op.memId, op.role, op.newId, op.now);
      } else if op.AdminRemove? {
        RetirePlain(s, op.memId, Some(op.adminUsrId), op.now);
      } else if op.ReinstateMembership? {
        assert Plain(s.mems[op.memId].RoleTuple());
      }
    }
  }

  lemma InvitationStepPlain(s: State, op: Op)
    requires PlainState(s) && PlainOp(op)
    requires op.CreateInvitation? || op.GetInvitation? || op.DeclineInvitation? || op.RevokeInvitation?
    ensures PlainState(Step(s, op).next)
  {
    hide TupleKey, Plain;
  }

  lemma StepKeepsPlain(s: State, op: Op)
    requires PlainState(s) && PlainOp(op)
    ensures PlainState(Step(s, op).next)
  {
    hide PlainState, PlainOp, StepCreateOrg, StepUpdateOrg, StepTransitionOrg, StepAccept, StepSelfLeave, StepTransferOwnership;
    match op
    case CreateOrg(_, _, _, _, _, _) => OrgStepPlain(s, op);
    case UpdateOrg(_, _, _) => OrgStepPlain(s, op);
    case TransitionOrg(_, _, _, _) => OrgStepPlain(s, op);
    case SelfLeave(_, _, _, _, _) => SelfLeavePlain(s, op);
    case TransferOwnership(_, _, _, _, _, _, _) => TransferPlain(s, op);
    case AcceptInvitation(_, _, _, _, _, _, _) => AcceptKeepsPlain(s, op);
    case _ =>
      hide Step;
      if op.AddMember? || op.ChangeRole? || op.SuspendMembership? || op.ReinstateMembership? || op.AdminRemove? {
        RowStepPlain(s, op);
      } else {
        InvitationStepPlain(s, op);
      }
  }

  predicate PlainRun(s: State, ops: seq<Op>)
    decreases |ops|
  {
    ops == [] || (PlainOp(ops[0]) && KeepsIndex(s, ops[0]) && PlainKeeps(s, ops[0]) && PlainRun(Step(s, ops[0]).next, ops[1..]))
  }

  lemma {:induction false} PlainRunAgrees(s: State, ops: seq<Op>)
    requires Inv(s) && Agree(s) && PlainState(s) && FreshRun(s, ops) && PlainRun(s, ops)
    ensures Agree(Run(s, ops))
    decreases |ops|
  {
    hide Inv, IndexExact, TuplesExact, Filed, PlainState, Step, Fresh, PlainOp, KeepsIndex, PlainKeeps, KeepsTuples;
    if ops == [] {
    } else {
      StepKeepsInv(s, ops[0]);
      StepKeepsPlain(s, ops[0]);
      PlainKeepsIff(s, ops[0]);
      StepAgreesIff(s, ops[0]);
      PlainRunAgrees(Step(s, ops[0]).next, ops[1..]);
    }
  }

  /** With bar-free user ids, roles and pre-tuple relations and types, every run that suspends no superseded row and accepts no new
      organization pre-tuple ends in full agreement. */
  lemma PlainRunsAgree(ops: seq<Op>)
    requires FreshRun(EMPTY, ops) && PlainRun(EMPTY, ops)
    ensures Agree(Run(EMPTY, ops))
  {
    EmptyInv();
    PlainRunAgrees(EMPTY, ops);
  }

  // ---------------------------------------------------------------- the failing runs

  /** Owner o; an invitation whose pre-tuple names the owner role, and u accepts it as a member. */
  function AcceptWithPreTuple(): seq<Op> {
    [ CreateOrg("o", None, None, "org1", "mem1", 1),
      CreateInvitation("org1", "u@x", MEMBER, "o", 9, [PreTuple(OWNER, "org", "org1")], "inv1", 2),
      AcceptInvitation("inv1", Some("u"), Some("u@x"), "", "mem2", 3, 3) ]
  }

  /** In the code as it is, that run leaves an owner tuple for a user who is only a member; the index stays exact. */
  lemma PreTupleBreaksAgreement()
    ensures FreshRun(EMPTY, AcceptWithPreTuple())
    ensures var s := Run(EMPTY, AcceptWithPreTuple());
      && Holds(s.tuples, Tuple("usr", "u", OWNER, "org", "org1"))
      && !IsRoleTuple(s.mems, Tuple("usr", "u", OWNER, "org", "org1"))
      && IndexExact(s.mems, s.activeMem)
  {
    hide TupleKey;
    var ops := AcceptWithPreTuple();
    var s2 := Invited();
    var s3 := AcceptedAsMember(s2);
    hide Step, Fresh, IsRoleTuple, IndexExact;
    RunSplit(EMPTY, ops, 2);
    assert ops[2..] == [ops[2]] && [ops[2]][1..] == [];
    assert Run(s2, ops[2..]) == Run(s3, []);
  }

  lemma AcceptedAsMember(s: State) returns (s': State)
    requires s.mems.Keys == {"mem1"} && s.mems["mem1"].status == Active && s.mems["mem1"].Key() == ("org1", "o")
    requires s.activeMem == map[("org1", "o") := "mem1"]
    requires "inv1" in s.invs && s.invs["inv1"].status == Pending && s.invs["inv1"].expiresAt == 9 && s.invs["inv1"].orgId == "org1"
    requires s.invs["inv1"].identifier == "u@x" && s.invs["inv1"].role == MEMBER
    requires s.invs["inv1"].preTuples == [PreTuple(OWNER, "org", "org1")]
    ensures Fresh(s, AcceptWithPreTuple()[2]) && s' == Step(s, AcceptWithPreTuple()[2]).next
    ensures Holds(s'.tuples, Tuple("usr", "u", OWNER, "org", "org1")) && !IsRoleTuple(s'.mems, Tuple("usr", "u", OWNER, "org", "org1"))
    ensures IndexExact(s'.mems, s'.activeMem)
  {
    hide TupleKey;
    assert Materialized(s.invs["inv1"], "u") == [Tuple("usr", "u", OWNER, "org", "org1")];
    s' := Step(s, AcceptWithPreTuple()[2]).next;
  }

  lemma Invited() returns (s: State)
    ensures FreshRun(EMPTY, AcceptWithPreTuple()[..2]) && Run(EMPTY, AcceptWithPreTuple()[..2]) == s
    ensures s.mems.Keys == {"mem1"} && s.mems["mem1"].status == Active && s.mems["mem1"].Key() == ("org1", "o")
    ensures s.activeMem == map[("org1", "o") := "mem1"]
    ensures "inv1" in s.invs && s.invs["inv1"].status == Pending && s.invs["inv1"].expiresAt == 9 && s.invs["inv1"].orgId == "org1"
    ensures s.invs["inv1"].identifier == "u@x" && s.invs["inv1"].role == MEMBER
    ensures s.invs["inv1"].preTuples == [PreTuple(OWNER, "org", "org1")]
  {
    hide TupleKey;
    var ops := AcceptWithPreTuple()[..2];
    TwoSteps(EMPTY, ops[0], ops[1]);
    assert ops == [ops[0], ops[1]];
    s := Step(Step(EMPTY, ops[0]).next, ops[1]).next;
  }

  /** Owner o and member `a|x|y|z`; user a accepts an invitation with one pre-tuple that is not on an organization. */
  function AcceptOverwrites(): seq<Op> {
    [ CreateOrg("o", None, None, "org1", "mem1", 1),
      AddMember("org1", "a|x|y|z", MEMBER, None, "mem2", 2),
      CreateInvitation("org1", "a@x", MEMBER, "o", 9, [PreTuple("x", "y", "z|member|org|org1")], "inv1", 3),
      AcceptInvitation("inv1", Some("a"), Some("a@x"), "", "mem3", 4, 4) ]
  }

  lemma OverwritingKey()
    ensures TupleKey(Tuple("usr", "a", "x", "y", "z|member|org|org1")) == TupleKey(Tuple("usr", "a|x|y|z", MEMBER, "org", "org1"))
  {
    assert "usr" + "|" + ("a" + "|" + ("x" + "|" + ("y" + "|" + "z|member|org|org1"))) == "usr|a|x|y|z|member|org|org1";
    assert "usr" + "|" + ("a|x|y|z" + "|" + (MEMBER + "|" + ("org" + "|" + "org1"))) == "usr|a|x|y|z|member|org|org1";
  }

  /** In the code as it is, that acceptance overwrites the role tuple of the other member, who stays active. */
  lemma AcceptanceOverwritesRoleTuple()
    ensures FreshRun(EMPTY, AcceptOverwrites())
    ensures var s := Run(EMPTY, AcceptOverwrites());
      && "mem2" in s.mems && s.mems["mem2"].status == Active
      && s.mems["mem2"].RoleTuple() == Tuple("usr", "a|x|y|z", MEMBER, "org", "org1")
      && !Holds(s.tuples, s.mems["mem2"].RoleTuple())
      && Holds(s.tuples, Tuple("usr", "a", "x", "y", "z|member|org|org1"))
  {
    var ops := AcceptOverwrites();
    var s2 := TwoMembers();
    var s3 := Step(s2, ops[2]).next;
    AcceptedOver(s2);
    hide Step, Fresh, TupleKey;
    RunSplit(EMPTY, ops, 2);
    assert ops[2..] == [ops[2], ops[3]];
    TwoSteps(s2, ops[2], ops[3]);
  }

  lemma TwoMembers() returns (s: State)
    ensures FreshRun(EMPTY, AcceptOverwrites()[..2]) && Run(EMPTY, AcceptOverwrites()[..2]) == s
    ensures "org1" in s.orgs && s.mems.Keys == {"mem1", "mem2"} && s.invs == map[]
    ensures s.mems["mem2"].status == Active && s.mems["mem2"].RoleTuple() == Tuple("usr", "a|x|y|z", MEMBER, "org", "org1")
    ensures s.activeMem.Keys == {("org1", "o"), ("org1", "a|x|y|z")}
  {
    hide TupleKey;
    var ops := AcceptOverwrites()[..2];
    TwoSteps(EMPTY, ops[0], ops[1]);
    assert ops == [ops[0], ops[1]];
    s := Step(Step(EMPTY, ops[0]).next, ops[1]).next;
  }

  lemma AcceptedOver(s: State)
    requires "org1" in s.orgs && s.mems.Keys == {"mem1", "mem2"} && s.invs == map[]
    requires s.mems["mem2"].status == Active && s.mems["mem2"].RoleTuple() == Tuple("usr", "a|x|y|z", MEMBER, "org", "org1")
    requires s.activeMem.Keys == {("org1", "o"), ("org1", "a|x|y|z")}
    ensures var ops := AcceptOverwrites();
      var s3 := Step(s, ops[2]).next;
      var s4 := Step(s3, ops[3]).next;
      && Fresh(s, ops[2]) && Fresh(s3, ops[3])
      && "mem2" in s4.mems && s4.mems["mem2"] == s.mems["mem2"]
      && !Holds(s4.tuples, s.mems["mem2"].RoleTuple())
      && Holds(s4.tuples, Tuple("usr", "a", "x", "y", "z|member|org|org1"))
  {
    OverwritingKey();
    hide TupleKey;
    var ops := AcceptOverwrites();
    var s3 := Step(s, ops[2]).next;
    var inv := s3.invs["inv1"];
    var over := Tuple("usr", "a", "x", "y", "z|member|org|org1");
    assert Materialized(inv, "a") == [over];
    assert forall tuples :: WriteAll(tuples, [over]) == Write(WriteAll(tuples, []), over) by {
      assert [over][..0] == [];
    }
  }
}
