/**
 * Full agreement of memberships, index and tuples: with the index exactly the active rows, the tuples on
 * organization objects are exactly the role tuples of the active rows.
 *
 * The tuple map is keyed by joined strings, and nothing keeps bars out of user ids, roles and pre-tuples, so one
 * tuple can take the place of another.  Every condition here is about what the map holds before the call.
 */
module TenancyAgreement {
  import opened Common
  import opened Keys
  import opened TenancyModel
  import opened TenancyInvariants
  import opened TenancyIndex

  type Tuples = map<string, Tuple>

  /** Every tuple is filed under its own key. */
  ghost predicate Filed(tuples: Tuples) {
    forall key :: key in tuples ==> TupleKey(tuples[key]) == key
  }

  predicate Holds(tuples: Tuples, t: Tuple) {
    TupleKey(t) in tuples && tuples[TupleKey(t)] == t
  }

  /** `t` is the role tuple of some active row. */
  ghost predicate IsRoleTuple(mems: Mems, t: Tuple) {
    exists id :: id in mems && mems[id].status == Active && mems[id].RoleTuple() == t
  }

  /** The role tuples of active rows are stored, and no other tuple on an organization is. */
  ghost predicate TuplesExact(mems: Mems, tuples: Tuples) {
    && (forall id :: id in mems && mems[id].status == Active ==> Holds(tuples, mems[id].RoleTuple()))
    && (forall key :: key in tuples && tuples[key].objectType == "org" ==> IsRoleTuple(mems, tuples[key]))
  }

  ghost predicate Agree(s: State) {
    IndexExact(s.mems, s.activeMem) && Filed(s.tuples) && TuplesExact(s.mems, s.tuples)
  }

  /** The key of `t` holds another tuple on an organization. */
  predicate Displaces(tuples: Tuples, t: Tuple) {
    TupleKey(t) in tuples && tuples[TupleKey(t)] != t && tuples[TupleKey(t)].objectType == "org"
  }

  // ---------------------------------------------------------------- the edits

  lemma SameHolder(mems: Mems, index: Index, id: string, id': string)
    requires IndexExact(mems, index) && id in mems && id' in mems
    requires mems[id].status == Active && mems[id'].status == Active && mems[id].RoleTuple() == mems[id'].RoleTuple()
    ensures id == id'
  {
    assert mems[id].Key() == mems[id'].Key();
  }

  /** An active row stops being active and takes its tuple along. */
  lemma Leave(mems: Mems, index: Index, tuples: Tuples, id: string, m: Membership)
    requires IndexExact(mems, index) && Filed(tuples) && TuplesExact(mems, tuples)
    requires id in mems && mems[id].status == Active && m.status != Active
    ensures TuplesExact(mems[id := m], tuples - {TupleKey(mems[id].RoleTuple())})
  {
    hide TupleKey;
    var mems', gone := mems[id := m], TupleKey(mems[id].RoleTuple());
    var tuples' := tuples - {gone};
    forall x | x in mems' && mems'[x].status == Active ensures Holds(tuples', mems'[x].RoleTuple()) {
      assert Holds(tuples, mems[x].RoleTuple()) && Holds(tuples, mems[id].RoleTuple());
      if TupleKey(mems[x].RoleTuple()) == gone {
        SameHolder(mems, index, x, id);
      }
    }
    forall key | key in tuples' && tuples'[key].objectType == "org" ensures IsRoleTuple(mems', tuples'[key]) {
      var x :| x in mems && mems[x].status == Active && mems[x].RoleTuple() == tuples[key];
      assert mems'[x] == mems[x];
    }
  }

  /** A row becomes active under an index key nobody holds: this keeps the tuples exact unless its tuple displaces another. */
  lemma EnterIff(mems: Mems, index: Index, tuples: Tuples, id: string, m: Membership)
    requires IndexExact(mems, index) && Filed(tuples) && TuplesExact(mems, tuples)
    requires m.status == Active && m.Key() !in index
    requires id in mems ==> mems[id].status != Active
    ensures TuplesExact(mems[id := m], Write(tuples, m.RoleTuple())) <==> !Displaces(tuples, m.RoleTuple())
  {
    hide TupleKey;
    var mems', t, tuples' := mems[id := m], m.RoleTuple(), Write(tuples, m.RoleTuple());
    if Displaces(tuples, t) {
      var x :| x in mems && mems[x].status == Active && mems[x].RoleTuple() == tuples[TupleKey(t)];
      assert mems'[x] == mems[x] && !Holds(tuples', mems[x].RoleTuple());
    } else {
      forall x | x in mems' && mems'[x].status == Active ensures Holds(tuples', mems'[x].RoleTuple()) {
        if x != id {
          assert Holds(tuples, mems[x].RoleTuple()) && mems[x].Key() in index;
        }
      }
      forall key | key in tuples' && tuples'[key].objectType == "org" ensures IsRoleTuple(mems', tuples'[key]) {
        if key == TupleKey(t) {
          assert mems'[id].RoleTuple() == t;
        } else {
          var x :| x in mems && mems[x].status == Active && mems[x].RoleTuple() == tuples[key];
          assert mems'[x] == mems[x];
        }
      }
    }
  }

  /** Dropping the tuple of a row that is not active keeps the tuples exact unless its key holds an organization tuple. */
  lemma IdleIff(mems: Mems, tuples: Tuples, id: string, m: Membership)
    requires Filed(tuples) && TuplesExact(mems, tuples) && id in mems && mems[id].status != Active && m.status != Active
    ensures var key := TupleKey(mems[id].RoleTuple());
      TuplesExact(mems[id := m], tuples - {key}) <==> !(key in tuples && tuples[key].objectType == "org")
  {
    hide TupleKey;
    var mems', gone := mems[id := m], TupleKey(mems[id].RoleTuple());
    var tuples' := tuples - {gone};
    if gone in tuples && tuples[gone].objectType == "org" {
      var x :| x in mems && mems[x].status == Active && mems[x].RoleTuple() == tuples[gone];
      assert mems'[x] == mems[x] && !Holds(tuples', mems[x].RoleTuple());
    } else {
      forall x | x in mems' && mems'[x].status == Active ensures Holds(tuples', mems'[x].RoleTuple()) {
        assert Holds(tuples, mems[x].RoleTuple());
      }
      forall key | key in tuples' && tuples'[key].objectType == "org" ensures IsRoleTuple(mems', tuples'[key]) {
        var x :| x in mems && mems[x].status == Active && mems[x].RoleTuple() == tuples[key];
        assert mems'[x] == mems[x];
      }
    }
  }

  lemma FiledWithout(tuples: Tuples, keys: set<string>)
    requires Filed(tuples)
    ensures Filed(tuples - keys)
  {
  }

  lemma FiledWrite(tuples: Tuples, t: Tuple)
    requires Filed(tuples)
    ensures Filed(Write(tuples, t))
  {
  }

  lemma {:induction false} FiledWriteAll(tuples: Tuples, ts: seq<Tuple>)
    requires Filed(tuples)
    ensures Filed(WriteAll(tuples, ts))
    decreases |ts|
  {
    if ts != [] {
      FiledWriteAll(tuples, ts[..|ts| - 1]);
      FiledWrite(WriteAll(tuples, ts[..|ts| - 1]), ts[|ts| - 1]);
    }
  }

  lemma RetireAgrees(s: State, id: string, removedBy: Option<string>, now: int)
    requires Agree(s) && id in s.mems && s.mems[id].status == Active
    ensures Agree(Retire(s, id, removedBy, now))
  {
    hide IndexExact, TuplesExact, Filed, TupleKey;
    RetireIndex(s, id, removedBy, now);
    FiledWithout(s.tuples, {TupleKey(s.mems[id].RoleTuple())});
    Leave(s.mems, s.activeMem, s.tuples, id, Retire(s, id, removedBy, now).mems[id]);
  }

  lemma EnrollAgreesIff(s: State, m: Membership)
    requires Agree(s) && m.id !in s.mems && m.status == Active && m.Key() !in s.activeMem
    ensures Agree(Enroll(s, m)) <==> !Displaces(s.tuples, m.RoleTuple())
  {
    hide IndexExact, TuplesExact, Filed, TupleKey, Displaces;
    EnrollIndex(s, m);
    FiledWrite(s.tuples, m.RoleTuple());
    EnterIff(s.mems, s.activeMem, s.tuples, m.id, m);
  }

  /** The tuple of a row in another role. */
  function InRole(m: Membership, role: Role): Tuple { Tuple("usr", m.usrId, role, "org", m.orgId) }

  /** Revoking the row and adding it again in another role displaces a tuple. */
  predicate ReplaceDisplaces(tuples: Tuples, m: Membership, role: Role) {
    Displaces(tuples - {TupleKey(m.RoleTuple())}, InRole(m, role))
  }

  lemma ReplaceAgreesIff(s: State, id: string, role: Role, newId: string, now: int)
    requires Agree(s) && id in s.mems && s.mems[id].status == Active && newId !in s.mems
    ensures Agree(Replace(s, id, role, newId, now)) <==> !ReplaceDisplaces(s.tuples, s.mems[id], role)
  {
    hide Agree, TupleKey, Displaces;
    RetireAgrees(s, id, None, now);
    EnrollAgreesIff(Retire(s, id, None, now), Successor(s.mems[id], role, newId, now));
  }

  // ---------------------------------------------------------------- a lost tuple stays lost

  /** An active row whose role tuple is not stored. */
  ghost predicate Lost(s: State, x: string) {
    x in s.mems && s.mems[x].status == Active && !Holds(s.tuples, s.mems[x].RoleTuple())
  }

  lemma LostDisagrees(s: State, x: string)
    requires Lost(s, x)
    ensures !TuplesExact(s.mems, s.tuples)
  {
  }

  lemma RetireKeepsLost(s: State, id: string, removedBy: Option<string>, now: int, x: string)
    requires Lost(s, x) && id in s.mems && x != id
    ensures Lost(Retire(s, id, removedBy, now), x)
  {
    hide TupleKey;
  }

  lemma ReplaceKeepsLost(s: State, id: string, role: Role, newId: string, now: int, x: string)
    requires IndexExact(s.mems, s.activeMem) && Lost(s, x) && x != id
    requires id in s.mems && s.mems[id].status == Active && newId !in s.mems
    ensures Lost(Replace(s, id, role, newId, now), x)
  {
    hide TupleKey;
    assert Successor(s.mems[id], role, newId, now).RoleTuple() == InRole(s.mems[id], role);
  }

  /** A replacement that displaces a tuple loses it for another row. */
  lemma ReplaceLoses(s: State, id: string, role: Role, newId: string, now: int) returns (x: string)
    requires Agree(s) && id in s.mems && s.mems[id].status == Active && newId !in s.mems
    requires ReplaceDisplaces(s.tuples, s.mems[id], role)
    ensures x in s.mems && x != id && s.mems[x].status == Active && s.mems[x].RoleTuple() != InRole(s.mems[id], role)
    ensures TupleKey(s.mems[x].RoleTuple()) == TupleKey(InRole(s.mems[id], role))
    ensures Lost(Replace(s, id, role, newId, now), x)
  {
    hide TupleKey, IndexExact;
    var t := InRole(s.mems[id], role);
    x :| x in s.mems && s.mems[x].status == Active && s.mems[x].RoleTuple() == s.tuples[TupleKey(t)];
    assert Successor(s.mems[id], role, newId, now).RoleTuple() == t;
    assert x != id;
  }

  /** Keys of two users in the same role of one organization differ. */
  lemma KeyFixesUser(t: Tuple, t': Tuple)
    requires TupleKey(t) == TupleKey(t') && t.subjectType == t'.subjectType
    requires t.relation == t'.relation && t.objectType == t'.objectType && t.objectId == t'.objectId
    ensures t == t'
  {
    var tail := "|" + (t.relation + "|" + (t.objectType + "|" + t.objectId));
    var head := t.subjectType + "|";
    assert TupleKey(t) == head + (t.subjectId + tail) && TupleKey(t') == head + (t'.subjectId + tail);
    assert TupleKey(t)[|head|..] == t.subjectId + tail && TupleKey(t')[|head|..] == t'.subjectId + tail;
    assert (t.subjectId + tail)[..|t.subjectId|] == t.subjectId && (t'.subjectId + tail)[..|t'.subjectId|] == t'.subjectId;
  }

  // ---------------------------------------------------------------- the calls

  /** Whether a call whose guards hold keeps the organization tuples exact: what a caller can check before it. */
  predicate KeepsTuples(s: State, op: Op) {
    match op
    case CreateOrg(creator, _, slug, orgId, _, _) =>
      (slug.Some? ==> ValidSlug(slug.value) && slug.value !in s.orgBySlug) ==>
        !Displaces(s.tuples, Tuple("usr", creator, OWNER, "org", orgId))
    case AddMember(orgId, usrId, role, _, _, _) =>
      orgId in s.orgs && (orgId, usrId) !in s.activeMem ==> !Displaces(s.tuples, Tuple("usr", usrId, role, "org", orgId))
    case ChangeRole(memId, role, _, _) => CanChangeRole(s, memId, role) ==> !ReplaceDisplaces(s.tuples, s.mems[memId], role)
    case SuspendMembership(memId, _) =>
      memId in s.mems && s.mems[memId].status == Suspended ==> !HoldsOrgTuple(s.tuples, TupleKey(s.mems[memId].RoleTuple()))
    case ReinstateMembership(memId, _) =>
      memId in s.mems && s.mems[memId].status == Suspended && s.mems[memId].Key() !in s.activeMem ==>
        !Displaces(s.tuples, s.mems[memId].RoleTuple())
    case SelfLeave(memId, transferTo, _, _, _) =>
      HandsOver(s, memId, transferTo) ==>
        var to := s.mems[s.activeMem[(s.mems[memId].orgId, transferTo.value)]]; !ReplaceDisplaces(s.tuples, to, OWNER)
    case TransferOwnership(orgId, fromId, toId, _, _, _, _) =>
      CanTransfer(s, orgId, fromId, toId) ==>
        && !ReplaceDisplaces(s.tuples, s.mems[toId], OWNER)
        && !ReplaceDisplaces(AfterReplace(s.tuples, s.mems[toId], OWNER), s.mems[fromId], MEMBER)
    case AcceptInvitation(invId, _, _, _, _, _, _) =>
      Acceptable(s, op) ==>
        var inv := s.invs[invId];
        KeepsWrites(s.tuples, Tuple("usr", AcceptingUser(op), inv.role, "org", inv.orgId), Materialized(inv, AcceptingUser(op)))
    case _ => true
  }

  predicate HoldsOrgTuple(tuples: Tuples, key: string) {
    key in tuples && tuples[key].objectType == "org"
  }

  predicate CanChangeRole(s: State, memId: string, role: Role) {
    && memId in s.mems && s.mems[memId].status == Active && s.mems[memId].role != role
    && !(s.mems[memId].role == OWNER && |Owners(s.mems, s.mems[memId].orgId)| == 1)
  }

  /** A sole owner leaves to a successor the call can promote. */
  predicate HandsOver(s: State, memId: string, transferTo: Option<string>) {
    && memId in s.mems && s.mems[memId].status == Active && MustTransfer(s, s.mems[memId]) && transferTo.Some?
    && (s.mems[memId].orgId, transferTo.value) in s.activeMem
    && s.activeMem[(s.mems[memId].orgId, transferTo.value)] in s.mems
    && s.mems[s.activeMem[(s.mems[memId].orgId, transferTo.value)]].role != OWNER
  }

  predicate CanTransfer(s: State, orgId: string, fromId: string, toId: string) {
    && fromId != toId && fromId in s.mems && IsActiveOwner(s.mems[fromId], orgId)
    && toId in s.mems && s.mems[toId].orgId == orgId && s.mems[toId].status == Active
  }

  function AfterReplace(tuples: Tuples, m: Membership, role: Role): Tuples {
    Write(tuples - {TupleKey(m.RoleTuple())}, InRole(m, role))
  }

  lemma CreateOrgEnrolls(s: State, op: Op)
    requires op.CreateOrg? && StepCreateOrg(s, op).error.None?
    ensures var s', m := StepCreateOrg(s, op).next, Membership(op.memId, op.creator, op.orgId, OWNER, Active, None, None, None, op.now, op.now);
      s'.mems == Enroll(s, m).mems && s'.activeMem == Enroll(s, m).activeMem && s'.tuples == Enroll(s, m).tuples
  {
    hide ValidSlug, TupleKey, Write;
  }

  lemma CreateOrgAgreesIff(s: State, op: Op)
    requires Inv(s) && Agree(s) && Fresh(s, op) && op.CreateOrg?
    ensures Agree(StepCreateOrg(s, op).next) <==> KeepsTuples(s, op)
  {
    NewOrgHasNoKeys(s, op.orgId, op.creator);
    hide Inv, IndexExact, TuplesExact, Filed, Displaces, ValidSlug, Enroll;
    if StepCreateOrg(s, op).error.None? {
      CreateOrgEnrolls(s, op);
      EnrollAgreesIff(s, Membership(op.memId, op.creator, op.orgId, OWNER, Active, None, None, None, op.now, op.now));
    }
  }

  lemma TransitionOrgAgrees(s: State, op: Op)
    requires Agree(s) && op.TransitionOrg?
    ensures Agree(StepTransitionOrg(s, op).next)
  {
    hide TupleKey;
    TransitionOrgIndex(s, op);
    if StepTransitionOrg(s, op).error.None? && op.target == Revoked {
      RetireAllTuples(s, op.orgId, op.stamps);
    }
  }

  lemma RetireAllTuples(s: State, orgId: string, stamps: string -> int)
    requires Agree(s)
    ensures var s' := RetireAll(s, ActiveIn(s.mems, orgId), stamps); Filed(s'.tuples) && TuplesExact(s'.mems, s'.tuples)
  {
    hide TupleKey;
    var ids := ActiveIn(s.mems, orgId);
    var s' := RetireAll(s, ids, stamps);
    forall x | x in s'.mems && s'.mems[x].status == Active ensures Holds(s'.tuples, s'.mems[x].RoleTuple()) {
      assert x !in ids && s'.mems[x] == s.mems[x] && Holds(s.tuples, s.mems[x].RoleTuple());
      forall y | y in ids ensures TupleKey(s.mems[y].RoleTuple()) != TupleKey(s.mems[x].RoleTuple()) {
        assert Holds(s.tuples, s.mems[y].RoleTuple());
        assert s.mems[y].RoleTuple().objectId == orgId;
      }
    }
    forall key | key in s'.tuples && s'.tuples[key].objectType == "org" ensures IsRoleTuple(s'.mems, s'.tuples[key]) {
      var x :| x in s.mems && s.mems[x].status == Active && s.mems[x].RoleTuple() == s.tuples[key];
      assert x !in ids;
      assert s'.mems[x] == s.mems[x];
    }
  }

  lemma AddMemberAgreesIff(s: State, op: Op)
    requires Agree(s) && Fresh(s, op) && op.AddMember?
    ensures Agree(StepAddMember(s, op).next) <==> KeepsTuples(s, op)
  {
    hide Agree, Displaces, TupleKey;
    if StepAddMember(s, op).error.None? {
      EnrollAgreesIff(s, Membership(op.memId, op.usrId, op.orgId, op.role, Active, None, op.invitedBy, None, op.now, op.now));
    }
  }

  lemma ChangeRoleAgreesIff(s: State, op: Op)
    requires Agree(s) && Fresh(s, op) && op.ChangeRole?
    ensures Agree(StepChangeRole(s, op).next) <==> KeepsTuples(s, op)
  {
    hide Agree, Replace, Owners, ReplaceDisplaces;
    if StepChangeRole(s, op).error.None? && s.mems[op.memId].role != op.role {
      ReplaceAgreesIff(s, op.memId, op.role, op.newId, op.now);
    }
  }

  lemma SuspendTuplesIff(s: State, op: Op)
    requires Agree(s) && op.SuspendMembership?
    ensures Filed(StepSuspend(s, op).next.tuples)
    ensures TuplesExact(StepSuspend(s, op).next.mems, StepSuspend(s, op).next.tuples) <==> KeepsTuples(s, op)
  {
    hide Owners, IndexExact, TuplesExact, Filed, TupleKey;
    if StepSuspend(s, op).error.None? {
      var m' := StepSuspend(s, op).next.mems[op.memId];
      FiledWithout(s.tuples, {TupleKey(s.mems[op.memId].RoleTuple())});
      if s.mems[op.memId].status == Active {
        Leave(s.mems, s.activeMem, s.tuples, op.memId, m');
      } else {
        IdleIff(s.mems, s.tuples, op.memId, m');
      }
    }
  }

  lemma ReinstateAgreesIff(s: State, op: Op)
    requires Agree(s) && Fresh(s, op) && op.ReinstateMembership?
    ensures Agree(StepReinstate(s, op).next) <==> KeepsTuples(s, op)
  {
    MemberStepIndex(s, op);
    hide IndexExact, TuplesExact, Filed, TupleKey, Displaces;
    if StepReinstate(s, op).error.None? {
      FiledWrite(s.tuples, s.mems[op.memId].RoleTuple());
      var m' := StepReinstate(s, op).next.mems[op.memId];
      assert m'.RoleTuple() == s.mems[op.memId].RoleTuple();
      EnterIff(s.mems, s.activeMem, s.tuples, op.memId, m');
    }
  }

  lemma AdminRemoveAgrees(s: State, op: Op)
    requires Agree(s) && op.AdminRemove?
    ensures Agree(StepAdminRemove(s, op).next)
  {
    hide Agree, Retire, Owners;
    if StepAdminRemove(s, op).error.None? {
      RetireAgrees(s, op.memId, Some(op.adminUsrId), op.now);
    }
  }

  lemma TransferAgreesIff(s: State, op: Op)
    requires Agree(s) && Fresh(s, op) && op.TransferOwnership?
    ensures Agree(StepTransferOwnership(s, op).next) <==> KeepsTuples(s, op)
  {
    if CanTransfer(s, op.orgId, op.fromId, op.toId) {
      var s1 := Replace(s, op.toId, OWNER, op.newToId, op.promotedAt);
      assert s1.mems[op.fromId] == s.mems[op.fromId] && op.newFromId !in s1.mems;
      assert s1.tuples == AfterReplace(s.tuples, s.mems[op.toId], OWNER);
      ReplaceIndex(s, op.toId, OWNER, op.newToId, op.promotedAt);
      hide IndexExact, Filed, TuplesExact, Replace, ReplaceDisplaces, TupleKey;
      ReplaceAgreesIff(s, op.toId, OWNER, op.newToId, op.promotedAt);
      if ReplaceDisplaces(s.tuples, s.mems[op.toId], OWNER) {
        var x := ReplaceLoses(s, op.toId, OWNER, op.newToId, op.promotedAt);
        if x == op.fromId {
          KeyFixesUser(s.mems[x].RoleTuple(), InRole(s.mems[op.toId], OWNER));
        }
        ReplaceKeepsLost(s1, op.fromId, MEMBER, op.newFromId, op.demotedAt, x);
        LostDisagrees(Replace(s1, op.fromId, MEMBER, op.newFromId, op.demotedAt), x);
      } else {
        ReplaceAgreesIff(s1, op.fromId, MEMBER, op.newFromId, op.demotedAt);
      }
    }
  }

  lemma SelfLeaveAgreesIff(s: State, op: Op)
    requires Inv(s) && Agree(s) && Fresh(s, op) && op.SelfLeave?
    ensures Agree(StepSelfLeave(s, op).next) <==> KeepsTuples(s, op)
  {
    hide Inv, IndexExact, Filed, TuplesExact, ReplaceDisplaces, TupleKey;
    if StepSelfLeave(s, op).error.None? {
      var leaver := Some(s.mems[op.memId].usrId);
      if MustTransfer(s, s.mems[op.memId]) {
        var tt := SelfLeaveTransfer(s, op);
        var s1 := Replace(s, tt, OWNER, op.newId, op.promotedAt);
        assert s1.mems[op.memId] == s.mems[op.memId];
        hide Retire, Replace;
        ReplaceAgreesIff(s, tt, OWNER, op.newId, op.promotedAt);
        if ReplaceDisplaces(s.tuples, s.mems[tt], OWNER) {
          var x := ReplaceLoses(s, tt, OWNER, op.newId, op.promotedAt);
          if x == op.memId {
            KeyFixesUser(s.mems[x].RoleTuple(), InRole(s.mems[tt], OWNER));
          }
          RetireKeepsLost(s1, op.memId, leaver, op.now, x);
          LostDisagrees(Retire(s1, op.memId, leaver, op.now), x);
        } else {
          RetireAgrees(s1, op.memId, leaver, op.now);
        }
      } else {
        RetireAgrees(s, op.memId, leaver, op.now);
      }
    }
  }

  // ---------------------------------------------------------------- an acceptance

  /** What the writes of an acceptance leave behind: its own role tuple is not overwritten, a key with an organization tuple
      keeps it, and every other organization tuple it leaves is stored already. */
  predicate KeepsWrites(tuples: Tuples, role: Tuple, ts: seq<Tuple>) {
    var written := WriteAll(map[], [role] + ts);
    && Holds(written, role)
    && (forall key :: key in written ==>
          && (key in tuples && tuples[key].objectType == "org" ==> written[key] == tuples[key])
          && (written[key].objectType == "org" ==> written[key] == role || Holds(tuples, written[key])))
  }

  lemma {:induction false} WriteAllMerges(tuples: Tuples, ts: seq<Tuple>)
    ensures WriteAll(tuples, ts) == tuples + WriteAll(map[], ts)
    decreases |ts|
  {
    if ts != [] {
      WriteAllMerges(tuples, ts[..|ts| - 1]);
    }
  }

  lemma {:induction false} RoleKeyWritten(role: Tuple, ts: seq<Tuple>)
    ensures TupleKey(role) in WriteAll(map[], [role] + ts)
    decreases |ts|
  {
    var all := [role] + ts;
    assert all[..|all| - 1] == if ts == [] then [] else [role] + ts[..|ts| - 1];
    if ts != [] {
      RoleKeyWritten(role, ts[..|ts| - 1]);
    }
  }

  lemma MergeExactIff(mems: Mems, tuples: Tuples, id: string, m: Membership, written: Tuples)
    requires Filed(tuples) && Filed(written) && TuplesExact(mems, tuples)
    requires id !in mems && m.status == Active && TupleKey(m.RoleTuple()) in written
    ensures TuplesExact(mems[id := m], tuples + written) <==>
      && Holds(written, m.RoleTuple())
      && (forall key :: key in written ==>
            && (key in tuples && tuples[key].objectType == "org" ==> written[key] == tuples[key])
            && (written[key].objectType == "org" ==> written[key] == m.RoleTuple() || Holds(tuples, written[key])))
  {
    hide TupleKey;
    var mems', all := mems[id := m], tuples + written;
    if TuplesExact(mems', all) {
      assert mems'[id] == m && Holds(all, m.RoleTuple());
      forall key | key in written && key in tuples && tuples[key].objectType == "org" ensures written[key] == tuples[key] {
        var x :| x in mems && mems[x].status == Active && mems[x].RoleTuple() == tuples[key];
        assert mems'[x] == mems[x] && Holds(all, mems[x].RoleTuple());
      }
      forall key | key in written && written[key].objectType == "org"
        ensures written[key] == m.RoleTuple() || Holds(tuples, written[key])
      {
        assert all[key] == written[key];
        var x :| x in mems' && mems'[x].status == Active && mems'[x].RoleTuple() == written[key];
        assert x != id ==> Holds(tuples, mems[x].RoleTuple());
      }
    } else {
      MergeExact(mems, tuples, id, m, written);
    }
  }

  lemma MergeExact(mems: Mems, tuples: Tuples, id: string, m: Membership, written: Tuples)
    requires Filed(tuples) && Filed(written) && TuplesExact(mems, tuples) && id !in mems && m.status == Active
    ensures
      && Holds(written, m.RoleTuple())
      && (forall key :: key in written ==>
            && (key in tuples && tuples[key].objectType == "org" ==> written[key] == tuples[key])
            && (written[key].objectType == "org" ==> written[key] == m.RoleTuple() || Holds(tuples, written[key])))
      ==> TuplesExact(mems[id := m], tuples + written)
  {
    hide TupleKey;
    var mems', all := mems[id := m], tuples + written;
    if && Holds(written, m.RoleTuple())
       && (forall key :: key in written ==>
             && (key in tuples && tuples[key].objectType == "org" ==> written[key] == tuples[key])
             && (written[key].objectType == "org" ==> written[key] == m.RoleTuple() || Holds(tuples, written[key])))
    {
      forall x | x in mems' && mems'[x].status == Active ensures Holds(all, mems'[x].RoleTuple()) {
        assert x != id ==> Holds(tuples, mems[x].RoleTuple());
      }
      forall key | key in all && all[key].objectType == "org" ensures IsRoleTuple(mems', all[key]) {
        if key in written && written[key] == m.RoleTuple() {
          assert mems'[id].RoleTuple() == all[key];
        } else {
          assert Holds(tuples, all[key]);
          var x :| x in mems && mems[x].status == Active && mems[x].RoleTuple() == all[key];
          assert mems'[x] == mems[x];
        }
      }
    }
  }

  lemma AcceptTuplesIff(s: State, op: Op)
    requires Agree(s) && Fresh(s, op) && op.AcceptInvitation?
    ensures Filed(StepAccept(s, op).next.tuples)
    ensures TuplesExact(StepAccept(s, op).next.mems, StepAccept(s, op).next.tuples) <==> KeepsTuples(s, op)
  {
    hide IndexExact, TuplesExact, Filed, TupleKey, Materialized, Write, WriteAll;
    AcceptSucceedsIff(s, op);
    if StepAccept(s, op).error.None? {
      var inv, s' := s.invs[op.invId], StepAccept(s, op).next;
      var m := Membership(op.memId, AcceptingUser(op), inv.orgId, inv.role, Active, None, Some(inv.invitedBy), None, op.now, op.now);
      var role, ts := m.RoleTuple(), Materialized(inv, m.usrId);
      hide Acceptable, AcceptingUser;
      assert s'.tuples == WriteAll(Write(s.tuples, role), ts) && s'.mems == s.mems[op.memId := m];
      hide StepAccept;
      WrittenExactIff(s, op.memId, m, role, ts);
    }
  }

  lemma WrittenExactIff(s: State, id: string, m: Membership, role: Tuple, ts: seq<Tuple>)
    requires Filed(s.tuples) && TuplesExact(s.mems, s.tuples) && id !in s.mems && m.status == Active && role == m.RoleTuple()
    ensures Filed(WriteAll(Write(s.tuples, role), ts))
    ensures TuplesExact(s.mems[id := m], WriteAll(Write(s.tuples, role), ts)) <==> KeepsWrites(s.tuples, role, ts)
  {
    hide TuplesExact, TupleKey, Write, WriteAll;
    var written := WriteAll(map[], [role] + ts);
    WriteAllPrefixed(s.tuples, role, ts);
    WriteAllMerges(s.tuples, [role] + ts);
    FiledWriteAll(map[], [role] + ts);
    RoleKeyWritten(role, ts);
    MergeExactIff(s.mems, s.tuples, id, m, written);
  }

  // ---------------------------------------------------------------- exactly when

  lemma MemberStepAgreesIff(s: State, op: Op)
    requires Inv(s) && Agree(s) && Fresh(s, op) && !op.SuspendMembership? && !op.AcceptInvitation?
    ensures Agree(Step(s, op).next) <==> KeepsTuples(s, op)
  {
    hide Inv, Fresh, Agree, KeepsTuples, StepTransitionOrg, StepCreateOrg, StepSelfLeave, StepTransferOwnership, StepAddMember,
      StepChangeRole, StepReinstate, StepAdminRemove;
    match op
    case CreateOrg(_, _, _, _, _, _) => CreateOrgAgreesIff(s, op);
    case TransitionOrg(_, _, _, _) => TransitionOrgAgrees(s, op); QuietCallsKeep(s, op);
    case AddMember(_, _, _, _, _, _) => AddMemberAgreesIff(s, op);
    case ChangeRole(_, _, _, _) => ChangeRoleAgreesIff(s, op);
    case ReinstateMembership(_, _) => ReinstateAgreesIff(s, op);
    case AdminRemove(_, _, _) => AdminRemoveAgrees(s, op); QuietCallsKeep(s, op);
    case SelfLeave(_, _, _, _, _) => SelfLeaveAgreesIff(s, op);
    case TransferOwnership(_, _, _, _, _, _, _) => TransferAgreesIff(s, op);
    case _ => QuietCallsKeep(s, op); InvitationStepAgrees(s, op);
  }

  lemma QuietCallsKeep(s: State, op: Op)
    requires op.TransitionOrg? || op.AdminRemove? || op.UpdateOrg? || op.CreateInvitation? || op.GetInvitation?
          || op.DeclineInvitation? || op.RevokeInvitation?
    ensures KeepsTuples(s, op)
  {
  }

  lemma InvitationStepAgrees(s: State, op: Op)
    requires Agree(s)
    requires op.UpdateOrg? || op.CreateInvitation? || op.GetInvitation? || op.DeclineInvitation? || op.RevokeInvitation?
    ensures Agree(Step(s, op).next)
  {
    hide IndexExact, TuplesExact, Filed, ValidSlug;
  }

  /** In full agreement, a call keeps the organization tuples exact if and only if, in the map as it is before the call, none of the
      tuples it writes takes the place of another organization tuple, it brings no organization tuple of its own, and the tuple it
      drops is its row's. */
  lemma StepTuplesIff(s: State, op: Op)
    requires Inv(s) && Agree(s) && Fresh(s, op)
    ensures Filed(Step(s, op).next.tuples)
    ensures TuplesExact(Step(s, op).next.mems, Step(s, op).next.tuples) <==> KeepsTuples(s, op)
  {
    hide Inv, Fresh, TuplesExact, IndexExact, Filed, KeepsTuples, StepSuspend, StepAccept;
    if op.SuspendMembership? {
      SuspendTuplesIff(s, op);
    } else if op.AcceptInvitation? {
      AcceptTuplesIff(s, op);
    } else {
      hide Step;
      MemberStepAgreesIff(s, op);
      StepIndexIff(s, op);
      StepFiled(s, op);
    }
  }

  lemma RetireFiled(s: State, id: string, removedBy: Option<string>, now: int)
    requires Filed(s.tuples) && id in s.mems
    ensures Filed(Retire(s, id, removedBy, now).tuples)
  {
    hide TupleKey;
  }

  lemma EnrollFiled(s: State, m: Membership)
    requires Filed(s.tuples)
    ensures Filed(Enroll(s, m).tuples)
  {
    hide TupleKey;
  }

  lemma ReplaceFiled(s: State, id: string, role: Role, newId: string, now: int)
    requires Filed(s.tuples) && id in s.mems
    ensures Filed(Replace(s, id, role, newId, now).tuples)
  {
    hide Filed;
    RetireFiled(s, id, None, now);
    EnrollFiled(Retire(s, id, None, now), Successor(s.mems[id], role, newId, now));
  }

  lemma OrgStepFiled(s: State, op: Op)
    requires Filed(s.tuples) && (op.CreateOrg? || op.UpdateOrg? || op.TransitionOrg?)
    ensures Filed(Step(s, op).next.tuples)
  {
    hide TupleKey, ValidSlug, Write, Filed, DropSlug;
    if op.CreateOrg? && StepCreateOrg(s, op).error.None? {
      CreateOrgEnrolls(s, op);
      EnrollFiled(s, Membership(op.memId, op.creator, op.orgId, OWNER, Active, None, None, None, op.now, op.now));
    } else if op.TransitionOrg? && op.orgId in s.orgs {
      FiledWithout(s.tuples, set id | id in ActiveIn(s.mems, op.orgId) :: TupleKey(s.mems[id].RoleTuple()));
    }
  }

  lemma RowStepFiled(s: State, op: Op)
    requires Filed(s.tuples) && (op.AddMember? || op.ChangeRole? || op.ReinstateMembership? || op.AdminRemove?)
    ensures Filed(Step(s, op).next.tuples)
  {
    hide TupleKey, Owners, Retire, Enroll, Replace, Filed, Write;
    if Step(s, op).error.None? {
      if op.AddMember? {
        EnrollFiled(s, Membership(op.memId, op.usrId, op.orgId, op.role, Active, None, op.invitedBy, None, op.now, op.now));
      } else if op.ChangeRole? {
        ReplaceFiled(s, op.memId, op.role, op.newId, op.now);
      } else if op.AdminRemove? {
        RetireFiled(s, op.memId, Some(op.adminUsrId), op.now);
      } else {
        FiledWrite(s.tuples, s.mems[op.memId].RoleTuple());
      }
    }
  }

  lemma MoveStepFiled(s: State, op: Op)
    requires Filed(s.tuples) && (op.SelfLeave? || op.TransferOwnership?)
    ensures Filed(Step(s, op).next.tuples)
  {
    hide Owners, Filed, TupleKey, Write;
    if Step(s, op).error.None? {
      if op.TransferOwnership? {
        ReplaceFiled(s, op.toId, OWNER, op.newToId, op.promotedAt);
        ReplaceFiled(Replace(s, op.toId, OWNER, op.newToId, op.promotedAt), op.fromId, MEMBER, op.newFromId, op.demotedAt);
      } else {
        var m := s.mems[op.memId];
        if MustTransfer(s, m) {
          var tt := s.activeMem[(m.orgId, op.transferTo.value)];
          ReplaceFiled(s, tt, OWNER, op.newId, op.promotedAt);
          RetireFiled(Replace(s, tt, OWNER, op.newId, op.promotedAt), op.memId, Some(m.usrId), op.now);
        } else {
          RetireFiled(s, op.memId, Some(m.usrId), op.now);
        }
      }
    }
  }

  lemma StepFiled(s: State, op: Op)
    requires Filed(s.tuples) && !op.SuspendMembership? && !op.AcceptInvitation?
    ensures Filed(Step(s, op).next.tuples)
  {
    hide Filed, StepCreateOrg, StepUpdateOrg, StepTransitionOrg, StepSelfLeave, StepTransferOwnership;
    if op.CreateOrg? || op.UpdateOrg? || op.TransitionOrg? {
      OrgStepFiled(s, op);
    } else if op.SelfLeave? || op.TransferOwnership? {
      MoveStepFiled(s, op);
    } else if op.AddMember? || op.ChangeRole? || op.ReinstateMembership? || op.AdminRemove? {
      RowStepFiled(s, op);
    }
  }

  predicate Harmless(s: State, op: Op) {
    KeepsIndex(s, op) && KeepsTuples(s, op)
  }

  /** A call keeps memberships, index and tuples in full agreement if and only if it keeps both halves. */
  lemma StepAgreesIff(s: State, op: Op)
    requires Inv(s) && Agree(s) && Fresh(s, op)
    ensures Agree(Step(s, op).next) <==> Harmless(s, op)
  {
    hide Inv, Fresh, Step, KeepsIndex, KeepsTuples, IndexExact, TuplesExact, Filed;
    StepIndexIff(s, op);
    StepTuplesIff(s, op);
  }

  predicate HarmlessRun(s: State, ops: seq<Op>)
    decreases |ops|
  {
    ops == [] || (Harmless(s, ops[0]) && HarmlessRun(Step(s, ops[0]).next, ops[1..]))
  }

  lemma {:induction false} RunAgrees(s: State, ops: seq<Op>)
    requires Inv(s) && Agree(s) && FreshRun(s, ops) && HarmlessRun(s, ops)
    ensures Agree(Run(s, ops))
    decreases |ops|
  {
    hide Inv, Agree, Step, Fresh, Harmless;
    if ops == [] {
    } else {
      StepKeepsInv(s, ops[0]);
      StepAgreesIff(s, ops[0]);
      RunAgrees(Step(s, ops[0]).next, ops[1..]);
    }
  }

  /** Every state reached by harmless calls alone is in full agreement. */
  lemma AlwaysAgrees(ops: seq<Op>)
    requires FreshRun(EMPTY, ops) && HarmlessRun(EMPTY, ops)
    ensures Agree(Run(EMPTY, ops))
  {
    EmptyInv();
    RunAgrees(EMPTY, ops);
  }
}
