/**
 * What every operation of the tenancy store keeps: sound indexes, at least one active owner for
 * every organization that is not revoked, and the replacement history of memberships.
 */
module TenancyInvariants {
  import opened Common
  import opened TenancyModel

  type Mems = map<string, Membership>
  type Orgs = map<string, Organization>

  ghost predicate OrgRows(orgs: Orgs) {
    forall id :: id in orgs ==> orgs[id].id == id
  }

  ghost predicate MemRows(mems: Mems, orgs: Orgs) {
    forall id :: id in mems ==> mems[id].id == id && mems[id].orgId in orgs
  }

  /** A terminal time is recorded exactly when the invitation is no longer pending. */
  ghost predicate InvRows(invs: map<string, Invitation>, orgs: Orgs) {
    forall id :: id in invs ==>
      && invs[id].id == id && invs[id].orgId in orgs
      && (invs[id].terminalAt.Some? <==> invs[id].status != Pending)
  }

  /** Every entry of the membership index names an active row of that organization and user. */
  ghost predicate IndexSound(mems: Mems, index: map<(string, string), string>) {
    forall key :: key in index ==>
      index[key] in mems && mems[index[key]].status == Active && mems[index[key]].Key() == key
  }

  /** `m` replaces a revoked row of the same organization and user, at the moment that row was revoked. */
  ghost predicate Follows(mems: Mems, m: Membership) {
    m.replacesId.Some? ==>
      && m.replacesId.value in mems
      && var p := mems[m.replacesId.value];
         p.status == Revoked && p.Key() == m.Key() && m.createdAt == p.updatedAt
  }

  /** Every replacement link is sound, and no two rows replace the same one. */
  ghost predicate History(mems: Mems) {
    && (forall id :: id in mems ==> Follows(mems, mems[id]))
    && (forall id, id' ::
          (id in mems && id' in mems && mems[id].replacesId.Some? && mems[id].replacesId == mems[id'].replacesId) ==> id == id')
  }

  /** Every organization that is not revoked has an active owner. */
  ghost predicate Owned(orgs: Orgs, mems: Mems) {
    forall o :: o in orgs && orgs[o].status != Revoked ==> Owners(mems, o) != {}
  }

  /** The slug index is exactly the slugs of the organizations that are not revoked. */
  ghost predicate Slugs(orgs: Orgs, index: map<string, string>) {
    && (forall slug :: slug in index ==>
          index[slug] in orgs && orgs[index[slug]].status != Revoked && orgs[index[slug]].slug == Some(slug))
    && (forall o :: o in orgs && orgs[o].status != Revoked && orgs[o].slug.Some? ==>
          orgs[o].slug.value in index && index[orgs[o].slug.value] == o)
  }

  ghost predicate Inv(s: State) {
    && OrgRows(s.orgs) && MemRows(s.mems, s.orgs) && InvRows(s.invs, s.orgs)
    && IndexSound(s.mems, s.activeMem) && History(s.mems)
    && Owned(s.orgs, s.mems) && Slugs(s.orgs, s.orgBySlug)
  }

  // ---------------------------------------------------------------- one membership row

  /** A row may leave the index entry of its key behind, or take it over. */
  lemma SetRow(mems: Mems, id: string, m: Membership, orgs: Orgs)
    requires id in mems && MemRows(mems, orgs) && History(mems)
    requires m.id == id && m.orgId == mems[id].orgId && m.usrId == mems[id].usrId
    requires m.replacesId == mems[id].replacesId && m.createdAt == mems[id].createdAt && mems[id].status != Revoked
    ensures MemRows(mems[id := m], orgs) && History(mems[id := m])
  {
    var mems' := mems[id := m];
    forall i | i in mems' ensures Follows(mems', mems'[i]) {
      assert Follows(mems, mems[i]);
    }
  }

  lemma AddRow(mems: Mems, m: Membership, orgs: Orgs)
    requires m.id !in mems && m.orgId in orgs && MemRows(mems, orgs) && History(mems)
    requires Follows(mems, m)
    requires m.replacesId.Some? ==> forall id :: id in mems ==> mems[id].replacesId != m.replacesId
    ensures MemRows(mems[m.id := m], orgs) && History(mems[m.id := m])
  {
    var mems' := mems[m.id := m];
    forall i | i in mems' ensures Follows(mems', mems'[i]) {
      if i != m.id {
        assert Follows(mems, mems[i]);
      }
    }
  }

  lemma IndexDrop(mems: Mems, index: map<(string, string), string>, id: string, m: Membership)
    requires IndexSound(mems, index) && id in mems
    ensures IndexSound(mems[id := m], index - {mems[id].Key()})
  {
  }

  lemma IndexTake(mems: Mems, index: map<(string, string), string>, id: string, m: Membership)
    requires IndexSound(mems, index) && m.status == Active
    requires id in mems ==> mems[id].status != Active
    ensures IndexSound(mems[id := m], index[m.Key() := id])
  {
  }

  lemma OwnersSet(mems: Mems, id: string, m: Membership, o: string)
    ensures Owners(mems[id := m], o) == Owners(mems, o) - {id} + (if IsActiveOwner(m, o) then {id} else {})
  {
  }

  // ---------------------------------------------------------------- the two edits

  lemma RetireKeeps(s: State, id: string, removedBy: Option<string>, now: int)
    requires MemRows(s.mems, s.orgs) && IndexSound(s.mems, s.activeMem) && History(s.mems)
    requires id in s.mems && s.mems[id].status == Active
    ensures var s' := Retire(s, id, removedBy, now);
      MemRows(s'.mems, s'.orgs) && IndexSound(s'.mems, s'.activeMem) && History(s'.mems)
  {
    assert s.mems[id].id == id;
    hide TupleKey, MemRows, IndexSound, History;
    var gone := Retire(s, id, removedBy, now).mems[id];
    SetRow(s.mems, id, gone, s.orgs);
    IndexDrop(s.mems, s.activeMem, id, gone);
  }

  lemma RetireOwners(s: State, id: string, removedBy: Option<string>, now: int, o: string)
    requires id in s.mems
    ensures Owners(Retire(s, id, removedBy, now).mems, o) == Owners(s.mems, o) - {id}
  {
    OwnersSet(s.mems, id, Retire(s, id, removedBy, now).mems[id], o);
  }

  /** A new row may claim to replace a revoked row nobody else replaces. */
  ghost predicate CanEnroll(s: State, m: Membership) {
    && m.id !in s.mems && m.status == Active && m.orgId in s.orgs && Follows(s.mems, m)
    && (m.replacesId.Some? ==> forall id :: id in s.mems ==> s.mems[id].replacesId != m.replacesId)
  }

  lemma EnrollKeeps(s: State, m: Membership)
    requires MemRows(s.mems, s.orgs) && IndexSound(s.mems, s.activeMem) && History(s.mems) && CanEnroll(s, m)
    ensures var s' := Enroll(s, m); MemRows(s'.mems, s'.orgs) && IndexSound(s'.mems, s'.activeMem) && History(s'.mems)
  {
    hide TupleKey, MemRows, IndexSound, History;
    AddRow(s.mems, m, s.orgs);
    IndexTake(s.mems, s.activeMem, m.id, m);
  }

  lemma EnrollOwners(s: State, m: Membership, o: string)
    requires m.id !in s.mems
    ensures Owners(Enroll(s, m).mems, o) == Owners(s.mems, o) + (if IsActiveOwner(m, o) then {m.id} else {})
  {
    OwnersSet(s.mems, m.id, m, o);
  }

  lemma ReplaceKeeps(s: State, id: string, role: Role, newId: string, now: int)
    requires MemRows(s.mems, s.orgs) && IndexSound(s.mems, s.activeMem) && History(s.mems)
    requires id in s.mems && s.mems[id].status == Active && newId !in s.mems
    ensures var s' := Replace(s, id, role, newId, now);
      MemRows(s'.mems, s'.orgs) && IndexSound(s'.mems, s'.activeMem) && History(s'.mems)
  {
    var s1, m := Retire(s, id, None, now), Successor(s.mems[id], role, newId, now);
    RetireKeeps(s, id, None, now);
    assert s.mems[id].id == id;
    forall i | i in s1.mems ensures s1.mems[i].replacesId != Some(id) {
      assert Follows(s.mems, s.mems[i]);
    }
    hide TupleKey, MemRows, IndexSound, History;
    assert CanEnroll(s1, m);
    EnrollKeeps(s1, m);
  }

  /** Revoke and re-add moves ownership to the new row when the new role is owner. */
  lemma ReplaceOwners(s: State, id: string, role: Role, newId: string, now: int, o: string)
    requires id in s.mems && newId !in s.mems
    ensures Owners(Replace(s, id, role, newId, now).mems, o)
         == Owners(s.mems, o) - {id} + (if role == OWNER && s.mems[id].orgId == o then {newId} else {})
  {
    RetireOwners(s, id, None, now, o);
    EnrollOwners(Retire(s, id, None, now), Successor(s.mems[id], role, newId, now), o);
  }

  lemma NotSole<T>(owners: set<T>, x: T)
    requires owners != {} && (x in owners ==> |owners| != 1)
    ensures owners - {x} != {}
  {
    if x in owners {
      assert |owners - {x}| == |owners| - 1;
    } else {
      assert owners - {x} == owners;
    }
  }

  lemma OwnedByMore(orgs: Orgs, mems: Mems, mems': Mems)
    requires Owned(orgs, mems) && forall o :: Owners(mems, o) <= Owners(mems', o)
    ensures Owned(orgs, mems')
  {
  }

  // ---------------------------------------------------------------- organizations

  lemma NewOrg(s: State, org: Organization)
    requires Inv(s) && org.id !in s.orgs && org.status == Active
    requires org.slug.Some? ==> org.slug.value !in s.orgBySlug
    ensures var orgs := s.orgs[org.id := org];
      && OrgRows(orgs) && MemRows(s.mems, orgs) && InvRows(s.invs, orgs)
      && Slugs(orgs, if org.slug.Some? then s.orgBySlug[org.slug.value := org.id] else s.orgBySlug)
  {
  }

  lemma CreateOrgKeepsInv(s: State, op: Op)
    requires Inv(s) && Fresh(s, op) && op.CreateOrg?
    ensures Inv(StepCreateOrg(s, op).next)
  {
    hide TupleKey, OrgRows, MemRows, InvRows, IndexSound, History, Slugs, Owned, ValidSlug;
    if StepCreateOrg(s, op).error.None? {
      var org := Organization(op.orgId, Active, op.now, op.now, op.name, op.slug);
      var m := Membership(op.memId, op.creator, op.orgId, OWNER, Active, None, None, None, op.now, op.now);
      NewOrg(s, org);
      FirstOwner(s.orgs, s.mems, org, m);
      var s1 := s.(orgs := s.orgs[op.orgId := org],
                   orgBySlug := if op.slug.Some? then s.orgBySlug[op.slug.value := op.orgId] else s.orgBySlug);
      EnrollKeeps(s1, m);
    }
  }

  /** The creator owns the new organization. */
  lemma FirstOwner(orgs: Orgs, mems: Mems, org: Organization, m: Membership)
    requires Owned(orgs, mems) && m.id !in mems && IsActiveOwner(m, org.id)
    ensures Owned(orgs[org.id := org], mems[m.id := m])
  {
    forall o ensures Owners(mems[m.id := m], o) == Owners(mems, o) + (if o == org.id then {m.id} else {}) {
      OwnersSet(mems, m.id, m, o);
    }
    assert m.id in Owners(mems[m.id := m], org.id);
  }

  /** Editing an organization that keeps its status, together with its slug entry. */
  lemma SetOrg(s: State, o: string, org: Organization, index: map<string, string>)
    requires Inv(s) && o in s.orgs && org.id == o && org.status != Revoked && s.orgs[o].status != Revoked
    requires Slugs(s.orgs[o := org], index)
    ensures Inv(s.(orgs := s.orgs[o := org], orgBySlug := index))
  {
  }

  lemma SlugDropped(s: State, o: string, org: Organization)
    requires Inv(s) && o in s.orgs && org.status != Revoked && s.orgs[o].status != Revoked && org.slug.None?
    ensures Slugs(s.orgs[o := org], DropSlug(s.orgBySlug, s.orgs[o].slug))
  {
    hide TupleKey, OrgRows, MemRows, InvRows, IndexSound, History, Owned;
  }

  lemma SlugSet(s: State, o: string, org: Organization)
    requires Inv(s) && o in s.orgs && org.status != Revoked && s.orgs[o].status != Revoked && org.slug.Some?
    requires org.slug.value in s.orgBySlug ==> s.orgBySlug[org.slug.value] == o
    ensures Slugs(s.orgs[o := org], DropSlug(s.orgBySlug, s.orgs[o].slug)[org.slug.value := o])
  {
    hide TupleKey, OrgRows, MemRows, InvRows, IndexSound, History, Owned;
  }

  lemma SlugUnchanged(s: State, o: string, org: Organization)
    requires Inv(s) && o in s.orgs && org.status != Revoked && s.orgs[o].status != Revoked && org.slug == s.orgs[o].slug
    ensures Slugs(s.orgs[o := org], s.orgBySlug)
  {
  }

  lemma UpdateOrgKeepsInv(s: State, op: Op)
    requires Inv(s) && op.UpdateOrg?
    ensures Inv(StepUpdateOrg(s, op).next)
  {
    if StepUpdateOrg(s, op).error.None? {
      assert s.orgs[op.orgId].id == op.orgId;
      hide TupleKey, Inv, Slugs;
      var s' := StepUpdateOrg(s, op).next;
      var org := s'.orgs[op.orgId];
      if op.update.clearSlug {
        SlugDropped(s, op.orgId, org);
      } else if op.update.slug.Some? {
        SlugSet(s, op.orgId, org);
      } else {
        SlugUnchanged(s, op.orgId, org);
      }
      SetOrg(s, op.orgId, org, s'.orgBySlug);
    }
  }

  lemma RetireAllKeeps(s: State, orgId: string, stamps: string -> int)
    requires MemRows(s.mems, s.orgs) && IndexSound(s.mems, s.activeMem) && History(s.mems)
    ensures var s' := RetireAll(s, ActiveIn(s.mems, orgId), stamps);
      && MemRows(s'.mems, s'.orgs) && IndexSound(s'.mems, s'.activeMem) && History(s'.mems)
      && forall o :: o != orgId ==> Owners(s'.mems, o) == Owners(s.mems, o)
  {
    var ids := ActiveIn(s.mems, orgId);
    var s' := RetireAll(s, ids, stamps);
    assert History(s'.mems) by {
      forall i | i in s'.mems ensures Follows(s'.mems, s'.mems[i]) {
        assert Follows(s.mems, s.mems[i]);
      }
    }
    assert IndexSound(s'.mems, s'.activeMem) by {
      forall key | key in s'.activeMem ensures s'.activeMem[key] !in ids {
        assert s.mems[s.activeMem[key]].Key() == key;
      }
    }
  }

  /** A revoked organization gives up its slug. */
  lemma SlugFreed(s: State, o: string, org: Organization)
    requires Inv(s) && o in s.orgs && org.id == o && org.status == Revoked && s.orgs[o].status != Revoked
    ensures var orgs := s.orgs[o := org];
      && OrgRows(orgs) && MemRows(s.mems, orgs) && InvRows(s.invs, orgs)
      && Slugs(orgs, DropSlug(s.orgBySlug, s.orgs[o].slug))
  {
  }

  lemma TransitionOrgKeepsInv(s: State, op: Op)
    requires Inv(s) && op.TransitionOrg?
    ensures Inv(StepTransitionOrg(s, op).next)
  {
    if StepTransitionOrg(s, op).error.None? {
      var o := s.orgs[op.orgId];
      var org := o.(status := op.target, updatedAt := op.now);
      assert o.id == op.orgId;
      hide TupleKey, OrgRows, MemRows, InvRows, IndexSound, History, Slugs;
      if op.target != Revoked {
        SlugUnchanged(s, op.orgId, org);
        SetOrg(s, op.orgId, org, s.orgBySlug);
      } else {
        var s1 := s.(orgs := s.orgs[op.orgId := org]);
        SlugFreed(s, op.orgId, org);
        RetireAllKeeps(s1, op.orgId, op.stamps);
      }
    }
  }

  // ---------------------------------------------------------------- memberships

  /** A new active row without a predecessor. */
  lemma EnrollKeepsInv(s: State, m: Membership)
    requires Inv(s) && m.id !in s.mems && m.status == Active && m.orgId in s.orgs && m.replacesId.None?
    ensures Inv(Enroll(s, m))
  {
    hide TupleKey, OrgRows, MemRows, InvRows, IndexSound, History, Slugs, Owned;
    EnrollKeeps(s, m);
    forall o ensures Owners(s.mems, o) <= Owners(Enroll(s, m).mems, o) {
      EnrollOwners(s, m, o);
    }
    OwnedByMore(s.orgs, s.mems, Enroll(s, m).mems);
  }

  lemma AddMemberKeepsInv(s: State, op: Op)
    requires Inv(s) && Fresh(s, op) && op.AddMember?
    ensures Inv(StepAddMember(s, op).next)
  {
    hide TupleKey, Inv, Enroll;
    if StepAddMember(s, op).error.None? {
      EnrollKeepsInv(s, Membership(op.memId, op.usrId, op.orgId, op.role, Active, None, op.invitedBy, None, op.now, op.now));
    }
  }

  lemma ChangeRoleKeepsInv(s: State, op: Op)
    requires Inv(s) && Fresh(s, op) && op.ChangeRole?
    ensures Inv(StepChangeRole(s, op).next)
  {
    hide TupleKey, OrgRows, MemRows, InvRows, IndexSound, History, Slugs;
    if StepChangeRole(s, op).error.None? && s.mems[op.memId].role != op.role {
      ReplaceKeeps(s, op.memId, op.role, op.newId, op.now);
      var s' := Replace(s, op.memId, op.role, op.newId, op.now);
      forall o | o in s.orgs && s.orgs[o].status != Revoked ensures Owners(s'.mems, o) != {} {
        ReplaceOwners(s, op.memId, op.role, op.newId, op.now, o);
        NotSole(Owners(s.mems, o), op.memId);
      }
    }
  }

  lemma SuspendKeepsInv(s: State, op: Op)
    requires Inv(s) && op.SuspendMembership?
    ensures Inv(StepSuspend(s, op).next)
  {
    if StepSuspend(s, op).error.None? {
      assert s.mems[op.memId].id == op.memId;
      hide TupleKey, OrgRows, MemRows, InvRows, IndexSound, History, Slugs;
      var s' := StepSuspend(s, op).next;
      var m := s'.mems[op.memId];
      SetRow(s.mems, op.memId, m, s.orgs);
      IndexDrop(s.mems, s.activeMem, op.memId, m);
      forall o | o in s.orgs && s.orgs[o].status != Revoked ensures Owners(s'.mems, o) != {} {
        OwnersSet(s.mems, op.memId, m, o);
        NotSole(Owners(s.mems, o), op.memId);
      }
    }
  }

  lemma ReinstateKeepsInv(s: State, op: Op)
    requires Inv(s) && op.ReinstateMembership?
    ensures Inv(StepReinstate(s, op).next)
  {
    if StepReinstate(s, op).error.None? {
      assert s.mems[op.memId].id == op.memId;
      hide TupleKey, OrgRows, MemRows, InvRows, IndexSound, History, Slugs, Owned;
      var s' := StepReinstate(s, op).next;
      var m := s'.mems[op.memId];
      SetRow(s.mems, op.memId, m, s.orgs);
      IndexTake(s.mems, s.activeMem, op.memId, m);
      forall o ensures Owners(s.mems, o) <= Owners(s'.mems, o) {
        OwnersSet(s.mems, op.memId, m, o);
      }
      OwnedByMore(s.orgs, s.mems, s'.mems);
    }
  }

  /** The row a transferring leaver promotes. */
  lemma SelfLeaveTransfer(s: State, op: Op) returns (tt: string)
    requires Inv(s) && op.SelfLeave? && StepSelfLeave(s, op).error.None?
    requires MustTransfer(s, s.mems[op.memId])
    ensures op.transferTo.Some? && (s.mems[op.memId].orgId, op.transferTo.value) in s.activeMem
    ensures tt == s.activeMem[(s.mems[op.memId].orgId, op.transferTo.value)]
    ensures tt in s.mems && tt != op.memId && s.mems[tt].status == Active && s.mems[tt].role != OWNER
    ensures s.mems[tt].orgId == s.mems[op.memId].orgId
    ensures StepSelfLeave(s, op).next
         == Retire(Replace(s, tt, OWNER, op.newId, op.promotedAt), op.memId, Some(s.mems[op.memId].usrId), op.now)
  {
    hide TupleKey, OrgRows, MemRows, InvRows, History, Slugs, Owned;
    tt := s.activeMem[(s.mems[op.memId].orgId, op.transferTo.value)];
    assert s.mems[tt].Key() == (s.mems[op.memId].orgId, op.transferTo.value);
  }

  /** After a transferring leave only the promoted row owns the organization; others keep their owners. */
  lemma SelfLeaveOwners(s: State, op: Op, o: string)
    requires Inv(s) && Fresh(s, op) && op.SelfLeave? && StepSelfLeave(s, op).error.None?
    requires MustTransfer(s, s.mems[op.memId])
    ensures Owners(StepSelfLeave(s, op).next.mems, o) == if o == s.mems[op.memId].orgId then {op.newId} else Owners(s.mems, o)
  {
    var tt := SelfLeaveTransfer(s, op);
    hide TupleKey, OrgRows, MemRows, InvRows, History, Slugs, Owned, IndexSound, StepSelfLeave;
    var s1 := Replace(s, tt, OWNER, op.newId, op.promotedAt);
    ReplaceOwners(s, tt, OWNER, op.newId, op.promotedAt, o);
    RetireOwners(s1, op.memId, Some(s.mems[op.memId].usrId), op.now, o);
    var owners := Owners(s.mems, o);
    assert tt !in owners && (op.memId in owners <==> o == s.mems[op.memId].orgId);
    assert op.newId != op.memId && (o == s.mems[op.memId].orgId ==> |owners| == 1);
    hide TupleKey, Owners, Replace, Retire, MustTransfer;
    if o == s.mems[op.memId].orgId {
      OnlyElement(owners, op.memId);
    }
  }

  lemma OnlyElement<T>(owners: set<T>, x: T)
    requires |owners| == 1 && x in owners
    ensures owners == {x}
  {
    assert |owners - {x}| == 0;
  }

  lemma SelfLeaveKeepsInv(s: State, op: Op)
    requires Inv(s) && Fresh(s, op) && op.SelfLeave?
    ensures Inv(StepSelfLeave(s, op).next)
  {
    hide TupleKey, OrgRows, MemRows, InvRows, IndexSound, History, Slugs;
    if StepSelfLeave(s, op).error.None? {
      var leaver := Some(s.mems[op.memId].usrId);
      if MustTransfer(s, s.mems[op.memId]) {
        var tt := SelfLeaveTransfer(s, op);
        var s1 := Replace(s, tt, OWNER, op.newId, op.promotedAt);
        ReplaceKeeps(s, tt, OWNER, op.newId, op.promotedAt);
        RetireKeeps(s1, op.memId, leaver, op.now);
        forall o | o in s.orgs && s.orgs[o].status != Revoked ensures Owners(Retire(s1, op.memId, leaver, op.now).mems, o) != {} {
          SelfLeaveOwners(s, op, o);
        }
      } else {
        RetireSafely(s, op.memId, leaver, op.now);
      }
    }
  }

  /** Retiring a row that is not the sole owner. */
  lemma RetireSafely(s: State, id: string, removedBy: Option<string>, now: int)
    requires Inv(s) && id in s.mems && s.mems[id].status == Active
    requires s.mems[id].role == OWNER ==> |Owners(s.mems, s.mems[id].orgId)| != 1
    ensures Inv(Retire(s, id, removedBy, now))
  {
    hide TupleKey, OrgRows, MemRows, InvRows, IndexSound, History, Slugs;
    RetireKeeps(s, id, removedBy, now);
    forall o | o in s.orgs && s.orgs[o].status != Revoked ensures Owners(Retire(s, id, removedBy, now).mems, o) != {} {
      RetireOwners(s, id, removedBy, now, o);
      NotSole(Owners(s.mems, o), id);
    }
  }

  lemma AdminRemoveKeepsInv(s: State, op: Op)
    requires Inv(s) && op.AdminRemove?
    ensures Inv(StepAdminRemove(s, op).next)
  {
    hide TupleKey, OrgRows, MemRows, InvRows, IndexSound, History, Slugs, Owned;
    if StepAdminRemove(s, op).error.None? {
      RetireSafely(s, op.memId, Some(op.adminUsrId), op.now);
    }
  }

  /** Who owns an organization after a transfer. */
  lemma TransferOwners(s: State, op: Op, o: string)
    requires Fresh(s, op) && op.TransferOwnership? && StepTransferOwnership(s, op).error.None?
    ensures Owners(StepTransferOwnership(s, op).next.mems, o)
         == if o == op.orgId then Owners(s.mems, o) - {op.toId, op.fromId} + {op.newToId} else Owners(s.mems, o)
  {
    var s1 := Replace(s, op.toId, OWNER, op.newToId, op.promotedAt);
    ReplaceOwners(s, op.toId, OWNER, op.newToId, op.promotedAt, o);
    assert op.fromId in s1.mems && op.newFromId !in s1.mems && s1.mems[op.fromId] == s.mems[op.fromId];
    ReplaceOwners(s1, op.fromId, MEMBER, op.newFromId, op.demotedAt, o);
    hide TupleKey, Replace, StepTransferOwnership;
    if o != op.orgId {
      assert op.toId !in Owners(s.mems, o) && op.fromId !in Owners(s.mems, o);
    }
  }

  lemma TransferOwnershipKeepsInv(s: State, op: Op)
    requires Inv(s) && Fresh(s, op) && op.TransferOwnership?
    ensures Inv(StepTransferOwnership(s, op).next)
  {
    hide TupleKey, OrgRows, MemRows, InvRows, IndexSound, History, Slugs;
    if StepTransferOwnership(s, op).error.None? {
      var s1 := Replace(s, op.toId, OWNER, op.newToId, op.promotedAt);
      ReplaceKeeps(s, op.toId, OWNER, op.newToId, op.promotedAt);
      ReplaceKeeps(s1, op.fromId, MEMBER, op.newFromId, op.demotedAt);
      var s2 := Replace(s1, op.fromId, MEMBER, op.newFromId, op.demotedAt);
      forall o | o in s.orgs && s.orgs[o].status != Revoked ensures Owners(s2.mems, o) != {} {
        TransferOwners(s, op, o);
      }
    }
  }

  // ---------------------------------------------------------------- invitations

  /** An edit of one invitation, and of tuples. */
  lemma SetInvitation(s: State, inv: Invitation, tuples: map<string, Tuple>)
    requires Inv(s) && inv.orgId in s.orgs && (inv.terminalAt.Some? <==> inv.status != Pending)
    ensures Inv(s.(invs := s.invs[inv.id := inv], tuples := tuples))
  {
    hide TupleKey, OrgRows, MemRows, IndexSound, History, Slugs, Owned;
  }

  lemma AcceptKeepsInv(s: State, op: Op)
    requires Inv(s) && Fresh(s, op) && op.AcceptInvitation?
    ensures Inv(StepAccept(s, op).next)
  {
    if op.invId in s.invs {
      assert s.invs[op.invId].id == op.invId && s.invs[op.invId].orgId in s.orgs;
      hide Inv;
      if StepAccept(s, op).error.None? {
        AcceptedKeepsInv(s, op);
      } else {
        hide TupleKey, Materialized, WriteAll, Enroll;
        var inv := s.invs[op.invId];
        if StepAccept(s, op).error == Some(InvitationExpired) {
          SetInvitation(s, inv.(status := Expired, terminalAt := Some(op.now)), s.tuples);
        }
      }
    }
  }

  lemma AcceptedKeepsInv(s: State, op: Op)
    requires Inv(s) && Fresh(s, op) && op.AcceptInvitation? && StepAccept(s, op).error.None?
    requires op.invId in s.invs && s.invs[op.invId].id == op.invId && s.invs[op.invId].orgId in s.orgs
    ensures Inv(StepAccept(s, op).next)
  {
    hide TupleKey, Inv, Materialized, WriteAll;
    var inv := s.invs[op.invId];
    var m := Membership(op.memId, AcceptingUser(op), inv.orgId, inv.role, Active, None, Some(inv.invitedBy), None, op.now, op.now);
    EnrollKeepsInv(s, m);
    SetInvitation(Enroll(s, m), StepAccept(s, op).next.invs[op.invId], StepAccept(s, op).next.tuples);
  }

  lemma InvitationStepKeepsInv(s: State, op: Op)
    requires Inv(s) && Fresh(s, op)
    requires op.CreateInvitation? || op.GetInvitation? || op.DeclineInvitation? || op.RevokeInvitation?
    ensures Inv(Step(s, op).next)
  {
    if op.invId in s.invs {
      assert s.invs[op.invId].id == op.invId && s.invs[op.invId].orgId in s.orgs;
    }
    hide TupleKey, OrgRows, MemRows, IndexSound, History, Slugs, Owned;
    var s' := Step(s, op).next;
    if s' != s {
      SetInvitation(s, s'.invs[op.invId], s.tuples);
      assert s' == s.(invs := s.invs[op.invId := s'.invs[op.invId]], tuples := s.tuples);
    }
  }

  // ---------------------------------------------------------------- every step, every run

  lemma StepKeepsInv(s: State, op: Op)
    requires Inv(s) && Fresh(s, op)
    ensures Inv(Step(s, op).next)
  {
    hide TupleKey, Inv;
    match op
    case CreateOrg(_, _, _, _, _, _) => CreateOrgKeepsInv(s, op);
    case UpdateOrg(_, _, _) => UpdateOrgKeepsInv(s, op);
    case TransitionOrg(_, _, _, _) => TransitionOrgKeepsInv(s, op);
    case AddMember(_, _, _, _, _, _) => AddMemberKeepsInv(s, op);
    case ChangeRole(_, _, _, _) => ChangeRoleKeepsInv(s, op);
    case SuspendMembership(_, _) => SuspendKeepsInv(s, op);
    case ReinstateMembership(_, _) => ReinstateKeepsInv(s, op);
    case SelfLeave(_, _, _, _, _) => SelfLeaveKeepsInv(s, op);
    case AdminRemove(_, _, _) => AdminRemoveKeepsInv(s, op);
    case TransferOwnership(_, _, _, _, _, _, _) => TransferOwnershipKeepsInv(s, op);
    case AcceptInvitation(_, _, _, _, _, _, _) => AcceptKeepsInv(s, op);
    case _ => InvitationStepKeepsInv(s, op);
  }

  lemma EmptyInv()
    ensures Inv(EMPTY)
  {
  }

  lemma {:induction false} RunKeepsInv(s: State, ops: seq<Op>)
    requires Inv(s) && FreshRun(s, ops)
    ensures Inv(Run(s, ops))
    decreases |ops|
  {
    hide TupleKey, Inv, Step, Fresh;
    if ops == [] {
    } else {
      StepKeepsInv(s, ops[0]);
      RunKeepsInv(Step(s, ops[0]).next, ops[1..]);
    }
  }

  /** In every reachable state every organization that is not revoked has an active owner, and
      every index entry names an active row of its organization and user; replacement links are sound
      and slugs are unique; an invitation has a terminal time exactly when it is not pending. */
  lemma AlwaysOwned(ops: seq<Op>)
    requires FreshRun(EMPTY, ops)
    ensures var s := Run(EMPTY, ops);
      && Owned(s.orgs, s.mems) && IndexSound(s.mems, s.activeMem) && History(s.mems)
      && Slugs(s.orgs, s.orgBySlug) && InvRows(s.invs, s.orgs)
  {
    EmptyInv();
    RunKeepsInv(EMPTY, ops);
  }

  // ---------------------------------------------------------------- ownership moves, never multiplies

  /** A transfer to a member who is not an owner leaves the number of active owners unchanged. */
  lemma TransferKeepsOwnerCount(s: State, op: Op)
    requires Inv(s) && Fresh(s, op) && op.TransferOwnership?
    requires StepTransferOwnership(s, op).error.None? && s.mems[op.toId].role != OWNER
    ensures |Owners(Step(s, op).next.mems, op.orgId)| == |Owners(s.mems, op.orgId)|
    ensures op.newToId in Owners(Step(s, op).next.mems, op.orgId) && op.fromId !in Owners(Step(s, op).next.mems, op.orgId)
  {
    TransferOwners(s, op, op.orgId);
    var owners := Owners(s.mems, op.orgId);
    assert op.toId !in owners && op.newToId !in owners && op.fromId in owners && op.fromId != op.newToId;
    assert Step(s, op) == StepTransferOwnership(s, op);
    hide TupleKey, StepTransferOwnership, Owners, Step, Inv, Fresh;
    SwapElement(owners, op.toId, op.fromId, op.newToId);
  }

  lemma SwapElement<T>(owners: set<T>, other: T, gone: T, come: T)
    requires other !in owners && gone in owners && come !in owners
    ensures |owners - {other, gone} + {come}| == |owners|
    ensures come in owners - {other, gone} + {come} && gone !in owners - {other, gone} + {come}
  {
    assert owners - {other, gone} == owners - {gone};
  }

  /** A sole owner who transfers and leaves is succeeded by exactly one owner. */
  lemma SelfLeaveKeepsOwnerCount(s: State, op: Op)
    requires Inv(s) && Fresh(s, op) && op.SelfLeave? && StepSelfLeave(s, op).error.None?
    requires MustTransfer(s, s.mems[op.memId])
    ensures Owners(Step(s, op).next.mems, s.mems[op.memId].orgId) == {op.newId}
  {
    SelfLeaveOwners(s, op, s.mems[op.memId].orgId);
  }
}
